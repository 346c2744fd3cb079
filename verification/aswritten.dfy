/**
 * The parser of json.h exactly as its C is written, next to the corrected
 * parser of module `Parser`.
 *
 * Each C parse function returns an `int` code, moves the cursor `*idx` and
 * may fill its `json_object_t*` out-parameter.  The code as written differs
 * from the corrected parser in these ways:
 *  - `parse_value` ignores the codes of `parse_object` and `parse_string`, and
 *    `parse_object` ignores those of `parse_string` and `parse_value`;
 *  - `parse_object` returns 0 when the tokens run out inside an object;
 *  - `parse_string` checks neither quote token around the STR token;
 *  - `json_parse` ignores the code of `tokenize_json`;
 *  - `parse_object` copies the `json_object_t` that a failed `parse_value`
 *    left unwritten into the map, as the value `Indeterminate`, and goes on;
 *  - `parse_object` and `parse_string` read `s->items[*idx]` without checking
 *    `*idx < s->len`, and after a failed key `parse_object` frees or hashes
 *    the uninitialised key pointer.
 * The last point is undefined behaviour in C; the model stops there with the
 * outcome `Undefined`.
 */
module AsWritten {
  import opened Wrappers
  import ObjectMap
  import opened Tokenizer
  import opened Parser

  /** The `json_object_t` out-parameter after a call: filled in, or left uninitialised. */
  datatype Slot = Set(value: Value) | Unset

  /**
   * What a C parse function does: returns `code` with `*obj` in state `obj` and
   * `*idx == idx`, or runs into undefined behaviour.
   */
  datatype Outcome = Returned(code: int, obj: Slot, idx: nat) | Undefined

  /** A caller that ignores the code it gets back: 0, the object as left, the cursor as left. */
  function Dropped(r: Outcome): (d: Outcome)
    ensures d.Undefined? <==> r.Undefined?
    ensures d.Returned? ==> d.code == 0 && d.obj == r.obj && d.idx == r.idx
  {
    if r.Undefined? then Undefined else Returned(0, r.obj, r.idx)
  }

  /**
   * `parse_string` as written: skips the token at `i` whatever it is, requires
   * an STR token after it, and skips the token after that whatever it is.
   */
  function StringC(src: string, toks: seq<Token>, i: nat): (r: Outcome)
    requires Parsable(src, toks)
    ensures r.Undefined? <==> i + 1 >= |toks|
    ensures r.Returned? ==> i < r.idx && (r.code == 0 || r.code == -2)
    ensures r.Returned? && r.code == 0 ==>
      && toks[i + 1].tag == Str
      && r.obj == Set(String(Text(src, toks[i + 1])))
      && r.idx == i + 3
      && ObjectMap.Hashable(r.obj.value.text)
    ensures r.Returned? && r.code != 0 ==> toks[i + 1].tag != Str && r.obj == Unset && r.idx == i + 1
  {
    var k := i + 1;
    if k >= |toks| then Undefined
    else if toks[k].tag != Str then Returned(-2, Unset, k)
    else Returned(0, Set(String(Text(src, toks[k]))), k + 2)
  }

  /** `parse_value` as written: the codes of `parse_object` and `parse_string` are dropped. */
  function ValueC(src: string, toks: seq<Token>, i: nat): (r: Outcome)
    requires Parsable(src, toks)
    ensures r.Returned? ==> i <= r.idx
    ensures i >= |toks| ==> r == Returned(-1, Unset, i)
    ensures i < |toks| && !StartsValue(toks[i].tag) ==> r == Returned(-2, Unset, i)
    ensures i < |toks| && StartsValue(toks[i].tag) && r.Returned? ==> r.code == 0
    decreases |toks| - i, 1
  {
    if i >= |toks| then Returned(-1, Unset, i)
    else
      match toks[i].tag
      case OpenBrace => Dropped(ObjectC(src, toks, i))
      case Quotation => Dropped(StringC(src, toks, i))
      case Num => Returned(0, Set(Number(Text(src, toks[i]))), i + 1)
      case True => Returned(0, Set(Boolean(1)), i + 1)
      case False => Returned(0, Set(Boolean(0)), i + 1)
      case NullTag => Returned(0, Set(Null), i + 1)
      case _ => Returned(-2, Unset, i)
  }

  /** `parse_object` as written: the object is set to an empty map before the loop starts. */
  function ObjectC(src: string, toks: seq<Token>, i: nat): (r: Outcome)
    requires Parsable(src, toks) && i < |toks|
    ensures r.Returned? ==> i < r.idx && r.obj.Set? && r.obj.value.Object?
    decreases |toks| - i, 0
  {
    MembersC(src, toks, i + 1, ObjectMap.Init())
  }

  /**
   * The loop of `parse_object` as written, from token `j` with map `m`: it
   * ends with code 0 when the tokens run out, and it reads the token after a
   * key and after a value without checking that there is one.
   */
  function MembersC(src: string, toks: seq<Token>, j: nat, m: ObjectMap.Map<Value>): (r: Outcome)
    requires Parsable(src, toks) && ObjectMap.Valid(m)
    ensures r.Returned? ==> j <= r.idx && r.obj.Set? && r.obj.value.Object?
    ensures r.Returned? ==> r.code == 0 || r.code == -2
    ensures j >= |toks| ==> r == Returned(0, Set(Object(m)), j)
    decreases |toks| - j, 2
  {
    if j >= |toks| then Returned(0, Set(Object(m)), j)
    else if toks[j].tag == CloseBrace then Returned(0, Set(Object(m)), j + 1)
    else
      var key := StringC(src, toks, j);
      if key.Undefined? || key.idx >= |toks| || key.code != 0 then Undefined
      else if toks[key.idx].tag != Colon then Returned(-2, Set(Object(m)), key.idx)
      else
        var v := ValueC(src, toks, key.idx + 1);
        if v.Undefined? then Undefined
        else
          var name := key.obj.value.text;
          var item := if v.obj.Set? then v.obj.value else Indeterminate;
          ObjectMap.InsertPreservesValid(m, name, item);
          var m' := ObjectMap.Insert(m, name, item);
          var q := v.idx;
          if q >= |toks| then Undefined
          else if toks[q].tag == Comma then MembersC(src, toks, q + 1, m')
          else if toks[q].tag != CloseBrace then Returned(-2, Set(Object(m')), q)
          else MembersC(src, toks, q, m')
  }

  /** `json_parse` as written: the code of `tokenize_json` is ignored and the tokens it made are parsed. */
  function JsonParseC(src: string): (r: Outcome)
    ensures r.Returned? ==> r.code <= 0
    ensures Lex(src, 0).tokens == [] ==> r == Returned(-1, Unset, 0)
  {
    LexedParsable(src);
    ValueC(src, Lex(src, 0).tokens, 0)
  }

  // ---------------------------------------------------------------------------
  // Where the corrected parser succeeds, the C does the same
  // ---------------------------------------------------------------------------

  /** A value the corrected parser reads is read alike by the C: code 0, the same object, the same cursor. */
  lemma {:induction false} ValueAgrees(src: string, toks: seq<Token>, i: nat)
    requires Parsable(src, toks) && ParseValue(src, toks, i).Success?
    ensures ValueC(src, toks, i) ==
      Returned(0, Set(ParseValue(src, toks, i).value.value), ParseValue(src, toks, i).value.next)
    decreases |toks| - i, 1
  {
    if toks[i].tag == OpenBrace {
      MembersAgree(src, toks, i + 1, ObjectMap.Init());
    }
  }

  /** The member loop the corrected parser completes is completed alike by the C. */
  lemma {:induction false} MembersAgree(src: string, toks: seq<Token>, j: nat, m: ObjectMap.Map<Value>)
    requires Parsable(src, toks) && ObjectMap.Valid(m) && ParseMembers(src, toks, j, m).Success?
    ensures MembersC(src, toks, j, m) ==
      Returned(0, Set(ParseMembers(src, toks, j, m).value.value), ParseMembers(src, toks, j, m).value.next)
    decreases |toks| - j, 1
  {
    if toks[j].tag != CloseBrace {
      var next, fields := MemberAgrees(src, toks, j, m);
      MembersAgree(src, toks, next, fields);
    }
  }

  /**
   * One pass of the loop over a member the corrected parser reads: both
   * loops go on from the same token with the same map.
   */
  lemma {:induction false} MemberAgrees(src: string, toks: seq<Token>, j: nat, m: ObjectMap.Map<Value>)
    returns (next: nat, fields: ObjectMap.Map<Value>)
    requires Parsable(src, toks) && ObjectMap.Valid(m) && ParseMembers(src, toks, j, m).Success?
    requires j < |toks| && toks[j].tag != CloseBrace
    ensures ObjectMap.Valid(fields) && j < next
    ensures ParseMembers(src, toks, j, m) == ParseMembers(src, toks, next, fields)
    ensures MembersC(src, toks, j, m) == MembersC(src, toks, next, fields)
    decreases |toks| - j, 0
  {
    var member := FirstMember(src, toks, j, m);
    var v := MemberValue(src, toks, j, m, member);
    ValueAgrees(src, toks, j + 4);
    fields := member.fields;
    next := if toks[member.next].tag == Comma then member.next + 1 else member.next;
    MembersPass(src, toks, j, m, member, next);
    MembersCPass(src, toks, j, m, v.value, v.next, next);
  }

  /** One pass of the corrected loop over a member followed by `,` or `}`: the loop goes on from `next`. */
  lemma MembersPass(src: string, toks: seq<Token>, j: nat, m: ObjectMap.Map<Value>, member: Member, next: nat)
    requires Parsable(src, toks) && ObjectMap.Valid(m)
    requires j < |toks| && toks[j].tag != CloseBrace
    requires ParseMember(src, toks, j, m) == Success(member)
    requires member.next < |toks| && (toks[member.next].tag == Comma || toks[member.next].tag == CloseBrace)
    requires next == if toks[member.next].tag == Comma then member.next + 1 else member.next
    ensures ParseMembers(src, toks, j, m) == ParseMembers(src, toks, next, member.fields)
  {
    if toks[member.next].tag == Comma {
      MembersComma(src, toks, j, m, member);
    } else {
      MembersClose(src, toks, j, m, member);
    }
  }

  /** A member loop the corrected parser completes reads a member first and then meets `,` or `}`. */
  lemma FirstMember(src: string, toks: seq<Token>, j: nat, m: ObjectMap.Map<Value>) returns (member: Member)
    requires Parsable(src, toks) && ObjectMap.Valid(m) && ParseMembers(src, toks, j, m).Success?
    requires j < |toks| && toks[j].tag != CloseBrace
    ensures ParseMember(src, toks, j, m) == Success(member)
    ensures member.next < |toks| && (toks[member.next].tag == Comma || toks[member.next].tag == CloseBrace)
  {
    member := ParseMember(src, toks, j, m).value;
    MembersStep(src, toks, j, m, member);
  }

  /** The parts of a member the corrected parser reads: the key's text and the value after the `:`. */
  lemma MemberValue(src: string, toks: seq<Token>, j: nat, m: ObjectMap.Map<Value>, member: Member) returns (v: Parsed)
    requires Parsable(src, toks) && ObjectMap.Valid(m)
    requires ParseMember(src, toks, j, m) == Success(member)
    ensures ParseValue(src, toks, j + 4) == Success(v)
    ensures member.next == v.next
    ensures member.fields == ObjectMap.Insert(m, Text(src, toks[j + 1]), v.value)
  {
    v := ParseValue(src, toks, j + 4).value;
  }

  /**
   * One pass of the C loop over a key, a `:` and a value that ends
   * before a `,` or `}` at `q`: the loop goes on from `next` with the member
   * inserted.
   */
  lemma MembersCPass(src: string, toks: seq<Token>, j: nat, m: ObjectMap.Map<Value>, v: Value, q: nat, next: nat)
    requires Parsable(src, toks) && ObjectMap.Valid(m)
    requires j + 3 < |toks| && toks[j].tag != CloseBrace && toks[j + 1].tag == Str && toks[j + 3].tag == Colon
    requires ValueC(src, toks, j + 4) == Returned(0, Set(v), q)
    requires q < |toks| && (toks[q].tag == Comma || toks[q].tag == CloseBrace)
    requires next == if toks[q].tag == Comma then q + 1 else q
    ensures ObjectMap.Valid(ObjectMap.Insert(m, Text(src, toks[j + 1]), v))
    ensures MembersC(src, toks, j, m) == MembersC(src, toks, next, ObjectMap.Insert(m, Text(src, toks[j + 1]), v))
  {
    ObjectMap.InsertPreservesValid(m, Text(src, toks[j + 1]), v);
  }

  /** Every document the corrected `json_parse` accepts, the C accepts with code 0 and the same value. */
  lemma JsonParseAgrees(src: string)
    requires JsonParse(src).Success?
    ensures JsonParseC(src).Returned?
    ensures JsonParseC(src).code == 0 && JsonParseC(src).obj == Set(JsonParse(src).value)
  {
    LexedParsable(src);
    ValueAgrees(src, Lex(src, 0).tokens, 0);
  }

  // ---------------------------------------------------------------------------
  // Where they differ: one document for each difference
  // ---------------------------------------------------------------------------

  /** A document spelled by well-formed, separated one-character lexemes lexes to one token per character. */
  lemma UnitLexes(src: string, ls: seq<Lexeme>, toks: seq<Token>)
    requires WellFormedLexemes(ls) && Separated(ls) && Concat(ls) == src
    requires |toks| == |ls|
    requires forall k :: 0 <= k < |ls| ==> |ls[k].text| == 1 && toks[k] == Token(k, 1, ls[k].tag)
    ensures Lex(src, 0) == Lexed(toks, 0) && Parsable(src, toks)
  {
    PositionedUnits(ls, 0);
    assert Positioned(ls, 0) == toks;
    LexLexemes(ls);
    LexedParsable(src);
  }

  /** `{"a"1}`: a key without a colon. */
  const MISSING_COLON: string := "{\"a\"1}"

  /** The tokens of `{"a"1}`. */
  const MISSING_COLON_TOKENS: seq<Token> :=
    [Token(0, 1, OpenBrace), Token(1, 1, Quotation), Token(2, 1, Str),
     Token(3, 1, Quotation), Token(4, 1, Num), Token(5, 1, CloseBrace)]

  /** `{"a"1}` cut into the lexemes the lexer sees in it, each one character long. */
  const MISSING_COLON_LEXEMES: seq<Lexeme> :=
    [Lexeme(OpenBrace, "{"), Lexeme(Quotation, "\""), Lexeme(Str, "a"), Lexeme(Quotation, "\""),
     Lexeme(Num, "1"), Lexeme(CloseBrace, "}")]

  lemma MissingColonTokens()
    ensures Lex(MISSING_COLON, 0) == Lexed(MISSING_COLON_TOKENS, 0)
    ensures Parsable(MISSING_COLON, MISSING_COLON_TOKENS)
  {
    MissingColonWellFormed();
    MissingColonSpelled();
    UnitLexes(MISSING_COLON, MISSING_COLON_LEXEMES, MISSING_COLON_TOKENS);
  }

  lemma MissingColonWellFormed()
    ensures WellFormedLexemes(MISSING_COLON_LEXEMES) && Separated(MISSING_COLON_LEXEMES)
  {
  }

  lemma MissingColonSpelled()
    ensures Concat(MISSING_COLON_LEXEMES) == MISSING_COLON
  {
  }

  /**
   * The C returns 0 for `{"a"1}`: `parse_object` reports UNEXPECTED_TOKEN but
   * `parse_value` drops it; the corrected parser reports it.
   */
  lemma DroppedCodeExample()
    ensures JsonParseC(MISSING_COLON) == Returned(0, Set(Object(ObjectMap.Init())), 4)
    ensures JsonParse(MISSING_COLON) == Failure(UnexpectedToken)
  {
    MissingColonTokens();
  }

  /** `{`: an object whose tokens run out. */
  const UNTERMINATED: string := "{"

  /** The C returns 0 and an empty object for `{`; the corrected parser reports INDEX_GREATER_THAN_LEN. */
  lemma UnterminatedExample()
    ensures JsonParseC(UNTERMINATED) == Returned(0, Set(Object(ObjectMap.Init())), 1)
    ensures JsonParse(UNTERMINATED) == Failure(IndexGreaterThanLen)
  {
    assert Lex(UNTERMINATED, 0) == Lexed([Token(0, 1, OpenBrace)], 0);
  }

  /** `{,a,:1}`: a key between two commas instead of two quotes. */
  const UNQUOTED_KEY: string := "{,a,:1}"

  /** The tokens of `{,a,:1}`. */
  const UNQUOTED_KEY_TOKENS: seq<Token> :=
    [Token(0, 1, OpenBrace), Token(1, 1, Comma), Token(2, 1, Str), Token(3, 1, Comma),
     Token(4, 1, Colon), Token(5, 1, Num), Token(6, 1, CloseBrace)]

  /** `{,a,:1}` cut into the lexemes the lexer sees in it, each one character long. */
  const UNQUOTED_KEY_LEXEMES: seq<Lexeme> :=
    [Lexeme(OpenBrace, "{"), Lexeme(Comma, ","), Lexeme(Str, "a"), Lexeme(Comma, ","),
     Lexeme(Colon, ":"), Lexeme(Num, "1"), Lexeme(CloseBrace, "}")]

  lemma UnquotedKeyTokens()
    ensures Lex(UNQUOTED_KEY, 0) == Lexed(UNQUOTED_KEY_TOKENS, 0)
    ensures Parsable(UNQUOTED_KEY, UNQUOTED_KEY_TOKENS)
  {
    UnquotedKeyWellFormed();
    UnquotedKeySpelled();
    UnitLexes(UNQUOTED_KEY, UNQUOTED_KEY_LEXEMES, UNQUOTED_KEY_TOKENS);
  }

  lemma UnquotedKeyWellFormed()
    ensures WellFormedLexemes(UNQUOTED_KEY_LEXEMES) && Separated(UNQUOTED_KEY_LEXEMES)
  {
  }

  lemma UnquotedKeySpelled()
    ensures Concat(UNQUOTED_KEY_LEXEMES) == UNQUOTED_KEY
  {
  }

  /** The C reads `{,a,:1}` as the object {"a": 1}; the corrected parser reports UNEXPECTED_TOKEN. */
  lemma UncheckedQuotesExample()
    ensures JsonParseC(UNQUOTED_KEY).Returned?
    ensures JsonParseC(UNQUOTED_KEY).code == 0
    ensures JsonParseC(UNQUOTED_KEY).obj == Set(Object(ObjectMap.Insert(ObjectMap.Init(), "a", Number("1"))))
    ensures JsonParse(UNQUOTED_KEY) == Failure(UnexpectedToken)
  {
    UnquotedKeyTokens();
    UnquotedKeyC();
    UnquotedKeyRejected();
  }

  /** The C's loop over `{,a,:1}`: the commas pass for quotes around `a`. */
  lemma UnquotedKeyC()
    ensures Parsable(UNQUOTED_KEY, UNQUOTED_KEY_TOKENS)
    ensures ValueC(UNQUOTED_KEY, UNQUOTED_KEY_TOKENS, 0) ==
      Returned(0, Set(Object(ObjectMap.Insert(ObjectMap.Init(), "a", Number("1")))), 7)
  {
    UnquotedKeyTokens();
    UnquotedKeyMembersC(UNQUOTED_KEY, UNQUOTED_KEY_TOKENS);
  }

  /** The C's loop from the token after `{` of `{,a,:1}` reads one member and stops at `}`. */
  lemma UnquotedKeyMembersC(src: string, toks: seq<Token>)
    requires src == UNQUOTED_KEY && toks == UNQUOTED_KEY_TOKENS && Parsable(src, toks)
    ensures MembersC(src, toks, 1, ObjectMap.Init()) ==
      Returned(0, Set(Object(ObjectMap.Insert(ObjectMap.Init(), "a", Number("1")))), 7)
  {
    UnquotedKeyTexts();
    UnquotedKeyNumberC(src, toks);
    UnquotedKeyPassC(src, toks);
    var m := ObjectMap.Insert(ObjectMap.Init(), "a", Number("1"));
    UnquotedKeyCloseC(src, toks, m);
  }

  /** The C's one pass over `,a,:1` from token 1, given the number it reads at token 5. */
  lemma UnquotedKeyPassC(src: string, toks: seq<Token>)
    requires toks == UNQUOTED_KEY_TOKENS && Parsable(src, toks) && Text(src, toks[2]) == "a"
    requires ValueC(src, toks, 5) == Returned(0, Set(Number("1")), 6)
    ensures MembersC(src, toks, 1, ObjectMap.Init()) ==
      MembersC(src, toks, 6, ObjectMap.Insert(ObjectMap.Init(), "a", Number("1")))
  {
    MembersCPass(src, toks, 1, ObjectMap.Init(), Number("1"), 6, 6);
  }

  /** The C reads the `1` of `{,a,:1}` as the number 1. */
  lemma UnquotedKeyNumberC(src: string, toks: seq<Token>)
    requires src == UNQUOTED_KEY && toks == UNQUOTED_KEY_TOKENS && Parsable(src, toks)
    ensures ValueC(src, toks, 5) == Returned(0, Set(Number("1")), 6)
  {
    UnquotedKeyTexts();
  }

  /** The C's loop ends at the `}` of `{,a,:1}` with the members read so far. */
  lemma UnquotedKeyCloseC(src: string, toks: seq<Token>, m: ObjectMap.Map<Value>)
    requires toks == UNQUOTED_KEY_TOKENS && Parsable(src, toks) && ObjectMap.Valid(m)
    ensures MembersC(src, toks, 6, m) == Returned(0, Set(Object(m)), 7)
  {
  }

  /** The texts of the STR and NUM tokens of `{,a,:1}`. */
  lemma UnquotedKeyTexts()
    ensures Text(UNQUOTED_KEY, UNQUOTED_KEY_TOKENS[2]) == "a"
    ensures Text(UNQUOTED_KEY, UNQUOTED_KEY_TOKENS[5]) == "1"
  {
  }

  /** The corrected parser rejects the `,` where `{,a,:1}` needs a quote. */
  lemma UnquotedKeyRejected()
    ensures Parsable(UNQUOTED_KEY, UNQUOTED_KEY_TOKENS)
    ensures ParseValue(UNQUOTED_KEY, UNQUOTED_KEY_TOKENS, 0) == Failure(UnexpectedToken)
  {
    UnquotedKeyTokens();
    assert ParseString(UNQUOTED_KEY, UNQUOTED_KEY_TOKENS, 1) == Failure(UnexpectedToken);
  }

  /** `1@`: a number, then a character the tokenizer rejects. */
  const STRAY_CHAR: string := "1@"

  /** The C returns 0 and the number 1 for `1@`; the corrected `json_parse` reports the tokenizer's failure. */
  lemma IgnoredLexCodeExample()
    ensures Lex(STRAY_CHAR, 0).code == LEX_FAILURE
    ensures JsonParseC(STRAY_CHAR) == Returned(0, Set(Number("1")), 1)
    ensures JsonParse(STRAY_CHAR) == Failure(LexFailure)
  {
    assert Lex(STRAY_CHAR, 0) == Lexed([Token(0, 1, Num)], LEX_FAILURE);
    assert Text(STRAY_CHAR, Token(0, 1, Num)) == "1";
  }

  /** `{"a"`: the tokens end after a key. */
  const ENDS_AFTER_KEY: string := "{\"a\""

  /** The tokens of `{"a"`. */
  const ENDS_AFTER_KEY_TOKENS: seq<Token> :=
    [Token(0, 1, OpenBrace), Token(1, 1, Quotation), Token(2, 1, Str), Token(3, 1, Quotation)]

  /** `{"a"` cut into the lexemes the lexer sees in it, each one character long. */
  const ENDS_AFTER_KEY_LEXEMES: seq<Lexeme> :=
    [Lexeme(OpenBrace, "{"), Lexeme(Quotation, "\""), Lexeme(Str, "a"), Lexeme(Quotation, "\"")]

  lemma EndsAfterKeyTokens()
    ensures Lex(ENDS_AFTER_KEY, 0) == Lexed(ENDS_AFTER_KEY_TOKENS, 0)
    ensures Parsable(ENDS_AFTER_KEY, ENDS_AFTER_KEY_TOKENS)
  {
    EndsAfterKeyWellFormed();
    EndsAfterKeySpelled();
    UnitLexes(ENDS_AFTER_KEY, ENDS_AFTER_KEY_LEXEMES, ENDS_AFTER_KEY_TOKENS);
  }

  lemma EndsAfterKeyWellFormed()
    ensures WellFormedLexemes(ENDS_AFTER_KEY_LEXEMES) && Separated(ENDS_AFTER_KEY_LEXEMES)
  {
  }

  lemma EndsAfterKeySpelled()
    ensures Concat(ENDS_AFTER_KEY_LEXEMES) == ENDS_AFTER_KEY
  {
  }

  /**
   * For `{"a"` the C reads `s->items[4]` of a 4-token stream; the corrected
   * parser reports INDEX_GREATER_THAN_LEN.
   */
  lemma ReadPastEndExample()
    ensures JsonParseC(ENDS_AFTER_KEY) == Undefined
    ensures JsonParse(ENDS_AFTER_KEY) == Failure(IndexGreaterThanLen)
  {
    EndsAfterKeyTokens();
  }

  /** `{"a":}`: a member without a value. */
  const VALUELESS_MEMBER: string := "{\"a\":}"

  /** The tokens of `{"a":}`. */
  const VALUELESS_TOKENS: seq<Token> :=
    [Token(0, 1, OpenBrace), Token(1, 1, Quotation), Token(2, 1, Str),
     Token(3, 1, Quotation), Token(4, 1, Colon), Token(5, 1, CloseBrace)]

  /** `{"a":}` cut into the lexemes the lexer sees in it, each one character long. */
  const VALUELESS_LEXEMES: seq<Lexeme> :=
    [Lexeme(OpenBrace, "{"), Lexeme(Quotation, "\""), Lexeme(Str, "a"), Lexeme(Quotation, "\""),
     Lexeme(Colon, ":"), Lexeme(CloseBrace, "}")]

  lemma ValuelessTokens()
    ensures Lex(VALUELESS_MEMBER, 0) == Lexed(VALUELESS_TOKENS, 0)
    ensures Parsable(VALUELESS_MEMBER, VALUELESS_TOKENS)
  {
    ValuelessWellFormed();
    ValuelessSpelled();
    UnitLexes(VALUELESS_MEMBER, VALUELESS_LEXEMES, VALUELESS_TOKENS);
  }

  lemma ValuelessWellFormed()
    ensures WellFormedLexemes(VALUELESS_LEXEMES) && Separated(VALUELESS_LEXEMES)
  {
  }

  lemma ValuelessSpelled()
    ensures Concat(VALUELESS_LEXEMES) == VALUELESS_MEMBER
  {
  }

  /** The one member the C puts into the object of `{"a":}`: key `a`, value never written. */
  function ValuelessObject(): (m: ObjectMap.Map<Value>)
    ensures ObjectMap.Valid(m) && ObjectMap.Hashable("a")
    ensures ObjectMap.Get(m, "a") == Some(Indeterminate)
  {
    ObjectMap.AsciiKeyHashable("a");
    ObjectMap.InsertPreservesValid(ObjectMap.Init(), "a", Indeterminate);
    ObjectMap.InsertThenGet(ObjectMap.Init(), "a", Indeterminate, "a");
    ObjectMap.Insert(ObjectMap.Init(), "a", Indeterminate)
  }

  /** Inside `{"a":}`: `parse_value` fails on `}`, its object goes into the map anyway, and `}` closes the loop. */
  lemma ValuelessMembersC(toks: seq<Token>)
    requires toks == VALUELESS_TOKENS && Parsable(VALUELESS_MEMBER, toks)
    ensures MembersC(VALUELESS_MEMBER, toks, 1, ObjectMap.Init()) == Returned(0, Set(Object(ValuelessObject())), 6)
  {
    assert VALUELESS_MEMBER[2..3] == "a";
    assert StringC(VALUELESS_MEMBER, toks, 1) == Returned(0, Set(String("a")), 4);
    assert ValueC(VALUELESS_MEMBER, toks, 5) == Returned(-2, Unset, 5);
    assert MembersC(VALUELESS_MEMBER, toks, 5, ValuelessObject()) == Returned(0, Set(Object(ValuelessObject())), 6);
  }

  /**
   * For `{"a":}` the C inserts the `json_object_t` that `parse_value` left
   * unwritten when it rejected `}`, then closes the object and returns 0;
   * the corrected parser reports UNEXPECTED_TOKEN.
   */
  lemma UninitialisedValueExample()
    ensures JsonParseC(VALUELESS_MEMBER) == Returned(0, Set(Object(ValuelessObject())), 6)
    ensures JsonParse(VALUELESS_MEMBER) == Failure(UnexpectedToken)
  {
    ValuelessTokens();
    ValuelessMembersC(VALUELESS_TOKENS);
  }

  /** `{"":1}`: an empty key, which the tokenizer makes into two quotes with no STR token between. */
  const EMPTY_KEY: string := "{\"\":1}"

  /** The tokens of `{"":1}`. */
  const EMPTY_KEY_TOKENS: seq<Token> :=
    [Token(0, 1, OpenBrace), Token(1, 1, Quotation), Token(2, 1, Quotation),
     Token(3, 1, Colon), Token(4, 1, Num), Token(5, 1, CloseBrace)]

  /** `{"":1}` cut into the lexemes the lexer sees in it, each one character long. */
  const EMPTY_KEY_LEXEMES: seq<Lexeme> :=
    [Lexeme(OpenBrace, "{"), Lexeme(Quotation, "\""), Lexeme(Quotation, "\""),
     Lexeme(Colon, ":"), Lexeme(Num, "1"), Lexeme(CloseBrace, "}")]

  lemma EmptyKeyTokens()
    ensures Lex(EMPTY_KEY, 0) == Lexed(EMPTY_KEY_TOKENS, 0)
    ensures Parsable(EMPTY_KEY, EMPTY_KEY_TOKENS)
  {
    EmptyKeyWellFormed();
    EmptyKeySpelled();
    UnitLexes(EMPTY_KEY, EMPTY_KEY_LEXEMES, EMPTY_KEY_TOKENS);
  }

  lemma EmptyKeyWellFormed()
    ensures WellFormedLexemes(EMPTY_KEY_LEXEMES) && Separated(EMPTY_KEY_LEXEMES)
  {
  }

  lemma EmptyKeySpelled()
    ensures Concat(EMPTY_KEY_LEXEMES) == EMPTY_KEY
  {
  }

  /**
   * For `{"":1}` the C frees the key pointer that the failed `parse_string`
   * left uninitialised; the corrected parser reports UNEXPECTED_TOKEN.
   */
  lemma UninitialisedKeyExample()
    ensures JsonParseC(EMPTY_KEY) == Undefined
    ensures JsonParse(EMPTY_KEY) == Failure(UnexpectedToken)
  {
    EmptyKeyTokens();
  }
}
