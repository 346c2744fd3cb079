/**
 * The recursive-descent parser of json.h: `parse_value` and the helpers it
 * dispatches to, run over the token stream of `tokenize_json`, and the entry
 * point `json_parse`.
 *
 * This is the parser as its authors evidently intended it: every nested
 * return code is propagated, every token read is bounds-checked, the closing
 * quote of a string is checked, an object whose tokens run out is an error,
 * and a tokenizer failure is reported.  The code as written is modelled in
 * module `AsWritten`, which exhibits each difference.
 */
module Parser {
  import opened Wrappers
  import ObjectMap
  import opened Tokenizer

  // ---------------------------------------------------------------------------
  // Values and errors
  // ---------------------------------------------------------------------------

  /**
   * `json_object_t`: a tag and its payload.  A number carries the text of its
   * token rather than the `float` that `strtof` would make of it; a boolean
   * carries the C `int` 1 or 0; an object owns a map from keys to values.
   * `Indeterminate` stands for a `json_object_t` that no parse function wrote:
   * the parser never makes one, but the code as written can copy one into a
   * map (module `AsWritten`).
   */
  datatype Value =
    | Number(lexeme: string)
    | String(text: string)
    | Object(fields: ObjectMap.Map<Value>)
    | Boolean(flag: int)
    | Null
    | Indeterminate

  /** INDEX_GREATER_THAN_LEN, UNEXPECTED_TOKEN, and the failure `tokenize_json` returns. */
  datatype Error = IndexGreaterThanLen | UnexpectedToken | LexFailure

  /** The C return code of each error. */
  function Code(e: Error): (c: int)
    ensures c != 0
    ensures c < 0 <==> e != LexFailure
  {
    match e
    case IndexGreaterThanLen => -1
    case UnexpectedToken => -2
    case LexFailure => LEX_FAILURE
  }

  /** A parsed value and the index of the first token after it (`*idx` on return). */
  datatype Parsed = Parsed(value: Value, next: nat)

  /** Every token lies in `src` and every STR token can serve as a map key. */
  predicate Parsable(src: string, toks: seq<Token>)
  {
    && InBounds(src, toks)
    && forall k :: 0 <= k < |toks| && toks[k].tag == Str ==> ObjectMap.Hashable(Text(src, toks[k]))
  }

  /** The tokens `tokenize_json` produces are always fit for the parser. */
  lemma LexedParsable(src: string)
    ensures Parsable(src, Lex(src, 0).tokens)
  {
    var toks := Lex(src, 0).tokens;
    forall k | 0 <= k < |toks| && toks[k].tag == Str
      ensures ObjectMap.Hashable(Text(src, toks[k]))
    {
      LexTokenIsLexeme(src, k);
      WordIsAsciiKey(Text(src, toks[k]));
      ObjectMap.AsciiKeyHashable(Text(src, toks[k]));
    }
  }

  /** The tags `parse_value` accepts as the first token of a value. */
  predicate StartsValue(tag: Tag)
  {
    tag in {OpenBrace, Quotation, Num, True, False, NullTag}
  }

  /** `v` is the kind of value the parser builds from a first token tagged `tag`. */
  predicate Produces(tag: Tag, v: Value)
  {
    match v
    case Number(_) => tag == Num
    case String(_) => tag == Quotation
    case Object(_) => tag == OpenBrace
    case Boolean(flag) => (tag == True && flag == 1) || (tag == False && flag == 0)
    case Null => tag == NullTag
    case Indeterminate => false
  }

  /** QUOTATION, STR, QUOTATION at `i`. */
  predicate IsStringAt(toks: seq<Token>, i: nat)
  {
    && i + 3 <= |toks|
    && toks[i].tag == Quotation
    && toks[i + 1].tag == Str
    && toks[i + 2].tag == Quotation
  }

  // ---------------------------------------------------------------------------
  // The parse functions
  // ---------------------------------------------------------------------------

  /** `parse_string`: a quoted STR token; the key of a member or a string value. */
  function ParseString(src: string, toks: seq<Token>, i: nat): (r: Result<Parsed, Error>)
    requires Parsable(src, toks)
    ensures r.Success? <==> IsStringAt(toks, i)
    ensures r.Success? ==>
      && r.value == Parsed(String(Text(src, toks[i + 1])), i + 3)
      && ObjectMap.Hashable(r.value.value.text)
    ensures r.Failure? ==> r.error != LexFailure
    ensures r.Failure? && i + 3 <= |toks| ==> r.error == UnexpectedToken
  {
    if i >= |toks| then Failure(IndexGreaterThanLen)
    else if toks[i].tag != Quotation then Failure(UnexpectedToken)
    else if i + 1 >= |toks| then Failure(IndexGreaterThanLen)
    else if toks[i + 1].tag != Str then Failure(UnexpectedToken)
    else if i + 2 >= |toks| then Failure(IndexGreaterThanLen)
    else if toks[i + 2].tag != Quotation then Failure(UnexpectedToken)
    else Success(Parsed(String(Text(src, toks[i + 1])), i + 3))
  }

  /** `parse_value`: dispatch on the tag of the token at `i`. */
  function ParseValue(src: string, toks: seq<Token>, i: nat): (r: Result<Parsed, Error>)
    requires Parsable(src, toks)
    ensures r.Failure? ==> r.error != LexFailure
    ensures i >= |toks| ==> r == Failure(IndexGreaterThanLen)
    ensures i < |toks| && !StartsValue(toks[i].tag) ==> r == Failure(UnexpectedToken)
    ensures r.Success? ==> i < r.value.next <= |toks| && Produces(toks[i].tag, r.value.value)
    ensures r.Success? && !r.value.value.Object? && !r.value.value.String? ==> r.value.next == i + 1
    ensures r.Success? && r.value.value.Number? ==> r.value.value.lexeme == Text(src, toks[i])
    ensures r.Success? && r.value.value.String? ==> r.value.next == i + 3
    ensures r.Success? && r.value.value.Object? ==>
      ObjectMap.Valid(r.value.value.fields) && toks[r.value.next - 1].tag == CloseBrace
    decreases |toks| - i, 1
  {
    if i >= |toks| then Failure(IndexGreaterThanLen)
    else
      match toks[i].tag
      case OpenBrace => ParseObject(src, toks, i)
      case Quotation => ParseString(src, toks, i)
      case Num => Success(Parsed(Number(Text(src, toks[i])), i + 1))
      case True => Success(Parsed(Boolean(1), i + 1))
      case False => Success(Parsed(Boolean(0), i + 1))
      case NullTag => Success(Parsed(Null, i + 1))
      case _ => Failure(UnexpectedToken)
  }

  /** `parse_object`: a fresh map, then the member loop just after the `{` at `i`. */
  function ParseObject(src: string, toks: seq<Token>, i: nat): (r: Result<Parsed, Error>)
    requires Parsable(src, toks)
    requires i < |toks| && toks[i].tag == OpenBrace
    ensures r.Failure? ==> r.error != LexFailure
    ensures r.Success? ==>
      && i < r.value.next <= |toks|
      && r.value.value.Object?
      && ObjectMap.Valid(r.value.value.fields)
      && toks[r.value.next - 1].tag == CloseBrace
    decreases |toks| - i, 0
  {
    ParseMembers(src, toks, i + 1, ObjectMap.Init())
  }

  /**
   * The loop of `parse_object` from token `j`, with the members read so far
   * already inserted into `m`: `}` ends the object; otherwise one member, and
   * then `,` (loop on) or `}` (loop on, to meet it again).
   */
  function ParseMembers(src: string, toks: seq<Token>, j: nat, m: ObjectMap.Map<Value>): (r: Result<Parsed, Error>)
    requires Parsable(src, toks) && ObjectMap.Valid(m)
    ensures r.Failure? ==> r.error != LexFailure
    ensures r.Success? ==>
      && j < r.value.next <= |toks|
      && r.value.value.Object?
      && ObjectMap.Valid(r.value.value.fields)
      && toks[r.value.next - 1].tag == CloseBrace
    decreases |toks| - j, 1
  {
    if j >= |toks| then Failure(IndexGreaterThanLen)
    else if toks[j].tag == CloseBrace then Success(Parsed(Object(m), j + 1))
    else
      var member :- ParseMember(src, toks, j, m);
      AfterMember(src, toks, member)
  }

  /**
   * The rest of one pass of the loop of `parse_object` after a member: a `,`
   * moves past itself, a `}` is left for the next pass, anything else is an
   * UNEXPECTED_TOKEN.
   */
  function AfterMember(src: string, toks: seq<Token>, member: Member): (r: Result<Parsed, Error>)
    requires Parsable(src, toks) && ObjectMap.Valid(member.fields)
    ensures r.Failure? ==> r.error != LexFailure
    ensures r.Success? ==>
      && member.next < r.value.next <= |toks|
      && r.value.value.Object?
      && ObjectMap.Valid(r.value.value.fields)
      && toks[r.value.next - 1].tag == CloseBrace
    decreases |toks| - member.next, 2
  {
    var q := member.next;
    if q >= |toks| then Failure(IndexGreaterThanLen)
    else if toks[q].tag == Comma then ParseMembers(src, toks, q + 1, member.fields)
    else if toks[q].tag != CloseBrace then Failure(UnexpectedToken)
    else ParseMembers(src, toks, q, member.fields)
  }

  /** The map after one more member, and the index of the token after its value. */
  datatype Member = Member(fields: ObjectMap.Map<Value>, next: nat)

  /**
   * One member in the loop of `parse_object`: a key, a `:`, a value; the value
   * is inserted under the key, replacing any earlier value of that key.
   */
  function ParseMember(src: string, toks: seq<Token>, j: nat, m: ObjectMap.Map<Value>): (r: Result<Member, Error>)
    requires Parsable(src, toks) && ObjectMap.Valid(m)
    ensures r.Failure? ==> r.error != LexFailure
    ensures r.Success? ==> j + 4 < r.value.next <= |toks| && ObjectMap.Valid(r.value.fields)
    ensures r.Success? ==> IsStringAt(toks, j) && toks[j + 3].tag == Colon
    decreases |toks| - j, 0
  {
    var key :- ParseString(src, toks, j);
    var k := key.next;
    if k >= |toks| then Failure(IndexGreaterThanLen)
    else if toks[k].tag != Colon then Failure(UnexpectedToken)
    else
      var value :- ParseValue(src, toks, k + 1);
      var name := key.value.text;
      ObjectMap.InsertPreservesValid(m, name, value.value);
      Success(Member(ObjectMap.Insert(m, name, value.value), value.next))
  }

  /**
   * A member is a key, then a `:`, then a value: a key with no token after it
   * is INDEX_GREATER_THAN_LEN, a key followed by anything but `:` is
   * UNEXPECTED_TOKEN, and after the `:` the member stands or falls with its
   * value.
   */
  lemma MemberNeedsColon(src: string, toks: seq<Token>, j: nat, m: ObjectMap.Map<Value>)
    requires Parsable(src, toks) && ObjectMap.Valid(m)
    ensures !IsStringAt(toks, j) ==> ParseMember(src, toks, j, m).Failure?
    ensures IsStringAt(toks, j) && j + 3 >= |toks| ==> ParseMember(src, toks, j, m) == Failure(IndexGreaterThanLen)
    ensures IsStringAt(toks, j) && j + 3 < |toks| && toks[j + 3].tag != Colon ==>
      ParseMember(src, toks, j, m) == Failure(UnexpectedToken)
    ensures IsStringAt(toks, j) && j + 3 < |toks| && toks[j + 3].tag == Colon ==>
      (ParseMember(src, toks, j, m).Success? <==> ParseValue(src, toks, j + 4).Success?)
  {
  }

  /** `json_parse`: tokenize, then parse one value from the first token. */
  function JsonParse(src: string): (r: Result<Value, Error>)
    ensures r == Failure(LexFailure) <==> Lex(src, 0).code != 0
  {
    var lexed := Lex(src, 0);
    if lexed.code != 0 then Failure(LexFailure)
    else
      LexedParsable(src);
      var p :- ParseValue(src, lexed.tokens, 0);
      Success(p.value)
  }

  /**
   * `json_parse` with its C interface: the loop-based tokenizer, then the
   * parser; the result code is 0 exactly when a value is returned.
   */
  method Parse(src: string) returns (code: int, value: Option<Value>)
    ensures code == 0 <==> value.Some?
    ensures code == 0 <==> JsonParse(src).Success?
    ensures value.Some? ==> value.value == JsonParse(src).value
    ensures code != 0 ==> code == Code(JsonParse(src).error)
  {
    var lexCode, stream := Tokenize(src);
    if lexCode != 0 {
      return Code(LexFailure), None;
    }
    LexedParsable(src);
    var r := ParseValue(src, stream.items, 0);
    if r.Success? {
      code, value := 0, Some(r.value.value);
    } else {
      code, value := Code(r.error), None;
    }
  }

  // ---------------------------------------------------------------------------
  // The parser reads exactly the tokens of the value it returns
  // ---------------------------------------------------------------------------

  lemma ParsablePrefix(src: string, toks: seq<Token>, n: nat)
    requires Parsable(src, toks) && n <= |toks|
    ensures Parsable(src, toks[..n])
  {
  }

  lemma ParseStringTruncate(src: string, toks: seq<Token>, i: nat, n: nat)
    requires Parsable(src, toks) && n <= |toks|
    requires ParseString(src, toks, i).Success?
    ensures Parsable(src, toks[..n])
    ensures ParseString(src, toks[..n], i) ==
      if n < i + 3 then Failure(IndexGreaterThanLen) else ParseString(src, toks, i)
  {
    ParsablePrefix(src, toks, n);
  }

  /**
   * Cut the token stream anywhere inside a value and parsing it fails with
   * INDEX_GREATER_THAN_LEN; cut it anywhere after and nothing changes.
   */
  lemma {:induction false} TruncateValue(src: string, toks: seq<Token>, i: nat, n: nat)
    requires Parsable(src, toks) && n <= |toks|
    requires ParseValue(src, toks, i).Success?
    ensures Parsable(src, toks[..n])
    ensures ParseValue(src, toks[..n], i) ==
      if n < ParseValue(src, toks, i).value.next then Failure(IndexGreaterThanLen)
      else ParseValue(src, toks, i)
    decreases |toks| - i, 1
  {
    ParsablePrefix(src, toks, n);
    if i < n {
      assert toks[..n][i] == toks[i];
      if toks[i].tag == OpenBrace {
        TruncateMembers(src, toks, i + 1, ObjectMap.Init(), n);
      } else if toks[i].tag == Quotation {
        ParseStringTruncate(src, toks, i, n);
      }
    }
  }

  lemma {:induction false} TruncateMembers(src: string, toks: seq<Token>, j: nat, m: ObjectMap.Map<Value>, n: nat)
    requires Parsable(src, toks) && ObjectMap.Valid(m) && n <= |toks|
    requires ParseMembers(src, toks, j, m).Success?
    ensures Parsable(src, toks[..n])
    ensures ParseMembers(src, toks[..n], j, m) ==
      if n < ParseMembers(src, toks, j, m).value.next then Failure(IndexGreaterThanLen)
      else ParseMembers(src, toks, j, m)
    decreases |toks| - j, 5
  {
    ParsablePrefix(src, toks, n);
    var t := toks[..n];
    if j >= n {
      assert ParseMembers(src, t, j, m) == Failure(IndexGreaterThanLen);
    } else if toks[j].tag == CloseBrace {
      assert t[j] == toks[j];
    } else {
      TruncateMemberStep(src, toks, j, m, n);
    }
  }

  /** `TruncateMembers` over a loop pass that reads one member. */
  lemma {:induction false} TruncateMemberStep(src: string, toks: seq<Token>, j: nat, m: ObjectMap.Map<Value>, n: nat)
    requires Parsable(src, toks) && ObjectMap.Valid(m) && j < n <= |toks|
    requires toks[j].tag != CloseBrace
    requires ParseMembers(src, toks, j, m).Success?
    ensures Parsable(src, toks[..n])
    ensures ParseMembers(src, toks[..n], j, m) ==
      if n < ParseMembers(src, toks, j, m).value.next then Failure(IndexGreaterThanLen)
      else ParseMembers(src, toks, j, m)
    decreases |toks| - j, 4
  {
    var member := ParseMember(src, toks, j, m).value;
    var q := member.next;
    if q >= n {
      TruncateInsideMember(src, toks, j, m, n, member);
    } else {
      TruncateAfterMember(src, toks, j, m, n, member);
    }
  }

  /** A cut inside a member, or just after its value, leaves the loop short of tokens. */
  lemma {:induction false} TruncateInsideMember(src: string, toks: seq<Token>, j: nat, m: ObjectMap.Map<Value>, n: nat, member: Member)
    requires Parsable(src, toks) && ObjectMap.Valid(m) && j < n <= |toks|
    requires toks[j].tag != CloseBrace
    requires ParseMember(src, toks, j, m) == Success(member) && n <= member.next
    requires ParseMembers(src, toks, j, m).Success?
    ensures Parsable(src, toks[..n])
    ensures ParseMembers(src, toks[..n], j, m) == Failure(IndexGreaterThanLen)
    ensures n < ParseMembers(src, toks, j, m).value.next
    decreases |toks| - j, 3
  {
    ParsablePrefix(src, toks, n);
    var t := toks[..n];
    assert t[j] == toks[j];
    TruncateMember(src, toks, j, m, n);
    if member.next == n {
      MembersCutShort(src, t, j, m, member);
    }
    if member.next >= |toks| {
      MembersCutShort(src, toks, j, m, member);
    } else if toks[member.next].tag == Comma {
      MembersComma(src, toks, j, m, member);
    } else if toks[member.next].tag == CloseBrace {
      MembersClose(src, toks, j, m, member);
    } else {
      MembersNeither(src, toks, j, m, member);
      assert false;
    }
  }

  /** A cut after the `,` or `}` that follows a member is a cut in the rest of the loop. */
  lemma {:induction false} TruncateAfterMember(src: string, toks: seq<Token>, j: nat, m: ObjectMap.Map<Value>, n: nat, member: Member)
    requires Parsable(src, toks) && ObjectMap.Valid(m) && j < n <= |toks|
    requires toks[j].tag != CloseBrace
    requires ParseMember(src, toks, j, m) == Success(member) && member.next < n
    requires ParseMembers(src, toks, j, m).Success?
    ensures Parsable(src, toks[..n])
    ensures ParseMembers(src, toks[..n], j, m) ==
      if n < ParseMembers(src, toks, j, m).value.next then Failure(IndexGreaterThanLen)
      else ParseMembers(src, toks, j, m)
    decreases |toks| - j, 3
  {
    NextPass(src, toks, j, m, member);
    ResumeBeforeCut(src, toks, j, m, n, member);
    TruncateMembers(src, toks, ResumeAt(toks, member.next), member.fields, n);
  }

  /** Cut past the `,` or `}` that follows a member, the loop goes on at the same place as before the cut. */
  lemma {:induction false} ResumeBeforeCut(src: string, toks: seq<Token>, j: nat, m: ObjectMap.Map<Value>, n: nat, member: Member)
    requires Parsable(src, toks) && ObjectMap.Valid(m) && j < n <= |toks|
    requires toks[j].tag != CloseBrace
    requires ParseMember(src, toks, j, m) == Success(member) && member.next < n
    requires toks[member.next].tag == Comma || toks[member.next].tag == CloseBrace
    ensures Parsable(src, toks[..n]) && ObjectMap.Valid(member.fields)
    ensures ParseMembers(src, toks[..n], j, m) == ParseMembers(src, toks[..n], ResumeAt(toks, member.next), member.fields)
    decreases |toks| - j, 1
  {
    ParsablePrefix(src, toks, n);
    var t := toks[..n];
    var q := member.next;
    assert t[j] == toks[j] && t[q] == toks[q];
    TruncateMember(src, toks, j, m, n);
    if toks[q].tag == Comma {
      MembersComma(src, t, j, m, member);
      assert ResumeAt(toks, q) == q + 1;
    } else {
      MembersClose(src, t, j, m, member);
      assert ResumeAt(toks, q) == q;
    }
  }

  /** A pass of the loop of `parse_object` over a member that is not `}` reads the member, then goes on after it. */
  lemma MembersStep(src: string, toks: seq<Token>, j: nat, m: ObjectMap.Map<Value>, member: Member)
    requires Parsable(src, toks) && ObjectMap.Valid(m)
    requires j < |toks| && toks[j].tag != CloseBrace
    requires ParseMember(src, toks, j, m) == Success(member)
    ensures ObjectMap.Valid(member.fields)
    ensures ParseMembers(src, toks, j, m) == AfterMember(src, toks, member)
  {
    var r := ParseMember(src, toks, j, m);
    assert !r.IsFailure() && r.Extract() == member;
  }

  /** A member that reads: its key, its `:`, its value, and the map it leaves. */
  lemma MemberParts(src: string, toks: seq<Token>, j: nat, m: ObjectMap.Map<Value>, member: Member)
    requires Parsable(src, toks) && ObjectMap.Valid(m)
    requires ParseMember(src, toks, j, m) == Success(member)
    ensures IsStringAt(toks, j) && j + 3 < |toks| && toks[j + 3].tag == Colon
    ensures ObjectMap.Hashable(Text(src, toks[j + 1])) && ParseValue(src, toks, j + 4).Success?
    ensures member == Member(ObjectMap.Insert(m, Text(src, toks[j + 1]), ParseValue(src, toks, j + 4).value.value),
                             ParseValue(src, toks, j + 4).value.next)
  {
    assert ParseString(src, toks, j).Success?;
  }

  /** One pass of the loop of `parse_object` that runs out of tokens after a member. */
  lemma MembersCutShort(src: string, toks: seq<Token>, j: nat, m: ObjectMap.Map<Value>, member: Member)
    requires Parsable(src, toks) && ObjectMap.Valid(m)
    requires j < |toks| && toks[j].tag != CloseBrace
    requires ParseMember(src, toks, j, m) == Success(member) && member.next >= |toks|
    ensures ParseMembers(src, toks, j, m) == Failure(IndexGreaterThanLen)
  {
    MembersStep(src, toks, j, m, member);
  }

  /** One pass of the loop of `parse_object` that meets `,` after a member. */
  lemma MembersComma(src: string, toks: seq<Token>, j: nat, m: ObjectMap.Map<Value>, member: Member)
    requires Parsable(src, toks) && ObjectMap.Valid(m)
    requires j < |toks| && toks[j].tag != CloseBrace
    requires ParseMember(src, toks, j, m) == Success(member)
    requires member.next < |toks| && toks[member.next].tag == Comma
    ensures ParseMembers(src, toks, j, m) == ParseMembers(src, toks, member.next + 1, member.fields)
  {
    MembersStep(src, toks, j, m, member);
    AfterComma(src, toks, member);
  }

  lemma AfterComma(src: string, toks: seq<Token>, member: Member)
    requires Parsable(src, toks) && ObjectMap.Valid(member.fields)
    requires member.next < |toks| && toks[member.next].tag == Comma
    ensures AfterMember(src, toks, member) == ParseMembers(src, toks, member.next + 1, member.fields)
  {
  }

  /** One pass of the loop of `parse_object` that meets `}` after a member. */
  lemma MembersClose(src: string, toks: seq<Token>, j: nat, m: ObjectMap.Map<Value>, member: Member)
    requires Parsable(src, toks) && ObjectMap.Valid(m)
    requires j < |toks| && toks[j].tag != CloseBrace
    requires ParseMember(src, toks, j, m) == Success(member)
    requires member.next < |toks| && toks[member.next].tag == CloseBrace
    ensures ParseMembers(src, toks, j, m) == ParseMembers(src, toks, member.next, member.fields)
  {
    MembersStep(src, toks, j, m, member);
  }

  /** One pass of the loop of `parse_object` that meets neither `,` nor `}` after a member. */
  lemma MembersNeither(src: string, toks: seq<Token>, j: nat, m: ObjectMap.Map<Value>, member: Member)
    requires Parsable(src, toks) && ObjectMap.Valid(m)
    requires j < |toks| && toks[j].tag != CloseBrace
    requires ParseMember(src, toks, j, m) == Success(member)
    requires member.next < |toks| && toks[member.next].tag != Comma && toks[member.next].tag != CloseBrace
    ensures ParseMembers(src, toks, j, m) == Failure(UnexpectedToken)
  {
    MembersStep(src, toks, j, m, member);
  }

  /** Where the loop of `parse_object` goes on when token `q` follows a member: past a `,`, or at the `}`. */
  function ResumeAt(toks: seq<Token>, q: nat): nat
    requires q < |toks|
  {
    if toks[q].tag == Comma then q + 1 else q
  }

  /** A loop pass that reads a member and leads to success goes on at `ResumeAt` with the member inserted. */
  lemma NextPass(src: string, toks: seq<Token>, j: nat, m: ObjectMap.Map<Value>, member: Member)
    requires Parsable(src, toks) && ObjectMap.Valid(m) && j < |toks| && toks[j].tag != CloseBrace
    requires ParseMember(src, toks, j, m) == Success(member)
    requires ParseMembers(src, toks, j, m).Success?
    ensures member.next < |toks| && j < ResumeAt(toks, member.next) <= |toks| && ObjectMap.Valid(member.fields)
    ensures ParseMembers(src, toks, j, m) == ParseMembers(src, toks, ResumeAt(toks, member.next), member.fields)
  {
    MembersStep(src, toks, j, m, member);
    var q := member.next;
    if toks[q].tag == Comma {
      AfterComma(src, toks, member);
      assert ResumeAt(toks, q) == q + 1;
    } else {
      assert ResumeAt(toks, q) == q;
    }
  }

  lemma {:induction false} TruncateMember(src: string, toks: seq<Token>, j: nat, m: ObjectMap.Map<Value>, n: nat)
    requires Parsable(src, toks) && ObjectMap.Valid(m) && n <= |toks|
    requires ParseMember(src, toks, j, m).Success?
    ensures Parsable(src, toks[..n])
    ensures ParseMember(src, toks[..n], j, m) ==
      if n < ParseMember(src, toks, j, m).value.next then Failure(IndexGreaterThanLen)
      else ParseMember(src, toks, j, m)
    decreases |toks| - j, 0
  {
    ParsablePrefix(src, toks, n);
    ParseStringTruncate(src, toks, j, n);
    if j + 3 < n {
      assert toks[..n][j + 3] == toks[j + 3];
      TruncateValue(src, toks, j + 4, n);
    }
  }
}
