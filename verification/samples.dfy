/**
 * Concrete documents and what the tokenizer and the parser make of them: the
 * token streams of small objects, a stream filled by hand, an empty object, a
 * member without a value, a three-level nested object, a key given twice, and
 * input that is all blanks.
 */
module Samples {
  import opened Wrappers
  import ObjectMap
  import opened Tokenizer
  import opened Parser

  /** The text of each token, in order. */
  function TokenTexts(src: string, toks: seq<Token>): (ts: seq<string>)
    requires InBounds(src, toks)
    ensures |ts| == |toks|
    ensures forall k :: 0 <= k < |toks| ==> ts[k] == Text(src, toks[k])
  {
    seq(|toks|, k requires 0 <= k < |toks| => Text(src, toks[k]))
  }

  /** The map of an object with one member. */
  function Single(key: string, v: Value): ObjectMap.Map<Value>
    requires ObjectMap.IsAsciiKey(key)
  {
    ObjectMap.AsciiKeyHashable(key);
    ObjectMap.Insert(ObjectMap.Init(), key, v)
  }

  /** The one-member map holds its key, and only that key, with the member's value. */
  lemma SingleMember(key: string, v: Value)
    requires ObjectMap.IsAsciiKey(key)
    ensures ObjectMap.Valid(Single(key, v)) && ObjectMap.Keys(Single(key, v)) == {key}
    ensures ObjectMap.Hashable(key) && ObjectMap.Get(Single(key, v), key) == Some(v)
  {
    ObjectMap.AsciiKeyHashable(key);
    ObjectMap.InsertPreservesValid(ObjectMap.Init(), key, v);
    ObjectMap.InsertKeys(ObjectMap.Init(), key, v);
    ObjectMap.InsertThenGet(ObjectMap.Init(), key, v, key);
  }

  // ---------------------------------------------------------------------------
  // Token streams
  // ---------------------------------------------------------------------------

  /** The five tokens the stream test pushes by hand: `{`, `foo`, `:`, `5.0`, `}` of `{"foo": 5.0}`. */
  const PUSHED_TOKENS: seq<Token> :=
    [Token(0, 1, OpenBrace), Token(2, 3, Str), Token(6, 1, Colon), Token(8, 3, Num), Token(11, 1, CloseBrace)]

  /** A fresh stream with the five tokens pushed one after the other. */
  function PushedStream(): Stream
  {
    var s0 := StreamInit();
    var s1 := Push(s0, PUSHED_TOKENS[0]);
    var s2 := Push(s1, PUSHED_TOKENS[1]);
    var s3 := Push(s2, PUSHED_TOKENS[2]);
    var s4 := Push(s3, PUSHED_TOKENS[3]);
    Push(s4, PUSHED_TOKENS[4])
  }

  /**
   * Five pushes onto a fresh stream keep the tokens in the order pushed and
   * stay within the starting capacity of ten, so the stream never grows.
   */
  lemma PushedStreamHolds()
    ensures PushedStream().items == PUSHED_TOKENS
    ensures PushedStream().capacity == STREAM_START_SIZE
    ensures TokenTexts(FOO_NUM, PushedStream().items) == ["{", "foo", ":", "5.0", "}"]
  {
    assert PushedStream().items == PUSHED_TOKENS;
    FooNumTexts(FOO_NUM);
    var whole := TokenTexts(FOO_NUM, FOO_NUM_TOKENS);
    var ts := TokenTexts(FOO_NUM, PUSHED_TOKENS);
    assert ts == [whole[0], whole[2], whole[4], whole[5], whole[6]];
  }

  const FOO_NUM: string := "{\"foo\": 5.0}"

  const FOO_NUM_TOKENS: seq<Token> :=
    [Token(0, 1, OpenBrace), Token(1, 1, Quotation), Token(2, 3, Str), Token(5, 1, Quotation),
     Token(6, 1, Colon), Token(8, 3, Num), Token(11, 1, CloseBrace)]

  /**
   * `{"foo": 5.0}` is an open brace, a quote, the STR `foo`, a quote, a colon,
   * the NUM `5.0` and a close brace; together they spell every character but
   * the blank.
   */
  lemma FooNumTokens()
    ensures Lex(FOO_NUM, 0) == Lexed(FOO_NUM_TOKENS, 0)
    ensures TokenTexts(FOO_NUM, FOO_NUM_TOKENS) == ["{", "\"", "foo", "\"", ":", "5.0", "}"]
    ensures Texts(FOO_NUM, FOO_NUM_TOKENS) == Stripped(FOO_NUM)
  {
    FooNumSteps(FOO_NUM);
    FooNumLexed(FOO_NUM);
    FooNumTexts(FOO_NUM);
    LexCoverage(FOO_NUM, 0);
    assert FOO_NUM[0..] == FOO_NUM;
  }

  /** What the lexer does at each position it reaches in `{"foo": 5.0}`. */
  lemma FooNumSteps(src: string)
    requires src == FOO_NUM
    ensures |src| == 12
    ensures StepAt(src, 0) == Emit(FOO_NUM_TOKENS[0]) && StepAt(src, 1) == Emit(FOO_NUM_TOKENS[1])
    ensures StepAt(src, 2) == Emit(FOO_NUM_TOKENS[2]) && StepAt(src, 5) == Emit(FOO_NUM_TOKENS[3])
    ensures StepAt(src, 6) == Emit(FOO_NUM_TOKENS[4]) && StepAt(src, 7) == Skip(8)
    ensures StepAt(src, 8) == Emit(FOO_NUM_TOKENS[5]) && StepAt(src, 11) == Emit(FOO_NUM_TOKENS[6])
  {
    FooNumKeyStep(src);
    FooNumNumberStep(src);
    FooNumBlankStep(src);
  }

  lemma FooNumKeyStep(src: string)
    requires src == FOO_NUM
    ensures StepAt(src, 2) == Emit(FOO_NUM_TOKENS[2])
  {
    KeywordLiterals("foo");
    StepOverLexeme(src, 2, Str, "foo");
  }

  lemma FooNumNumberStep(src: string)
    requires src == FOO_NUM
    ensures StepAt(src, 8) == Emit(FOO_NUM_TOKENS[5])
  {
    assert src[8..11] == "5.0";
    StepOverLexeme(src, 8, Num, "5.0");
  }

  lemma FooNumBlankStep(src: string)
    requires src == FOO_NUM
    ensures StepAt(src, 7) == Skip(8)
  {
    StepOverRun(src, 7, 8, WhitespaceRun);
  }

  lemma FooNumLexed(src: string)
    requires |src| == 12
    requires StepAt(src, 0) == Emit(FOO_NUM_TOKENS[0]) && StepAt(src, 1) == Emit(FOO_NUM_TOKENS[1])
    requires StepAt(src, 2) == Emit(FOO_NUM_TOKENS[2]) && StepAt(src, 5) == Emit(FOO_NUM_TOKENS[3])
    requires StepAt(src, 6) == Emit(FOO_NUM_TOKENS[4]) && StepAt(src, 7) == Skip(8)
    requires StepAt(src, 8) == Emit(FOO_NUM_TOKENS[5]) && StepAt(src, 11) == Emit(FOO_NUM_TOKENS[6])
    ensures Lex(src, 0) == Lexed(FOO_NUM_TOKENS, 0)
  {
    var toks := FOO_NUM_TOKENS;
    EmitFirst(src, toks, 6, 11);
    EmitFirst(src, toks, 5, 8);
    LexSkip(src, 7, 8);
    EmitFirst(src, toks, 4, 6);
    EmitFirst(src, toks, 3, 5);
    EmitFirst(src, toks, 2, 2);
    EmitFirst(src, toks, 1, 1);
    EmitFirst(src, toks, 0, 0);
    assert toks[0..] == toks;
  }

  lemma FooNumTexts(src: string)
    requires src == FOO_NUM
    ensures InBounds(src, FOO_NUM_TOKENS)
    ensures TokenTexts(src, FOO_NUM_TOKENS) == ["{", "\"", "foo", "\"", ":", "5.0", "}"]
    ensures Text(src, FOO_NUM_TOKENS[2]) == "foo" && Text(src, FOO_NUM_TOKENS[5]) == "5.0"
  {
    var ts := TokenTexts(src, FOO_NUM_TOKENS);
    var want := ["{", "\"", "foo", "\"", ":", "5.0", "}"];
    forall k | 0 <= k < 7
      ensures ts[k] == want[k]
    {
    }
  }

  // ---------------------------------------------------------------------------
  // Parsing
  // ---------------------------------------------------------------------------

  /** The tags of an object of one member from token `i` whose value ends at token `q`. */
  predicate OneMemberShape(toks: seq<Token>, i: nat, q: nat)
  {
    && i + 5 <= q < |toks|
    && toks[i].tag == OpenBrace && toks[i + 1].tag == Quotation && toks[i + 2].tag == Str
    && toks[i + 3].tag == Quotation && toks[i + 4].tag == Colon && toks[q].tag == CloseBrace
  }

  /**
   * An object of one member from token `i`: `{`, a quoted key, `:`, a value
   * that ends at token `q`, and `}` there.
   */
  lemma OneMemberAt(src: string, toks: seq<Token>, i: nat, v: Value, q: nat)
    requires Parsable(src, toks) && OneMemberShape(toks, i, q)
    requires ParseValue(src, toks, i + 5) == Success(Parsed(v, q))
    ensures ObjectMap.Hashable(Text(src, toks[i + 2]))
    ensures ParseValue(src, toks, i) ==
      Success(Parsed(Object(ObjectMap.Insert(ObjectMap.Init(), Text(src, toks[i + 2]), v)), q + 1))
  {
    var m := ObjectMap.Insert(ObjectMap.Init(), Text(src, toks[i + 2]), v);
    ObjectMap.InsertPreservesValid(ObjectMap.Init(), Text(src, toks[i + 2]), v);
    assert ParseMember(src, toks, i + 1, ObjectMap.Init()) == Success(Member(m, q));
    assert ParseMembers(src, toks, q, m) == Success(Parsed(Object(m), q + 1));
    assert AfterMember(src, toks, Member(m, q)) == ParseMembers(src, toks, q, m);
    assert ParseMembers(src, toks, i + 1, ObjectMap.Init()) == Success(Parsed(Object(m), q + 1));
    assert ParseObject(src, toks, i) == Success(Parsed(Object(m), q + 1));
  }

  /** The same object of one member, its key given as a plain ASCII string. */
  lemma KeyedMemberAt(src: string, toks: seq<Token>, i: nat, key: string, v: Value, q: nat)
    requires Parsable(src, toks) && OneMemberShape(toks, i, q)
    requires ObjectMap.IsAsciiKey(key) && Text(src, toks[i + 2]) == key
    requires ParseValue(src, toks, i + 5) == Success(Parsed(v, q))
    ensures ParseValue(src, toks, i) == Success(Parsed(Object(Single(key, v)), q + 1))
  {
    OneMemberAt(src, toks, i, v, q);
  }

  /** `json_parse` returns the value that parsing its tokens from the first one yields. */
  lemma ParsedDocument(src: string, toks: seq<Token>, p: Parsed)
    requires Lex(src, 0) == Lexed(toks, 0) && Parsable(src, toks)
    requires ParseValue(src, toks, 0) == Success(p)
    ensures JsonParse(src) == Success(p.value)
  {
  }

  /** `{"foo": 5.0}` parses to an object whose one member maps `foo` to the number `5.0`. */
  lemma FooNumParsed()
    ensures JsonParse(FOO_NUM) == Success(Object(Single("foo", Number("5.0"))))
  {
    FooNumTokens();
    FooNumTexts(FOO_NUM);
    FooNumParsedFrom(FOO_NUM, FOO_NUM_TOKENS);
  }

  lemma FooNumParsedFrom(src: string, toks: seq<Token>)
    requires toks == FOO_NUM_TOKENS && Lex(src, 0) == Lexed(toks, 0) && InBounds(src, toks)
    requires Text(src, toks[2]) == "foo" && Text(src, toks[5]) == "5.0"
    ensures JsonParse(src) == Success(Object(Single("foo", Number("5.0"))))
  {
    LexedParsable(src);
    FooNumShape(src, toks);
    KeyedMemberAt(src, toks, 0, "foo", Number("5.0"), 6);
    ParsedDocument(src, toks, Parsed(Object(Single("foo", Number("5.0"))), 7));
  }

  /** The tokens of `{"foo": 5.0}` are an object of one member whose value is the number token 5. */
  lemma FooNumShape(src: string, toks: seq<Token>)
    requires toks == FOO_NUM_TOKENS && Parsable(src, toks) && Text(src, toks[5]) == "5.0"
    ensures OneMemberShape(toks, 0, 6)
    ensures ParseValue(src, toks, 5) == Success(Parsed(Number("5.0"), 6))
  {
  }

  /** `{}` parses to an object with no members. */
  lemma EmptyObjectParsed(src: string)
    requires src == "{}"
    ensures JsonParse(src) == Success(Object(ObjectMap.Init()))
  {
    var toks := [Token(0, 1, OpenBrace), Token(1, 1, CloseBrace)];
    EmitFirst(src, toks, 1, 1);
    EmitFirst(src, toks, 0, 0);
    assert toks[0..] == toks;
    LexedParsable(src);
    assert ParseMembers(src, toks, 1, ObjectMap.Init()) == Success(Parsed(Object(ObjectMap.Init()), 2));
  }

  const MISSING_VALUE: string := "{\"a\": }"

  const MISSING_VALUE_TOKENS: seq<Token> :=
    [Token(0, 1, OpenBrace), Token(1, 1, Quotation), Token(2, 1, Str), Token(3, 1, Quotation),
     Token(4, 1, Colon), Token(6, 1, CloseBrace)]

  /** In `{"a": }` the key is followed by `}` where a value should be: UNEXPECTED_TOKEN. */
  lemma MissingValueRejected()
    ensures Lex(MISSING_VALUE, 0) == Lexed(MISSING_VALUE_TOKENS, 0)
    ensures JsonParse(MISSING_VALUE) == Failure(UnexpectedToken)
  {
    MissingValueSteps(MISSING_VALUE);
    MissingValueFrom(MISSING_VALUE);
    MissingValueParse(MISSING_VALUE, MISSING_VALUE_TOKENS);
  }

  lemma MissingValueSteps(src: string)
    requires src == MISSING_VALUE
    ensures |src| == 7
    ensures StepAt(src, 0) == Emit(MISSING_VALUE_TOKENS[0]) && StepAt(src, 1) == Emit(MISSING_VALUE_TOKENS[1])
    ensures StepAt(src, 2) == Emit(MISSING_VALUE_TOKENS[2]) && StepAt(src, 3) == Emit(MISSING_VALUE_TOKENS[3])
    ensures StepAt(src, 4) == Emit(MISSING_VALUE_TOKENS[4]) && StepAt(src, 5) == Skip(6)
    ensures StepAt(src, 6) == Emit(MISSING_VALUE_TOKENS[5])
  {
    KeywordLiterals("a");
    StepOverLexeme(src, 2, Str, "a");
    StepOverRun(src, 5, 6, WhitespaceRun);
  }

  lemma MissingValueFrom(src: string)
    requires |src| == 7
    requires StepAt(src, 0) == Emit(MISSING_VALUE_TOKENS[0]) && StepAt(src, 1) == Emit(MISSING_VALUE_TOKENS[1])
    requires StepAt(src, 2) == Emit(MISSING_VALUE_TOKENS[2]) && StepAt(src, 3) == Emit(MISSING_VALUE_TOKENS[3])
    requires StepAt(src, 4) == Emit(MISSING_VALUE_TOKENS[4]) && StepAt(src, 5) == Skip(6)
    requires StepAt(src, 6) == Emit(MISSING_VALUE_TOKENS[5])
    ensures Lex(src, 0) == Lexed(MISSING_VALUE_TOKENS, 0)
  {
    var toks := MISSING_VALUE_TOKENS;
    EmitFirst(src, toks, 5, 6);
    LexSkip(src, 5, 6);
    EmitFirst(src, toks, 4, 4);
    EmitFirst(src, toks, 3, 3);
    EmitFirst(src, toks, 2, 2);
    EmitFirst(src, toks, 1, 1);
    EmitFirst(src, toks, 0, 0);
    assert toks[0..] == toks;
  }

  lemma MissingValueParse(src: string, toks: seq<Token>)
    requires toks == MISSING_VALUE_TOKENS && Lex(src, 0) == Lexed(toks, 0)
    ensures JsonParse(src) == Failure(UnexpectedToken)
  {
    LexedParsable(src);
    assert ParseMember(src, toks, 1, ObjectMap.Init()) == Failure(UnexpectedToken);
  }

  /** Input of blanks only has no tokens, so there is no first value: INDEX_GREATER_THAN_LEN. */
  lemma BlanksOnlyRejected(src: string)
    requires src == " \t\n"
    ensures JsonParse(src) == Failure(IndexGreaterThanLen)
  {
    StepOverRun(src, 0, 3, WhitespaceRun);
    LexSkip(src, 0, 3);
  }

  const NESTED: string := "{\"a\":{\"b\":{\"c\":true}}}"

  /** The tokens of `{"x":`, an object opening with a one-letter key, when its brace is at `p`. */
  function KeyOpening(p: nat): seq<Token>
  {
    [Token(p, 1, OpenBrace), Token(p + 1, 1, Quotation), Token(p + 2, 1, Str), Token(p + 3, 1, Quotation),
     Token(p + 4, 1, Colon)]
  }

  /** The lexer emits the five tokens of `{"x":` one after the other from `p`. */
  predicate KeyOpensAt(src: string, p: nat)
    requires p + 5 <= |src|
  {
    && StepAt(src, p) == Emit(Token(p, 1, OpenBrace))
    && StepAt(src, p + 1) == Emit(Token(p + 1, 1, Quotation))
    && StepAt(src, p + 2) == Emit(Token(p + 2, 1, Str))
    && StepAt(src, p + 3) == Emit(Token(p + 3, 1, Quotation))
    && StepAt(src, p + 4) == Emit(Token(p + 4, 1, Colon))
  }

  const NESTED_CLOSING: seq<Token> :=
    [Token(15, 4, True), Token(19, 1, CloseBrace), Token(20, 1, CloseBrace), Token(21, 1, CloseBrace)]

  const NESTED_TOKENS: seq<Token> := KeyOpening(0) + (KeyOpening(5) + (KeyOpening(10) + NESTED_CLOSING))

  /** The value of `{"a":{"b":{"c":true}}}`: three objects of one member each, innermost `true`. */
  function NestedValue(): Value
  {
    Object(Single("a", NestedMiddleValue()))
  }

  /** The value of `"a"` in the nested document: `{"b":{"c":true}}`. */
  function NestedMiddleValue(): Value
  {
    Object(Single("b", NestedInnerValue()))
  }

  /** The value of `"b"` in the nested document: `{"c":true}`. */
  function NestedInnerValue(): Value
  {
    Object(Single("c", Boolean(1)))
  }

  /** `{"a":{"b":{"c":true}}}` parses to three nested objects, the innermost mapping `c` to true. */
  lemma NestedParsed()
    ensures Lex(NESTED, 0) == Lexed(NESTED_TOKENS, 0)
    ensures JsonParse(NESTED) == Success(NestedValue())
  {
    NestedSteps(NESTED);
    NestedClosingSteps(NESTED);
    NestedClosingLexed(NESTED);
    NestedLexedFrom5(NESTED, KeyOpening(5) + (KeyOpening(10) + NESTED_CLOSING));
    NestedLexed(NESTED, KeyOpening(5) + (KeyOpening(10) + NESTED_CLOSING));
    NestedTexts(NESTED);
    NestedParsedFrom(NESTED, NESTED_TOKENS);
  }

  /** The lexer reads `{"a":{"b":{"c":` as three object openings with one-letter keys. */
  lemma NestedSteps(src: string)
    requires src == NESTED
    ensures |src| == 22
    ensures KeyOpensAt(src, 0) && KeyOpensAt(src, 5) && KeyOpensAt(src, 10)
  {
    NestedOpensA(src);
    NestedOpensB(src);
    NestedOpensC(src);
  }

  lemma NestedOpensA(src: string)
    requires src == NESTED
    ensures |src| == 22 && KeyOpensAt(src, 0)
  {
    KeyOpensAtChars(src, 0);
  }

  lemma NestedOpensB(src: string)
    requires src == NESTED
    ensures |src| == 22 && KeyOpensAt(src, 5)
  {
    KeyOpensAtChars(src, 5);
  }

  lemma NestedOpensC(src: string)
    requires src == NESTED
    ensures |src| == 22 && KeyOpensAt(src, 10)
  {
    KeyOpensAtChars(src, 10);
  }

  /** What the lexer does at each position it reaches in `true}}}`, the end of the document. */
  lemma NestedClosingSteps(src: string)
    requires src == NESTED
    ensures |src| == 22
    ensures StepAt(src, 15) == Emit(Token(15, 4, True)) && StepAt(src, 19) == Emit(Token(19, 1, CloseBrace))
    ensures StepAt(src, 20) == Emit(Token(20, 1, CloseBrace)) && StepAt(src, 21) == Emit(Token(21, 1, CloseBrace))
  {
    KeywordLiterals("true");
    StepOverLexeme(src, 15, True, "true");
  }

  /** `{`, a quote, one letter, a quote and `:` from `p` open an object with a one-letter key. */
  lemma KeyOpensAtChars(src: string, p: nat)
    requires p + 5 <= |src| && IsAlphabetic(src[p + 2])
    requires src[p] == '{' && src[p + 1] == '"' && src[p + 3] == '"' && src[p + 4] == ':'
    ensures KeyOpensAt(src, p)
  {
    var key := [src[p + 2]];
    KeywordLiterals(key);
    StepOverLexeme(src, p + 2, Str, key);
  }

  lemma NestedLexed(src: string, tail: seq<Token>)
    requires |src| == 22 && tail == KeyOpening(5) + (KeyOpening(10) + NESTED_CLOSING)
    requires KeyOpensAt(src, 0) && Lex(src, 5) == Lexed(tail, 0)
    ensures Lex(src, 0) == Lexed(NESTED_TOKENS, 0)
  {
    KeyOpeningLexed(src, 0, tail);
  }

  /** From its second brace, the document lexes to the last two object openings and the closing. */
  lemma NestedLexedFrom5(src: string, tail: seq<Token>)
    requires |src| == 22 && tail == KeyOpening(5) + (KeyOpening(10) + NESTED_CLOSING)
    requires KeyOpensAt(src, 5) && KeyOpensAt(src, 10)
    requires Lex(src, 15) == Lexed(NESTED_CLOSING, 0)
    ensures Lex(src, 5) == Lexed(tail, 0)
  {
    KeyOpeningLexed(src, 10, NESTED_CLOSING);
    KeyOpeningLexed(src, 5, KeyOpening(10) + NESTED_CLOSING);
  }

  /** `true}}}` at the end of the document lexes to the keyword and three close braces. */
  lemma NestedClosingLexed(src: string)
    requires |src| == 22
    requires StepAt(src, 15) == Emit(Token(15, 4, True)) && StepAt(src, 19) == Emit(Token(19, 1, CloseBrace))
    requires StepAt(src, 20) == Emit(Token(20, 1, CloseBrace)) && StepAt(src, 21) == Emit(Token(21, 1, CloseBrace))
    ensures Lex(src, 15) == Lexed(NESTED_CLOSING, 0)
  {
    var closing := NESTED_CLOSING;
    EmitFirst(src, closing, 3, 21);
    EmitFirst(src, closing, 2, 20);
    EmitFirst(src, closing, 1, 19);
    EmitFirst(src, closing, 0, 15);
    assert closing[0..] == closing;
  }

  /** Lexing from the start of `{"x":` yields its five tokens and then what lexing after it yields. */
  lemma KeyOpeningLexed(src: string, p: nat, tail: seq<Token>)
    requires p + 5 <= |src| && KeyOpensAt(src, p) && Lex(src, p + 5) == Lexed(tail, 0)
    ensures Lex(src, p) == Lexed(KeyOpening(p) + tail, 0)
  {
    var toks := KeyOpening(p) + tail;
    assert toks[5..] == tail;
    EmitFirst(src, toks, 4, p + 4);
    EmitFirst(src, toks, 3, p + 3);
    EmitFirst(src, toks, 2, p + 2);
    EmitFirst(src, toks, 1, p + 1);
    EmitFirst(src, toks, 0, p);
    assert toks[0..] == toks;
  }

  lemma NestedTexts(src: string)
    requires src == NESTED
    ensures |NESTED_TOKENS| == 19
    ensures Text(src, NESTED_TOKENS[2]) == "a" && Text(src, NESTED_TOKENS[7]) == "b"
    ensures Text(src, NESTED_TOKENS[12]) == "c"
  {
    assert NESTED_TOKENS[2] == Token(2, 1, Str) && src[2..3] == "a";
    assert NESTED_TOKENS[7] == Token(7, 1, Str) && src[7..8] == "b";
    assert NESTED_TOKENS[12] == Token(12, 1, Str) && src[12..13] == "c";
  }

  lemma NestedParsedFrom(src: string, toks: seq<Token>)
    requires toks == NESTED_TOKENS && Lex(src, 0) == Lexed(toks, 0) && InBounds(src, toks)
    requires Text(src, toks[2]) == "a" && Text(src, toks[7]) == "b" && Text(src, toks[12]) == "c"
    ensures JsonParse(src) == Success(NestedValue())
  {
    LexedParsable(src);
    NestedShape(toks);
    NestedInner(src, toks);
    NestedMiddle(src, toks);
    NestedOuter(src, toks);
    ParsedDocument(src, toks, Parsed(NestedValue(), 19));
  }

  /** The tokens of `{"a":{"b":{"c":true}}}` nest three objects of one member each. */
  lemma NestedShape(toks: seq<Token>)
    requires toks == NESTED_TOKENS
    ensures OneMemberShape(toks, 0, 18) && OneMemberShape(toks, 5, 17) && OneMemberShape(toks, 10, 16)
    ensures toks[15].tag == True
  {
  }

  /** The whole of `{"a":{"b":{"c":true}}}` is one value, ending after the last token. */
  lemma NestedOuter(src: string, toks: seq<Token>)
    requires Parsable(src, toks) && OneMemberShape(toks, 0, 18) && Text(src, toks[2]) == "a"
    requires ParseValue(src, toks, 5) == Success(Parsed(NestedMiddleValue(), 18))
    ensures ParseValue(src, toks, 0) == Success(Parsed(NestedValue(), 19))
  {
    KeyedMemberAt(src, toks, 0, "a", NestedMiddleValue(), 18);
  }

  /** `{"b":{"c":true}}` from token 5 is an object of one member that ends at token 17. */
  lemma NestedMiddle(src: string, toks: seq<Token>)
    requires Parsable(src, toks) && OneMemberShape(toks, 5, 17) && Text(src, toks[7]) == "b"
    requires ParseValue(src, toks, 10) == Success(Parsed(NestedInnerValue(), 17))
    ensures ParseValue(src, toks, 5) == Success(Parsed(NestedMiddleValue(), 18))
  {
    KeyedMemberAt(src, toks, 5, "b", NestedInnerValue(), 17);
  }

  /** `{"c":true}` from token 10 is an object of one member that ends at token 16. */
  lemma NestedInner(src: string, toks: seq<Token>)
    requires Parsable(src, toks) && OneMemberShape(toks, 10, 16) && toks[15].tag == True
    requires Text(src, toks[12]) == "c"
    ensures ParseValue(src, toks, 10) == Success(Parsed(NestedInnerValue(), 17))
  {
    KeyedMemberAt(src, toks, 10, "c", Boolean(1), 16);
  }

  // ---------------------------------------------------------------------------
  // The object map
  // ---------------------------------------------------------------------------

  /**
   * `number` inserted twice and then its anagram `rumben`: both keys hash to
   * the same bucket, the second insert of `number` adds no node, `rumben` is
   * put in front of it, and looking up `number` still finds its value.
   */
  lemma SameBucketExample(v: Value)
    ensures ObjectMap.Hashable("number") && ObjectMap.Hashable("rumben")
    ensures ObjectMap.BucketIndex("number") == ObjectMap.BucketIndex("rumben") == 9
    ensures var m := ObjectMap.Insert(ObjectMap.Insert(ObjectMap.Insert(ObjectMap.Init(), "number", v), "number", v), "rumben", v);
      && ObjectMap.Get(m, "number") == Some(v)
      && ObjectMap.Keys(m) == {"number", "rumben"}
      && ObjectMap.NodeCount(m.table) == 2
      && ObjectMap.ChainKeys(m.table[9].chain) == ["rumben", "number"]
  {
    SameBucketKeys("number", "rumben");
    SameBucketInserts("number", "rumben", v);
  }

  /** Insert `a` twice and then `b`, a different key of the same bucket. */
  lemma SameBucketInserts(a: string, b: string, v: Value)
    requires ObjectMap.Hashable(a) && ObjectMap.Hashable(b) && a != b
    requires ObjectMap.BucketIndex(a) == ObjectMap.BucketIndex(b)
    ensures var m := ObjectMap.Insert(ObjectMap.Insert(ObjectMap.Insert(ObjectMap.Init(), a, v), a, v), b, v);
      && ObjectMap.Get(m, a) == Some(v)
      && ObjectMap.Keys(m) == {a, b}
      && ObjectMap.NodeCount(m.table) == 2
      && ObjectMap.ChainKeys(m.table[ObjectMap.BucketIndex(a)].chain) == [b, a]
  {
    InsertTwice(a, b, v);
    InsertSecondKey(ObjectMap.Insert(ObjectMap.Insert(ObjectMap.Init(), a, v), a, v), a, b, v);
  }

  /** Into a map holding only `a`, inserting `b` of the same bucket puts `b` in front of `a`. */
  lemma InsertSecondKey(m: ObjectMap.Map<Value>, a: string, b: string, v: Value)
    requires ObjectMap.WellSized(m) && ObjectMap.Hashable(a) && ObjectMap.Hashable(b) && a != b
    requires ObjectMap.BucketIndex(a) == ObjectMap.BucketIndex(b)
    requires ObjectMap.Get(m, a) == Some(v) && ObjectMap.Get(m, b) == None
    requires ObjectMap.Keys(m) == {a} && ObjectMap.NodeCount(m.table) == 1
    requires ObjectMap.ChainKeys(m.table[ObjectMap.BucketIndex(a)].chain) == [a]
    ensures var r := ObjectMap.Insert(m, b, v);
      && ObjectMap.Get(r, a) == Some(v)
      && ObjectMap.Keys(r) == {a, b}
      && ObjectMap.NodeCount(r.table) == 2
      && ObjectMap.ChainKeys(r.table[ObjectMap.BucketIndex(a)].chain) == [b, a]
  {
    var r := ObjectMap.Insert(m, b, v);
    var i := ObjectMap.BucketIndex(a);
    ObjectMap.InsertNewKeyPrepends(m, b, v);
    ObjectMap.InsertThenGet(m, b, v, a);
    ObjectMap.InsertKeys(m, b, v);
    assert ObjectMap.ChainKeys(r.table[i].chain) == [b] + ObjectMap.ChainKeys(m.table[i].chain);
  }

  /** Inserting `a` twice leaves one node, under `a`, alone in its bucket. */
  lemma InsertTwice(a: string, b: string, v: Value)
    requires ObjectMap.Hashable(a) && ObjectMap.Hashable(b) && a != b
    ensures var m := ObjectMap.Insert(ObjectMap.Insert(ObjectMap.Init(), a, v), a, v);
      && ObjectMap.Get(m, a) == Some(v) && ObjectMap.Get(m, b) == None
      && ObjectMap.Keys(m) == {a}
      && ObjectMap.NodeCount(m.table) == 1
      && ObjectMap.ChainKeys(m.table[ObjectMap.BucketIndex(a)].chain) == [a]
  {
    ObjectMap.HashableBucketInRange(a);
    var i := ObjectMap.BucketIndex(a);
    var m1 := ObjectMap.Insert(ObjectMap.Init(), a, v);
    ObjectMap.InsertNewKeyPrepends(ObjectMap.Init(), a, v);
    ObjectMap.InsertThenGet(ObjectMap.Init(), a, v, b);
    ObjectMap.InsertKeys(ObjectMap.Init(), a, v);
    assert m1.table[i].chain == [ObjectMap.Node(a, v)];
    ObjectMap.InsertThenGet(m1, a, v, b);
    ObjectMap.InsertExistingKeepsPosition(m1, a, v);
    ObjectMap.InsertKeys(m1, a, v);
  }

  lemma SameBucketKeys(a: string, b: string)
    requires a == "number" && b == "rumben"
    ensures ObjectMap.Hashable(a) && ObjectMap.Hashable(b)
    ensures ObjectMap.BucketIndex(a) == ObjectMap.BucketIndex(b) == 9
  {
    ObjectMap.AsciiKeyHashable(a);
    ObjectMap.AsciiKeyHashable(b);
    SixLetterHash(a);
    SixLetterHash(b);
  }

  /** The hash of a six-letter key is the sum of its six letters. */
  lemma SixLetterHash(s: string)
    requires |s| == 6 && ObjectMap.IsAsciiKey(s)
    ensures ObjectMap.Hash(Some(s)) ==
      s[0] as int + s[1] as int + s[2] as int + s[3] as int + s[4] as int + s[5] as int
  {
    ObjectMap.CLengthIsFirstNul(s);
    assert s[..ObjectMap.CLength(s)] == s[..6] == s;
    assert s[..1][..0] == s[..0];
    assert ObjectMap.Sum(s[..1]) == s[0] as int;
    assert s[..2][..1] == s[..1];
    assert ObjectMap.Sum(s[..2]) == ObjectMap.Sum(s[..1]) + s[1] as int;
    assert s[..3][..2] == s[..2];
    assert ObjectMap.Sum(s[..3]) == ObjectMap.Sum(s[..2]) + s[2] as int;
    assert s[..4][..3] == s[..3];
    assert ObjectMap.Sum(s[..4]) == ObjectMap.Sum(s[..3]) + s[3] as int;
    assert s[..5][..4] == s[..4];
    assert ObjectMap.Sum(s[..5]) == ObjectMap.Sum(s[..4]) + s[4] as int;
    assert s[..6][..5] == s[..5];
    assert ObjectMap.Sum(s[..6]) == ObjectMap.Sum(s[..5]) + s[5] as int;
  }
}
