/**
 * The tokenizer of json.h: `token_stream_t_push`, the character classifiers
 * and `tokenize_json`.
 *
 * A token is a span (start, len) of the source buffer with a tag. `Lex` is the
 * reference definition, one token per call, and `Tokenize` is the C loop with
 * its `flag` and its inner scanning loops; the two are proved to agree.
 * The source buffer is the `size` characters the caller passes; runs stop at
 * its end.
 */
module Tokenizer {
  import opened Wrappers
  import ObjectMap

  /** Initial capacity of a token stream (STREAM_START_SIZE). */
  const STREAM_START_SIZE: nat := 10

  /** Return value of `tokenize_json` when it meets a character it cannot classify. */
  const LEX_FAILURE: int := 1

  datatype Tag =
    | OpenBrace | CloseBrace | OpenBracket | CloseBracket
    | Quotation | Comma | Colon
    | True | False | NullTag
    | Str | Num

  datatype Token = Token(start: nat, len: nat, tag: Tag)

  /** The characters of `src` a token spans. */
  function Text(src: string, t: Token): string
    requires t.start + t.len <= |src|
  {
    src[t.start..t.start + t.len]
  }

  // ---------------------------------------------------------------------------
  // Token stream
  // ---------------------------------------------------------------------------

  /** `token_stream_t`: the pushed tokens (`items[0..len)`) and the allocated capacity. */
  datatype Stream = Stream(items: seq<Token>, capacity: nat)

  /** `token_stream_t_init`. */
  function StreamInit(): Stream
  {
    Stream([], STREAM_START_SIZE)
  }

  /**
   * `token_stream_t_push`: initialise a stream of capacity 0, double the
   * capacity of a full one, then store the token at index `len`.
   */
  function Push(s: Stream, t: Token): (r: Stream)
    requires |s.items| <= s.capacity
    ensures |r.items| == |s.items| + 1 && r.items[|s.items|] == t
    ensures r.items[..|s.items|] == s.items
    ensures |r.items| <= r.capacity
    ensures s.capacity == 0 ==> r.capacity == STREAM_START_SIZE
    ensures 0 < s.capacity && |s.items| < s.capacity ==> r.capacity == s.capacity
    ensures 0 < s.capacity && |s.items| == s.capacity ==> r.capacity == 2 * s.capacity
  {
    var s := if s.capacity == 0 then StreamInit() else s;
    if |s.items| < s.capacity then Stream(s.items + [t], s.capacity)
    else Stream(s.items + [t], 2 * s.capacity)
  }

  // ---------------------------------------------------------------------------
  // Character classes
  // ---------------------------------------------------------------------------

  predicate IsWhitespace(c: char)
  {
    c == ' ' || c == '\t' || c == '\n'
  }

  predicate IsAlphabetic(c: char)
  {
    ('A' <= c <= 'Z') || ('a' <= c <= 'z') || c == '_'
  }

  predicate IsNumeric(c: char)
  {
    '0' <= c <= '9'
  }

  predicate IsAlphanumeric(c: char)
  {
    IsAlphabetic(c) || IsNumeric(c)
  }

  /** Characters a number run may continue with: digits and '.'. */
  predicate IsNumberChar(c: char)
  {
    IsNumeric(c) || c == '.'
  }

  /** The one-character tokens of the `switch` in `tokenize_json`. */
  function PunctuationTag(c: char): Option<Tag>
  {
    match c
    case '[' => Some(OpenBracket)
    case ']' => Some(CloseBracket)
    case '{' => Some(OpenBrace)
    case '}' => Some(CloseBrace)
    case ',' => Some(Comma)
    case ':' => Some(Colon)
    case '"' => Some(Quotation)
    case _ => None
  }

  predicate IsPunctuation(tag: Tag)
  {
    tag in {OpenBrace, CloseBrace, OpenBracket, CloseBracket, Quotation, Comma, Colon}
  }

  /** The character of a punctuation tag. */
  function PunctuationChar(tag: Tag): (c: char)
    requires IsPunctuation(tag)
    ensures PunctuationTag(c) == Some(tag)
  {
    match tag
    case OpenBracket => '['
    case CloseBracket => ']'
    case OpenBrace => '{'
    case CloseBrace => '}'
    case Comma => ','
    case Colon => ':'
    case Quotation => '"'
  }

  /** The literal names `tokenize_json` compares an identifier run against, with their tags. */
  const KEYWORDS: seq<(string, Tag)> := [("true", True), ("false", False), ("null", NullTag)]

  /** The tag of the first entry of `table` whose name is `word` (the `strcmp` chain), else STR. */
  function Lookup(word: string, table: seq<(string, Tag)>): Tag
  {
    if |table| == 0 then Str
    else if table[0].0 == word then table[0].1
    else Lookup(word, table[1..])
  }

  /** Reclassification of an identifier run: the three literal keywords, else a string body. */
  function Keyword(word: string): Tag
  {
    Lookup(word, KEYWORDS)
  }

  /** The keyword table read as the three `strcmp` tests of `tokenize_json`. */
  lemma KeywordLiterals(word: string)
    ensures Keyword(word) == True <==> word == "true"
    ensures Keyword(word) == False <==> word == "false"
    ensures Keyword(word) == NullTag <==> word == "null"
    ensures Keyword(word) == Str <==> word !in {"true", "false", "null"}
  {
    var t1 := KEYWORDS[1..];
    var t2 := t1[1..];
    assert Lookup(word, t2) == if word == "null" then NullTag else Lookup(word, t2[1..]);
    assert Lookup(word, t1) == if word == "false" then False else Lookup(word, t2);
  }

  // ---------------------------------------------------------------------------
  // Lexemes: what the text of a token of each tag looks like
  // ---------------------------------------------------------------------------

  /** A maximal-munch identifier: a letter or '_' followed by letters, digits and '_'. */
  predicate IsWord(s: string)
  {
    && |s| > 0
    && IsAlphabetic(s[0])
    && forall i :: 0 <= i < |s| ==> IsAlphanumeric(s[i])
  }

  /** A number run: a digit followed by digits and '.'. */
  predicate IsNumberText(s: string)
  {
    && |s| > 0
    && IsNumeric(s[0])
    && forall i :: 0 <= i < |s| ==> IsNumberChar(s[i])
  }

  /** `text` is a possible text of a token tagged `tag`. */
  predicate IsLexemeOf(tag: Tag, text: string)
  {
    if IsPunctuation(tag) then text == [PunctuationChar(tag)]
    else if tag == Num then IsNumberText(text)
    else IsWord(text) && Keyword(text) == tag
  }

  lemma WordIsAsciiKey(s: string)
    requires IsWord(s)
    ensures ObjectMap.IsAsciiKey(s)
  {
  }

  // ---------------------------------------------------------------------------
  // Reference lexer
  // ---------------------------------------------------------------------------

  /** The three kinds of character run the scanner consumes. */
  datatype Run = WhitespaceRun | WordRun | NumberRun

  /** `c` may continue a run of kind `run`. */
  predicate Continues(run: Run, c: char)
  {
    match run
    case WhitespaceRun => IsWhitespace(c)
    case WordRun => IsAlphanumeric(c)
    case NumberRun => IsNumberChar(c)
  }

  /** `run` continues over src[i..e) and not at src[e] (or e is the end of the buffer). */
  predicate MaximalRun(src: string, i: nat, e: nat, run: Run)
  {
    && i <= e <= |src|
    && (forall k :: i <= k < e ==> Continues(run, src[k]))
    && (e == |src| || !Continues(run, src[e]))
  }

  /** End of the maximal run of kind `run` that starts at `i`. */
  function RunEnd(src: string, i: nat, run: Run): (e: nat)
    requires i <= |src|
    ensures i <= e <= |src|
    ensures i < |src| && Continues(run, src[i]) ==> i < e
    decreases |src| - i
  {
    if i == |src| || !Continues(run, src[i]) then i else RunEnd(src, i + 1, run)
  }

  lemma {:induction false} RunEndIsMaximal(src: string, i: nat, run: Run)
    requires i <= |src|
    ensures MaximalRun(src, i, RunEnd(src, i, run), run)
    decreases |src| - i
  {
    if i < |src| && Continues(run, src[i]) {
      RunEndIsMaximal(src, i + 1, run);
    }
  }

  lemma MaximalRunUnique(src: string, i: nat, e: nat, e': nat, run: Run)
    requires MaximalRun(src, i, e, run) && MaximalRun(src, i, e', run)
    ensures e == e'
  {
  }

  /** What one iteration of the scanning loop does at position `i`. */
  datatype Step = Skip(next: nat) | Emit(token: Token) | Reject

  function StepAt(src: string, i: nat): (r: Step)
    requires i < |src|
    ensures r.Skip? ==> i < r.next <= |src|
    ensures r.Emit? ==> r.token.start == i && 1 <= r.token.len && i + r.token.len <= |src|
  {
    var c := src[i];
    match PunctuationTag(c)
    case Some(tag) => Emit(Token(i, 1, tag))
    case None =>
      if IsWhitespace(c) then
        Skip(RunEnd(src, i, WhitespaceRun))
      else if IsAlphabetic(c) then
        var e := RunEnd(src, i, WordRun);
        Emit(Token(i, e - i, Keyword(src[i..e])))
      else if IsNumeric(c) then
        var e := RunEnd(src, i, NumberRun);
        Emit(Token(i, e - i, Num))
      else
        Reject
  }

  /** How the first character of the remaining input decides the step taken. */
  lemma StepClassification(src: string, i: nat)
    requires i < |src|
    ensures PunctuationTag(src[i]).Some? ==>
      StepAt(src, i) == Emit(Token(i, 1, PunctuationTag(src[i]).value))
    ensures IsWhitespace(src[i]) ==>
      StepAt(src, i).Skip? && MaximalRun(src, i, StepAt(src, i).next, WhitespaceRun)
    ensures IsAlphabetic(src[i]) ==>
      && StepAt(src, i).Emit?
      && MaximalRun(src, i, i + StepAt(src, i).token.len, WordRun)
      && StepAt(src, i).token.tag == Keyword(Text(src, StepAt(src, i).token))
    ensures IsNumeric(src[i]) ==>
      && StepAt(src, i).Emit?
      && MaximalRun(src, i, i + StepAt(src, i).token.len, NumberRun)
      && StepAt(src, i).token.tag == Num
    ensures StepAt(src, i).Reject? <==>
      PunctuationTag(src[i]).None? && !IsWhitespace(src[i]) && !IsAlphanumeric(src[i])
  {
    RunEndIsMaximal(src, i, WhitespaceRun);
    RunEndIsMaximal(src, i, WordRun);
    RunEndIsMaximal(src, i, NumberRun);
  }

  /** Every token the scanner emits spells a lexeme of its own tag. */
  lemma StepLexeme(src: string, i: nat)
    requires i < |src| && StepAt(src, i).Emit?
    ensures IsLexemeOf(StepAt(src, i).token.tag, Text(src, StepAt(src, i).token))
  {
    var c := src[i];
    if PunctuationTag(c).Some? {
      assert PunctuationChar(PunctuationTag(c).value) == c;
    } else if IsAlphabetic(c) {
      RunEndIsMaximal(src, i, WordRun);
      KeywordLiterals(Text(src, StepAt(src, i).token));
    } else {
      var e := RunEnd(src, i, NumberRun);
      RunEndIsMaximal(src, i, NumberRun);
      var text := Text(src, StepAt(src, i).token);
      assert text == src[i..e];
      forall k | 0 <= k < |text|
        ensures IsNumberChar(text[k])
      {
        assert text[k] == src[i + k] && Continues(NumberRun, src[i + k]);
      }
    }
  }

  /** The tokens pushed from position `i` on, and the code `tokenize_json` returns. */
  datatype Lexed = Lexed(tokens: seq<Token>, code: int)

  predicate Ordered(tokens: seq<Token>)
  {
    forall k :: 0 <= k < |tokens| - 1 ==> tokens[k].start + tokens[k].len <= tokens[k + 1].start
  }

  /** Every token lies inside `src`. */
  predicate InBounds(src: string, tokens: seq<Token>)
  {
    forall k :: 0 <= k < |tokens| ==> tokens[k].start + tokens[k].len <= |src|
  }

  /** Every token is non-empty and lies in src[lo..]. */
  predicate Spans(src: string, lo: nat, tokens: seq<Token>)
  {
    forall k :: 0 <= k < |tokens| ==>
      && lo <= tokens[k].start
      && 1 <= tokens[k].len
      && tokens[k].start + tokens[k].len <= |src|
  }

  function Lex(src: string, i: nat): (r: Lexed)
    requires i <= |src|
    ensures r.code == 0 || r.code == LEX_FAILURE
    ensures InBounds(src, r.tokens)
    decreases |src| - i
  {
    if i == |src| then Lexed([], 0)
    else
      match StepAt(src, i)
      case Skip(e) => Lex(src, e)
      case Emit(t) =>
        var rest := Lex(src, t.start + t.len);
        Lexed([t] + rest.tokens, rest.code)
      case Reject => Lexed([], LEX_FAILURE)
  }

  /** The tokens lie, in order and without overlap, inside src[i..]. */
  lemma {:induction false} LexSpans(src: string, i: nat)
    requires i <= |src|
    ensures Spans(src, i, Lex(src, i).tokens)
    ensures Ordered(Lex(src, i).tokens)
    decreases |src| - i, 1
  {
    if i < |src| {
      var step := StepAt(src, i);
      if step.Skip? {
        LexSkip(src, i, step.next);
        LexSpans(src, step.next);
      } else if step.Emit? {
        LexSpansEmit(src, i, step.token);
      }
    }
  }

  lemma {:induction false} LexSpansEmit(src: string, i: nat, t: Token)
    requires i < |src| && StepAt(src, i) == Emit(t)
    ensures Spans(src, i, Lex(src, i).tokens)
    ensures Ordered(Lex(src, i).tokens)
    decreases |src| - i, 0
  {
    LexEmit(src, i, t);
    LexSpans(src, i + t.len);
    SpansCons(src, i, t, Lex(src, i + t.len).tokens);
  }

  lemma SpansCons(src: string, i: nat, t: Token, rest: seq<Token>)
    requires t.start == i && 1 <= t.len && i + t.len <= |src|
    requires Spans(src, i + t.len, rest) && Ordered(rest)
    ensures Spans(src, i, [t] + rest) && Ordered([t] + rest)
  {
  }

  /** Every token `tokenize_json` pushes is the one the scanner builds at its start. */
  lemma {:induction false} LexTokenIsStep(src: string, i: nat, k: nat)
    requires i <= |src| && k < |Lex(src, i).tokens|
    ensures Lex(src, i).tokens[k].start < |src|
    ensures StepAt(src, Lex(src, i).tokens[k].start) == Emit(Lex(src, i).tokens[k])
    decreases |src| - i, 1
  {
    var step := StepAt(src, i);
    if step.Skip? {
      LexSkip(src, i, step.next);
      LexTokenIsStep(src, step.next, k);
    } else if step.Emit? {
      LexTokenIsStepEmit(src, i, step.token, k);
    } else {
      LexReject(src, i);
    }
  }

  lemma {:induction false} LexTokenIsStepEmit(src: string, i: nat, t: Token, k: nat)
    requires i < |src| && StepAt(src, i) == Emit(t) && k < |Lex(src, i).tokens|
    ensures Lex(src, i).tokens[k].start < |src|
    ensures StepAt(src, Lex(src, i).tokens[k].start) == Emit(Lex(src, i).tokens[k])
    decreases |src| - i, 0
  {
    LexEmit(src, i, t);
    var rest := Lex(src, i + t.len).tokens;
    if k > 0 {
      LexTokenIsStep(src, i + t.len, k - 1);
      assert Lex(src, i).tokens[k] == rest[k - 1];
    }
  }

  /** Every token `tokenize_json` pushes spells a lexeme of its tag. */
  lemma LexTokenIsLexeme(src: string, k: nat)
    requires k < |Lex(src, 0).tokens|
    ensures IsLexemeOf(Lex(src, 0).tokens[k].tag, Text(src, Lex(src, 0).tokens[k]))
  {
    var t := Lex(src, 0).tokens[k];
    LexTokenIsStep(src, 0, k);
    StepLexeme(src, t.start);
  }

  // ---------------------------------------------------------------------------
  // tokenize_json
  // ---------------------------------------------------------------------------

  /**
   * The identifier and number scans of `tokenize_json`: advance while the run
   * continues, counting from a length of 1, then step back one character.
   */
  method ScanRun(src: string, start: nat, run: Run) returns (idx: nat, len: nat)
    requires start < |src| && Continues(run, src[start])
    ensures MaximalRun(src, start, start + len, run)
    ensures idx == start + len - 1
  {
    idx := start;
    len := 1;
    while idx < |src| && Continues(run, src[idx])
      invariant start <= idx <= |src|
      invariant len == idx - start + 1
      invariant forall k :: start <= k < idx ==> Continues(run, src[k])
    {
      idx := idx + 1;
      len := len + 1;
    }
    idx := idx - 1;
    len := len - 1;
  }

  /** The whitespace skip of `tokenize_json`. */
  method SkipWhitespace(src: string, start: nat) returns (idx: nat)
    requires start <= |src|
    ensures MaximalRun(src, start, idx, WhitespaceRun)
  {
    idx := start;
    while idx < |src| && IsWhitespace(src[idx])
      invariant start <= idx <= |src|
      invariant forall k :: start <= k < idx ==> IsWhitespace(src[k])
    {
      idx := idx + 1;
    }
  }

  lemma LexEmit(src: string, i: nat, t: Token)
    requires i < |src| && StepAt(src, i) == Emit(t)
    ensures Lex(src, i) == Lexed([t] + Lex(src, i + t.len).tokens, Lex(src, i + t.len).code)
  {
  }

  lemma LexCons(src: string, i: nat, t: Token, e: nat, tail: seq<Token>)
    requires i < |src| && StepAt(src, i) == Emit(t) && e == i + t.len
    requires e <= |src| && Lex(src, e) == Lexed(tail, 0)
    ensures Lex(src, i) == Lexed([t] + tail, 0)
  {
    LexEmit(src, i, t);
  }

  lemma LexReject(src: string, i: nat)
    requires i < |src| && StepAt(src, i).Reject?
    ensures Lex(src, i) == Lexed([], LEX_FAILURE)
  {
  }

  lemma LexSkip(src: string, i: nat, e: nat)
    requires i < |src| && StepAt(src, i) == Skip(e)
    ensures Lex(src, i) == Lex(src, e)
  {
  }

  /**
   * The `switch` on `json[idx]` in one iteration of `tokenize_json`: the token
   * it builds (`flag` set), the position the whitespace skip stops at (`flag`
   * cleared), or a rejected character.
   */
  method ScanAt(src: string, idx: nat) returns (step: Step)
    requires idx < |src|
    ensures step == StepAt(src, idx)
  {
    var start := idx;
    var c := src[idx];
    var punct := PunctuationTag(c);
    if punct.Some? {
      return Emit(Token(start, 1, punct.value));
    } else if IsWhitespace(c) {
      var next := SkipWhitespace(src, idx);
      RunEndIsMaximal(src, start, WhitespaceRun);
      MaximalRunUnique(src, start, next, StepAt(src, start).next, WhitespaceRun);
      return Skip(next);
    } else if IsAlphabetic(c) {
      var last, len := ScanRun(src, idx, WordRun);
      RunEndIsMaximal(src, start, WordRun);
      MaximalRunUnique(src, start, start + len, start + StepAt(src, start).token.len, WordRun);
      return Emit(Token(start, len, Keyword(src[start..start + len])));
    } else if IsNumeric(c) {
      var last, len := ScanRun(src, idx, NumberRun);
      RunEndIsMaximal(src, start, NumberRun);
      MaximalRunUnique(src, start, start + len, start + StepAt(src, start).token.len, NumberRun);
      return Emit(Token(start, len, Num));
    } else {
      return Reject;
    }
  }

  /** `tokenize_json(src, |src|, stream)`: returns the code and the stream it filled. */
  method Tokenize(src: string) returns (code: int, stream: Stream)
    ensures code == Lex(src, 0).code
    ensures stream.items == Lex(src, 0).tokens
    ensures |stream.items| <= stream.capacity
  {
    stream := StreamInit();
    var idx: nat := 0;
    while idx < |src|
      invariant idx <= |src|
      invariant |stream.items| <= stream.capacity
      invariant stream.items + Lex(src, idx).tokens == Lex(src, 0).tokens
      invariant Lex(src, idx).code == Lex(src, 0).code
      decreases |src| - idx
    {
      var step := ScanAt(src, idx);
      match step
      case Reject =>
        return LEX_FAILURE, stream;
      case Skip(next) =>
        LexSkip(src, idx, next);
        idx := next;
      case Emit(t) =>
        LexEmit(src, idx, t);
        assert stream.items + [t] + Lex(src, idx + t.len).tokens == stream.items + Lex(src, idx).tokens;
        stream := Push(stream, t);
        idx := idx + t.len;
    }
    code := 0;
  }

  // ---------------------------------------------------------------------------
  // Coverage: the tokens spell the input without its whitespace
  // ---------------------------------------------------------------------------

  /** `s` with its space, tab and newline characters removed. */
  function Stripped(s: string): string
  {
    if |s| == 0 then []
    else (if IsWhitespace(s[0]) then [] else [s[0]]) + Stripped(s[1..])
  }

  /** The texts of `tokens`, concatenated in order. */
  function Texts(src: string, tokens: seq<Token>): string
    requires InBounds(src, tokens)
  {
    if |tokens| == 0 then [] else Text(src, tokens[0]) + Texts(src, tokens[1..])
  }

  lemma {:induction false} StrippedAppend(a: string, b: string)
    ensures Stripped(a + b) == Stripped(a) + Stripped(b)
  {
    if |a| > 0 {
      assert (a + b)[1..] == a[1..] + b;
      StrippedAppend(a[1..], b);
    } else {
      assert a + b == b;
    }
  }

  lemma {:induction false} StrippedKeeps(s: string)
    requires forall i :: 0 <= i < |s| ==> !IsWhitespace(s[i])
    ensures Stripped(s) == s
  {
    if |s| > 0 {
      StrippedKeeps(s[1..]);
    }
  }

  lemma {:induction false} StrippedDrops(s: string)
    requires forall i :: 0 <= i < |s| ==> IsWhitespace(s[i])
    ensures Stripped(s) == []
  {
    if |s| > 0 {
      StrippedDrops(s[1..]);
    }
  }

  /** No token the scanner emits covers a whitespace character. */
  lemma EmitHasNoWhitespace(src: string, i: nat, t: Token)
    requires i < |src| && StepAt(src, i) == Emit(t)
    ensures forall k :: t.start <= k < t.start + t.len ==> !IsWhitespace(src[k])
  {
    if PunctuationTag(src[i]).None? {
      RunEndIsMaximal(src, i, WordRun);
      RunEndIsMaximal(src, i, NumberRun);
    }
  }

  lemma TextsCons(src: string, t: Token, rest: seq<Token>)
    requires t.start + t.len <= |src| && InBounds(src, rest)
    ensures Texts(src, [t] + rest) == Text(src, t) + Texts(src, rest)
  {
    assert ([t] + rest)[1..] == rest;
  }

  lemma CoverageSkip(src: string, i: nat, e: nat)
    requires i <= e <= |src|
    requires forall k :: i <= k < e ==> IsWhitespace(src[k])
    ensures Stripped(src[i..]) == Stripped(src[e..])
  {
    assert src[i..] == src[i..e] + src[e..];
    StrippedAppend(src[i..e], src[e..]);
    StrippedDrops(src[i..e]);
  }

  /** A token's text with no whitespace in it is its own stripped form. */
  lemma TextKeeps(src: string, t: Token)
    requires t.start + t.len <= |src|
    requires forall k :: t.start <= k < t.start + t.len ==> !IsWhitespace(src[k])
    ensures Stripped(Text(src, t)) == Text(src, t)
  {
    var x := Text(src, t);
    assert forall k :: 0 <= k < |x| ==> x[k] == src[t.start + k];
    StrippedKeeps(x);
  }

  lemma StrippedSplit(src: string, i: nat, e: nat)
    requires i <= e <= |src|
    ensures Stripped(src[i..]) == Stripped(src[i..e]) + Stripped(src[e..])
  {
    assert src[i..] == src[i..e] + src[e..];
    StrippedAppend(src[i..e], src[e..]);
  }

  lemma CoverageEmit(src: string, t: Token, rest: seq<Token>)
    requires t.start + t.len <= |src|
    requires forall k :: t.start <= k < t.start + t.len ==> !IsWhitespace(src[k])
    requires InBounds(src, rest)
    requires Texts(src, rest) == Stripped(src[t.start + t.len..])
    ensures Texts(src, [t] + rest) == Stripped(src[t.start..])
  {
    TextsCons(src, t, rest);
    StrippedSplit(src, t.start, t.start + t.len);
    TextKeeps(src, t);
  }

  /** When lexing succeeds, the token texts, in order, spell the input with its whitespace removed. */
  lemma {:induction false} LexCoverage(src: string, i: nat)
    requires i <= |src|
    requires Lex(src, i).code == 0
    ensures Texts(src, Lex(src, i).tokens) == Stripped(src[i..])
    decreases |src| - i, 1
  {
    if i < |src| {
      var step := StepAt(src, i);
      if step.Skip? {
        LexSkip(src, i, step.next);
        LexCoverage(src, step.next);
        StepClassification(src, i);
        CoverageSkip(src, i, step.next);
      } else if step.Emit? {
        LexCoverageEmit(src, i, step.token);
      } else {
        LexReject(src, i);
      }
    }
  }

  lemma {:induction false} LexCoverageEmit(src: string, i: nat, t: Token)
    requires i < |src| && StepAt(src, i) == Emit(t)
    requires Lex(src, i).code == 0
    ensures Texts(src, Lex(src, i).tokens) == Stripped(src[i..])
    decreases |src| - i, 0
  {
    var rest := Lex(src, i + t.len);
    LexEmit(src, i, t);
    LexCoverage(src, i + t.len);
    CoverageEmitAt(src, i, t, rest.tokens);
  }

  /** An emitted token followed by tokens covering the rest covers the input from its start. */
  lemma CoverageEmitAt(src: string, i: nat, t: Token, rest: seq<Token>)
    requires i < |src| && StepAt(src, i) == Emit(t)
    requires InBounds(src, rest)
    requires Texts(src, rest) == Stripped(src[i + t.len..])
    ensures Texts(src, [t] + rest) == Stripped(src[i..])
  {
    EmitHasNoWhitespace(src, i, t);
    CoverageEmit(src, t, rest);
  }

  /** A character outside every class the tokenizer knows. */
  predicate IsStray(c: char)
  {
    PunctuationTag(c).None? && !IsWhitespace(c) && !IsNumberChar(c) && !IsAlphabetic(c)
  }

  /** Any stray character in the input makes `tokenize_json` return 1. */
  lemma {:induction false} LexRejectsStray(src: string, i: nat, k: nat)
    requires i <= k < |src| && IsStray(src[k])
    ensures Lex(src, i).code == LEX_FAILURE
    decreases |src| - i
  {
    StepClassification(src, i);
    match StepAt(src, i)
    case Skip(e) =>
      LexRejectsStray(src, e, k);
    case Emit(t) =>
      LexRejectsStray(src, t.start + t.len, k);
    case Reject =>
  }

  /** Input made only of punctuation, whitespace and alphanumerics always tokenizes. */
  lemma {:induction false} LexAcceptsClassified(src: string, i: nat)
    requires i <= |src|
    requires forall k :: i <= k < |src| ==>
      PunctuationTag(src[k]).Some? || IsWhitespace(src[k]) || IsAlphanumeric(src[k])
    ensures Lex(src, i).code == 0
    decreases |src| - i
  {
    if i < |src| {
      match StepAt(src, i)
      case Skip(e) => LexAcceptsClassified(src, e);
      case Emit(t) => LexAcceptsClassified(src, t.start + t.len);
    }
  }

  // ---------------------------------------------------------------------------
  // Inverse: lexing a sequence of separated lexemes gives them back
  // ---------------------------------------------------------------------------

  datatype Lexeme = Lexeme(tag: Tag, text: string)

  /** The text of a sequence of lexemes, with nothing between them. */
  function Concat(ls: seq<Lexeme>): string
  {
    if |ls| == 0 then [] else ls[0].text + Concat(ls[1..])
  }

  /** The tokens spanning `Concat(ls)` when it is placed at `offset`. */
  function Positioned(ls: seq<Lexeme>, offset: nat): seq<Token>
  {
    if |ls| == 0 then []
    else [Token(offset, |ls[0].text|, ls[0].tag)] + Positioned(ls[1..], offset + |ls[0].text|)
  }

  /** Every lexeme's text is a possible text of its tag. */
  predicate WellFormedLexemes(ls: seq<Lexeme>)
  {
    |ls| == 0 || (IsLexemeOf(ls[0].tag, ls[0].text) && WellFormedLexemes(ls[1..]))
  }

  /** No two neighbouring lexemes could run together: one of each pair is punctuation. */
  predicate Separated(ls: seq<Lexeme>)
  {
    |ls| <= 1 || ((IsPunctuation(ls[0].tag) || IsPunctuation(ls[1].tag)) && Separated(ls[1..]))
  }

  lemma PunctuationIsNoRunChar(c: char)
    requires PunctuationTag(c).Some?
    ensures !IsWhitespace(c) && !IsAlphanumeric(c) && !IsNumberChar(c)
  {
  }

  /** A lexeme followed by the end of input or by punctuation is scanned as one token. */
  lemma StepOverLexeme(src: string, i: nat, tag: Tag, text: string)
    requires IsLexemeOf(tag, text)
    requires i + |text| <= |src| && src[i..i + |text|] == text
    requires IsPunctuation(tag) || i + |text| == |src| || PunctuationTag(src[i + |text|]).Some?
    ensures StepAt(src, i) == Emit(Token(i, |text|, tag))
  {
    var e := i + |text|;
    assert forall k :: i <= k < e ==> src[k] == text[k - i];
    if IsPunctuation(tag) {
      assert PunctuationTag(src[i]) == Some(tag);
    } else {
      if e < |src| {
        PunctuationIsNoRunChar(src[e]);
      }
      if tag == Num {
        StepOverRun(src, i, e, NumberRun);
      } else {
        StepOverRun(src, i, e, WordRun);
      }
    }
  }

  /**
   * A step that emits token `k` of a stream, followed by lexing that yields
   * the stream's later tokens, lexes to the stream from `k` on.
   */
  lemma EmitFirst(src: string, toks: seq<Token>, k: nat, i: nat)
    requires k < |toks| && i < |src| && StepAt(src, i) == Emit(toks[k])
    requires Lex(src, toks[k].start + toks[k].len) == Lexed(toks[k + 1..], 0)
    ensures Lex(src, i) == Lexed(toks[k..], 0)
  {
    LexCons(src, i, toks[k], toks[k].start + toks[k].len, toks[k + 1..]);
    assert [toks[k]] + toks[k + 1..] == toks[k..];
  }

  lemma StepOverRun(src: string, i: nat, e: nat, run: Run)
    requires i <= e <= |src|
    requires forall k :: i <= k < e ==> Continues(run, src[k])
    requires e == |src| || !Continues(run, src[e])
    ensures RunEnd(src, i, run) == e
  {
    RunEndIsMaximal(src, i, run);
    MaximalRunUnique(src, i, e, RunEnd(src, i, run), run);
  }

  /** The text of a non-empty run of lexemes: the first one's, then the rest's. */
  lemma ConcatCons(src: string, i: nat, ls: seq<Lexeme>)
    requires |ls| > 0 && i <= |src| && src[i..] == Concat(ls)
    ensures i + |ls[0].text| <= |src|
    ensures src[i..i + |ls[0].text|] == ls[0].text
    ensures src[i + |ls[0].text|..] == Concat(ls[1..])
  {
    var a := ls[0].text;
    assert src[i..] == a + Concat(ls[1..]);
    assert src[i..i + |a|] == src[i..][..|a|];
    assert src[i + |a|..] == src[i..][|a|..];
  }

  /** Where `src` continues with a run of lexemes, the first of them is scanned as one token. */
  lemma {:induction false} FirstLexeme(src: string, i: nat, ls: seq<Lexeme>)
    requires |ls| > 0 && WellFormedLexemes(ls) && Separated(ls)
    requires i <= |src| && src[i..] == Concat(ls)
    ensures i < |src|
    ensures StepAt(src, i) == Emit(Token(i, |ls[0].text|, ls[0].tag))
  {
    var a := ls[0].text;
    var e := i + |a|;
    ConcatCons(src, i, ls);
    if |ls| > 1 && !IsPunctuation(ls[0].tag) {
      var b := ls[1].text;
      assert IsPunctuation(ls[1].tag) && IsLexemeOf(ls[1].tag, b);
      ConcatCons(src, e, ls[1..]);
      assert src[e] == src[e..e + |b|][0] == PunctuationChar(ls[1].tag);
    } else if |ls| == 1 {
      assert Concat(ls[1..]) == [];
    }
    StepOverLexeme(src, i, ls[0].tag, a);
  }

  /** Where `src` continues with well-formed, separated lexemes, lexing yields exactly their tokens and code 0. */
  lemma {:induction false} LexLexemesAt(src: string, i: nat, ls: seq<Lexeme>)
    requires WellFormedLexemes(ls) && Separated(ls)
    requires i <= |src| && src[i..] == Concat(ls)
    ensures Lex(src, i) == Lexed(Positioned(ls, i), 0)
    decreases |ls|, 1
  {
    if |ls| == 0 {
      assert |src[i..]| == 0;
    } else {
      LexLexemesCons(src, i, ls);
    }
  }

  lemma {:induction false} LexLexemesCons(src: string, i: nat, ls: seq<Lexeme>)
    requires |ls| > 0 && WellFormedLexemes(ls) && Separated(ls)
    requires i <= |src| && src[i..] == Concat(ls)
    ensures Lex(src, i) == Lexed(Positioned(ls, i), 0)
    decreases |ls|, 0
  {
    var e := i + |ls[0].text|;
    var t := Token(i, |ls[0].text|, ls[0].tag);
    FirstLexemeStep(src, i, ls);
    LexLexemesAt(src, e, ls[1..]);
    LexCons(src, i, t, e, Positioned(ls[1..], e));
  }

  /** What lexing the first of a run of lexemes leaves: the rest of the run, well-formed and separated. */
  lemma FirstLexemeStep(src: string, i: nat, ls: seq<Lexeme>)
    requires |ls| > 0 && WellFormedLexemes(ls) && Separated(ls)
    requires i <= |src| && src[i..] == Concat(ls)
    ensures i < |src| && StepAt(src, i) == Emit(Token(i, |ls[0].text|, ls[0].tag))
    ensures i + |ls[0].text| <= |src| && src[i + |ls[0].text|..] == Concat(ls[1..])
    ensures WellFormedLexemes(ls[1..]) && Separated(ls[1..])
    ensures Positioned(ls, i) == [Token(i, |ls[0].text|, ls[0].tag)] + Positioned(ls[1..], i + |ls[0].text|)
  {
    ConcatCons(src, i, ls);
    FirstLexeme(src, i, ls);
  }

  /** Where every lexeme is one character long, the `k`-th token starts `k` characters after the offset. */
  lemma {:induction false} PositionedUnits(ls: seq<Lexeme>, offset: nat)
    requires forall k :: 0 <= k < |ls| ==> |ls[k].text| == 1
    ensures |Positioned(ls, offset)| == |ls|
    ensures forall k :: 0 <= k < |ls| ==> Positioned(ls, offset)[k] == Token(offset + k, 1, ls[k].tag)
    decreases |ls|
  {
    if |ls| > 0 {
      PositionedUnits(ls[1..], offset + 1);
      var p := Positioned(ls, offset);
      assert p == [Token(offset, 1, ls[0].tag)] + Positioned(ls[1..], offset + 1);
      forall k | 1 <= k < |ls|
        ensures p[k] == Token(offset + k, 1, ls[k].tag)
      {
        assert ls[1..][k - 1] == ls[k];
      }
    }
  }

  lemma LexLexemes(ls: seq<Lexeme>)
    requires WellFormedLexemes(ls) && Separated(ls)
    ensures Lex(Concat(ls), 0) == Lexed(Positioned(ls, 0), 0)
  {
    LexLexemesAt(Concat(ls), 0, ls);
  }

  /** Each token of `Positioned(ls, i)` spans, within a `src` that continues with `ls` at `i`, exactly its lexeme's text. */
  lemma {:induction false} PositionedTexts(src: string, i: nat, ls: seq<Lexeme>)
    requires i <= |src| && src[i..] == Concat(ls)
    ensures |Positioned(ls, i)| == |ls|
    ensures forall k :: 0 <= k < |ls| ==>
      && Positioned(ls, i)[k].tag == ls[k].tag
      && Positioned(ls, i)[k].start + Positioned(ls, i)[k].len <= |src|
      && Text(src, Positioned(ls, i)[k]) == ls[k].text
    decreases |ls|
  {
    if |ls| > 0 {
      ConcatCons(src, i, ls);
      PositionedTexts(src, i + |ls[0].text|, ls[1..]);
    }
  }
}
