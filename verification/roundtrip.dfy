/**
 * Rendering values back to JSON text, and the round trip through the parser.
 *
 * json.h has no printer for values (its only printers, `token_t_print` and
 * `token_t_src_print`, print tokens), so the renderer here is the parser's
 * partner: the text of every value the parser can build, laid out as lexemes
 * with nothing between them.  An object's members are written in the order of `Entries`, which is
 * the order that makes the member loop of `parse_object` rebuild exactly the
 * same map.  The main results are that parsing the rendering of a value gives
 * the value back, and that every value `json_parse` returns can be rendered.
 */
module RoundTrip {
  import opened Wrappers
  import ObjectMap
  import opened Tokenizer
  import opened Parser

  // ---------------------------------------------------------------------------
  // Which values have a rendering
  // ---------------------------------------------------------------------------

  /** A string the tokenizer reads back as one STR token: an identifier that is not a keyword. */
  predicate IsKey(s: string)
  {
    IsWord(s) && Keyword(s) == Str
  }

  /**
   * The values the parser can produce: numbers spelled as number runs,
   * strings and keys that are STR tokens, booleans 1 and 0, and objects that
   * are valid maps of such members.
   */
  predicate Renderable(v: Value)
    decreases v
  {
    match v
    case Number(t) => IsNumberText(t)
    case String(t) => IsKey(t)
    case Boolean(f) => f == 0 || f == 1
    case Null => true
    case Indeterminate => false
    case Object(m) =>
      && ObjectMap.Valid(m)
      && forall b, j :: 0 <= b < |m.table| && 0 <= j < |m.table[b].chain| ==> NodeOk(m.table[b].chain[j])
  }

  /** A member with a renderable key and value. */
  predicate NodeOk(n: ObjectMap.Node<Value>)
    decreases n
  {
    IsKey(n.key) && Renderable(n.value)
  }

  predicate EntriesOk(es: seq<ObjectMap.Node<Value>>)
  {
    forall k :: 0 <= k < |es| ==> NodeOk(es[k])
  }

  lemma KeyHashable(s: string)
    requires IsKey(s)
    ensures ObjectMap.Hashable(s)
  {
    WordIsAsciiKey(s);
    ObjectMap.AsciiKeyHashable(s);
  }

  // ---------------------------------------------------------------------------
  // The renderer
  // ---------------------------------------------------------------------------

  /** The one-character lexeme of a punctuation tag. */
  function Punct(tag: Tag): Lexeme
    requires IsPunctuation(tag)
  {
    Lexeme(tag, [PunctuationChar(tag)])
  }

  /** A string between quotation marks, as the three tokens `parse_string` reads. */
  function Quoted(t: string): seq<Lexeme>
  {
    [Punct(Quotation), Lexeme(Str, t), Punct(Quotation)]
  }

  /** The lexemes of a value. */
  function RenderValue(v: Value): seq<Lexeme>
    decreases v
  {
    match v
    case Number(t) => [Lexeme(Num, t)]
    case String(t) => Quoted(t)
    case Boolean(f) => if f == 1 then [Lexeme(True, "true")] else [Lexeme(False, "false")]
    case Null => [Lexeme(NullTag, "null")]
    case Indeterminate => []
    case Object(m) => [Punct(OpenBrace)] + Join(TableBlocks(m.table, |m.table|)) + [Punct(CloseBrace)]
  }

  /** The members of the first `n` buckets, bucket by bucket, each chain from tail to head. */
  function TableBlocks(tbl: seq<ObjectMap.Bucket<Value>>, n: nat): seq<seq<Lexeme>>
    requires n <= |tbl|
    decreases tbl, n
  {
    if n == 0 then [] else TableBlocks(tbl, n - 1) + ChainBlocks(tbl[n - 1].chain, |tbl[n - 1].chain|)
  }

  /** The members of the first `k` nodes of a chain, last to first. */
  function ChainBlocks(c: seq<ObjectMap.Node<Value>>, k: nat): seq<seq<Lexeme>>
    requires k <= |c|
    decreases c, k
  {
    if k == 0 then [] else [Block(c[k - 1])] + ChainBlocks(c, k - 1)
  }

  /** One member: key, colon, value. */
  function Block(n: ObjectMap.Node<Value>): seq<Lexeme>
    decreases n
  {
    Quoted(n.key) + [Punct(Colon)] + RenderValue(n.value)
  }

  /** Members separated by commas. */
  function Join(bs: seq<seq<Lexeme>>): seq<Lexeme>
  {
    if |bs| == 0 then []
    else bs[0] + (if |bs| == 1 then [] else [Punct(Comma)] + Join(bs[1..]))
  }

  /** The members of a list of entries, in order. */
  function Blocks(es: seq<ObjectMap.Node<Value>>): (bs: seq<seq<Lexeme>>)
    ensures |bs| == |es|
  {
    if |es| == 0 then [] else [Block(es[0])] + Blocks(es[1..])
  }

  /** The JSON text of a value. */
  function Render(v: Value): string
  {
    Concat(RenderValue(v))
  }

  /** The map that inserting `es` into an empty map, first to last, builds. */
  function Build(es: seq<ObjectMap.Node<Value>>): (m: ObjectMap.Map<Value>)
    requires ObjectMap.AllHashable(es)
    ensures ObjectMap.Valid(m)
  {
    ObjectMap.InsertAllKeepsKeysUnique(ObjectMap.Init(), es, "");
    ObjectMap.InsertAll(ObjectMap.Init(), es)
  }

  // ---------------------------------------------------------------------------
  // An object is rendered in the order of its entries
  // ---------------------------------------------------------------------------

  lemma {:induction false} BlocksAppend(a: seq<ObjectMap.Node<Value>>, b: seq<ObjectMap.Node<Value>>)
    ensures Blocks(a + b) == Blocks(a) + Blocks(b)
  {
    if |a| > 0 {
      BlocksAppend(a[1..], b);
      assert (a + b)[1..] == a[1..] + b;
    } else {
      assert a + b == b;
    }
  }

  lemma {:induction false} ChainBlocksReversed(c: seq<ObjectMap.Node<Value>>, k: nat)
    requires k <= |c|
    ensures ChainBlocks(c, k) == Blocks(ObjectMap.Rev(c[..k]))
  {
    if k > 0 {
      ChainBlocksReversed(c, k - 1);
      assert c[..k][..k - 1] == c[..k - 1];
      var r := ObjectMap.Rev(c[..k]);
      assert r == [c[k - 1]] + ObjectMap.Rev(c[..k - 1]);
      assert r[1..] == ObjectMap.Rev(c[..k - 1]);
    }
  }

  lemma {:induction false} TableBlocksEntries(tbl: seq<ObjectMap.Bucket<Value>>, n: nat)
    requires n <= |tbl|
    ensures TableBlocks(tbl, n) == Blocks(ObjectMap.EntriesOf(tbl, n))
  {
    if n > 0 {
      var c := tbl[n - 1].chain;
      TableBlocksEntries(tbl, n - 1);
      ChainBlocksReversed(c, |c|);
      assert c[..|c|] == c;
      BlocksAppend(ObjectMap.EntriesOf(tbl, n - 1), ObjectMap.Rev(c));
    }
  }

  /** An object is its members, in the order of `Entries`, between braces. */
  lemma ObjectLexemes(m: ObjectMap.Map<Value>)
    ensures RenderValue(Object(m)) == [Punct(OpenBrace)] + Join(Blocks(ObjectMap.Entries(m))) + [Punct(CloseBrace)]
  {
    TableBlocksEntries(m.table, |m.table|);
  }

  /** The entries of a renderable object are renderable members. */
  lemma EntriesRenderable(m: ObjectMap.Map<Value>)
    requires Renderable(Object(m))
    ensures EntriesOk(ObjectMap.Entries(m))
  {
    var es := ObjectMap.Entries(m);
    forall k | 0 <= k < |es|
      ensures NodeOk(es[k])
    {
      ObjectMap.EntryIsNode(m.table, |m.table|, k);
    }
  }

  // ---------------------------------------------------------------------------
  // The rendering lexes back to its own tokens
  // ---------------------------------------------------------------------------

  predicate LexemesOk(ls: seq<Lexeme>)
  {
    WellFormedLexemes(ls) && Separated(ls)
  }

  lemma {:induction false} WellFormedAppend(a: seq<Lexeme>, b: seq<Lexeme>)
    requires WellFormedLexemes(a) && WellFormedLexemes(b)
    ensures WellFormedLexemes(a + b)
  {
    if |a| > 0 {
      WellFormedAppend(a[1..], b);
      assert (a + b)[1..] == a[1..] + b;
    } else {
      assert a + b == b;
    }
  }

  lemma {:induction false} SeparatedAppend(a: seq<Lexeme>, b: seq<Lexeme>)
    requires Separated(a) && Separated(b)
    requires |a| == 0 || |b| == 0 || IsPunctuation(a[|a| - 1].tag) || IsPunctuation(b[0].tag)
    ensures Separated(a + b)
  {
    if |a| == 0 {
      assert a + b == b;
    } else if |b| == 0 {
      assert a + b == a;
    } else {
      assert (a + b)[1..] == a[1..] + b;
      if |a| > 1 {
        SeparatedAppend(a[1..], b);
      } else {
        assert a[1..] + b == b;
      }
    }
  }

  /** Two lexeme runs that meet at punctuation can be written one after the other. */
  lemma LexemesAppend(a: seq<Lexeme>, b: seq<Lexeme>)
    requires LexemesOk(a) && LexemesOk(b)
    requires |a| == 0 || |b| == 0 || IsPunctuation(a[|a| - 1].tag) || IsPunctuation(b[0].tag)
    ensures LexemesOk(a + b)
  {
    WellFormedAppend(a, b);
    SeparatedAppend(a, b);
  }

  lemma SingleLexeme(l: Lexeme)
    requires IsLexemeOf(l.tag, l.text)
    ensures LexemesOk([l])
  {
    assert [l][1..] == [];
  }

  lemma QuotedOk(t: string)
    requires IsKey(t)
    ensures LexemesOk(Quoted(t))
  {
    SingleLexeme(Punct(Quotation));
    SingleLexeme(Lexeme(Str, t));
    LexemesAppend([Lexeme(Str, t)], [Punct(Quotation)]);
    LexemesAppend([Punct(Quotation)], [Lexeme(Str, t), Punct(Quotation)]);
    assert Quoted(t) == [Punct(Quotation)] + [Lexeme(Str, t), Punct(Quotation)];
  }

  lemma BlockOk(n: ObjectMap.Node<Value>)
    requires IsKey(n.key) && LexemesOk(RenderValue(n.value))
    ensures LexemesOk(Block(n))
  {
    QuotedOk(n.key);
    SingleLexeme(Punct(Colon));
    LexemesAppend(Quoted(n.key), [Punct(Colon)]);
    LexemesAppend(Quoted(n.key) + [Punct(Colon)], RenderValue(n.value));
  }

  lemma {:induction false} JoinOk(es: seq<ObjectMap.Node<Value>>)
    requires forall k :: 0 <= k < |es| ==> LexemesOk(Block(es[k]))
    ensures LexemesOk(Join(Blocks(es)))
  {
    if |es| > 0 {
      var bs := Blocks(es);
      assert bs[0] == Block(es[0]) && bs[1..] == Blocks(es[1..]);
      if |es| > 1 {
        var rest := Join(Blocks(es[1..]));
        JoinOk(es[1..]);
        SingleLexeme(Punct(Comma));
        LexemesAppend([Punct(Comma)], rest);
        LexemesAppend(Block(es[0]), [Punct(Comma)] + rest);
      } else {
        assert Join(bs) == Block(es[0]) + [] == Block(es[0]);
      }
    }
  }

  /** The lexemes of a renderable value are well-formed and separated, so they lex back one token each. */
  lemma {:induction false} RenderOk(v: Value)
    requires Renderable(v)
    ensures LexemesOk(RenderValue(v))
    decreases v
  {
    match v
    case Number(t) =>
      SingleLexeme(Lexeme(Num, t));
    case String(t) =>
      QuotedOk(t);
    case Boolean(f) =>
      KeywordLiterals("true");
      KeywordLiterals("false");
      if f == 1 {
        SingleLexeme(Lexeme(True, "true"));
      } else {
        SingleLexeme(Lexeme(False, "false"));
      }
    case Null =>
      KeywordLiterals("null");
      SingleLexeme(Lexeme(NullTag, "null"));
    case Indeterminate =>
      assert false;
    case Object(m) =>
      forall b, j | 0 <= b < |m.table| && 0 <= j < |m.table[b].chain|
        ensures LexemesOk(Block(m.table[b].chain[j]))
      {
        RenderOk(m.table[b].chain[j].value);
        BlockOk(m.table[b].chain[j]);
      }
      ObjectOk(m);
  }

  lemma ObjectOk(m: ObjectMap.Map<Value>)
    requires forall b, j :: 0 <= b < |m.table| && 0 <= j < |m.table[b].chain| ==> LexemesOk(Block(m.table[b].chain[j]))
    ensures LexemesOk(RenderValue(Object(m)))
  {
    var es := ObjectMap.Entries(m);
    forall k | 0 <= k < |es|
      ensures LexemesOk(Block(es[k]))
    {
      ObjectMap.EntryIsNode(m.table, |m.table|, k);
    }
    JoinOk(es);
    ObjectLexemes(m);
    var inner := Join(Blocks(es));
    SingleLexeme(Punct(OpenBrace));
    SingleLexeme(Punct(CloseBrace));
    LexemesAppend([Punct(OpenBrace)], inner);
    LexemesAppend([Punct(OpenBrace)] + inner, [Punct(CloseBrace)]);
  }

  // ---------------------------------------------------------------------------
  // The parser reads the rendering back
  // ---------------------------------------------------------------------------

  /** The token `t` of `src` is the lexeme `l`. */
  predicate TokenMatches(src: string, t: Token, l: Lexeme)
  {
    t.tag == l.tag && t.start + t.len <= |src| && Text(src, t) == l.text
  }

  /** The tokens from `i` on begin with the lexemes `ls`. */
  predicate TokensMatch(src: string, toks: seq<Token>, i: nat, ls: seq<Lexeme>)
    decreases |ls|
  {
    && i + |ls| <= |toks|
    && (|ls| == 0 || (TokenMatches(src, toks[i], ls[0]) && TokensMatch(src, toks, i + 1, ls[1..])))
  }

  /** Matching a concatenation: the first part from `i`, the second from `p`, just after it. */
  lemma {:induction false} MatchSplit(src: string, toks: seq<Token>, i: nat, a: seq<Lexeme>, b: seq<Lexeme>, p: nat)
    requires TokensMatch(src, toks, i, a + b) && p == i + |a|
    ensures TokensMatch(src, toks, i, a) && TokensMatch(src, toks, p, b)
    decreases |a|
  {
    if |a| == 0 {
      assert a + b == b;
    } else {
      assert (a + b)[0] == a[0] && (a + b)[1..] == a[1..] + b;
      MatchSplit(src, toks, i + 1, a[1..], b, p);
    }
  }

  /** The `k`-th of the matched tokens, at `p`, is the `k`-th lexeme. */
  lemma {:induction false} MatchAt(src: string, toks: seq<Token>, i: nat, ls: seq<Lexeme>, k: nat, p: nat)
    requires TokensMatch(src, toks, i, ls) && k < |ls| && p == i + k
    ensures p < |toks| && TokenMatches(src, toks[p], ls[k])
    decreases k
  {
    if k > 0 {
      MatchAt(src, toks, i + 1, ls[1..], k - 1, p);
    }
  }

  lemma {:induction false} MatchAll(src: string, toks: seq<Token>, i: nat, ls: seq<Lexeme>)
    requires i + |ls| <= |toks|
    requires forall k :: 0 <= k < |ls| ==> TokenMatches(src, toks[i + k], ls[k])
    ensures TokensMatch(src, toks, i, ls)
    decreases |ls|
  {
    if |ls| > 0 {
      assert TokenMatches(src, toks[i + 0], ls[0]);
      forall k | 0 <= k < |ls| - 1
        ensures TokenMatches(src, toks[i + 1 + k], ls[1..][k])
      {
        assert TokenMatches(src, toks[i + (k + 1)], ls[k + 1]);
      }
      MatchAll(src, toks, i + 1, ls[1..]);
    }
  }

  /** `r` is a success with value `v` that stops before token `next`. */
  predicate Yields(r: Result<Parsed, Error>, v: Value, next: int)
  {
    r.Success? && r.value.value == v && r.value.next == next
  }

  lemma ParseScalarRendered(src: string, toks: seq<Token>, i: nat, v: Value)
    requires Parsable(src, toks) && Renderable(v) && !v.Object?
    requires TokensMatch(src, toks, i, RenderValue(v))
    ensures Yields(ParseValue(src, toks, i), v, i + |RenderValue(v)|)
  {
    var ls := RenderValue(v);
    MatchAt(src, toks, i, ls, 0, i);
    if v.String? {
      MatchAt(src, toks, i, ls, 1, i + 1);
      MatchAt(src, toks, i, ls, 2, i + 2);
    }
  }

  /** Parsing the tokens of a renderable value gives the value, and stops just after them. */
  lemma {:induction false} ParseRendered(src: string, toks: seq<Token>, i: nat, v: Value)
    requires Parsable(src, toks) && Renderable(v)
    requires TokensMatch(src, toks, i, RenderValue(v))
    ensures Yields(ParseValue(src, toks, i), v, i + |RenderValue(v)|)
    decreases |toks| - i, 7
  {
    if v.Object? {
      ParseObjectRendered(src, toks, i, v.fields);
    } else {
      ParseScalarRendered(src, toks, i, v);
    }
  }

  lemma {:induction false} ParseObjectRendered(src: string, toks: seq<Token>, i: nat, m: ObjectMap.Map<Value>)
    requires Parsable(src, toks) && Renderable(Object(m))
    requires TokensMatch(src, toks, i, RenderValue(Object(m)))
    ensures Yields(ParseValue(src, toks, i), Object(m), i + |RenderValue(Object(m))|)
    decreases |toks| - i, 6
  {
    ParseObjectEntries(src, toks, i, m);
    BuildEntries(m);
  }

  /** Rebuilding a valid map from its entries gives the map back. */
  lemma BuildEntries(m: ObjectMap.Map<Value>)
    requires ObjectMap.Valid(m)
    ensures Build(ObjectMap.Entries(m)) == m
  {
    ObjectMap.RebuildFromEntries(m);
  }

  /** An object's tokens parse to the map its entries build. */
  lemma {:induction false} ParseObjectEntries(src: string, toks: seq<Token>, i: nat, m: ObjectMap.Map<Value>)
    requires Parsable(src, toks) && Renderable(Object(m))
    requires TokensMatch(src, toks, i, RenderValue(Object(m)))
    ensures Yields(ParseValue(src, toks, i), Object(Build(ObjectMap.Entries(m))), i + |RenderValue(Object(m))|)
    decreases |toks| - i, 5
  {
    var es := ObjectMap.Entries(m);
    var inner := Join(Blocks(es));
    ObjectLexemes(m);
    EntriesRenderable(m);
    assert RenderValue(Object(m)) == [Punct(OpenBrace)] + (inner + [Punct(CloseBrace)]);
    MatchSplit(src, toks, i, [Punct(OpenBrace)], inner + [Punct(CloseBrace)], i + 1);
    MatchAt(src, toks, i, [Punct(OpenBrace)], 0, i);
    assert ParseValue(src, toks, i) == ParseMembers(src, toks, i + 1, ObjectMap.Init());
    ParseMembersRendered(src, toks, i + 1, ObjectMap.Init(), es, i + |RenderValue(Object(m))|);
    InsertFromIsInsertAll(ObjectMap.Init(), es);
  }

  /** Inserting `es` into `m` first to last, one member at a time, as the member loop does. */
  function InsertFrom(m: ObjectMap.Map<Value>, es: seq<ObjectMap.Node<Value>>): (r: ObjectMap.Map<Value>)
    requires ObjectMap.Valid(m) && ObjectMap.AllHashable(es)
    ensures ObjectMap.Valid(r)
    decreases |es|
  {
    if |es| == 0 then m
    else
      ObjectMap.InsertPreservesValid(m, es[0].key, es[0].value);
      assert ObjectMap.AllHashable(es[1..]) by {
        assert forall k :: 0 <= k < |es| - 1 ==> es[1..][k] == es[k + 1];
      }
      InsertFrom(ObjectMap.Insert(m, es[0].key, es[0].value), es[1..])
  }

  /** One more entry at the end is inserted last. */
  lemma {:induction false} InsertFromSnoc(m: ObjectMap.Map<Value>, es: seq<ObjectMap.Node<Value>>, x: ObjectMap.Node<Value>)
    requires ObjectMap.Valid(m) && ObjectMap.AllHashable(es + [x])
    ensures ObjectMap.AllHashable(es) && ObjectMap.Hashable(x.key)
    ensures InsertFrom(m, es + [x]) == ObjectMap.Insert(InsertFrom(m, es), x.key, x.value)
    decreases |es|
  {
    assert forall k :: 0 <= k < |es| ==> (es + [x])[k] == es[k];
    assert (es + [x])[|es|] == x;
    if |es| > 0 {
      ObjectMap.InsertPreservesValid(m, es[0].key, es[0].value);
      assert (es + [x])[1..] == es[1..] + [x];
      InsertFromSnoc(ObjectMap.Insert(m, es[0].key, es[0].value), es[1..], x);
    } else {
      assert InsertFrom(m, [x]) == InsertFrom(ObjectMap.Insert(m, x.key, x.value), []);
    }
  }

  /** The member loop's left-to-right insertion builds the same map as `InsertAll`. */
  lemma {:induction false} InsertFromIsInsertAll(m: ObjectMap.Map<Value>, es: seq<ObjectMap.Node<Value>>)
    requires ObjectMap.Valid(m) && ObjectMap.AllHashable(es)
    ensures InsertFrom(m, es) == ObjectMap.InsertAll(m, es)
    decreases |es|
  {
    if |es| > 0 {
      var front := es[..|es| - 1];
      var x := es[|es| - 1];
      assert es == front + [x];
      InsertFromSnoc(m, front, x);
      InsertFromIsInsertAll(m, front);
    }
  }

  /**
   * The member loop's result when it reads the whole object, building `target`
   * and stopping at `end`.  This and `MembersFrom` only name terms: the
   * lemmas below state their ensures with them to keep the solver from
   * unfolding the recursive `ParseMembers` again at every use.
   */
  function ObjectRead(target: ObjectMap.Map<Value>, end: nat): Result<Parsed, Error>
  {
    Success(Parsed(Object(target), end))
  }

  /** `ParseMembers` under another name, so that facts stated with it do not give the solver one more unfolding of the loop. */
  function MembersFrom(src: string, toks: seq<Token>, j: nat, m: ObjectMap.Map<Value>): Result<Parsed, Error>
    requires Parsable(src, toks) && ObjectMap.Valid(m)
  {
    ParseMembers(src, toks, j, m)
  }

  /**
   * The member loop is about to read the rendered members `rest` at token `j`
   * into the map `m`; `end` is the token after the closing `}`.
   */
  predicate MembersAhead(src: string, toks: seq<Token>, j: nat, m: ObjectMap.Map<Value>,
                         rest: seq<ObjectMap.Node<Value>>, end: nat)
  {
    && Parsable(src, toks) && ObjectMap.Valid(m)
    && ObjectMap.AllHashable(rest) && EntriesOk(rest)
    && end == j + |Join(Blocks(rest))| + 1
    && TokensMatch(src, toks, j, Join(Blocks(rest)) + [Punct(CloseBrace)])
  }

  /** The member loop over rendered members inserts them, in order, into the map it starts from. */
  lemma {:induction false} ParseMembersRendered(src: string, toks: seq<Token>, j: nat, m: ObjectMap.Map<Value>,
                                                rest: seq<ObjectMap.Node<Value>>, end: nat)
    requires MembersAhead(src, toks, j, m, rest, end)
    ensures MembersFrom(src, toks, j, m) == ObjectRead(InsertFrom(m, rest), end)
    decreases |toks| - j, 4
  {
    if |rest| == 0 {
      MatchAt(src, toks, j, Join(Blocks(rest)) + [Punct(CloseBrace)], 0, j);
    } else if |rest| == 1 {
      LastMemberRendered(src, toks, j, m, rest, end);
    } else {
      NextMemberRendered(src, toks, j, m, rest, end);
    }
  }

  /** The members of a non-empty list: the first one's, then a comma and the rest's if there are more. */
  lemma JoinCons(es: seq<ObjectMap.Node<Value>>)
    requires |es| > 0
    ensures Join(Blocks(es)) == Block(es[0]) + (if |es| == 1 then [] else [Punct(Comma)] + Join(Blocks(es[1..])))
  {
    assert Blocks(es)[0] == Block(es[0]) && Blocks(es)[1..] == Blocks(es[1..]);
  }

  lemma Regroup<T>(a: seq<T>, b: seq<T>, c: seq<T>, d: seq<T>)
    ensures (a + (b + c)) + d == a + (b + (c + d))
  {
  }

  /** The tokens of a last member and the `}` after it, which sits at `p`. */
  lemma CloseTokens(src: string, toks: seq<Token>, j: nat, rest: seq<ObjectMap.Node<Value>>, p: nat)
    requires |rest| == 1 && TokensMatch(src, toks, j, Join(Blocks(rest)) + [Punct(CloseBrace)])
    requires p == j + |Block(rest[0])|
    ensures TokensMatch(src, toks, j, Block(rest[0]))
    ensures p < |toks| && toks[p].tag == CloseBrace
    ensures |Join(Blocks(rest))| == |Block(rest[0])|
  {
    var e := rest[0];
    JoinCons(rest);
    assert Join(Blocks(rest)) == Block(e) + [] == Block(e);
    MatchSplit(src, toks, j, Block(e), [Punct(CloseBrace)], p);
    MatchAt(src, toks, p, [Punct(CloseBrace)], 0, p);
  }

  /** The tokens of a member followed by more: the member, the `,` at `p`, and the rest from `p + 1`. */
  lemma CommaTokens(src: string, toks: seq<Token>, j: nat, rest: seq<ObjectMap.Node<Value>>, p: nat)
    requires |rest| > 1 && TokensMatch(src, toks, j, Join(Blocks(rest)) + [Punct(CloseBrace)])
    requires p == j + |Block(rest[0])|
    ensures TokensMatch(src, toks, j, Block(rest[0]))
    ensures p < |toks| && toks[p].tag == Comma
    ensures TokensMatch(src, toks, p + 1, Join(Blocks(rest[1..])) + [Punct(CloseBrace)])
    ensures |Join(Blocks(rest))| == |Block(rest[0])| + 1 + |Join(Blocks(rest[1..]))|
  {
    var e := rest[0];
    var more := Join(Blocks(rest[1..])) + [Punct(CloseBrace)];
    JoinCons(rest);
    Regroup(Block(e), [Punct(Comma)], Join(Blocks(rest[1..])), [Punct(CloseBrace)]);
    MatchSplit(src, toks, j, Block(e), [Punct(Comma)] + more, p);
    MatchSplit(src, toks, p, [Punct(Comma)], more, p + 1);
    MatchAt(src, toks, p, [Punct(Comma)], 0, p);
  }

  /** The last member, then the `}`. */
  lemma {:induction false} LastMemberRendered(src: string, toks: seq<Token>, j: nat, m: ObjectMap.Map<Value>,
                                               rest: seq<ObjectMap.Node<Value>>, end: nat)
    requires MembersAhead(src, toks, j, m, rest, end) && |rest| == 1
    ensures MembersFrom(src, toks, j, m) == ObjectRead(InsertFrom(m, rest), end)
    decreases |toks| - j, 2
  {
    var member := LastMemberStep(src, toks, j, m, rest, end);
    ClosedAt(src, toks, member.next, member.fields);
    assert InsertFrom(m, rest) == InsertFrom(member.fields, []);
  }

  /** The last member is read and inserted, and a `}` follows it. */
  lemma {:induction false} LastMemberStep(src: string, toks: seq<Token>, j: nat, m: ObjectMap.Map<Value>,
                                           rest: seq<ObjectMap.Node<Value>>, end: nat)
    returns (member: Member)
    requires MembersAhead(src, toks, j, m, rest, end) && |rest| == 1
    ensures ObjectMap.Hashable(rest[0].key) && member.fields == ObjectMap.Insert(m, rest[0].key, rest[0].value)
    ensures member.next + 1 == end && member.next < |toks| && toks[member.next].tag == CloseBrace
    ensures ObjectMap.Valid(member.fields)
    ensures MembersFrom(src, toks, j, m) == MembersFrom(src, toks, member.next, member.fields)
    decreases |toks| - j, 1
  {
    var e := rest[0];
    assert NodeOk(e) && ObjectMap.Hashable(e.key);
    CloseTokens(src, toks, j, rest, j + |Block(e)|);
    member := MemberRendered(src, toks, j, m, e);
    CloseTokens(src, toks, j, rest, member.next);
    Parser.MembersClose(src, toks, j, m, member);
  }

  /** At a `}` the member loop stops with the map it has. */
  lemma ClosedAt(src: string, toks: seq<Token>, p: nat, m: ObjectMap.Map<Value>)
    requires Parsable(src, toks) && ObjectMap.Valid(m)
    requires p < |toks| && toks[p].tag == CloseBrace
    ensures MembersFrom(src, toks, p, m) == ObjectRead(m, p + 1)
  {
  }

  /** A member, a comma, and the members after it. */
  lemma {:induction false} NextMemberRendered(src: string, toks: seq<Token>, j: nat, m: ObjectMap.Map<Value>,
                                               rest: seq<ObjectMap.Node<Value>>, end: nat)
    requires MembersAhead(src, toks, j, m, rest, end) && |rest| > 1
    ensures MembersFrom(src, toks, j, m) == ObjectRead(InsertFrom(m, rest), end)
    decreases |toks| - j, 3
  {
    var m' := NextMemberStep(src, toks, j, m, rest, end);
    ParseMembersRendered(src, toks, m'.next + 1, m'.fields, rest[1..], end);
    assert InsertFrom(m, rest) == InsertFrom(m'.fields, rest[1..]);
  }

  /** The first member, ending just before its comma, is read; the loop goes on after the comma with it inserted. */
  lemma {:induction false} NextMemberStep(src: string, toks: seq<Token>, j: nat, m: ObjectMap.Map<Value>,
                                           rest: seq<ObjectMap.Node<Value>>, end: nat)
    returns (member: Member)
    requires MembersAhead(src, toks, j, m, rest, end) && |rest| > 1
    ensures j < member.next < |toks| && ObjectMap.Hashable(rest[0].key)
    ensures member.fields == ObjectMap.Insert(m, rest[0].key, rest[0].value)
    ensures MembersFrom(src, toks, j, m) == MembersFrom(src, toks, member.next + 1, member.fields)
    ensures MembersAhead(src, toks, member.next + 1, member.fields, rest[1..], end)
    decreases |toks| - j, 1
  {
    assert NodeOk(rest[0]) && ObjectMap.Hashable(rest[0].key);
    CommaTokens(src, toks, j, rest, j + |Block(rest[0])|);
    member := MemberRendered(src, toks, j, m, rest[0]);
    CommaTokens(src, toks, j, rest, member.next);
    Parser.MembersComma(src, toks, j, m, member);
    MembersAfterComma(src, toks, j, rest, member, end);
  }

  /** After the first member and its comma, the loop faces the other members' tokens. */
  lemma MembersAfterComma(src: string, toks: seq<Token>, j: nat, rest: seq<ObjectMap.Node<Value>>, member: Member, end: nat)
    requires Parsable(src, toks) && ObjectMap.Valid(member.fields) && |rest| > 1
    requires ObjectMap.AllHashable(rest) && EntriesOk(rest)
    requires TokensMatch(src, toks, j, Join(Blocks(rest)) + [Punct(CloseBrace)])
    requires member.next == j + |Block(rest[0])| && end == j + |Join(Blocks(rest))| + 1
    ensures MembersAhead(src, toks, member.next + 1, member.fields, rest[1..], end)
  {
    CommaTokens(src, toks, j, rest, member.next);
    assert EntriesOk(rest[1..]) && ObjectMap.AllHashable(rest[1..]);
  }

  /** One rendered member is read and inserted into the map built so far. */
  lemma {:induction false} MemberRendered(src: string, toks: seq<Token>, j: nat, m: ObjectMap.Map<Value>, e: ObjectMap.Node<Value>)
    returns (member: Member)
    requires Parsable(src, toks) && ObjectMap.Valid(m)
    requires ObjectMap.Hashable(e.key) && NodeOk(e)
    requires TokensMatch(src, toks, j, Block(e))
    ensures ParseMember(src, toks, j, m) == Success(member)
    ensures member.fields == ObjectMap.Insert(m, e.key, e.value) && member.next == j + |Block(e)|
    decreases |toks| - j, 0
  {
    var head := Quoted(e.key) + [Punct(Colon)];
    MatchSplit(src, toks, j, head, RenderValue(e.value), j + 3 + 1);
    MatchAt(src, toks, j, head, 0, j);
    MatchAt(src, toks, j, head, 1, j + 1);
    MatchAt(src, toks, j, head, 2, j + 2);
    MatchAt(src, toks, j, head, 3, j + 3);
    ParseRendered(src, toks, j + 3 + 1, e.value);
    member := ParseMember(src, toks, j, m).value;
  }

  /** Parsing the rendering of a renderable value gives the value back. */
  lemma RenderThenParse(v: Value)
    requires Renderable(v)
    ensures JsonParse(Render(v)) == Success(v)
  {
    var ls := RenderValue(v);
    var src := Render(v);
    RenderOk(v);
    LexLexemes(ls);
    var toks := Positioned(ls, 0);
    assert src[0..] == src;
    PositionedTexts(src, 0, ls);
    LexedParsable(src);
    MatchAll(src, toks, 0, ls);
    ParseRendered(src, toks, 0, v);
  }

  // ---------------------------------------------------------------------------
  // Every value the parser returns has a rendering
  // ---------------------------------------------------------------------------

  /** Every member of the map is renderable. */
  predicate MembersOk(m: ObjectMap.Map<Value>)
  {
    forall b, j :: 0 <= b < |m.table| && 0 <= j < |m.table[b].chain| ==> NodeOk(m.table[b].chain[j])
  }

  /** Tokens fit for the parser whose texts are lexemes of their tags, as `tokenize_json` makes them. */
  predicate Lexical(src: string, toks: seq<Token>)
  {
    && Parsable(src, toks)
    && forall k :: 0 <= k < |toks| ==> IsLexemeOf(toks[k].tag, Text(src, toks[k]))
  }

  lemma LexedLexical(src: string)
    ensures Lexical(src, Lex(src, 0).tokens)
  {
    LexedParsable(src);
    forall k | 0 <= k < |Lex(src, 0).tokens|
      ensures IsLexemeOf(Lex(src, 0).tokens[k].tag, Text(src, Lex(src, 0).tokens[k]))
    {
      LexTokenIsLexeme(src, k);
    }
  }

  /** An insert of a renderable member keeps every member renderable. */
  lemma InsertOk(m: ObjectMap.Map<Value>, key: string, v: Value)
    requires ObjectMap.WellSized(m) && ObjectMap.Hashable(key)
    requires MembersOk(m) && IsKey(key) && Renderable(v)
    ensures MembersOk(ObjectMap.Insert(m, key, v))
  {
    var r := ObjectMap.Insert(m, key, v);
    var b := ObjectMap.BucketIndex(key);
    var c := m.table[b].chain;
    ObjectMap.HashableBucketInRange(key);
    assert NodeOk(ObjectMap.Node(key, v));
    forall b', j | 0 <= b' < |r.table| && 0 <= j < |r.table[b'].chain|
      ensures NodeOk(r.table[b'].chain[j])
    {
      if b' != b {
        assert r.table[b'] == m.table[b'];
      } else {
        match ObjectMap.Find(c, key)
        case Some(x) =>
          assert r.table[b].chain == c[x := ObjectMap.Node(key, v)];
          if j != x {
            assert r.table[b].chain[j] == c[j];
          }
        case None =>
          assert r.table[b].chain == [ObjectMap.Node(key, v)] + c;
          if j > 0 {
            assert r.table[b].chain[j] == c[j - 1];
          }
      }
    }
  }

  /** A key read by `parse_string` from lexed tokens is an identifier other than a keyword. */
  lemma ParsedKey(src: string, toks: seq<Token>, j: nat)
    requires Lexical(src, toks) && ParseString(src, toks, j).Success?
    ensures IsKey(ParseString(src, toks, j).value.value.text)
  {
    assert IsLexemeOf(toks[j + 1].tag, Text(src, toks[j + 1]));
  }

  /** Every value `parse_value` reads from lexed tokens is renderable. */
  lemma {:induction false} ParsedValueRenderable(src: string, toks: seq<Token>, i: nat)
    requires Lexical(src, toks) && ParseValue(src, toks, i).Success?
    ensures Renderable(ParseValue(src, toks, i).value.value)
    decreases |toks| - i, 2
  {
    var tag := toks[i].tag;
    if tag == OpenBrace {
      ParsedMembersRenderable(src, toks, i + 1, ObjectMap.Init());
    } else if tag == Quotation {
      ParsedKey(src, toks, i);
    } else if tag == Num {
      assert IsLexemeOf(toks[i].tag, Text(src, toks[i]));
    }
  }

  /** The member loop over lexed tokens, started from renderable members, ends with renderable members. */
  lemma {:induction false} ParsedMembersRenderable(src: string, toks: seq<Token>, j: nat, m: ObjectMap.Map<Value>)
    requires Lexical(src, toks) && ObjectMap.Valid(m) && MembersOk(m)
    requires ParseMembers(src, toks, j, m).Success?
    ensures Renderable(ParseMembers(src, toks, j, m).value.value)
    decreases |toks| - j, 1
  {
    if toks[j].tag != CloseBrace {
      var member := ParseMember(src, toks, j, m).value;
      ParsedMemberOk(src, toks, j, m, member);
      NextPass(src, toks, j, m, member);
      ParsedMembersRenderable(src, toks, ResumeAt(toks, member.next), member.fields);
    }
  }

  /** One member read from lexed tokens into renderable members leaves them renderable. */
  lemma {:induction false} ParsedMemberOk(src: string, toks: seq<Token>, j: nat, m: ObjectMap.Map<Value>, member: Member)
    requires Lexical(src, toks) && ObjectMap.Valid(m) && MembersOk(m)
    requires ParseMember(src, toks, j, m) == Success(member)
    ensures ObjectMap.Valid(member.fields) && MembersOk(member.fields)
    decreases |toks| - j, 0
  {
    MemberParts(src, toks, j, m, member);
    assert IsLexemeOf(toks[j + 1].tag, Text(src, toks[j + 1]));
    ParsedValueRenderable(src, toks, j + 4);
    InsertOk(m, Text(src, toks[j + 1]), ParseValue(src, toks, j + 4).value.value);
  }

  /** Every value `json_parse` returns is renderable. */
  lemma JsonParseRenderable(src: string)
    requires JsonParse(src).Success?
    ensures Renderable(JsonParse(src).value)
  {
    LexedLexical(src);
    ParsedValueRenderable(src, Lex(src, 0).tokens, 0);
  }

  /** Rendering what `json_parse` returns and parsing that again gives the same result. */
  lemma ParseRenderParse(src: string)
    requires JsonParse(src).Success?
    ensures JsonParse(Render(JsonParse(src).value)) == JsonParse(src)
  {
    JsonParseRenderable(src);
    RenderThenParse(JsonParse(src).value);
  }

  // ---------------------------------------------------------------------------
  // Duplicate keys: the last member wins
  // ---------------------------------------------------------------------------

  /** The members the loop of `parse_object` reads from token `j` on, starting from `m`, in the order of the text. */
  function MembersRead(src: string, toks: seq<Token>, j: nat, m: ObjectMap.Map<Value>): (es: seq<ObjectMap.Node<Value>>)
    requires Parsable(src, toks) && ObjectMap.Valid(m) && ParseMembers(src, toks, j, m).Success?
    ensures ObjectMap.AllHashable(es)
    decreases |toks| - j
  {
    if toks[j].tag == CloseBrace then []
    else
      var member := ParseMember(src, toks, j, m).value;
      MemberParts(src, toks, j, m, member);
      NextPass(src, toks, j, m, member);
      [ObjectMap.Node(Text(src, toks[j + 1]), ParseValue(src, toks, j + 4).value.value)]
        + MembersRead(src, toks, ResumeAt(toks, member.next), member.fields)
  }

  /** The loop of `parse_object` inserts the members it reads one after the other, first to last. */
  lemma {:induction false} MembersInserted(src: string, toks: seq<Token>, j: nat, m: ObjectMap.Map<Value>)
    requires Parsable(src, toks) && ObjectMap.Valid(m) && ParseMembers(src, toks, j, m).Success?
    ensures ParseMembers(src, toks, j, m).value.value.fields == InsertFrom(m, MembersRead(src, toks, j, m))
    decreases |toks| - j
  {
    if toks[j].tag != CloseBrace {
      var member := ParseMember(src, toks, j, m).value;
      MemberParts(src, toks, j, m, member);
      NextPass(src, toks, j, m, member);
      var es := MembersRead(src, toks, j, m);
      assert es[1..] == MembersRead(src, toks, ResumeAt(toks, member.next), member.fields);
      MembersInserted(src, toks, ResumeAt(toks, member.next), member.fields);
    }
  }

  /**
   * A key that several members share holds the value of the last of them, as
   * `json_object_map_t_insert` replaces the value of a key already present;
   * a key no member names keeps what `m` gave it.
   */
  lemma DuplicateKeyLastWins(src: string, toks: seq<Token>, j: nat, m: ObjectMap.Map<Value>, key: string)
    requires Parsable(src, toks) && ObjectMap.Valid(m) && ParseMembers(src, toks, j, m).Success?
    requires ObjectMap.Hashable(key)
    ensures ObjectMap.Get(ParseMembers(src, toks, j, m).value.value.fields, key) ==
      match ObjectMap.LastValue(MembersRead(src, toks, j, m), key)
      case Some(v) => Some(v)
      case None => ObjectMap.Get(m, key)
  {
    var es := MembersRead(src, toks, j, m);
    MembersInserted(src, toks, j, m);
    InsertFromIsInsertAll(m, es);
    ObjectMap.LastWriteWins(m, es, key);
  }
}
