/**
 * The object map of json.h: a fixed table of TABLE_SIZE buckets, each a chain
 * of (key, value) nodes, indexed by an additive hash of the key.
 *
 * A chain is a sequence whose element 0 is the head node of the C linked list.
 * Keys are C strings; a `string` stands for the bytes before the terminator, so
 * every key the map stores is free of NUL characters.
 */
module ObjectMap {
  import opened Wrappers

  /** Number of buckets (TABLE_SIZE in json.h). */
  const TABLE_SIZE: nat := 10

  datatype Node<V> = Node(key: string, value: V)

  /** One bucket: its chain of nodes, head first. */
  datatype Bucket<V> = Bucket(chain: seq<Node<V>>)

  datatype Map<V> = Map(table: seq<Bucket<V>>)

  // ---------------------------------------------------------------------------
  // Hashing
  // ---------------------------------------------------------------------------

  /** The integer a C `char` promotes to, on a platform where `char` is signed. */
  function CharValue(c: char): (r: int)
    ensures -128 <= r < 128
    ensures c as int < 128 ==> r == c as int
  {
    var b := c as int % 256;
    if b < 128 then b else b - 256
  }

  /** Length of the C string held in `s`: the index of its first NUL, or |s|. */
  function CLength(s: string): (n: nat)
    ensures n <= |s|
  {
    if |s| == 0 || s[0] == '\0' then 0 else 1 + CLength(s[1..])
  }

  /** `CLength` stops at the first NUL: none before it, one at it unless it is `|s|`. */
  lemma {:induction false} CLengthIsFirstNul(s: string)
    ensures forall i :: 0 <= i < CLength(s) ==> s[i] != '\0'
    ensures CLength(s) == |s| || s[CLength(s)] == '\0'
  {
    if |s| > 0 && s[0] != '\0' {
      CLengthIsFirstNul(s[1..]);
      assert forall i :: 1 <= i < CLength(s) ==> s[i] == s[1..][i - 1];
    }
  }

  /** Sum of the character values of `s`. */
  function Sum(s: string): int
  {
    if |s| == 0 then 0 else Sum(s[..|s| - 1]) + CharValue(s[|s| - 1])
  }

  /** Reference value of `hash`: -1 for a NULL key, else the byte sum up to the terminator. */
  function Hash(key: Option<string>): int
  {
    match key
    case None => -1
    case Some(s) => Sum(s[..CLength(s)])
  }

  /** `hash`, written as the C loop that walks the key up to its terminator. */
  method ComputeHash(key: Option<string>) returns (h: int)
    ensures key.None? ==> h == -1
    ensures key.Some? ==> h == Sum(key.value[..CLength(key.value)])
  {
    if key.None? {
      return -1;
    }
    var s := key.value;
    CLengthIsFirstNul(s);
    h := 0;
    var idx := 0;
    while idx < |s| && s[idx] != '\0'
      invariant 0 <= idx <= CLength(s)
      invariant h == Sum(s[..idx])
    {
      assert s[..idx + 1][..idx] == s[..idx];
      h := h + CharValue(s[idx]);
      idx := idx + 1;
    }
  }

  /** C's `%` operator: the remainder truncates toward zero and takes the sign of `a`. */
  function CRem(a: int, n: int): (r: int)
    requires n > 0
    ensures -n < r < n
    ensures a >= 0 ==> r == a % n
    ensures a < 0 ==> r <= 0
  {
    if a >= 0 then a % n else -((-a) % n)
  }

  /** The bucket `hash(key) % TABLE_SIZE` that insert and get both walk. */
  function BucketIndex(key: string): int
  {
    CRem(Hash(Some(key)), TABLE_SIZE)
  }

  /**
   * Keys the map can store without undefined behaviour: no embedded NUL (a C
   * string ends there) and a non-negative hash, so the bucket index lies
   * inside the table.
   */
  predicate Hashable(key: string)
  {
    && (forall i :: 0 <= i < |key| ==> key[i] != '\0')
    && Hash(Some(key)) >= 0
  }

  /** Keys made only of ASCII characters other than NUL. */
  predicate IsAsciiKey(key: string)
  {
    forall i :: 0 <= i < |key| ==> 0 < key[i] as int < 128
  }

  lemma {:induction false} SumOfAsciiNonNegative(s: string)
    requires forall i :: 0 <= i < |s| ==> 0 <= s[i] as int < 128
    ensures Sum(s) >= 0
  {
    if |s| > 0 {
      SumOfAsciiNonNegative(s[..|s| - 1]);
    }
  }

  /** Every ASCII key (all keys the tokenizer can produce) hashes into the table. */
  lemma AsciiKeyHashable(key: string)
    requires IsAsciiKey(key)
    ensures Hashable(key)
    ensures 0 <= BucketIndex(key) < TABLE_SIZE
  {
    CLengthIsFirstNul(key);
    assert CLength(key) == |key|;
    assert key[..|key|] == key;
    SumOfAsciiNonNegative(key);
  }

  lemma HashableBucketInRange(key: string)
    requires Hashable(key)
    ensures 0 <= BucketIndex(key) < TABLE_SIZE
  {
  }

  // ---------------------------------------------------------------------------
  // Chains
  // ---------------------------------------------------------------------------

  /** Position of the first node of `chain` whose key is `key` (the strcmp walk). */
  function Find<V>(chain: seq<Node<V>>, key: string): (r: Option<nat>)
    ensures r.Some? ==> r.value < |chain| && chain[r.value].key == key
    ensures r.Some? ==> forall j :: 0 <= j < r.value ==> chain[j].key != key
    ensures r.None? <==> forall j :: 0 <= j < |chain| ==> chain[j].key != key
  {
    if |chain| == 0 then None
    else if chain[0].key == key then Some(0)
    else
      match Find(chain[1..], key)
      case None => None
      case Some(j) => Some(j + 1)
  }

  /** The keys of a chain, head first. */
  function ChainKeys<V>(chain: seq<Node<V>>): (ks: seq<string>)
    ensures |ks| == |chain|
    ensures forall j :: 0 <= j < |chain| ==> ks[j] == chain[j].key
  {
    if |chain| == 0 then [] else [chain[0].key] + ChainKeys(chain[1..])
  }

  /** Number of nodes of `chain` carrying `key`. */
  function ChainCount<V>(chain: seq<Node<V>>, key: string): nat
  {
    if |chain| == 0 then 0
    else (if chain[0].key == key then 1 else 0) + ChainCount(chain[1..], key)
  }

  predicate DistinctKeys<V>(chain: seq<Node<V>>)
  {
    forall i, j :: 0 <= i < j < |chain| ==> chain[i].key != chain[j].key
  }

  // ---------------------------------------------------------------------------
  // The map
  // ---------------------------------------------------------------------------

  predicate WellSized<V>(m: Map<V>)
  {
    |m.table| == TABLE_SIZE
  }

  /**
   * The representation invariant: every node sits in the bucket its key hashes
   * to, and no chain holds a key twice.
   */
  predicate Valid<V>(m: Map<V>)
  {
    && WellSized(m)
    && forall b :: 0 <= b < |m.table| ==> ChainValid(m.table[b].chain, b)
  }

  /** A chain fit to be bucket `b`: all its keys hash to `b`, none twice. */
  predicate ChainValid<V>(chain: seq<Node<V>>, b: int)
  {
    && (forall j :: 0 <= j < |chain| ==> Hashable(chain[j].key) && BucketIndex(chain[j].key) == b)
    && DistinctKeys(chain)
  }

  /** Every key stored anywhere in the map. */
  function Keys<V>(m: Map<V>): set<string>
  {
    set b, j | 0 <= b < |m.table| && 0 <= j < |m.table[b].chain| :: m.table[b].chain[j].key
  }

  /** Total number of nodes in the buckets `tbl`. */
  function NodeCount<V>(tbl: seq<Bucket<V>>): nat
  {
    if |tbl| == 0 then 0 else NodeCount(tbl[..|tbl| - 1]) + |tbl[|tbl| - 1].chain|
  }

  /** Number of nodes carrying `key` across the buckets `tbl`. */
  function KeyCount<V>(tbl: seq<Bucket<V>>, key: string): nat
  {
    if |tbl| == 0 then 0 else KeyCount(tbl[..|tbl| - 1], key) + ChainCount(tbl[|tbl| - 1].chain, key)
  }

  /** `json_object_map_t_init`: every bucket empty. */
  function Init<V>(): (m: Map<V>)
    ensures Valid(m)
    ensures Keys(m) == {}
    ensures NodeCount(m.table) == 0
  {
    var m := Map(seq(TABLE_SIZE, _ => Bucket([])));
    assert NodeCount(m.table) == 0 by {
      EmptyTableHasNoNodes(m.table);
    }
    m
  }

  lemma {:induction false} EmptyTableHasNoNodes<V>(tbl: seq<Bucket<V>>)
    requires forall b :: 0 <= b < |tbl| ==> tbl[b].chain == []
    ensures NodeCount(tbl) == 0
  {
    if |tbl| > 0 {
      EmptyTableHasNoNodes(tbl[..|tbl| - 1]);
    }
  }

  /** `json_object_map_t_get`: the value of the first node for `key` in its bucket, or NULL. */
  function Get<V>(m: Map<V>, key: string): (r: Option<V>)
    requires WellSized(m) && Hashable(key)
    ensures var c := m.table[BucketIndex(key)].chain;
      r.None? <==> forall j :: 0 <= j < |c| ==> c[j].key != key
    ensures var c := m.table[BucketIndex(key)].chain;
      r.Some? ==> exists j :: 0 <= j < |c| && c[j] == Node(key, r.value)
    ensures Valid(m) ==> (r.Some? <==> key in Keys(m))
  {
    var c := m.table[BucketIndex(key)].chain;
    match Find(c, key)
    case Some(j) => Some(c[j].value)
    case None => None
  }

  /**
   * `json_object_map_t_insert`: replace the value of the node for `key` in
   * place when there is one, otherwise prepend a new node to the key's bucket.
   */
  function Insert<V>(m: Map<V>, key: string, v: V): (r: Map<V>)
    requires WellSized(m) && Hashable(key)
    ensures WellSized(r)
    ensures forall b :: 0 <= b < TABLE_SIZE && b != BucketIndex(key) ==> r.table[b] == m.table[b]
  {
    var b := BucketIndex(key);
    var c := m.table[b].chain;
    match Find(c, key)
    case Some(j) => Map(m.table[b := Bucket(c[j := Node(key, v)])])
    case None => Map(m.table[b := Bucket([Node(key, v)] + c)])
  }

  lemma FindFirst<V>(c: seq<Node<V>>, key: string, x: nat)
    requires x < |c| && c[x].key == key
    requires forall i :: 0 <= i < x ==> c[i].key != key
    ensures Find(c, key) == Some(x)
  {
  }

  /** Replacing a node by one with the same key does not move any key's first occurrence. */
  lemma FindAfterUpdate<V>(c: seq<Node<V>>, j: nat, n: Node<V>, k: string)
    requires j < |c| && c[j].key == n.key
    ensures Find(c[j := n], k) == Find(c, k)
  {
    var c' := c[j := n];
    assert forall i :: 0 <= i < |c| ==> c'[i].key == c[i].key;
    match Find(c, k)
    case None =>
    case Some(x) => FindFirst(c', k, x);
  }

  lemma FindAfterPrepend<V>(c: seq<Node<V>>, n: Node<V>, k: string)
    requires n.key != k
    ensures Find([n] + c, k) == match Find(c, k) case None => None case Some(x) => Some(x + 1)
  {
    assert ([n] + c)[1..] == c;
  }

  /** After an insert, get returns the inserted value for its key and what it returned before for every other key. */
  lemma InsertThenGet<V>(m: Map<V>, key: string, v: V, k: string)
    requires WellSized(m) && Hashable(key) && Hashable(k)
    ensures Get(Insert(m, key, v), key) == Some(v)
    ensures k != key ==> Get(Insert(m, key, v), k) == Get(m, k)
  {
    HashableBucketInRange(key);
    HashableBucketInRange(k);
    var b := BucketIndex(key);
    var c := m.table[b].chain;
    var r := Insert(m, key, v);
    match Find(c, key)
    case Some(j) =>
      assert r.table[b].chain == c[j := Node(key, v)];
      FindFirst(r.table[b].chain, key, j);
      if k != key && BucketIndex(k) == b {
        FindAfterUpdate(c, j, Node(key, v), k);
      }
    case None =>
      assert r.table[b].chain == [Node(key, v)] + c;
      FindFirst(r.table[b].chain, key, 0);
      if k != key && BucketIndex(k) == b {
        FindAfterPrepend(c, Node(key, v), k);
      }
  }

  /** A key already present: no node is added and the chain keeps its order; only that value changes. */
  lemma InsertExistingKeepsPosition<V>(m: Map<V>, key: string, v: V)
    requires WellSized(m) && Hashable(key)
    requires Get(m, key).Some?
    ensures var b := BucketIndex(key);
      var c := m.table[b].chain;
      var c' := Insert(m, key, v).table[b].chain;
      && ChainKeys(c') == ChainKeys(c)
      && (forall j :: 0 <= j < |c| && c[j].key != key ==> c'[j] == c[j])
    ensures NodeCount(Insert(m, key, v).table) == NodeCount(m.table)
  {
    var b := BucketIndex(key);
    var c := m.table[b].chain;
    var j := Find(c, key).value;
    var c' := c[j := Node(key, v)];
    assert Insert(m, key, v).table == m.table[b := Bucket(c')];
    assert ChainKeys(c') == ChainKeys(c);
    NodeCountUpdate(m.table, b, Bucket(c'));
  }

  /** A new key: its node becomes the head of its bucket, in front of the old chain. */
  lemma InsertNewKeyPrepends<V>(m: Map<V>, key: string, v: V)
    requires WellSized(m) && Hashable(key)
    requires Get(m, key).None?
    ensures Insert(m, key, v).table[BucketIndex(key)].chain == [Node(key, v)] + m.table[BucketIndex(key)].chain
    ensures NodeCount(Insert(m, key, v).table) == NodeCount(m.table) + 1
  {
    var b := BucketIndex(key);
    NodeCountUpdate(m.table, b, Bucket([Node(key, v)] + m.table[b].chain));
  }

  lemma {:induction false} NodeCountUpdate<V>(tbl: seq<Bucket<V>>, b: nat, x: Bucket<V>)
    requires b < |tbl|
    ensures NodeCount(tbl[b := x]) == NodeCount(tbl) - |tbl[b].chain| + |x.chain|
  {
    var n := |tbl|;
    if b == n - 1 {
      assert tbl[b := x][..n - 1] == tbl[..n - 1];
    } else {
      assert tbl[b := x][..n - 1] == tbl[..n - 1][b := x];
      NodeCountUpdate(tbl[..n - 1], b, x);
    }
  }

  /** Insertion keeps the representation invariant. */
  lemma InsertPreservesValid<V>(m: Map<V>, key: string, v: V)
    requires Valid(m) && Hashable(key)
    ensures Valid(Insert(m, key, v))
  {
    HashableBucketInRange(key);
    var b := BucketIndex(key);
    var c := m.table[b].chain;
    assert ChainValid(c, b);
    var r := Insert(m, key, v);
    match Find(c, key)
    case Some(j) =>
      var c' := c[j := Node(key, v)];
      assert r.table[b].chain == c';
      assert forall i :: 0 <= i < |c| ==> c'[i].key == c[i].key;
      assert ChainValid(c', b);
    case None =>
      var c' := [Node(key, v)] + c;
      assert r.table[b].chain == c';
      assert forall i :: 0 < i < |c'| ==> c'[i] == c[i - 1];
      assert ChainValid(c', b);
  }

  /** Insertion adds exactly its key to the set of stored keys. */
  lemma InsertKeys<V>(m: Map<V>, key: string, v: V)
    requires WellSized(m) && Hashable(key)
    ensures Keys(Insert(m, key, v)) == Keys(m) + {key}
  {
    HashableBucketInRange(key);
    var b := BucketIndex(key);
    var c := m.table[b].chain;
    var r := Insert(m, key, v);
    match Find(c, key)
    case Some(j) =>
      assert r.table[b].chain == c[j := Node(key, v)];
      forall k | k in Keys(r) ensures k in Keys(m) + {key} {
        var b', j' :| 0 <= b' < |r.table| && 0 <= j' < |r.table[b'].chain| && r.table[b'].chain[j'].key == k;
        if b' != b {
          assert m.table[b'].chain[j'].key == k;
        } else {
          assert c[j'].key == k;
        }
      }
      assert r.table[b].chain[j].key == key;
      forall k | k in Keys(m) ensures k in Keys(r) {
        var b', j' :| 0 <= b' < |m.table| && 0 <= j' < |m.table[b'].chain| && m.table[b'].chain[j'].key == k;
        assert r.table[b'].chain[j'].key == k;
      }
    case None =>
      assert r.table[b].chain == [Node(key, v)] + c;
      forall k | k in Keys(r) ensures k in Keys(m) + {key} {
        var b', j' :| 0 <= b' < |r.table| && 0 <= j' < |r.table[b'].chain| && r.table[b'].chain[j'].key == k;
        if b' != b {
          assert m.table[b'].chain[j'].key == k;
        } else if j' > 0 {
          assert c[j' - 1].key == k;
        }
      }
      assert r.table[b].chain[0].key == key;
      forall k | k in Keys(m) ensures k in Keys(r) {
        var b', j' :| 0 <= b' < |m.table| && 0 <= j' < |m.table[b'].chain| && m.table[b'].chain[j'].key == k;
        if b' != b {
          assert r.table[b'].chain[j'].key == k;
        } else {
          assert r.table[b'].chain[j' + 1].key == k;
        }
      }
  }

  // ---------------------------------------------------------------------------
  // Uniqueness of keys
  // ---------------------------------------------------------------------------

  lemma {:induction false} DistinctChainCount<V>(chain: seq<Node<V>>, key: string)
    requires DistinctKeys(chain)
    ensures ChainCount(chain, key) <= 1
  {
    if |chain| > 0 {
      DistinctChainCount(chain[1..], key);
      if chain[0].key == key {
        AbsentChainCount(chain[1..], key);
      }
    }
  }

  lemma {:induction false} AbsentChainCount<V>(chain: seq<Node<V>>, key: string)
    requires forall j :: 0 <= j < |chain| ==> chain[j].key != key
    ensures ChainCount(chain, key) == 0
  {
    if |chain| > 0 {
      AbsentChainCount(chain[1..], key);
    }
  }

  lemma {:induction false} KeyCountOutsideBucket<V>(m: Map<V>, n: nat, key: string)
    requires Valid(m) && n <= |m.table|
    requires !(0 <= BucketIndex(key) < n)
    ensures KeyCount(m.table[..n], key) == 0
  {
    if n > 0 {
      assert m.table[..n][..n - 1] == m.table[..n - 1];
      KeyCountOutsideBucket(m, n - 1, key);
      AbsentChainCount(m.table[n - 1].chain, key);
    }
  }

  lemma {:induction false} KeyCountPrefix<V>(m: Map<V>, n: nat, key: string)
    requires Valid(m) && n <= |m.table|
    ensures KeyCount(m.table[..n], key) <= 1
  {
    if n > 0 {
      assert m.table[..n][..n - 1] == m.table[..n - 1];
      DistinctChainCount(m.table[n - 1].chain, key);
      if BucketIndex(key) == n - 1 {
        KeyCountOutsideBucket(m, n - 1, key);
      } else {
        KeyCountPrefix(m, n - 1, key);
        AbsentChainCount(m.table[n - 1].chain, key);
      }
    }
  }

  /** In a valid map every key occurs in at most one node across all buckets. */
  lemma KeysUnique<V>(m: Map<V>, key: string)
    requires Valid(m)
    ensures KeyCount(m.table, key) <= 1
  {
    assert m.table[..|m.table|] == m.table;
    KeyCountPrefix(m, |m.table|, key);
  }

  // ---------------------------------------------------------------------------
  // Sequences of inserts
  // ---------------------------------------------------------------------------

  predicate AllHashable<V>(entries: seq<Node<V>>)
  {
    forall i :: 0 <= i < |entries| ==> Hashable(entries[i].key)
  }

  /** The map after inserting `entries` into `m`, first to last. */
  function InsertAll<V>(m: Map<V>, entries: seq<Node<V>>): (r: Map<V>)
    requires WellSized(m) && AllHashable(entries)
    ensures WellSized(r)
  {
    if |entries| == 0 then m
    else
      var last := entries[|entries| - 1];
      Insert(InsertAll(m, entries[..|entries| - 1]), last.key, last.value)
  }

  /** Reference semantics of a sequence of inserts: the most recent value given to `key`. */
  function LastValue<V>(entries: seq<Node<V>>, key: string): Option<V>
  {
    if |entries| == 0 then None
    else if entries[|entries| - 1].key == key then Some(entries[|entries| - 1].value)
    else LastValue(entries[..|entries| - 1], key)
  }

  /** After any sequence of inserts, get returns the most recently inserted value (or what it returned before). */
  lemma {:induction false} LastWriteWins<V>(m: Map<V>, entries: seq<Node<V>>, key: string)
    requires WellSized(m) && AllHashable(entries) && Hashable(key)
    ensures Get(InsertAll(m, entries), key) ==
      match LastValue(entries, key)
      case Some(v) => Some(v)
      case None => Get(m, key)
  {
    if |entries| > 0 {
      var last := entries[|entries| - 1];
      LastWriteWins(m, entries[..|entries| - 1], key);
      InsertThenGet(InsertAll(m, entries[..|entries| - 1]), last.key, last.value, key);
    }
  }

  /** Any sequence of inserts into a valid map leaves every key in at most one node. */
  lemma {:induction false} InsertAllKeepsKeysUnique<V>(m: Map<V>, entries: seq<Node<V>>, key: string)
    requires Valid(m) && AllHashable(entries)
    ensures Valid(InsertAll(m, entries))
    ensures KeyCount(InsertAll(m, entries).table, key) <= 1
  {
    if |entries| > 0 {
      var last := entries[|entries| - 1];
      InsertAllKeepsKeysUnique(m, entries[..|entries| - 1], key);
      InsertPreservesValid(InsertAll(m, entries[..|entries| - 1]), last.key, last.value);
    }
    KeysUnique(InsertAll(m, entries), key);
  }

  // ---------------------------------------------------------------------------
  // Enumeration and rebuilding
  // ---------------------------------------------------------------------------

  function Rev<T>(s: seq<T>): (r: seq<T>)
    ensures |r| == |s|
  {
    if |s| == 0 then [] else [s[|s| - 1]] + Rev(s[..|s| - 1])
  }

  /** `Rev` lists the elements last to first. */
  lemma {:induction false} RevIndex<T>(s: seq<T>)
    ensures forall i :: 0 <= i < |s| ==> Rev(s)[i] == s[|s| - 1 - i]
  {
    if |s| > 0 {
      RevIndex(s[..|s| - 1]);
    }
  }

  /**
   * The nodes of the map bucket by bucket, each chain from tail to head: the
   * order in which inserting them into an empty map rebuilds the same chains.
   */
  function Entries<V>(m: Map<V>): (r: seq<Node<V>>)
    ensures Valid(m) ==> AllHashable(r)
  {
    var r := EntriesOf(m.table, |m.table|);
    assert Valid(m) ==> AllHashable(r) by {
      if Valid(m) {
        EntriesHashable(m, |m.table|);
      }
    }
    r
  }

  function EntriesOf<V>(tbl: seq<Bucket<V>>, n: nat): seq<Node<V>>
    requires n <= |tbl|
  {
    if n == 0 then [] else EntriesOf(tbl, n - 1) + Rev(tbl[n - 1].chain)
  }

  lemma {:induction false} EntriesHashable<V>(m: Map<V>, n: nat)
    requires Valid(m) && n <= |m.table|
    ensures AllHashable(EntriesOf(m.table, n))
  {
    if n > 0 {
      EntriesHashable(m, n - 1);
      var c := m.table[n - 1].chain;
      assert ChainValid(c, n - 1);
      var prev := EntriesOf(m.table, n - 1);
      var r := prev + Rev(c);
      RevIndex(c);
      assert forall k :: |prev| <= k < |r| ==> r[k] == c[|r| - 1 - k];
    }
  }

  /** Every entry of the enumeration is a node of one of the first `n` buckets. */
  lemma {:induction false} EntryIsNode<V>(tbl: seq<Bucket<V>>, n: nat, k: nat)
    requires n <= |tbl| && k < |EntriesOf(tbl, n)|
    ensures exists b, j :: 0 <= b < n && 0 <= j < |tbl[b].chain| && EntriesOf(tbl, n)[k] == tbl[b].chain[j]
  {
    var prev := EntriesOf(tbl, n - 1);
    var c := tbl[n - 1].chain;
    if k < |prev| {
      EntryIsNode(tbl, n - 1, k);
      assert EntriesOf(tbl, n)[k] == prev[k];
    } else {
      RevIndex(c);
      var j := |c| - 1 - (k - |prev|);
      assert EntriesOf(tbl, n)[k] == c[j];
    }
  }

  /**
   * The entries that `bucket` sends to `b`, in their original order.  The
   * lemmas below hold for any bucket function; the map uses `BucketIndex`.
   */
  function InBucket<V>(entries: seq<Node<V>>, bucket: string -> int, b: int): seq<Node<V>>
  {
    if |entries| == 0 then []
    else
      var last := entries[|entries| - 1];
      InBucket(entries[..|entries| - 1], bucket, b) + (if bucket(last.key) == b then [last] else [])
  }

  lemma {:induction false} InBucketAppend<V>(a: seq<Node<V>>, c: seq<Node<V>>, bucket: string -> int, b: int)
    ensures InBucket(a + c, bucket, b) == InBucket(a, bucket, b) + InBucket(c, bucket, b)
  {
    if |c| > 0 {
      assert (a + c)[..|a + c| - 1] == a + c[..|c| - 1];
      InBucketAppend(a, c[..|c| - 1], bucket, b);
    } else {
      assert a + c == a;
    }
  }

  lemma {:induction false} InBucketAllOrNothing<V>(s: seq<Node<V>>, bucket: string -> int, b: int, b': int)
    requires forall j :: 0 <= j < |s| ==> bucket(s[j].key) == b'
    ensures InBucket(s, bucket, b) == if b == b' then s else []
  {
    if |s| > 0 {
      InBucketAllOrNothing(s[..|s| - 1], bucket, b, b');
      assert s[..|s| - 1] + [s[|s| - 1]] == s;
    }
  }

  /** Every node of `tbl` sits in the bucket `bucket` gives its key. */
  predicate Placed<V>(tbl: seq<Bucket<V>>, bucket: string -> int)
  {
    forall k, j :: 0 <= k < |tbl| && 0 <= j < |tbl[k].chain| ==> bucket(tbl[k].chain[j].key) == k
  }

  /** Enumerating one more bucket, other than `b`, leaves bucket `b`'s entries as they were. */
  lemma EntriesGrow<V>(tbl: seq<Bucket<V>>, bucket: string -> int, n: nat, b: int, want: seq<Node<V>>)
    requires Placed(tbl, bucket) && 0 < n <= |tbl| && b != n - 1
    requires InBucket(EntriesOf(tbl, n - 1), bucket, b) == want
    ensures InBucket(EntriesOf(tbl, n), bucket, b) == want
  {
    var c := tbl[n - 1].chain;
    var prev := EntriesOf(tbl, n - 1);
    assert EntriesOf(tbl, n) == prev + Rev(c);
    ChainElsewhere(tbl, bucket, n - 1, b);
    AppendNothing(prev, Rev(c), bucket, b, want);
  }

  /** Enumerated buckets other than `b` contribute nothing to bucket `b`. */
  lemma {:induction false} EntriesOutside<V>(tbl: seq<Bucket<V>>, bucket: string -> int, n: nat, b: int)
    requires Placed(tbl, bucket) && n <= |tbl|
    requires b < 0 || n <= b
    ensures InBucket(EntriesOf(tbl, n), bucket, b) == []
  {
    if n > 0 {
      EntriesOutside(tbl, bucket, n - 1, b);
      EntriesGrow(tbl, bucket, n, b, []);
    }
  }

  /** Appending entries none of which belong to bucket `b` leaves bucket `b` as it was. */
  lemma AppendNothing<V>(prev: seq<Node<V>>, d: seq<Node<V>>, bucket: string -> int, b: int, want: seq<Node<V>>)
    requires InBucket(prev, bucket, b) == want && InBucket(d, bucket, b) == []
    ensures InBucket(prev + d, bucket, b) == want
  {
    InBucketAppend(prev, d, bucket, b);
    EmptySuffix(want, InBucket(d, bucket, b));
  }

  lemma EmptyPrefix<T>(a: seq<T>, c: seq<T>)
    requires a == []
    ensures a + c == c
  {
  }

  lemma EmptySuffix<T>(a: seq<T>, c: seq<T>)
    requires c == []
    ensures a + c == a
  {
  }

  /** The last of the first `n` buckets enumerated contributes its chain tail first. */
  lemma EntriesLast<V>(tbl: seq<Bucket<V>>, bucket: string -> int, n: nat, b: nat)
    requires Placed(tbl, bucket) && n <= |tbl|
    requires b + 1 == n
    ensures InBucket(EntriesOf(tbl, n), bucket, b) == Rev(tbl[b].chain)
  {
    var c := tbl[b].chain;
    var prev := EntriesOf(tbl, b);
    assert EntriesOf(tbl, n) == prev + Rev(c);
    InBucketAppend(prev, Rev(c), bucket, b);
    ChainInBucket(tbl, bucket, b, b);
    EntriesOutside(tbl, bucket, b, b);
    EmptyPrefix(InBucket(prev, bucket, b), InBucket(Rev(c), bucket, b));
  }

  /** Among the first `n` buckets enumerated, bucket `b` contributes its chain tail first. */
  lemma {:induction false} EntriesInside<V>(tbl: seq<Bucket<V>>, bucket: string -> int, n: nat, b: int)
    requires Placed(tbl, bucket) && n <= |tbl|
    requires 0 <= b < n
    ensures InBucket(EntriesOf(tbl, n), bucket, b) == Rev(tbl[b].chain)
  {
    if b == n - 1 {
      EntriesLast(tbl, bucket, n, b);
    } else {
      EntriesInside(tbl, bucket, n - 1, b);
      EntriesGrow(tbl, bucket, n, b, Rev(tbl[b].chain));
    }
  }

  /** Bucket `k`, tail first, holds only keys of bucket `k`. */
  lemma ChainInBucket<V>(tbl: seq<Bucket<V>>, bucket: string -> int, k: nat, b: int)
    requires Placed(tbl, bucket) && k < |tbl|
    ensures InBucket(Rev(tbl[k].chain), bucket, b) == if b == k then Rev(tbl[k].chain) else []
  {
    var c := tbl[k].chain;
    RevIndex(c);
    forall j | 0 <= j < |Rev(c)| ensures bucket(Rev(c)[j].key) == k {
      assert Rev(c)[j] == c[|c| - 1 - j];
    }
    InBucketAllOrNothing(Rev(c), bucket, b, k);
  }

  /** A bucket other than `b` contributes nothing to `b`. */
  lemma ChainElsewhere<V>(tbl: seq<Bucket<V>>, bucket: string -> int, k: nat, b: int)
    requires Placed(tbl, bucket) && k < |tbl| && b != k
    ensures InBucket(Rev(tbl[k].chain), bucket, b) == []
  {
    ChainInBucket(tbl, bucket, k, b);
  }

  lemma DistinctKeysPrefix<V>(s: seq<Node<V>>, t: seq<Node<V>>)
    requires DistinctKeys(s + t)
    ensures DistinctKeys(s)
  {
    assert forall i :: 0 <= i < |s| ==> (s + t)[i] == s[i];
  }

  /** Dropping the last entry keeps every bucket's keys distinct and removes the entry from its own bucket only. */
  lemma BucketsOfPrefix<V>(prefix: seq<Node<V>>, x: Node<V>)
    requires AllHashable(prefix + [x])
    requires forall b' :: 0 <= b' < TABLE_SIZE ==> DistinctKeys(InBucket(prefix + [x], BucketIndex, b'))
    ensures AllHashable(prefix) && Hashable(x.key)
    ensures forall b' :: 0 <= b' < TABLE_SIZE ==> DistinctKeys(InBucket(prefix, BucketIndex, b'))
  {
    assert (prefix + [x])[|prefix|] == x;
    assert forall i :: 0 <= i < |prefix| ==> (prefix + [x])[i] == prefix[i];
    forall b' | 0 <= b' < TABLE_SIZE ensures DistinctKeys(InBucket(prefix, BucketIndex, b')) {
      assert (prefix + [x])[..|prefix|] == prefix;
      assert InBucket(prefix + [x], BucketIndex, b') == InBucket(prefix, BucketIndex, b') + (if BucketIndex(x.key) == b' then [x] else []);
      DistinctKeysPrefix(InBucket(prefix, BucketIndex, b'), if BucketIndex(x.key) == b' then [x] else []);
    }
  }

  /** A key new to its bucket goes in front of the bucket's chain. */
  lemma PrependNew<V>(before: Map<V>, s: seq<Node<V>>, x: Node<V>)
    requires WellSized(before) && Hashable(x.key)
    requires before.table[BucketIndex(x.key)].chain == Rev(s)
    requires DistinctKeys(s + [x])
    ensures Insert(before, x.key, x.value).table[BucketIndex(x.key)].chain == Rev(s + [x])
  {
    forall j | 0 <= j < |s| ensures s[j].key != x.key {
      assert (s + [x])[j] == s[j] && (s + [x])[|s|] == x;
    }
    RevIndex(s);
    RevIndex(s + [x]);
    assert forall j :: 0 <= j < |s| ==> Rev(s)[j].key != x.key;
    assert Get(before, x.key).None?;
    InsertNewKeyPrepends(before, x.key, x.value);
    assert (s + [x])[..|s|] == s;
    assert Rev(s + [x]) == [x] + Rev(s);
  }

  /** Inserting distinct new keys into an empty map leaves each bucket holding its keys newest first. */
  lemma {:induction false} BuildFromEmpty<V>(entries: seq<Node<V>>, b: nat)
    requires AllHashable(entries)
    requires forall b' :: 0 <= b' < TABLE_SIZE ==> DistinctKeys(InBucket(entries, BucketIndex, b'))
    requires b < TABLE_SIZE
    ensures InsertAll(Init(), entries).table[b].chain == Rev(InBucket(entries, BucketIndex, b))
  {
    if |entries| > 0 {
      var prefix := entries[..|entries| - 1];
      var x := entries[|entries| - 1];
      assert entries == prefix + [x];
      BucketsOfPrefix(prefix, x);
      BuildFromEmpty(prefix, b);
      var before := InsertAll(Init(), prefix);
      assert InsertAll(Init(), entries) == Insert(before, x.key, x.value);
      if BucketIndex(x.key) == b {
        assert InBucket(entries, BucketIndex, b) == InBucket(prefix, BucketIndex, b) + [x];
        PrependNew(before, InBucket(prefix, BucketIndex, b), x);
      } else {
        assert InBucket(entries, BucketIndex, b) == InBucket(prefix, BucketIndex, b);
      }
    }
  }

  lemma ValidIsPlaced<V>(m: Map<V>)
    requires Valid(m)
    ensures Placed(m.table, BucketIndex)
  {
    forall k, j | 0 <= k < |m.table| && 0 <= j < |m.table[k].chain|
      ensures BucketIndex(m.table[k].chain[j].key) == k
    {
      assert ChainValid(m.table[k].chain, k);
    }
  }

  /** Enumerating a valid map lists each bucket's nodes once, tail first. */
  lemma EntriesPerBucket<V>(m: Map<V>, b: int)
    requires Valid(m) && 0 <= b < TABLE_SIZE
    ensures InBucket(Entries(m), BucketIndex, b) == Rev(m.table[b].chain)
    ensures DistinctKeys(InBucket(Entries(m), BucketIndex, b))
  {
    ValidIsPlaced(m);
    EntriesInside(m.table, BucketIndex, |m.table|, b);
    var c := m.table[b].chain;
    assert ChainValid(c, b);
    RevIndex(c);
    assert forall i :: 0 <= i < |c| ==> Rev(c)[i] == c[|c| - 1 - i];
  }

  lemma RevRev<T>(s: seq<T>)
    ensures Rev(Rev(s)) == s
  {
    RevIndex(s);
    RevIndex(Rev(s));
    assert forall i :: 0 <= i < |s| ==> Rev(Rev(s))[i] == Rev(s)[|s| - 1 - i];
  }

  /** Enumerating a valid map and inserting its entries into an empty map gives back the same map. */
  lemma RebuildFromEntries<V>(m: Map<V>)
    requires Valid(m)
    ensures InsertAll(Init(), Entries(m)) == m
  {
    var es := Entries(m);
    var r := InsertAll(Init(), es);
    forall b' | 0 <= b' < TABLE_SIZE ensures DistinctKeys(InBucket(es, BucketIndex, b')) {
      EntriesPerBucket(m, b');
    }
    forall b | 0 <= b < TABLE_SIZE ensures r.table[b] == m.table[b] {
      BuildFromEmpty(es, b);
      EntriesPerBucket(m, b);
      RevRev(m.table[b].chain);
    }
    assert r.table == m.table;
  }
}
