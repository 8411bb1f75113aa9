/**
 * The bucket array of a chained hash table, shared by the two revisions
 * (src/htable.c and src/hashtable.c). A bucket is a chain of links; a link
 * either holds a key/value mapping or is vacant. src/hashtable.c embeds the
 * first link of every chain in the bucket array and leaves vacant links
 * behind when it removes a mapping; src/htable.c only ever links occupied
 * entries.
 *
 * The abstraction of a bucket array is the map from the keys of its occupied
 * links to their values; `Valid` collects the invariants both tables keep:
 * every mapping sits in bucket `hash(key) % bucket_count`, and no key is
 * stored twice.
 */
module Chains {
  import opened Wrappers
  import Jenkins

  type Bytes = Jenkins.Bytes

  datatype Slot<V> = Vacant | Occupied(key: Bytes, value: V)

  type Chain<V> = seq<Slot<V>>

  type Buckets<V> = seq<Chain<V>>

  /** The bucket of a key: `hash(key, len) % bucket_count`, always a valid bucket index. */
  function Bucket(key: Bytes, n: nat, signedChars: bool): (i: nat)
    requires n > 0
    ensures i < n
  {
    Jenkins.Hash(key, signedChars) as int % n
  }

  /** Every occupied link sits in the bucket its key hashes to. */
  ghost predicate Placed<V>(b: Buckets<V>, signedChars: bool)
    requires |b| > 0
  {
    forall i, j | 0 <= i < |b| && 0 <= j < |b[i]| && b[i][j].Occupied? ::
      Bucket(b[i][j].key, |b|, signedChars) == i
  }

  /** No key is held by two different links. */
  ghost predicate Unique<V>(b: Buckets<V>) {
    forall i1, j1, i2, j2 |
      && 0 <= i1 < |b| && 0 <= j1 < |b[i1]| && 0 <= i2 < |b| && 0 <= j2 < |b[i2]|
      && b[i1][j1].Occupied? && b[i2][j2].Occupied? && b[i1][j1].key == b[i2][j2].key
      :: i1 == i2 && j1 == j2
  }

  /** No stored key is empty: src/htable.c refuses zero-length keys. */
  ghost predicate KeysNonEmpty<V>(b: Buckets<V>) {
    forall i, j | 0 <= i < |b| && 0 <= j < |b[i]| && b[i][j].Occupied? :: |b[i][j].key| > 0
  }

  /** The representation invariant shared by both tables. */
  ghost predicate Valid<V>(b: Buckets<V>, signedChars: bool) {
    && |b| > 0
    && Placed(b, signedChars)
    && Unique(b)
  }

  /** The occupied links of a bucket array. */
  ghost function Entries<V>(b: Buckets<V>): set<Slot<V>> {
    set i, j | 0 <= i < |b| && 0 <= j < |b[i]| && b[i][j].Occupied? :: b[i][j]
  }

  lemma EntriesFunctional<V>(b: Buckets<V>)
    requires Unique(b)
    ensures forall e | e in Entries(b) :: e.Occupied?
    ensures forall e1, e2 | e1 in Entries(b) && e2 in Entries(b) && e1.key == e2.key :: e1 == e2
  {
    forall e1, e2 | e1 in Entries(b) && e2 in Entries(b) && e1.key == e2.key
      ensures e1 == e2
    {
      var i1, j1 :| 0 <= i1 < |b| && 0 <= j1 < |b[i1]| && b[i1][j1].Occupied? && b[i1][j1] == e1;
      var i2, j2 :| 0 <= i2 < |b| && 0 <= j2 < |b[i2]| && b[i2][j2].Occupied? && b[i2][j2] == e2;
    }
  }

  /** The abstraction: the key/value mappings the bucket array holds. */
  ghost function Contents<V>(b: Buckets<V>): map<Bytes, V>
    requires Unique(b)
  {
    EntriesFunctional(b);
    map e | e in Entries(b) :: e.key := e.value
  }

  /** An occupied link is a mapping of the abstraction. */
  lemma ContentsAt<V>(b: Buckets<V>, i: nat, j: nat)
    requires Unique(b)
    requires i < |b| && j < |b[i]| && b[i][j].Occupied?
    ensures b[i][j].key in Contents(b)
    ensures Contents(b)[b[i][j].key] == b[i][j].value
  {
    assert b[i][j] in Entries(b);
  }

  /** Every mapping of the abstraction is held by some occupied link. */
  lemma ContentsWitness<V>(b: Buckets<V>, k: Bytes) returns (i: nat, j: nat)
    requires Unique(b)
    requires k in Contents(b)
    ensures i < |b| && j < |b[i]|
    ensures b[i][j] == Occupied(k, Contents(b)[k])
  {
    var e :| e in Entries(b) && e.key == k;
    i, j :| 0 <= i < |b| && 0 <= j < |b[i]| && b[i][j].Occupied? && b[i][j] == e;
    ContentsAt(b, i, j);
  }

  /** A key no link holds is not in the abstraction. */
  lemma NotInContents<V>(b: Buckets<V>, k: Bytes)
    requires Unique(b)
    requires forall i, j | 0 <= i < |b| && 0 <= j < |b[i]| && b[i][j].Occupied? :: b[i][j].key != k
    ensures k !in Contents(b)
  {
    if k in Contents(b) {
      var i, j := ContentsWitness(b, k);
    }
  }

  // ---------------------------------------------------------------------
  // Searching one chain

  /** The index of the first occupied link of `c` holding key `k`. */
  function Position<V>(c: Chain<V>, k: Bytes): (r: Option<nat>)
    ensures r.Some? ==> r.value < |c| && c[r.value].Occupied? && c[r.value].key == k
    ensures r.Some? ==> forall j | 0 <= j < r.value :: !(c[j].Occupied? && c[j].key == k)
    ensures r.None? ==> forall j | 0 <= j < |c| :: !(c[j].Occupied? && c[j].key == k)
  {
    if |c| == 0 then None
    else if c[0].Occupied? && c[0].key == k then Some(0)
    else match Position(c[1..], k)
      case None => None
      case Some(p) => Some(p + 1)
  }

  /** The value of the first link of `c` holding `k`: the chain walk of both lookups. */
  function Find<V>(c: Chain<V>, k: Bytes): (r: Option<V>)
    ensures r.Some? <==> exists j | 0 <= j < |c| :: c[j].Occupied? && c[j].key == k
  {
    match Position(c, k)
    case None => None
    case Some(j) => Some(c[j].value)
  }

  /** On a valid array, walking the key's bucket finds exactly the abstraction's mapping. */
  lemma FindContents<V>(b: Buckets<V>, signedChars: bool, k: Bytes)
    requires Valid(b, signedChars)
    ensures Find(b[Bucket(k, |b|, signedChars)], k) == Get(Contents(b), k)
  {
    var n := Bucket(k, |b|, signedChars);
    if k in Contents(b) {
      var i, j := ContentsWitness(b, k);
      assert i == n;
      var p := Position(b[n], k).value;
      assert p == j;
    } else {
      match Position(b[n], k)
      case None =>
      case Some(p) =>
        ContentsAt(b, n, p);
    }
  }

  // ---------------------------------------------------------------------
  // Enumerating the keys

  /** The keys of the occupied links of a chain, in chain order. */
  function ChainKeys<V>(c: Chain<V>): seq<Bytes> {
    if |c| == 0 then []
    else (if c[0].Occupied? then [c[0].key] else []) + ChainKeys(c[1..])
  }

  /** The keys of a bucket array in the order both `htable_get_keys` walk it: bucket by bucket, down each chain. */
  function LiveKeys<V>(b: Buckets<V>): seq<Bytes> {
    if |b| == 0 then [] else ChainKeys(b[0]) + LiveKeys(b[1..])
  }

  /** The number of mappings a bucket array holds. */
  function Count<V>(b: Buckets<V>): nat {
    |LiveKeys(b)|
  }

  predicate Distinct<T(==)>(s: seq<T>) {
    forall p, q | 0 <= p < q < |s| :: s[p] != s[q]
  }

  /** The first of distinct keys is not among the rest, which are distinct too. */
  lemma DistinctTail(keys: seq<Bytes>)
    requires Distinct(keys) && |keys| > 0
    ensures keys[0] !in keys[1..] && Distinct(keys[1..])
  {
    forall k' | k' in keys[1..] ensures k' != keys[0] {
      var p :| 0 <= p < |keys[1..]| && keys[1..][p] == k';
      assert keys[0] != keys[p + 1];
    }
  }

  lemma {:induction false} ChainKeysAppend<V>(c: Chain<V>, d: Chain<V>)
    ensures ChainKeys(c + d) == ChainKeys(c) + ChainKeys(d)
    decreases |c|
  {
    if |c| > 0 {
      assert (c + d)[1..] == c[1..] + d;
      ChainKeysAppend(c[1..], d);
    } else {
      assert c + d == d;
    }
  }

  lemma {:induction false} LiveKeysAppend<V>(b: Buckets<V>, d: Buckets<V>)
    ensures LiveKeys(b + d) == LiveKeys(b) + LiveKeys(d)
    decreases |b|
  {
    if |b| > 0 {
      assert (b + d)[1..] == b[1..] + d;
      LiveKeysAppend(b[1..], d);
    } else {
      assert b + d == d;
    }
  }

  lemma LiveKeysOne<V>(c: Chain<V>)
    ensures LiveKeys([c]) == ChainKeys(c)
  {
    assert [c][1..] == [];
  }

  /** A sequence is what comes before an element, the element, and what comes after it. */
  lemma SplitAt<T>(s: seq<T>, i: nat)
    requires i < |s|
    ensures s == (s[..i] + [s[i]]) + s[i + 1..]
  {
  }

  /** Overwriting an element keeps what comes before and after it. */
  lemma SplitUpdate<T>(s: seq<T>, i: nat, x: T)
    requires i < |s|
    ensures s[i := x] == (s[..i] + [x]) + s[i + 1..]
    ensures s[i := x][..i] == s[..i] && s[i := x][i + 1..] == s[i + 1..]
  {
  }

  /** The key list of an array is its chains' key lists laid end to end. */
  lemma LiveKeysSplit<V>(b: Buckets<V>, i: nat)
    requires i < |b|
    ensures LiveKeys(b) == LiveKeys(b[..i]) + ChainKeys(b[i]) + LiveKeys(b[i + 1..])
  {
    SplitAt(b, i);
    LiveKeysAppend(b[..i] + [b[i]], b[i + 1..]);
    LiveKeysAppend(b[..i], [b[i]]);
    LiveKeysOne(b[i]);
  }

  /** Replacing one chain changes the key list only in that chain's stretch. */
  lemma LiveKeysUpdate<V>(b: Buckets<V>, i: nat, c: Chain<V>)
    requires i < |b|
    ensures LiveKeys(b) == LiveKeys(b[..i]) + ChainKeys(b[i]) + LiveKeys(b[i + 1..])
    ensures LiveKeys(b[i := c]) == LiveKeys(b[..i]) + ChainKeys(c) + LiveKeys(b[i + 1..])
  {
    LiveKeysSplit(b, i);
    LiveKeysSplit(b[i := c], i);
    SplitUpdate(b, i, c);
  }

  lemma ChainKeysOne<V>(s: Slot<V>)
    ensures ChainKeys([s]) == if s.Occupied? then [s.key] else []
  {
    assert [s][1..] == [];
  }

  /** The length of a chain's key list after overwriting link `j`. */
  lemma ChainKeysSet<V>(c: Chain<V>, j: nat, s: Slot<V>)
    requires j < |c|
    ensures |ChainKeys(c)| == |ChainKeys(c[..j])| + |ChainKeys([c[j]])| + |ChainKeys(c[j + 1..])|
    ensures |ChainKeys(c[j := s])| == |ChainKeys(c[..j])| + |ChainKeys([s])| + |ChainKeys(c[j + 1..])|
  {
    SplitAt(c, j);
    SplitUpdate(c, j, s);
    ChainKeysAppend(c[..j] + [c[j]], c[j + 1..]);
    ChainKeysAppend(c[..j], [c[j]]);
    ChainKeysAppend(c[..j] + [s], c[j + 1..]);
    ChainKeysAppend(c[..j], [s]);
  }

  lemma {:induction false} ChainKeysMembers<V>(c: Chain<V>, x: Bytes)
    ensures x in ChainKeys(c) <==> exists j | 0 <= j < |c| :: c[j].Occupied? && c[j].key == x
    decreases |c|
  {
    if |c| > 0 {
      ChainKeysMembers(c[1..], x);
      if exists j | 0 <= j < |c| :: c[j].Occupied? && c[j].key == x {
        var j :| 0 <= j < |c| && c[j].Occupied? && c[j].key == x;
        if j > 0 {
          assert c[1..][j - 1] == c[j];
        }
      }
      if x in ChainKeys(c[1..]) {
        var j :| 0 <= j < |c[1..]| && c[1..][j].Occupied? && c[1..][j].key == x;
        assert c[j + 1] == c[1..][j];
      }
    }
  }

  lemma {:induction false} LiveKeysMembers<V>(b: Buckets<V>, x: Bytes)
    ensures x in LiveKeys(b) <==>
      exists i, j | 0 <= i < |b| && 0 <= j < |b[i]| :: b[i][j].Occupied? && b[i][j].key == x
    decreases |b|
  {
    if |b| > 0 {
      LiveKeysMembers(b[1..], x);
      ChainKeysMembers(b[0], x);
      if exists i, j | 0 <= i < |b| && 0 <= j < |b[i]| :: b[i][j].Occupied? && b[i][j].key == x {
        var i, j :| 0 <= i < |b| && 0 <= j < |b[i]| && b[i][j].Occupied? && b[i][j].key == x;
        if i > 0 {
          assert b[1..][i - 1][j] == b[i][j];
        }
      }
      if x in LiveKeys(b[1..]) {
        var i, j :| 0 <= i < |b[1..]| && 0 <= j < |b[1..][i]| && b[1..][i][j].Occupied? && b[1..][i][j].key == x;
        assert b[i + 1][j] == b[1..][i][j];
      }
    }
  }

  lemma {:induction false} ChainKeysDistinct<V>(c: Chain<V>)
    requires forall j1, j2 | 0 <= j1 < |c| && 0 <= j2 < |c| && j1 != j2 && c[j1].Occupied? && c[j2].Occupied? ::
      c[j1].key != c[j2].key
    ensures Distinct(ChainKeys(c))
    decreases |c|
  {
    if |c| > 0 {
      var t: Chain<V> := c[1..];
      assert forall j1, j2 | 0 <= j1 < |t| && 0 <= j2 < |t| && j1 != j2 && t[j1].Occupied? && t[j2].Occupied? ::
        t[j1].key != t[j2].key by {
        forall j1, j2 | 0 <= j1 < |t| && 0 <= j2 < |t| && j1 != j2 && t[j1].Occupied? && t[j2].Occupied?
          ensures t[j1].key != t[j2].key
        {
          assert t[j1] == c[j1 + 1] && t[j2] == c[j2 + 1];
        }
      }
      ChainKeysDistinct(t);
      if c[0].Occupied? {
        forall j | 0 <= j < |t| && t[j].Occupied?
          ensures t[j].key != c[0].key
        {
          assert t[j] == c[j + 1];
        }
        ChainKeysMembers(t, c[0].key);
      }
    }
  }

  /** Under `Unique`, the key list has no duplicates and enumerates exactly the abstraction's keys. */
  lemma {:induction false} LiveKeysDistinct<V>(b: Buckets<V>)
    requires Unique(b)
    ensures Distinct(LiveKeys(b))
    decreases |b|
  {
    if |b| > 0 {
      var t: Buckets<V> := b[1..];
      assert Unique(t) by {
        forall i1, j1, i2, j2 |
          && 0 <= i1 < |t| && 0 <= j1 < |t[i1]| && 0 <= i2 < |t| && 0 <= j2 < |t[i2]|
          && t[i1][j1].Occupied? && t[i2][j2].Occupied? && t[i1][j1].key == t[i2][j2].key
          ensures i1 == i2 && j1 == j2
        {
          assert t[i1][j1] == b[i1 + 1][j1] && t[i2][j2] == b[i2 + 1][j2];
        }
      }
      LiveKeysDistinct(t);
      ChainKeysDistinct(b[0]);
      var a := ChainKeys(b[0]);
      var r := LiveKeys(t);
      forall p, q | 0 <= p < |a| && 0 <= q < |r|
        ensures a[p] != r[q]
      {
        ChainKeysMembers(b[0], a[p]);
        LiveKeysMembers(t, r[q]);
        var j1 :| 0 <= j1 < |b[0]| && b[0][j1].Occupied? && b[0][j1].key == a[p];
        var i2, j2 :| 0 <= i2 < |t| && 0 <= j2 < |t[i2]| && t[i2][j2].Occupied? && t[i2][j2].key == r[q];
        assert b[i2 + 1][j2] == t[i2][j2];
      }
    }
  }

  lemma {:induction false} DistinctCardinality<T>(s: seq<T>)
    requires Distinct(s)
    ensures |set x | x in s| == |s|
    decreases |s|
  {
    if |s| > 0 {
      DistinctCardinality(s[1..]);
      assert (set x | x in s) == {s[0]} + (set x | x in s[1..]);
      assert s[0] !in s[1..];
    }
  }

  /** The key list of a unique array enumerates the abstraction's keys, each once. */
  lemma LiveKeysContents<V>(b: Buckets<V>)
    requires Unique(b)
    ensures Distinct(LiveKeys(b))
    ensures forall x :: x in LiveKeys(b) <==> x in Contents(b)
    ensures |Contents(b)| == Count(b)
  {
    LiveKeysDistinct(b);
    forall x
      ensures x in LiveKeys(b) <==> x in Contents(b)
    {
      LiveKeysMembers(b, x);
      if x in LiveKeys(b) {
        var i, j :| 0 <= i < |b| && 0 <= j < |b[i]| && b[i][j].Occupied? && b[i][j].key == x;
        ContentsAt(b, i, j);
      }
      if x in Contents(b) {
        var i, j := ContentsWitness(b, x);
      }
    }
    DistinctCardinality(LiveKeys(b));
    assert Contents(b).Keys == set x | x in LiveKeys(b);
  }

  // ---------------------------------------------------------------------
  // Arrays without mappings

  /** An array of `n` chains that each hold only vacant links. */
  function Fresh<V>(n: nat, head: Chain<V>): (b: Buckets<V>)
    requires forall j | 0 <= j < |head| :: head[j].Vacant?
    ensures |b| == n
    ensures forall i | 0 <= i < n :: b[i] == head
  {
    seq(n, _ => head)
  }

  lemma FreshEmpty<V>(n: nat, head: Chain<V>, signedChars: bool)
    requires n > 0
    requires forall j | 0 <= j < |head| :: head[j].Vacant?
    ensures Valid(Fresh(n, head), signedChars) && KeysNonEmpty(Fresh(n, head))
    ensures Contents(Fresh(n, head)) == map[]
    ensures Count(Fresh(n, head)) == 0
  {
    var b := Fresh(n, head);
    if |LiveKeys(b)| > 0 {
      LiveKeysMembers(b, LiveKeys(b)[0]);
    }
    assert Entries(b) == {};
  }

  // ---------------------------------------------------------------------
  // The four ways the tables change a bucket array

  /** A mapping's keys and values follow its entry set, when one entry joins. */
  lemma ContentsAdd<V>(b: Buckets<V>, b': Buckets<V>, e: Slot<V>)
    requires Unique(b) && Unique(b')
    requires e.Occupied? && e.key !in Contents(b)
    requires Entries(b') == Entries(b) + {e}
    ensures Contents(b') == Contents(b)[e.key := e.value]
  {
    EntriesFunctional(b);
    EntriesFunctional(b');
    forall x | x in Contents(b)
      ensures x in Contents(b') && Contents(b')[x] == Contents(b)[x]
    {
      var d :| d in Entries(b) && d.key == x;
      assert d in Entries(b');
    }
    assert e in Entries(b');
    forall x | x in Contents(b')
      ensures x == e.key || x in Contents(b)
    {
      var d :| d in Entries(b') && d.key == x;
      if d != e {
        assert d in Entries(b);
      }
    }
    MapUpdated(Contents(b), Contents(b'), e.key, e.value);
  }

  /** A map that agrees with another everywhere, holds one more key, and nothing else, is its update. */
  lemma MapUpdated<K, V>(m: map<K, V>, m': map<K, V>, k: K, v: V)
    requires forall x | x in m :: x in m' && m'[x] == m[x]
    requires k !in m && k in m' && m'[k] == v
    requires forall x | x in m' :: x == k || x in m
    ensures m' == m[k := v]
  {
  }

  /** A map that agrees with another on all of its keys, which are all the other's but one, is its removal. */
  lemma MapRemoved<K, V>(m: map<K, V>, m': map<K, V>, k: K)
    requires forall x | x in m' :: x in m && x != k && m'[x] == m[x]
    requires forall x | x in m && x != k :: x in m'
    ensures m' == m - {k}
  {
  }

  /** A mapping's keys and values follow its entry set, when one entry leaves. */
  lemma ContentsRemove<V>(b: Buckets<V>, b': Buckets<V>, e: Slot<V>)
    requires Unique(b) && Unique(b')
    requires e in Entries(b)
    requires Entries(b') == Entries(b) - {e}
    ensures Contents(b') == Contents(b) - {e.key}
  {
    EntriesFunctional(b);
    EntriesFunctional(b');
    forall x | x in Contents(b')
      ensures x in Contents(b) && x != e.key && Contents(b')[x] == Contents(b)[x]
    {
      var d :| d in Entries(b') && d.key == x;
      assert d in Entries(b);
    }
    forall x | x in Contents(b) && x != e.key
      ensures x in Contents(b')
    {
      var d :| d in Entries(b) && d.key == x;
      assert d in Entries(b');
    }
    MapRemoved(Contents(b), Contents(b'), e.key);
  }

  /** `c'` is chain `c` with entry `e` added at link `j`: appended when `j == |c|`, written into a vacant link otherwise. */
  ghost predicate Adds<V>(c: Chain<V>, j: nat, e: Slot<V>, c': Chain<V>) {
    || (j == |c| && c' == c + [e])
    || (j < |c| && c[j].Vacant? && c' == c[j := e])
  }

  /** `c'` is chain `c` with the entry of link `j` removed: unlinked, or replaced by a vacant link. */
  ghost predicate Drops<V>(c: Chain<V>, j: nat, c': Chain<V>) {
    && j < |c| && c[j].Occupied?
    && (c' == c[..j] + c[j + 1..] || c' == c[j := Vacant])
  }

  lemma KeyAbsent<V>(b: Buckets<V>, k: Bytes)
    requires Unique(b) && k !in Contents(b)
    ensures forall i, j | 0 <= i < |b| && 0 <= j < |b[i]| && b[i][j].Occupied? :: b[i][j].key != k
  {
    forall i, j | 0 <= i < |b| && 0 <= j < |b[i]| && b[i][j].Occupied?
      ensures b[i][j].key != k
    {
      ContentsAt(b, i, j);
    }
  }

  lemma InsertValid<V>(b: Buckets<V>, signedChars: bool, k: Bytes, v: V, j: nat, c: Chain<V>)
    requires Valid(b, signedChars)
    requires k !in Contents(b)
    requires Adds(b[Bucket(k, |b|, signedChars)], j, Occupied(k, v), c)
    ensures Valid(b[Bucket(k, |b|, signedChars) := c], signedChars)
    ensures KeysNonEmpty(b) && |k| > 0 ==> KeysNonEmpty(b[Bucket(k, |b|, signedChars) := c])
  {
    var i := Bucket(k, |b|, signedChars);
    var b': Buckets<V> := b[i := c];
    KeyAbsent(b, k);
    assert b'[i][j] == Occupied(k, v);
    assert forall i', j' | 0 <= i' < |b'| && 0 <= j' < |b'[i']| && (i' != i || j' != j) ::
      j' < |b[i']| && b'[i'][j'] == b[i'][j'];
  }

  lemma InsertEntries<V>(b: Buckets<V>, i: nat, j: nat, e: Slot<V>, c: Chain<V>)
    requires i < |b| && e.Occupied?
    requires Adds(b[i], j, e, c)
    ensures Entries(b[i := c]) == Entries(b) + {e}
  {
    var b': Buckets<V> := b[i := c];
    assert b'[i][j] == e;
    forall d | d in Entries(b')
      ensures d in Entries(b) + {e}
    {
      var i', j' :| 0 <= i' < |b'| && 0 <= j' < |b'[i']| && b'[i'][j'].Occupied? && b'[i'][j'] == d;
      if i' != i || j' != j {
        assert b'[i'][j'] == b[i'][j'];
      }
    }
    forall d | d in Entries(b)
      ensures d in Entries(b')
    {
      var i', j' :| 0 <= i' < |b| && 0 <= j' < |b[i']| && b[i'][j'].Occupied? && b[i'][j'] == d;
      assert b'[i'][j'] == d;
    }
  }

  lemma InsertCount<V>(b: Buckets<V>, i: nat, j: nat, e: Slot<V>, c: Chain<V>)
    requires i < |b| && e.Occupied?
    requires Adds(b[i], j, e, c)
    ensures Count(b[i := c]) == Count(b) + 1
  {
    LiveKeysUpdate(b, i, c);
    ChainKeysOne(e);
    if j == |b[i]| {
      ChainKeysAppend(b[i], [e]);
    } else {
      ChainKeysSet(b[i], j, e);
      ChainKeysOne(b[i][j]);
    }
  }

  /** Adding a mapping for a new key to its own chain, in a new last link or in a vacant one. */
  lemma Insert<V>(b: Buckets<V>, signedChars: bool, k: Bytes, v: V, j: nat, c: Chain<V>)
    requires Valid(b, signedChars)
    requires k !in Contents(b)
    requires Adds(b[Bucket(k, |b|, signedChars)], j, Occupied(k, v), c)
    ensures var b' := b[Bucket(k, |b|, signedChars) := c];
      && Valid(b', signedChars)
      && Contents(b') == Contents(b)[k := v]
      && Count(b') == Count(b) + 1
      && (KeysNonEmpty(b) && |k| > 0 ==> KeysNonEmpty(b'))
  {
    var i := Bucket(k, |b|, signedChars);
    InsertValid(b, signedChars, k, v, j, c);
    InsertEntries(b, i, j, Occupied(k, v), c);
    ContentsAdd(b, b[i := c], Occupied(k, v));
    InsertCount(b, i, j, Occupied(k, v), c);
  }

  /** Where link `j'` of the shortened or tombstoned chain came from. */
  function Origin(j: nat, j': nat, unlinked: bool): nat {
    if unlinked && j' >= j then j' + 1 else j'
  }

  /** Every occupied link left by a deletion comes from a link of the old chain other than the deleted one. */
  lemma DeleteOrigins<V>(c: Chain<V>, j: nat, c': Chain<V>)
    requires Drops(c, j, c')
    ensures forall j' | 0 <= j' < |c'| && c'[j'].Occupied? ::
      var o := Origin(j, j', c' == c[..j] + c[j + 1..]);
      o < |c| && o != j && c'[j'] == c[o]
  {
    var unlinked := c' == c[..j] + c[j + 1..];
    forall j' | 0 <= j' < |c'| && c'[j'].Occupied?
      ensures var o := Origin(j, j', unlinked); o < |c| && o != j && c'[j'] == c[o]
    {
      if unlinked {
        if j' >= j {
          assert c'[j'] == c[j' + 1];
        } else {
          assert c'[j'] == c[j'];
        }
      } else {
        assert c' == c[j := Vacant];
        assert j' != j;
      }
    }
  }

  /** Where link `o` of the old chain went, when it was not the one deleted: the inverse of `Origin`. */
  function Survivor(j: nat, o: nat, unlinked: bool): nat {
    if unlinked && o > j then o - 1 else o
  }

  /** Every link of the old chain other than the deleted one is still in the chain a deletion leaves. */
  lemma DeleteSurvivors<V>(c: Chain<V>, j: nat, c': Chain<V>)
    requires Drops(c, j, c')
    ensures forall o | 0 <= o < |c| && o != j ::
      var t := Survivor(j, o, c' == c[..j] + c[j + 1..]);
      t < |c'| && c'[t] == c[o]
  {
    var unlinked := c' == c[..j] + c[j + 1..];
    forall o | 0 <= o < |c| && o != j
      ensures var t := Survivor(j, o, unlinked); t < |c'| && c'[t] == c[o]
    {
      if !unlinked {
        assert c' == c[j := Vacant];
        assert c'[o] == c[o];
      }
    }
  }

  /** Every occupied link after a deletion is a link of the array before it, other than the deleted one. */
  lemma DeleteMaps<V>(b: Buckets<V>, i: nat, j: nat, c: Chain<V>)
    requires i < |b| && Drops(b[i], j, c)
    ensures var b' := b[i := c];
      forall i', j' | 0 <= i' < |b'| && 0 <= j' < |b'[i']| && b'[i'][j'].Occupied? ::
        var o := if i' == i then Origin(j, j', c == b[i][..j] + b[i][j + 1..]) else j';
        o < |b[i']| && b'[i'][j'] == b[i'][o] && (i' != i || o != j)
  {
    DeleteOrigins(b[i], j, c);
  }

  lemma DeleteUnique<V>(b: Buckets<V>, i: nat, j: nat, c: Chain<V>)
    requires Unique(b)
    requires i < |b| && Drops(b[i], j, c)
    ensures Unique(b[i := c])
  {
    var b': Buckets<V> := b[i := c];
    var unlinked := c == b[i][..j] + b[i][j + 1..];
    DeleteMaps(b, i, j, c);
    forall i1, j1, i2, j2 |
      && 0 <= i1 < |b'| && 0 <= j1 < |b'[i1]| && 0 <= i2 < |b'| && 0 <= j2 < |b'[i2]|
      && b'[i1][j1].Occupied? && b'[i2][j2].Occupied? && b'[i1][j1].key == b'[i2][j2].key
      ensures i1 == i2 && j1 == j2
    {
      var o1 := if i1 == i then Origin(j, j1, unlinked) else j1;
      var o2 := if i2 == i then Origin(j, j2, unlinked) else j2;
      assert b'[i1][j1] == b[i1][o1] && b'[i2][j2] == b[i2][o2];
    }
  }

  lemma DeleteValid<V>(b: Buckets<V>, signedChars: bool, i: nat, j: nat, c: Chain<V>)
    requires Valid(b, signedChars)
    requires i < |b| && Drops(b[i], j, c)
    ensures Valid(b[i := c], signedChars)
    ensures KeysNonEmpty(b) ==> KeysNonEmpty(b[i := c])
  {
    DeleteMaps(b, i, j, c);
    DeleteUnique(b, i, j, c);
  }

  lemma DeleteEntries<V>(b: Buckets<V>, signedChars: bool, i: nat, j: nat, c: Chain<V>)
    requires Valid(b, signedChars)
    requires i < |b| && Drops(b[i], j, c)
    ensures Entries(b[i := c]) == Entries(b) - {b[i][j]}
  {
    var b': Buckets<V> := b[i := c];
    var unlinked := c == b[i][..j] + b[i][j + 1..];
    DeleteOrigins(b[i], j, c);
    DeleteSurvivors(b[i], j, c);
    forall d | d in Entries(b')
      ensures d in Entries(b) && d != b[i][j]
    {
      var i', j' :| 0 <= i' < |b'| && 0 <= j' < |b'[i']| && b'[i'][j'].Occupied? && b'[i'][j'] == d;
      var o := if i' == i then Origin(j, j', unlinked) else j';
      assert b'[i'][j'] == b[i'][o];
      assert i' != i || o != j;
    }
    forall d | d in Entries(b) && d != b[i][j]
      ensures d in Entries(b')
    {
      var i', j' :| 0 <= i' < |b| && 0 <= j' < |b[i']| && b[i'][j'].Occupied? && b[i'][j'] == d;
      if i' == i {
        var t := Survivor(j, j', unlinked);
        assert b'[i][t] == d;
      } else {
        assert b'[i'][j'] == d;
      }
    }
  }

  lemma DeleteCount<V>(b: Buckets<V>, i: nat, j: nat, c: Chain<V>)
    requires i < |b| && Drops(b[i], j, c)
    ensures Count(b[i := c]) + 1 == Count(b)
  {
    LiveKeysUpdate(b, i, c);
    ChainKeysOne(b[i][j]);
    if c == b[i][..j] + b[i][j + 1..] {
      SplitAt(b[i], j);
      ChainKeysAppend(b[i][..j] + [b[i][j]], b[i][j + 1..]);
      ChainKeysAppend(b[i][..j], [b[i][j]]);
      ChainKeysAppend(b[i][..j], b[i][j + 1..]);
    } else {
      var vacant: Slot<V> := Vacant;
      ChainKeysSet(b[i], j, vacant);
      ChainKeysOne(vacant);
    }
  }

  /** Removing the mapping held by link `j` of chain `i`, by unlinking the link or by leaving it vacant. */
  lemma Delete<V>(b: Buckets<V>, signedChars: bool, i: nat, j: nat, c: Chain<V>)
    requires Valid(b, signedChars)
    requires i < |b| && Drops(b[i], j, c)
    ensures var b' := b[i := c];
      && Valid(b', signedChars)
      && Contents(b') == Contents(b) - {b[i][j].key}
      && Count(b') + 1 == Count(b)
      && (KeysNonEmpty(b) ==> KeysNonEmpty(b'))
  {
    DeleteValid(b, signedChars, i, j, c);
    DeleteEntries(b, signedChars, i, j, c);
    assert b[i][j] in Entries(b);
    ContentsRemove(b, b[i := c], b[i][j]);
    DeleteCount(b, i, j, c);
  }

  /** A vacant link appended to a chain: the node src/hashtable.c leaves linked when copying the key fails. */
  lemma Pad<V>(b: Buckets<V>, signedChars: bool, i: nat)
    requires Valid(b, signedChars) && i < |b|
    ensures var b' := b[i := b[i] + [Vacant]];
      && Valid(b', signedChars)
      && Contents(b') == Contents(b)
      && Count(b') == Count(b)
      && (KeysNonEmpty(b) ==> KeysNonEmpty(b'))
  {
    PadEntries(b, signedChars, i);
    ContentsSame(b, b[i := b[i] + [Vacant]]);
    PadCount(b, i);
  }

  /** Two arrays with the same occupied links stand for the same mapping. */
  lemma ContentsSame<V>(b: Buckets<V>, b': Buckets<V>)
    requires Unique(b) && Unique(b') && Entries(b') == Entries(b)
    ensures Contents(b') == Contents(b)
  {
  }

  /** A vacant link appended to a chain adds no key. */
  lemma PadCount<V>(b: Buckets<V>, i: nat)
    requires i < |b|
    ensures Count(b[i := b[i] + [Vacant]]) == Count(b)
  {
    var vacant: Slot<V> := Vacant;
    LiveKeysUpdate(b, i, b[i] + [vacant]);
    ChainKeysAppend(b[i], [vacant]);
    ChainKeysOne(vacant);
    assert |ChainKeys(b[i] + [vacant])| == |ChainKeys(b[i])|;
  }

  /** A vacant link appended to a chain leaves the occupied links, and so the invariant, as they were. */
  lemma PadEntries<V>(b: Buckets<V>, signedChars: bool, i: nat)
    requires Valid(b, signedChars) && i < |b|
    ensures var b' := b[i := b[i] + [Vacant]];
      && Valid(b', signedChars)
      && Entries(b') == Entries(b)
      && (KeysNonEmpty(b) ==> KeysNonEmpty(b'))
  {
    var vacant: Slot<V> := Vacant;
    var b': Buckets<V> := b[i := b[i] + [vacant]];
    assert forall i', j' | 0 <= i' < |b'| && 0 <= j' < |b'[i']| && b'[i'][j'].Occupied? ::
      j' < |b[i']| && b'[i'][j'] == b[i'][j'];
    forall d | d in Entries(b)
      ensures d in Entries(b')
    {
      var i', j' :| 0 <= i' < |b| && 0 <= j' < |b[i']| && b[i'][j'].Occupied? && b[i'][j'] == d;
      assert b'[i'][j'] == d;
    }
  }

  // ---------------------------------------------------------------------
  // Rebuilding a table key by key

  /** The mappings of `m` for the listed keys. */
  ghost function Pick<V>(m: map<Bytes, V>, keys: seq<Bytes>): map<Bytes, V> {
    map k | k in keys && k in m :: m[k]
  }

  lemma PickStep<V>(a: map<Bytes, V>, m: map<Bytes, V>, keys: seq<Bytes>)
    requires |keys| > 0 && keys[0] in m && keys[0] !in keys[1..]
    ensures a[keys[0] := m[keys[0]]] + Pick(m, keys[1..]) == a + Pick(m, keys)
  {
    assert keys == [keys[0]] + keys[1..];
  }

  lemma PickAll<V>(m: map<Bytes, V>, keys: seq<Bytes>)
    requires forall k :: k in keys <==> k in m
    ensures map[] + Pick(m, keys) == m
  {
  }
}
