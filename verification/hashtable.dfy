/**
 * The revision of the chained hash table in src/hashtable.c. The first link
 * of every chain is embedded in the bucket array and starts out empty;
 * removal leaves an empty link (a tombstone) in place, and a later add fills
 * the first empty link of its chain before it grows the chain. Keys are
 * hashed as plain `char`, modelled as signed (x86, x86-64). The table has no
 * argument checks: a NULL table is only handled by the lookup.
 *
 * Allocation failures are oracles: the new link node, the key copy, and
 * the rehash (its bucket array, or one of the re-added entries).
 */
module Hashtable {
  import opened Wrappers
  import opened Chains

  /** src/hashtable.c hashes `const char*` keys: on a signed-`char` target bytes of 0x80 and above are sign-extended. */
  const SIGNED_CHARS := true

  /** The largest `size_t` on an LP64 platform; `size--` at 0 wraps to it. */
  const SIZE_MAX: nat := 0xFFFF_FFFF_FFFF_FFFF

  /** `struct htable`: the bucket array, the mapping counter `size` and `bucket_count`. */
  datatype Table<V> = Table(buckets: Buckets<V>, size: nat, bucketCount: nat)

  datatype RehashMem = RehashOk | ArrayFails | EntryFails

  /** The outcome of each allocation an add can make. */
  datatype Mem = Mem(node: bool, key: bool, rehash: RehashMem)

  /** The shape every operation relies on: `bucket_count` chains, each starting with its embedded link. */
  predicate Wf<V>(t: Table<V>) {
    && t.bucketCount > 0
    && |t.buckets| == t.bucketCount
    && forall i | 0 <= i < |t.buckets| :: |t.buckets[i]| > 0
  }

  /** A well-formed table whose bucket array keeps the placement and uniqueness invariants. */
  ghost predicate Sound<V>(t: Table<V>) {
    Wf(t) && Chains.Valid(t.buckets, SIGNED_CHARS)
  }

  /** The representation invariant: a sound table whose counter is its number of mappings. */
  ghost predicate Valid<V>(t: Table<V>) {
    Sound(t) && t.size == Count(t.buckets)
  }

  ghost function Map<V>(t: Table<V>): map<Bytes, V>
    requires Sound(t)
  {
    Contents(t.buckets)
  }

  /** `size--` on a `size_t`. */
  function Decrement(n: nat): (r: nat)
    ensures n > 0 ==> r + 1 == n
    ensures n == 0 ==> r == SIZE_MAX
  {
    if n == 0 then SIZE_MAX else n - 1
  }

  /** `size++` on a `size_t`: one higher, wrapping to 0 past the largest value. */
  function Increment(n: nat): (r: nat)
    requires n <= SIZE_MAX
    ensures n < SIZE_MAX ==> r == n + 1
    ensures n == SIZE_MAX ==> r == 0
    ensures Decrement(r) == n
  {
    (n + 1) % (SIZE_MAX + 1)
  }

  // ---------------------------------------------------------------------
  // Creation and lookup

  /** `htable_create(size)`: NULL for zero buckets, otherwise `size` empty embedded links and no mappings. */
  function Create<V>(size: nat): (r: Option<Table<V>>)
    ensures r.None? <==> size == 0
    ensures r.Some? ==> Valid(r.value) && r.value.bucketCount == size
    ensures r.Some? ==> Map(r.value) == map[] && r.value.size == 0
  {
    if size == 0 then None
    else
      var empty: Slot<V> := Vacant;
      FreshEmpty<V>(size, [empty], SIGNED_CHARS);
      Some(Table(Fresh(size, [empty]), 0, size))
  }

  /** The link test of `htable_lookup` and `htable_remove` as written: equal lengths and equal bytes, so an empty link (length 0) passes for a zero-length probe. */
  predicate Matches<V>(s: Slot<V>, key: Bytes) {
    if s.Vacant? then |key| == 0 else s.key == key
  }

  /** The first link of a chain that passes the link test as written. */
  function Match<V>(c: Chain<V>, key: Bytes): (r: Option<nat>)
    ensures r.Some? ==> r.value < |c| && Matches(c[r.value], key)
    ensures r.Some? ==> forall j | 0 <= j < r.value :: !Matches(c[j], key)
    ensures r.None? ==> forall j | 0 <= j < |c| :: !Matches(c[j], key)
  {
    if |c| == 0 then None
    else if Matches(c[0], key) then Some(0)
    else match Match(c[1..], key)
      case None => None
      case Some(p) => Some(p + 1)
  }

  /** For a non-empty probe the link test as written only passes occupied links holding the probe. */
  lemma {:induction false} MatchIsPosition<V>(c: Chain<V>, key: Bytes)
    requires |key| > 0
    ensures Match(c, key) == Position(c, key)
    decreases |c|
  {
    if |c| > 0 && !Matches(c[0], key) {
      MatchIsPosition(c[1..], key);
    }
  }

  /** `htable_lookup` as written: NULL for a NULL table; otherwise the value of the first passing link, which is NULL for an empty link. */
  function LookupAsWritten<V>(t: Option<Table<V>>, key: Bytes): (r: Option<V>)
    requires t.Some? ==> Wf(t.value)
    ensures t.None? ==> r.None?
  {
    if t.None? then None
    else
      var c := t.value.buckets[Bucket(key, t.value.bucketCount, SIGNED_CHARS)];
      match Match(c, key)
      case None => None
      case Some(j) => if c[j].Vacant? then None else Some(c[j].value)
  }

  /** `htable_lookup` with the link test restricted to occupied links. */
  function Lookup<V>(t: Option<Table<V>>, key: Bytes): (r: Option<V>)
    requires t.Some? ==> Wf(t.value)
    ensures t.None? ==> r.None?
  {
    if t.None? then None
    else Find(t.value.buckets[Bucket(key, t.value.bucketCount, SIGNED_CHARS)], key)
  }

  lemma LookupCorrect<V>(t: Table<V>, key: Bytes)
    requires Sound(t)
    ensures Lookup(Some(t), key) == Get(Map(t), key)
  {
    FindContents(t.buckets, SIGNED_CHARS, key);
  }

  /** The lookup as written and the restricted one agree on every non-empty key. */
  lemma LookupAgrees<V>(t: Table<V>, key: Bytes)
    requires Wf(t) && |key| > 0
    ensures LookupAsWritten(Some(t), key) == Lookup(Some(t), key)
  {
    MatchIsPosition(t.buckets[Bucket(key, t.bucketCount, SIGNED_CHARS)], key);
  }

  // ---------------------------------------------------------------------
  // Adding

  /** `htable_data_write`: the link after copying the key and value into it, and the return code; a failed key allocation leaves the link empty. */
  function DataWrite<V>(key: Bytes, value: V, alloc: bool): (r: (Slot<V>, int))
    ensures r.1 == 0 <==> alloc
    ensures r.1 == 0 ==> r.0.Occupied? && r.0.key == key && r.0.value == value
    ensures r.1 != 0 ==> r.1 == -1 && r.0.Vacant?
  {
    if alloc then (Occupied(key, value), 0) else (Vacant, -1)
  }

  /** The index of the first empty link of a chain. */
  function FirstVacant<V>(c: Chain<V>): (r: Option<nat>)
    ensures r.Some? ==> r.value < |c| && c[r.value].Vacant?
    ensures r.Some? ==> forall j | 0 <= j < r.value :: c[j].Occupied?
    ensures r.None? ==> forall j | 0 <= j < |c| :: c[j].Occupied?
  {
    if |c| == 0 then None
    else if c[0].Vacant? then Some(0)
    else match FirstVacant(c[1..])
      case None => None
      case Some(p) => Some(p + 1)
  }

  /**
   * The part of `htable_add` before `load_check`: -2 for a key already
   * mapped; otherwise the mapping is written into the first empty link of
   * the chain, or into a new link appended at its end. A failed node
   * allocation changes nothing; a failed key copy into a new node leaves
   * that node, empty, at the end of the chain. Both return -1.
   */
  function Place<V>(t: Table<V>, key: Bytes, value: V, mem: Mem): (r: (Table<V>, int))
    requires Wf(t)
    ensures Wf(r.0) && r.0.bucketCount == t.bucketCount && r.0.size == t.size
    ensures r.1 in {0, -1, -2} && (r.1 == -2 ==> r.0 == t)
  {
    if Lookup(Some(t), key).Some? then (t, -2) else Store(t, key, value, mem)
  }

  /**
   * The same with the duplicate test as written: `htable_lookup` as
   * written, which takes an empty link for the zero-length key and so
   * reports NULL for a zero-length key stored behind one.
   */
  function PlaceAsWritten<V>(t: Table<V>, key: Bytes, value: V, mem: Mem): (r: (Table<V>, int))
    requires Wf(t)
    ensures Wf(r.0) && r.0.bucketCount == t.bucketCount && r.0.size == t.size
    ensures r.1 in {0, -1, -2} && (r.1 == -2 ==> r.0 == t)
  {
    if LookupAsWritten(Some(t), key).Some? then (t, -2) else Store(t, key, value, mem)
  }

  /** The write past the duplicate test: the first empty link of the chain, or a new last link. */
  function Store<V>(t: Table<V>, key: Bytes, value: V, mem: Mem): (r: (Table<V>, int))
    requires Wf(t)
    ensures Wf(r.0) && r.0.bucketCount == t.bucketCount && r.0.size == t.size
    ensures r.1 == 0 || r.1 == -1
  {
    var i := Bucket(key, t.bucketCount, SIGNED_CHARS);
    var c := t.buckets[i];
    match FirstVacant(c)
    case Some(j) =>
      var (s, code) := DataWrite(key, value, mem.key);
      if code != 0 then (t, code)
      else (t.(buckets := t.buckets[i := c[j := s]]), 0)
    case None =>
      if !mem.node then (t, -1)
      else
        var (s, code) := DataWrite(key, value, mem.key);
        (t.(buckets := t.buckets[i := c + [s]]), code)
  }

  /** On a key the table does not map, the duplicate test as written passes too: a link it stops at is an empty one. */
  lemma PlaceAsWrittenAgrees<V>(t: Table<V>, key: Bytes, value: V, mem: Mem)
    requires Sound(t) && key !in Map(t)
    ensures PlaceAsWritten(t, key, value, mem) == Place(t, key, value, mem)
  {
    LookupCorrect(t, key);
    var i := Bucket(key, t.bucketCount, SIGNED_CHARS);
    var c := t.buckets[i];
    assert forall j | 0 <= j < |c| && c[j].Occupied? :: c[j].key != key by {
      forall j | 0 <= j < |c| && c[j].Occupied? ensures c[j].key != key {
        ContentsAt(t.buckets, i, j);
      }
    }
  }

  /** Whether the key's chain has an empty link to fill. */
  predicate HasVacant<V>(t: Table<V>, key: Bytes)
    requires Wf(t)
  {
    FirstVacant(t.buckets[Bucket(key, t.bucketCount, SIGNED_CHARS)]).Some?
  }

  /** The allocations that placing a new key needs all succeed. */
  predicate PlaceSucceeds<V>(t: Table<V>, key: Bytes, mem: Mem)
    requires Wf(t)
  {
    mem.key && (mem.node || HasVacant(t, key))
  }

  /** Placing a new key into a sound table with the allocations succeeding adds exactly that mapping. */
  lemma PlaceFits<V>(t: Table<V>, key: Bytes, value: V, mem: Mem)
    requires Sound(t) && key !in Map(t) && PlaceSucceeds(t, key, mem)
    ensures var (u, code) := Place(t, key, value, mem);
      && code == 0
      && Sound(u)
      && Count(u.buckets) == Count(t.buckets) + 1
      && Map(u) == Map(t)[key := value]
  {
    LookupCorrect(t, key);
    var i := Bucket(key, t.bucketCount, SIGNED_CHARS);
    var c := t.buckets[i];
    var e := Occupied(key, value);
    match FirstVacant(c)
    case Some(j) =>
      Insert(t.buckets, SIGNED_CHARS, key, value, j, c[j := e]);
    case None =>
      Insert(t.buckets, SIGNED_CHARS, key, value, |c|, c + [e]);
  }

  /** Placing a new key when an allocation fails returns -1 and keeps every mapping. */
  lemma PlaceFails<V>(t: Table<V>, key: Bytes, value: V, mem: Mem)
    requires Sound(t) && key !in Map(t) && !PlaceSucceeds(t, key, mem)
    ensures var (u, code) := Place(t, key, value, mem);
      && code == -1
      && Sound(u)
      && Count(u.buckets) == Count(t.buckets)
      && Map(u) == Map(t)
  {
    LookupCorrect(t, key);
    var i := Bucket(key, t.bucketCount, SIGNED_CHARS);
    if FirstVacant(t.buckets[i]).None? && mem.node {
      Pad(t.buckets, SIGNED_CHARS, i);
    }
  }

  /**
   * Where a placed key lands: the chain keeps its length when it had an
   * empty link and grows by one link otherwise; the mapping sits after
   * only occupied links, and every other link stays as it was.
   */
  lemma PlaceShape<V>(t: Table<V>, key: Bytes, value: V, mem: Mem)
    requires Wf(t)
    ensures var (u, code) := Place(t, key, value, mem);
      var i := Bucket(key, t.bucketCount, SIGNED_CHARS);
      && (forall i' | 0 <= i' < |t.buckets| && i' != i :: u.buckets[i'] == t.buckets[i'])
      && (code == 0 ==>
           && |u.buckets[i]| == |t.buckets[i]| + (if HasVacant(t, key) then 0 else 1)
           && exists j | 0 <= j < |u.buckets[i]| ::
                && u.buckets[i][j] == Occupied(key, value)
                && (forall j' | 0 <= j' < j :: t.buckets[i][j'].Occupied? && u.buckets[i][j'] == t.buckets[i][j'])
                && (forall j' | j < j' < |t.buckets[i]| :: u.buckets[i][j'] == t.buckets[i][j']))
  {
    var i := Bucket(key, t.bucketCount, SIGNED_CHARS);
    var c := t.buckets[i];
    var (u, code) := Place(t, key, value, mem);
    if code == 0 {
      match FirstVacant(c)
      case Some(j) =>
        assert u.buckets[i][j] == Occupied(key, value);
      case None =>
        assert u.buckets[i][|c|] == Occupied(key, value);
    }
  }

  /**
   * The `load_check` block of `htable_add` as written: see
   * `RehashAsWritten` for what the failure paths leave, and for when the
   * rehash is undefined behaviour (`None`).
   */
  function LoadCheckAsWritten<V>(t: Table<V>, mem: RehashMem): (r: Option<Table<V>>)
    requires Wf(t) && t.size <= SIZE_MAX
    ensures 4 * Increment(t.size) <= 3 * t.bucketCount ==> r == Some(t.(size := Increment(t.size)))
    ensures t.size == SIZE_MAX ==> r == Some(t.(size := 0))
  {
    var size := Increment(t.size);
    if 4 * size > 3 * t.bucketCount then
      match RehashAsWritten(Table(t.buckets, 0, 2 * t.bucketCount), mem)
      case None => None
      case Some((u, code)) => Some(if code == -1 then Table(u.buckets, size, t.bucketCount) else u)
    else Some(t.(size := size))
  }

  /**
   * The `load_check` block of `htable_add`: count the new mapping; past a
   * load of three quarters save the counter, zero it, double
   * `bucket_count` and rehash; on failure restore `bucket_count` and the
   * counter.
   */
  function LoadCheck<V>(t: Table<V>, mem: RehashMem): (r: Table<V>)
    requires Wf(t)
    ensures Wf(r)
    ensures r.bucketCount == t.bucketCount || r.bucketCount == 2 * t.bucketCount
    ensures 4 * (t.size + 1) <= 3 * t.bucketCount || mem != RehashOk ==> r == t.(size := t.size + 1)
  {
    var size := t.size + 1;
    if 4 * size > 3 * t.bucketCount then
      var (u, code) := Rehash(Table(t.buckets, 0, 2 * t.bucketCount), mem);
      if code == -1 then Table(u.buckets, size, t.bucketCount) else u
    else t.(size := size)
  }

  /** `htable_add`. A key already present returns -2, where the header documents 1. */
  function Add<V>(t: Table<V>, key: Bytes, value: V, mem: Mem): (r: (Table<V>, int))
    requires Wf(t)
    ensures Wf(r.0) && r.1 in {0, -1, -2}
    ensures r.1 != 0 ==> r.0.size == t.size && r.0.bucketCount == t.bucketCount
    ensures r.1 == -2 ==> r.0 == t
    ensures r.1 == 0 && mem.rehash != RehashOk ==> r.0.size == t.size + 1 && r.0.bucketCount == t.bucketCount
  {
    var (u, code) := Place(t, key, value, mem);
    if code != 0 then (u, code) else (LoadCheck(u, mem.rehash), 0)
  }

  /** `htable_add` as written: the duplicate test and the rehash as the code has them; `None` is undefined behaviour. */
  function AddAsWritten<V>(t: Table<V>, key: Bytes, value: V, mem: Mem): (r: Option<(Table<V>, int)>)
    requires Wf(t) && t.size <= SIZE_MAX
    ensures r.Some? && r.value.1 != 0 ==> r.value.1 in {-1, -2} && r.value.0.size == t.size
  {
    var (u, code) := PlaceAsWritten(t, key, value, mem);
    if code != 0 then Some((u, code))
    else match LoadCheckAsWritten(u, mem.rehash)
      case None => None
      case Some(w) => Some((w, 0))
  }

  /**
   * Adding a new key as written does what the corrected add does, save
   * that a rehash whose re-added entries pass the threshold of the doubled
   * table again, more than one and a half entries per prev bucket, is
   * undefined behaviour. The counter is below `SIZE_MAX`, where `size++`
   * does not wrap (`WrappedCounterAsWritten` shows the case where it does).
   */
  lemma AddAsWrittenAgrees<V>(t: Table<V>, key: Bytes, value: V, mem: Mem)
    requires Valid(t) && t.size < SIZE_MAX && key !in Map(t) && mem.rehash != ArrayFails
    ensures AddAsWritten(t, key, value, mem) ==
      if PlaceSucceeds(t, key, mem) && mem.rehash == RehashOk && 4 * (t.size + 1) > 6 * t.bucketCount then None
      else Some(Add(t, key, value, mem))
  {
    PlaceAsWrittenAgrees(t, key, value, mem);
    if PlaceSucceeds(t, key, mem) {
      PlaceFits(t, key, value, mem);
      var u := Place(t, key, value, mem).0;
      if 4 * (u.size + 1) > 3 * u.bucketCount && mem.rehash == RehashOk {
        RehashAsWrittenAgrees(Table(u.buckets, 0, 2 * u.bucketCount));
      }
    } else {
      PlaceFails(t, key, value, mem);
    }
  }

  /** As written, adding a non-empty key already mapped returns -2 and changes nothing. */
  lemma AddDuplicateAsWritten<V>(t: Table<V>, key: Bytes, value: V, mem: Mem)
    requires Sound(t) && t.size <= SIZE_MAX && key in Map(t) && |key| > 0
    ensures AddAsWritten(t, key, value, mem) == Some((t, -2))
  {
    LookupAgrees(t, key);
    LookupCorrect(t, key);
  }

  /**
   * The zero-length key stored twice: in a one-bucket table whose chain is
   * an empty link followed by the key "", the lookup as written stops at
   * the empty link and reports NULL, so the add writes "" into that link
   * too and the chain holds the key twice. The corrected add reports the
   * duplicate.
   */
  lemma EmptyKeyTwiceAsWritten()
    ensures var t := Table([[Vacant, Occupied([], 7)]], 1, 1);
      var twice: Buckets<int> := [[Occupied([], 8), Occupied([], 7)]];
      && LookupAsWritten(Some(t), []) == None
      && AddAsWritten(t, [], 8, Mem(true, true, EntryFails)) == Some((Table(twice, 2, 1), 0))
      && !Unique(twice)
      && Add(t, [], 8, Mem(true, true, EntryFails)) == (t, -2)
  {
    var t := Table([[Vacant, Occupied([], 7)]], 1, 1);
    var twice: Buckets<int> := [[Occupied([], 8), Occupied([], 7)]];
    assert Bucket([], 1, SIGNED_CHARS) == 0;
    assert Match(t.buckets[0], []) == Some(0);
    assert Find(t.buckets[0], []) == Some(7);
    assert FirstVacant(t.buckets[0]) == Some(0);
    assert t.buckets[0][0 := Occupied([], 8)] == twice[0];
    assert t.buckets[0 := twice[0]] == twice;
    assert Store(t, [], 8, Mem(true, true, EntryFails)) == (Table(twice, 1, 1), 0);
    assert twice[0][0].key == twice[0][1].key;
  }

  /** The table of `EmptyKeyTwiceAsWritten` is reached from a new one-bucket table by adding "a" and "" and removing "a", with every rehash failing. */
  lemma EmptyKeyTwiceReachable()
    ensures var m := Mem(true, true, EntryFails);
      var a: Bytes := [0x61];
      var t1 := Table([[Occupied(a, 7)]], 1, 1);
      var t2 := Table([[Occupied(a, 7), Occupied([], 7)]], 2, 1);
      && AddAsWritten(Create<int>(1).value, a, 7, m) == Some((t1, 0))
      && AddAsWritten(t1, [], 7, m) == Some((t2, 0))
      && RemoveAsWritten(t2, a) == (Table([[Vacant, Occupied([], 7)]], 1, 1), 0)
  {
    var m := Mem(true, true, EntryFails);
    var a: Bytes := [0x61];
    var t0 := Create<int>(1).value;
    assert t0.buckets == [[Vacant]];
    assert Bucket(a, 1, SIGNED_CHARS) == 0 && Bucket([], 1, SIGNED_CHARS) == 0;
    LookupAgrees(t0, a);
    var e: Slot<int> := Occupied(a, 7);
    assert FirstVacant(t0.buckets[0]) == Some(0);
    assert t0.buckets[0][0 := e] == [e];
    assert t0.buckets[0 := [e]] == [[e]];
    assert Store(t0, a, 7, m) == (Table([[e]], 0, 1), 0);
    var t1 := Table([[Occupied(a, 7)]], 1, 1);
    assert Match(t1.buckets[0], []) == None;
    assert FirstVacant(t1.buckets[0]) == None;
    var t2 := Table([[Occupied(a, 7), Occupied([], 7)]], 2, 1);
    assert t1.buckets[0] + [Occupied([], 7)] == t2.buckets[0];
    assert t1.buckets[0 := t2.buckets[0]] == t2.buckets;
    assert Store(t1, [], 7, m) == (t2.(size := 1), 0);
    assert Match(t2.buckets[0], a) == Some(0);
    var empty: Slot<int> := Vacant;
    assert t2.buckets[0][0 := empty] == [Vacant, Occupied([], 7)];
    assert t2.buckets[0 := [Vacant, Occupied([], 7)]] == [[Vacant, Occupied([], 7)]];
    assert AddAsWritten(t0, a, 7, m) == Some((t1, 0));
    assert AddAsWritten(t1, [], 7, m) == Some((t2, 0));
    assert RemoveAsWritten(t2, a) == (Table([[Vacant, Occupied([], 7)]], 1, 1), 0);
  }

  /** Adding a key already mapped returns -2 and changes nothing. */
  lemma AddDuplicate<V>(t: Table<V>, key: Bytes, value: V, mem: Mem)
    requires Sound(t) && key in Map(t)
    ensures Add(t, key, value, mem) == (t, -2)
  {
    LookupCorrect(t, key);
  }

  /** A failed node or key allocation returns -1 and keeps the mappings and the counter. */
  lemma AddOutOfMemory<V>(t: Table<V>, key: Bytes, value: V, mem: Mem)
    requires Valid(t) && key !in Map(t) && !PlaceSucceeds(t, key, mem)
    ensures var (u, code) := Add(t, key, value, mem);
      code == -1 && Valid(u) && Map(u) == Map(t) && u.size == t.size && u.bucketCount == t.bucketCount
  {
    PlaceFails(t, key, value, mem);
  }

  /**
   * A successful add of a new key to a valid table: 0, the new mapping and
   * the others as before, the counter one higher, and the bucket count
   * doubled exactly when the load went past three quarters and the rehash
   * could allocate.
   */
  lemma AddCorrect<V>(t: Table<V>, key: Bytes, value: V, mem: Mem)
    requires Valid(t) && key !in Map(t) && PlaceSucceeds(t, key, mem)
    ensures var (u, code) := Add(t, key, value, mem);
      && code == 0
      && Valid(u)
      && Map(u) == Map(t)[key := value]
      && u.size == t.size + 1
      && u.bucketCount ==
         if 4 * (t.size + 1) > 3 * t.bucketCount && mem.rehash == RehashOk then 2 * t.bucketCount else t.bucketCount
  {
    PlaceFits(t, key, value, mem);
    var u := Place(t, key, value, mem).0;
    assert Add(t, key, value, mem) == (LoadCheck(u, mem.rehash), 0);
    LoadCheckCorrect(u, mem.rehash);
  }

  /** The load check after a placement keeps the mappings and counts the new one, doubling the array when it rehashes. */
  lemma LoadCheckCorrect<V>(u: Table<V>, mem: RehashMem)
    requires Sound(u) && Count(u.buckets) == u.size + 1
    ensures var r := LoadCheck(u, mem);
      && Valid(r)
      && Map(r) == Map(u)
      && r.size == u.size + 1
      && r.bucketCount == if 4 * (u.size + 1) > 3 * u.bucketCount && mem == RehashOk then 2 * u.bucketCount else u.bucketCount
  {
    if 4 * (u.size + 1) > 3 * u.bucketCount && mem == RehashOk {
      RehashCorrect(Table(u.buckets, 0, 2 * u.bucketCount));
    }
  }

  // ---------------------------------------------------------------------
  // Rehashing

  /** The re-add loop of `htable_rehash`: every listed key of the old array, with its value, placed into `t` and counted. */
  function Reinsert<V>(prev: Buckets<V>, keys: seq<Bytes>, t: Table<V>): (r: Table<V>)
    requires |prev| > 0 && Wf(t)
    ensures Wf(r) && r.bucketCount == t.bucketCount
    decreases |keys|
  {
    if |keys| == 0 then t
    else match Find(prev[Bucket(keys[0], |prev|, SIGNED_CHARS)], keys[0])
      case None => Reinsert(prev, keys[1..], t)
      case Some(v) =>
        var (u, code) := Place(t, keys[0], v, Mem(true, true, RehashOk));
        Reinsert(prev, keys[1..], if code == 0 then u.(size := u.size + 1) else u)
  }

  /** What `htable_rehash` is called on: the prev bucket array, `bucket_count` already doubled, the counter zeroed. */
  predicate Grown<V>(t: Table<V>) {
    && |t.buckets| > 0
    && t.bucketCount == 2 * |t.buckets|
    && t.size == 0
    && forall i | 0 <= i < |t.buckets| :: |t.buckets[i]| > 0
  }

  /**
   * The re-add loop as written: every key goes through the whole of
   * `htable_add`, the load check included. Once the re-added entries pass
   * three quarters of the doubled `bucket_count`, that check rehashes the
   * table again from inside the loop and doubles `bucket_count` once more;
   * the loop then walks, and `free_buckets` frees, `bucket_count / 2`
   * chains of the prev array, which holds only half as many: undefined
   * behaviour, `None`.
   */
  function ReinsertAsWritten<V>(prev: Buckets<V>, keys: seq<Bytes>, t: Table<V>): (r: Option<Table<V>>)
    requires |prev| > 0 && Wf(t)
    ensures r.Some? ==> Wf(r.value) && r.value.bucketCount == t.bucketCount
    decreases |keys|
  {
    if |keys| == 0 then Some(t)
    else match Find(prev[Bucket(keys[0], |prev|, SIGNED_CHARS)], keys[0])
      case None => ReinsertAsWritten(prev, keys[1..], t)
      case Some(v) =>
        var (u, code) := PlaceAsWritten(t, keys[0], v, Mem(true, true, RehashOk));
        if code != 0 then ReinsertAsWritten(prev, keys[1..], u)
        else if 4 * (u.size + 1) > 3 * u.bucketCount then None
        else ReinsertAsWritten(prev, keys[1..], u.(size := u.size + 1))
  }

  /**
   * `htable_rehash` as written: a new zeroed array of `bucket_count` links,
   * then every occupied link of the prev array re-added. When an entry
   * cannot be re-added the new array is freed and the prev one put back;
   * when the new array itself cannot be allocated, the function returns -1
   * with the array pointer already overwritten by NULL. `None` is the
   * nested rehash of `ReinsertAsWritten`.
   */
  function RehashAsWritten<V>(t: Table<V>, mem: RehashMem): (r: Option<(Table<V>, int)>)
    requires Grown(t)
    ensures mem != RehashOk ==> r.Some? && r.value.1 == -1
    ensures r.Some? && r.value.1 == 0 ==> Wf(r.value.0) && r.value.0.bucketCount == t.bucketCount
  {
    match mem
    case ArrayFails => Some((t.(buckets := []), -1))
    case EntryFails => Some((t, -1))
    case RehashOk =>
      var empty: Slot<V> := Vacant;
      match ReinsertAsWritten(t.buckets, LiveKeys(t.buckets), Table(Fresh(t.bucketCount, [empty]), 0, t.bucketCount))
      case None => None
      case Some(u) => Some((u, 0))
  }

  /** `htable_rehash`, with the prev array put back on every failure. */
  function Rehash<V>(t: Table<V>, mem: RehashMem): (r: (Table<V>, int))
    requires Grown(t)
    ensures r.1 == 0 || r.1 == -1
    ensures r.1 == -1 ==> r.0 == t
    ensures r.1 == 0 ==> Wf(r.0) && r.0.bucketCount == t.bucketCount
  {
    if mem != RehashOk then (t, -1)
    else
      var empty: Slot<V> := Vacant;
      (Reinsert(t.buckets, LiveKeys(t.buckets), Table(Fresh(t.bucketCount, [empty]), 0, t.bucketCount)), 0)
  }

  /** One step of the re-add loop: the first key is placed with its old value and counted. */
  lemma ReinsertStep<V>(prev: Buckets<V>, keys: seq<Bytes>, t: Table<V>) returns (next: Table<V>)
    requires Chains.Valid(prev, SIGNED_CHARS) && Valid(t) && |keys| > 0
    requires keys[0] in Contents(prev) && keys[0] !in Map(t)
    ensures Valid(next) && next.size == t.size + 1
    ensures Reinsert(prev, keys, t) == Reinsert(prev, keys[1..], next)
    ensures Map(next) == Map(t)[keys[0] := Contents(prev)[keys[0]]]
  {
    var k := keys[0];
    var v := Contents(prev)[k];
    FindContents(prev, SIGNED_CHARS, k);
    var mem := Mem(true, true, RehashOk);
    PlaceFits(t, k, v, mem);
    var u := Place(t, k, v, mem).0;
    next := u.(size := u.size + 1);
  }

  /** Re-adding distinct keys of a valid array into a valid table lacking them adds exactly their mappings, and counts them. */
  lemma {:induction false} ReinsertCorrect<V>(prev: Buckets<V>, keys: seq<Bytes>, t: Table<V>)
    requires Chains.Valid(prev, SIGNED_CHARS) && Valid(t) && Distinct(keys)
    requires forall k | k in keys :: k in Contents(prev) && k !in Map(t)
    ensures var r := Reinsert(prev, keys, t);
      && Valid(r)
      && r.size == t.size + |keys|
      && Map(r) == Map(t) + Pick(Contents(prev), keys)
    decreases |keys|
  {
    if |keys| > 0 {
      assert keys[0] in keys;
      var next := ReinsertStep(prev, keys, t);
      DistinctTail(keys);
      assert forall k' | k' in keys[1..] :: k' in Contents(prev) && k' !in Map(next) by {
        forall k' | k' in keys[1..] ensures k' in keys {
        }
      }
      ReinsertCorrect(prev, keys[1..], next);
      PickStep(Map(t), Contents(prev), keys);
    }
  }

  /**
   * The re-add loop as written is the corrected one until the entries
   * re-added pass three quarters of `bucket_count`, and undefined from
   * there on.
   */
  lemma {:induction false} ReinsertAsWrittenAgrees<V>(prev: Buckets<V>, keys: seq<Bytes>, t: Table<V>)
    requires Chains.Valid(prev, SIGNED_CHARS) && Valid(t) && Distinct(keys)
    requires forall k | k in keys :: k in Contents(prev) && k !in Map(t)
    ensures ReinsertAsWritten(prev, keys, t) ==
      if |keys| > 0 && 4 * (t.size + |keys|) > 3 * t.bucketCount then None else Some(Reinsert(prev, keys, t))
    decreases |keys|
  {
    if |keys| > 0 {
      var k := keys[0];
      assert k in keys;
      var v := Contents(prev)[k];
      var mem := Mem(true, true, RehashOk);
      FindContents(prev, SIGNED_CHARS, k);
      PlaceAsWrittenAgrees(t, k, v, mem);
      PlaceFits(t, k, v, mem);
      var u := Place(t, k, v, mem).0;
      var next := u.(size := u.size + 1);
      assert Reinsert(prev, keys, t) == Reinsert(prev, keys[1..], next);
      if 4 * (u.size + 1) <= 3 * u.bucketCount {
        assert ReinsertAsWritten(prev, keys, t) == ReinsertAsWritten(prev, keys[1..], next);
        DistinctTail(keys);
        assert forall k' | k' in keys[1..] :: k' in Contents(prev) && k' !in Map(next) by {
          forall k' | k' in keys[1..] ensures k' in keys {
          }
        }
        ReinsertAsWrittenAgrees(prev, keys[1..], next);
      }
    }
  }

  /** With its allocations succeeding the rehash as written is the corrected one, unless the entries pass three quarters of the doubled table again. */
  lemma RehashAsWrittenAgrees<V>(t: Table<V>)
    requires Grown(t) && Chains.Valid(t.buckets, SIGNED_CHARS)
    ensures RehashAsWritten(t, RehashOk) ==
      if 4 * Count(t.buckets) > 3 * t.bucketCount then None else Some(Rehash(t, RehashOk))
  {
    var empty: Slot<V> := Vacant;
    var start := Table(Fresh(t.bucketCount, [empty]), 0, t.bucketCount);
    FreshEmpty(t.bucketCount, [empty], SIGNED_CHARS);
    LiveKeysContents(t.buckets);
    ReinsertAsWrittenAgrees(t.buckets, LiveKeys(t.buckets), start);
  }

  /**
   * As written, an add whose rehash can allocate is undefined behaviour once
   * the entries pass one and a half per bucket; corrected, it doubles the
   * table and keeps every mapping.
   */
  lemma NestedRehashAsWritten<V>(t: Table<V>, key: Bytes, value: V)
    requires Valid(t) && t.size < SIZE_MAX && key !in Map(t) && 4 * (t.size + 1) > 6 * t.bucketCount
    ensures AddAsWritten(t, key, value, Mem(true, true, RehashOk)) == None
    ensures var (u, code) := Add(t, key, value, Mem(true, true, RehashOk));
      && code == 0 && Valid(u) && u.bucketCount == 2 * t.bucketCount
      && Map(u) == Map(t)[key := value]
  {
    var ok := Mem(true, true, RehashOk);
    assert PlaceSucceeds(t, key, ok);
    AddAsWrittenAgrees(t, key, value, ok);
    AddCorrect(t, key, value, ok);
  }

  /** A new key added to a valid table whose rehash cannot allocate: valid, counted, no more buckets. */
  lemma AddWithoutRehash<V>(t: Table<V>, key: Bytes, value: V) returns (u: Table<V>)
    requires Valid(t) && t.size < SIZE_MAX && key !in Map(t)
    ensures AddAsWritten(t, key, value, Mem(true, true, EntryFails)) == Some((u, 0))
    ensures Add(t, key, value, Mem(true, true, EntryFails)) == (u, 0)
    ensures Valid(u) && u.size == t.size + 1 && u.bucketCount == t.bucketCount
    ensures Map(u) == Map(t)[key := value]
  {
    var fail := Mem(true, true, EntryFails);
    assert PlaceSucceeds(t, key, fail);
    AddAsWrittenAgrees(t, key, value, fail);
    AddCorrect(t, key, value, fail);
    u := Add(t, key, value, fail).0;
  }

  /**
   * The smallest instance of the nested rehash: two adds to a one-bucket
   * table whose rehashes fail, then a third whose rehash can allocate. As
   * written the re-add loop passes the threshold of the two-bucket table
   * and rehashes it again; corrected, the table holds the three mappings
   * in two buckets.
   */
  lemma NestedRehashExample()
    ensures var fail := Mem(true, true, EntryFails);
      var t0 := Create<int>(1).value;
      var t1 := Add(t0, [0x61], 1, fail).0;
      var t2 := Add(t1, [0x62], 2, fail).0;
      && AddAsWritten(t0, [0x61], 1, fail) == Some((t1, 0))
      && AddAsWritten(t1, [0x62], 2, fail) == Some((t2, 0))
      && AddAsWritten(t2, [0x63], 3, Mem(true, true, RehashOk)) == None
      && Add(t2, [0x63], 3, Mem(true, true, RehashOk)).1 == 0
      && Add(t2, [0x63], 3, Mem(true, true, RehashOk)).0.bucketCount == 2
      && Valid(Add(t2, [0x63], 3, Mem(true, true, RehashOk)).0)
      && Map(Add(t2, [0x63], 3, Mem(true, true, RehashOk)).0) == map[[0x61] := 1, [0x62] := 2, [0x63] := 3]
  {
    var a: Bytes, b: Bytes, c: Bytes := [0x61], [0x62], [0x63];
    var t0 := Create<int>(1).value;
    var t1 := AddWithoutRehash(t0, a, 1);
    assert b !in Map(t1);
    var t2 := AddWithoutRehash(t1, b, 2);
    assert c !in Map(t2);
    NestedRehashAsWritten(t2, c, 3);
  }

  /** A rehash of a valid table whose allocations succeed keeps every mapping and the counter in a doubled array. */
  lemma RehashCorrect<V>(t: Table<V>)
    requires Grown(t) && Chains.Valid(t.buckets, SIGNED_CHARS)
    ensures var (u, code) := Rehash(t, RehashOk);
      && code == 0
      && Valid(u)
      && Map(u) == Contents(t.buckets)
      && u.size == Count(t.buckets)
      && u.bucketCount == 2 * |t.buckets|
  {
    var empty: Slot<V> := Vacant;
    var start := Table(Fresh(t.bucketCount, [empty]), 0, t.bucketCount);
    FreshEmpty(t.bucketCount, [empty], SIGNED_CHARS);
    LiveKeysContents(t.buckets);
    ReinsertCorrect(t.buckets, LiveKeys(t.buckets), start);
    PickAll(Contents(t.buckets), LiveKeys(t.buckets));
  }

  /** A failed rehash leaves bucket array, `bucket_count` and the counter as the link left them. */
  lemma LoadCheckFailureRestores<V>(t: Table<V>, mem: RehashMem)
    requires Wf(t) && mem != RehashOk
    ensures LoadCheck(t, mem) == t.(size := t.size + 1)
  {
  }

  /**
   * As written, a failed allocation of the new bucket array leaves the
   * table with no bucket array at all but the prev `bucket_count`: every
   * later operation indexes a NULL array.
   */
  lemma ArrayLostAsWritten<V>(t: Table<V>)
    requires Wf(t) && t.size <= SIZE_MAX && 4 * Increment(t.size) > 3 * t.bucketCount
    ensures var u := LoadCheckAsWritten(t, ArrayFails);
      && u.Some? && u.value.buckets == [] && u.value.bucketCount == t.bucketCount && !Wf(u.value)
  {
  }

  /** The smallest instance: the first add to a one-bucket table whose rehash cannot allocate its array. */
  lemma ArrayLostExample()
    ensures var t := Create<int>(1).value;
      && AddAsWritten(t, [0x61], 7, Mem(true, true, ArrayFails)) == Some((Table([], 1, 1), 0))
      && Add(t, [0x61], 7, Mem(true, true, ArrayFails)) == (Table([[Occupied([0x61], 7)]], 1, 1), 0)
  {
    var key: Bytes := [0x61];
    var t := Create<int>(1).value;
    var empty: Slot<int> := Vacant;
    assert t.buckets == [[empty]];
    assert Bucket(key, 1, SIGNED_CHARS) == 0;
    assert Lookup(Some(t), key).None?;
    LookupAgrees(t, key);
    assert FirstVacant(t.buckets[0]) == Some(0);
    var e: Slot<int> := Occupied(key, 7);
    assert t.buckets[0][0 := e] == [e];
    assert t.buckets[0 := [e]] == [[e]];
    assert Place(t, key, 7, Mem(true, true, ArrayFails)) == (Table([[e]], 0, 1), 0);
  }

  // ---------------------------------------------------------------------
  // Removing

  /**
   * `htable_remove` as written: the first link of the key's chain that
   * passes the link test becomes an empty link, the counter is decremented
   * and 0 returned; -1 when no link passes.
   */
  function RemoveAsWritten<V>(t: Table<V>, key: Bytes): (r: (Table<V>, int))
    requires Wf(t)
    ensures r.1 == 0 || r == (t, -1)
  {
    var i := Bucket(key, t.bucketCount, SIGNED_CHARS);
    match Match(t.buckets[i], key)
    case None => (t, -1)
    case Some(j) => (Table(t.buckets[i := t.buckets[i][j := Vacant]], Decrement(t.size), t.bucketCount), 0)
  }

  /** `htable_remove` with the link test restricted to occupied links. */
  function Remove<V>(t: Table<V>, key: Bytes): (r: (Table<V>, int))
    requires Wf(t)
    ensures r.1 == 0 || r == (t, -1)
  {
    var i := Bucket(key, t.bucketCount, SIGNED_CHARS);
    match Position(t.buckets[i], key)
    case None => (t, -1)
    case Some(j) => (Table(t.buckets[i := t.buckets[i][j := Vacant]], Decrement(t.size), t.bucketCount), 0)
  }

  /** The removal as written and the restricted one agree on every non-empty key. */
  lemma RemoveAgrees<V>(t: Table<V>, key: Bytes)
    requires Wf(t) && |key| > 0
    ensures RemoveAsWritten(t, key) == Remove(t, key)
  {
    MatchIsPosition(t.buckets[Bucket(key, t.bucketCount, SIGNED_CHARS)], key);
  }

  /** Removing an absent key returns -1 and changes nothing. */
  lemma RemoveAbsent<V>(t: Table<V>, key: Bytes)
    requires Sound(t) && key !in Map(t)
    ensures Remove(t, key) == (t, -1)
  {
    LookupCorrect(t, key);
  }

  /**
   * Removing a present key tombstones its link: 0, the counter one lower,
   * no chain shorter, the key's lookup NULL and every other lookup as
   * before.
   */
  lemma RemoveCorrect<V>(t: Table<V>, key: Bytes)
    requires Valid(t) && key in Map(t)
    ensures var (u, code) := Remove(t, key);
      && code == 0
      && Valid(u)
      && Map(u) == Map(t) - {key}
      && u.size + 1 == t.size
      && (forall i | 0 <= i < |t.buckets| :: |u.buckets[i]| == |t.buckets[i]|)
      && Lookup(Some(u), key).None?
      && (forall k | k != key :: Lookup(Some(u), k) == Lookup(Some(t), k))
  {
    var u := RemoveShape(t, key);
    LookupCorrect(u, key);
    LookupOthers(t, u, key);
  }

  /** Two sound tables whose mappings differ at most at one key agree on every other lookup. */
  lemma LookupOthers<V>(t: Table<V>, u: Table<V>, key: Bytes)
    requires Sound(t) && Sound(u) && Map(u) == Map(t) - {key}
    ensures forall k | k != key :: Lookup(Some(u), k) == Lookup(Some(t), k)
  {
    forall k | k != key
      ensures Lookup(Some(u), k) == Lookup(Some(t), k)
    {
      LookupCorrect(u, k);
      LookupCorrect(t, k);
    }
  }

  /** The table a removal of a present key leaves: valid, the mapping gone, counted, no chain shorter. */
  lemma RemoveShape<V>(t: Table<V>, key: Bytes) returns (u: Table<V>)
    requires Valid(t) && key in Map(t)
    ensures Remove(t, key) == (u, 0)
    ensures Valid(u) && Map(u) == Map(t) - {key} && u.size + 1 == t.size
    ensures forall i | 0 <= i < |t.buckets| :: |u.buckets[i]| == |t.buckets[i]|
  {
    LookupCorrect(t, key);
    var i := Bucket(key, t.bucketCount, SIGNED_CHARS);
    var j := Position(t.buckets[i], key).value;
    var c := t.buckets[i][j := Vacant];
    u := Table(t.buckets[i := c], Decrement(t.size), t.bucketCount);
    assert Remove(t, key) == (u, 0);
    assert forall k | 0 <= k < |t.buckets| :: |u.buckets[k]| == |t.buckets[k]|;
    assert Wf(u);
    Delete(t.buckets, SIGNED_CHARS, i, j, c);
  }

  /**
   * As written, removing the zero-length key from a table whose key chain
   * starts with an empty link "removes" that link: 0, and the counter
   * decremented, wrapping below zero on an empty table.
   */
  lemma RemoveEmptyKeyAsWritten<V>(t: Table<V>)
    requires Wf(t) && t.buckets[Bucket([], t.bucketCount, SIGNED_CHARS)][0].Vacant?
    ensures RemoveAsWritten(t, []) == (t.(size := Decrement(t.size)), 0)
  {
    var i := Bucket([], t.bucketCount, SIGNED_CHARS);
    assert Match(t.buckets[i], []) == Some(0);
    var empty: Slot<V> := Vacant;
    assert t.buckets[i][0 := empty] == t.buckets[i];
    assert t.buckets[i := t.buckets[i]] == t.buckets;
  }

  /** The smallest instance: a new one-bucket table, where the corrected removal reports the key absent. */
  lemma RemoveEmptyKeyExample()
    ensures var t := Create<int>(1).value;
      && RemoveAsWritten(t, []) == (t.(size := SIZE_MAX), 0)
      && Remove(t, []) == (t, -1)
  {
    var t := Create<int>(1).value;
    RemoveEmptyKeyAsWritten(t);
    RemoveAbsent(t, []);
  }

  /**
   * The wrapped counter as written: after the zero-length removal of
   * `RemoveEmptyKeyExample` the counter is `SIZE_MAX`, so the next add's
   * `size++` wraps it to 0, the load test fails and no rehash happens.
   * The table holds one entry and reports none.
   */
  lemma WrappedCounterAsWritten()
    ensures var w := Create<int>(1).value.(size := SIZE_MAX);
      var a: Bytes := [0x61];
      && RemoveAsWritten(Create<int>(1).value, []) == (w, 0)
      && AddAsWritten(w, a, 7, Mem(true, true, RehashOk)) == Some((Table([[Occupied(a, 7)]], 0, 1), 0))
  {
    RemoveEmptyKeyExample();
    var t := Create<int>(1).value;
    var w := t.(size := SIZE_MAX);
    var a: Bytes := [0x61];
    var e: Slot<int> := Vacant;
    assert t.buckets == [[e]];
    assert Bucket(a, 1, SIGNED_CHARS) == 0;
    assert LookupAsWritten(Some(w), a) == None by {
      assert Match(w.buckets[0], a) == None;
    }
    assert FirstVacant(w.buckets[0]) == Some(0);
    assert w.buckets[0][0 := Occupied(a, 7)] == [Occupied(a, 7)];
    assert w.buckets[0 := [Occupied(a, 7)]] == [[Occupied(a, 7)]];
    assert PlaceAsWritten(w, a, 7, Mem(true, true, RehashOk)) == (Table([[Occupied(a, 7)]], SIZE_MAX, 1), 0);
  }

  // ---------------------------------------------------------------------
  // Enumerating the keys

  /**
   * `htable_get_keys`: NULL when the counter is 0 or an allocation fails
   * (`mem` false), otherwise the keys of the occupied links bucket by
   * bucket, or NULL again when there are none. Copies and borrowed
   * pointers hold the same bytes.
   */
  function GetKeys<V>(t: Table<V>, mem: bool): (r: Option<seq<Bytes>>)
    ensures t.size == 0 || !mem ==> r.None?
    ensures r.Some? ==> |r.value| > 0
  {
    if t.size == 0 || !mem then None
    else
      var ks := LiveKeys(t.buckets);
      if |ks| == 0 then None else Some(ks)
  }

  /** On a valid non-empty table the list holds every key once, `size` of them. */
  lemma GetKeysCorrect<V>(t: Table<V>)
    requires Valid(t) && t.size > 0
    ensures GetKeys(t, true).Some?
    ensures var ks := GetKeys(t, true).value;
      && |ks| == t.size
      && Distinct(ks)
      && forall k :: k in ks <==> k in Map(t)
  {
    LiveKeysContents(t.buckets);
  }
}
