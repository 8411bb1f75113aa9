/**
 * The byte-keyed chained hash table of src/htable.c. Keys are copied into
 * the entries and hashed as unsigned bytes; every chain is a list of live
 * entries appended at the end. The table keeps its own `mapping_count` next
 * to the bucket array, and doubles the array when that count exceeds three
 * quarters of the bucket count.
 *
 * Pointers become `Option`s: `None` stands for a NULL table, key or value.
 * Allocation failures the source reports through a return code are the
 * boolean oracles `alloc` (the new entry) and `mem` (everything a rehash
 * allocates).
 */
module Htable {
  import opened Wrappers
  import opened Chains

  /** src/htable.c hashes `const uint8_t*` keys: no sign extension. */
  const SIGNED_CHARS := false

  datatype TableRep<V> = TableRep(buckets: Buckets<V>, mappingCount: nat)

  /** `struct htable`: `bucket_count` is the length of the bucket array, which is never empty. */
  type Table<V> = t: TableRep<V> | |t.buckets| > 0 witness TableRep([[]], 0)

  /** The representation invariant: a valid bucket array without empty keys whose mapping counter matches it. */
  ghost predicate Valid<V>(t: Table<V>) {
    && Chains.Valid(t.buckets, SIGNED_CHARS)
    && KeysNonEmpty(t.buckets)
    && t.mappingCount == Count(t.buckets)
  }

  /** The mappings a valid table stands for. */
  ghost function Map<V>(t: Table<V>): map<Bytes, V>
    requires Valid(t)
  {
    Contents(t.buckets)
  }

  /**
   * What `htable_add`, `htable_remove` and `htable_rehash` leave behind: a
   * return code and the table, a process that called `_exit`, or undefined
   * behaviour.
   */
  datatype Outcome<V> = Returned(table: Option<Table<V>>, code: int) | Exited | Undefined

  /** What `htable_get_keys` yields: NULL, the key list, or a process that called `_exit`. */
  datatype KeyList = Null | Keys(keys: seq<Bytes>) | Died

  // ---------------------------------------------------------------------
  // Creation and lookup

  /** `htable_create(size)`: NULL for zero buckets, otherwise `size` empty chains and no mappings. */
  function Create<V>(size: nat): (r: Option<Table<V>>)
    ensures r.None? <==> size == 0
    ensures r.Some? ==> Valid(r.value) && |r.value.buckets| == size
    ensures r.Some? ==> Map(r.value) == map[] && r.value.mappingCount == 0
  {
    if size == 0 then None
    else
      FreshEmpty<V>(size, [], SIGNED_CHARS);
      Some(TableRep(Fresh(size, []), 0))
  }

  /** `htable_lookup`: NULL for a NULL table or a NULL or empty key, otherwise the chain walk of the key's bucket. */
  function Lookup<V>(t: Option<Table<V>>, key: Option<Bytes>): (r: Option<V>)
    ensures t.None? || key.None? || |key.value| == 0 ==> r.None?
  {
    if t.None? || key.None? || |key.value| == 0 then None
    else Find(t.value.buckets[Bucket(key.value, |t.value.buckets|, SIGNED_CHARS)], key.value)
  }

  lemma LookupCorrect<V>(t: Table<V>, key: Bytes)
    requires Valid(t)
    ensures Lookup(Some(t), Some(key)) == Get(Map(t), key)
  {
    FindContents(t.buckets, SIGNED_CHARS, key);
    if |key| == 0 && key in Map(t) {
      var i, j := ContentsWitness(t.buckets, key);
    }
  }

  /** `htable_get_mapping_count`. */
  function MappingCount<V>(t: Table<V>): (r: nat)
    ensures Valid(t) ==> r == |Map(t)|
  {
    MappingCountCorrect(t);
    t.mappingCount
  }

  /** On a valid table the counter is the number of mappings. */
  lemma MappingCountCorrect<V>(t: Table<V>)
    ensures Valid(t) ==> t.mappingCount == |Map(t)|
  {
    if Valid(t) {
      LiveKeysContents(t.buckets);
    }
  }

  // ---------------------------------------------------------------------
  // Enumerating the keys

  /**
   * `htable_get_keys`: NULL for a NULL table, a zero counter or a failed
   * allocation (`mem` false); otherwise the keys bucket by bucket, and an
   * `_exit` when their number differs from the counter.
   */
  function GetKeys<V>(t: Option<Table<V>>, mem: bool): (r: KeyList)
    ensures t.None? || !mem ==> r.Null?
    ensures t.Some? && t.value.mappingCount == 0 ==> r.Null?
  {
    if t.None? || t.value.mappingCount == 0 || !mem then Null
    else
      var ks := LiveKeys(t.value.buckets);
      if |ks| != t.value.mappingCount then Died else Keys(ks)
  }

  /** On a valid non-empty table the list holds every key once and nothing else, `mapping_count` of them. */
  lemma GetKeysCorrect<V>(t: Table<V>)
    requires Valid(t) && t.mappingCount > 0
    ensures GetKeys(Some(t), true).Keys?
    ensures var ks := GetKeys(Some(t), true).keys;
      && |ks| == t.mappingCount
      && Distinct(ks)
      && forall k :: k in ks <==> k in Map(t)
  {
    LiveKeysContents(t.buckets);
  }

  // ---------------------------------------------------------------------
  // Adding

  /** The new entry at the end of the key's chain. */
  function Append<V>(t: Table<V>, key: Bytes, value: V): (r: Table<V>)
    ensures |r.buckets| == |t.buckets|
  {
    var i := Bucket(key, |t.buckets|, SIGNED_CHARS);
    TableRep(t.buckets[i := t.buckets[i] + [Occupied(key, value)]], t.mappingCount + 1)
  }

  /** The first part of `htable_add`: the argument checks, the duplicate check and the link, before the load check. */
  function Link<V>(t: Option<Table<V>>, key: Option<Bytes>, value: Option<V>, alloc: bool): (r: (Option<Table<V>>, int))
    ensures t.Some? ==> r.0.Some? && |r.0.value.buckets| == |t.value.buckets|
    ensures t.None? ==> r == (t, -1)
    ensures r.1 != 0 ==> r.0 == t
  {
    if t.None? || key.None? || |key.value| == 0 || value.None? then (t, -1)
    else if Lookup(t, key).Some? then (t, -1)
    else if !alloc then (t, -2)
    else (Some(Append(t.value, key.value, value.value)), 0)
  }

  /** The load test `mapping_count / bucket_count > 0.75` in integers. */
  predicate Overloaded<V>(t: Table<V>) {
    4 * t.mappingCount > 3 * |t.buckets|
  }

  /** Linking a new key into a valid table adds exactly that mapping. */
  lemma LinkCorrect<V>(t: Table<V>, key: Bytes, value: V)
    requires Valid(t) && |key| > 0 && key !in Map(t)
    ensures var r := Link(Some(t), Some(key), Some(value), true);
      && r.1 == 0 && Valid(r.0.value) && Map(r.0.value) == Map(t)[key := value]
      && r.0.value.mappingCount == t.mappingCount + 1
  {
    LookupCorrect(t, key);
    var i := Bucket(key, |t.buckets|, SIGNED_CHARS);
    Insert(t.buckets, SIGNED_CHARS, key, value, |t.buckets[i]|, t.buckets[i] + [Occupied(key, value)]);
  }

  /**
   * `htable_add`: the link, then a rehash to twice the buckets when the load
   * exceeds three quarters. A failed rehash is only logged: the add still
   * returns 0.
   */
  function Add<V>(t: Option<Table<V>>, key: Option<Bytes>, value: Option<V>, alloc: bool, mem: bool): (r: Outcome<V>)
    ensures t.None? ==> r == Returned(t, -1)
    ensures r.Returned? && r.code != 0 ==> r.table == t && (r.code == -1 || r.code == -2)
    ensures r.Returned? && r.code == 0 ==> r.table.Some?
    ensures !mem ==> r.Returned? && (t.Some? ==> |r.table.value.buckets| == |t.value.buckets|)
  {
    var (t1, code) := Link(t, key, value, alloc);
    if code != 0 then Returned(t1, code)
    else if !Overloaded(t1.value) then Returned(t1, 0)
    else match Rehash(t1.value, 2, mem)
      case Exited => Exited
      case Undefined => Undefined
      case Returned(t2, _) => Returned(t2, 0)
  }

  /** `htable_add` with the rehash as written. */
  function AddAsWritten<V>(t: Option<Table<V>>, key: Option<Bytes>, value: Option<V>, alloc: bool, mem: bool): (r: Outcome<V>)
    ensures Link(t, key, value, alloc).1 != 0 ==> r == Add(t, key, value, alloc, mem)
  {
    var (t1, code) := Link(t, key, value, alloc);
    if code != 0 then Returned(t1, code)
    else if !Overloaded(t1.value) then Returned(t1, 0)
    else match RehashAsWritten(t1.value, 2, mem)
      case Exited => Exited
      case Undefined => Undefined
      case Returned(t2, _) => Returned(t2, 0)
  }

  /** Add refuses a NULL table, a NULL or empty key and a NULL value with -1, and changes nothing. */
  lemma AddRejects<V>(t: Option<Table<V>>, key: Option<Bytes>, value: Option<V>, alloc: bool, mem: bool)
    requires t.None? || key.None? || |key.value| == 0 || value.None?
    ensures Add(t, key, value, alloc, mem) == Returned(t, -1)
  {
  }

  /** Add of a key already mapped returns -1 and keeps the existing mapping. */
  lemma AddDuplicate<V>(t: Table<V>, key: Bytes, value: V, alloc: bool, mem: bool)
    requires Valid(t) && key in Map(t)
    ensures Add(Some(t), Some(key), Some(value), alloc, mem) == Returned(Some(t), -1)
  {
    LookupCorrect(t, key);
  }

  /** An entry allocation failure returns -2 and changes nothing. */
  lemma AddOutOfMemory<V>(t: Table<V>, key: Bytes, value: V, mem: bool)
    requires Valid(t) && |key| > 0 && key !in Map(t)
    ensures Add(Some(t), Some(key), Some(value), false, mem) == Returned(Some(t), -2)
  {
    LookupCorrect(t, key);
  }

  /**
   * A successful add of a new key: 0, the new mapping and every other one
   * as before, the counter one higher, and the bucket array doubled exactly
   * when the load went past three quarters and the rehash could allocate.
   */
  lemma AddCorrect<V>(t: Table<V>, key: Bytes, value: V, mem: bool)
    requires Valid(t) && |key| > 0 && key !in Map(t)
    ensures var r := Add(Some(t), Some(key), Some(value), true, mem);
      && r.Returned? && r.code == 0 && r.table.Some?
      && Valid(r.table.value)
      && Map(r.table.value) == Map(t)[key := value]
      && r.table.value.mappingCount == t.mappingCount + 1
      && |r.table.value.buckets| ==
         if 4 * (t.mappingCount + 1) > 3 * |t.buckets| && mem then 2 * |t.buckets| else |t.buckets|
  {
    LinkCorrect(t, key, value);
    var t1 := Link(Some(t), Some(key), Some(value), true).0.value;
    if Overloaded(t1) {
      if mem {
        RehashCorrect(t1, 2);
      } else {
        RehashFails(t1, 2);
      }
    }
  }

  // ---------------------------------------------------------------------
  // Rehashing

  /** The loop of `htable_rehash`: every listed key, with its value looked up in `t`, added to the temporary table `tmp`. */
  function Reinsert<V>(t: Table<V>, keys: seq<Bytes>, tmp: Table<V>): (r: Table<V>)
    ensures |r.buckets| == |tmp.buckets|
    decreases |keys|
  {
    if |keys| == 0 then tmp
    else
      var next := Link(Some(tmp), Some(keys[0]), Lookup(Some(t), Some(keys[0])), true).0.value;
      Reinsert(t, keys[1..], next)
  }

  /**
   * `htable_rehash(table, scale)`: a temporary table of `scale` times the
   * buckets, the keys listed, each re-added with its looked-up value, then
   * the bucket arrays swapped. The table keeps its own `mapping_count`.
   * `mem` false is any of the allocations failing.
   */
  function Rehash<V>(t: Table<V>, scale: nat, mem: bool): (r: Outcome<V>)
    ensures r.Returned? ==> r.table.Some?
    ensures r.Returned? && r.code != 0 ==> r == Returned(Some(t), -1)
  {
    if scale == 0 || !mem then Returned(Some(t), -1)
    else match GetKeys(Some(t), true)
      case Died => Exited
      case Null => Returned(Some(t), -1)
      case Keys(ks) =>
        var tmp := Create<V>(|t.buckets| * scale).value;
        Returned(Some(TableRep(Reinsert(t, ks, tmp).buckets, t.mappingCount)), 0)
  }

  /**
   * The loop of `htable_rehash` as written: each key goes through the whole
   * of `htable_add`, whose load check rehashes the temporary table itself
   * once it passes three quarters. The swap that follows gives the table
   * that grown array under `bucket_count * scale`, and
   * `htable_destroy(tmp_table)` walks `bucket_count * scale` chains of the
   * prev array, which holds fewer: undefined behaviour, `None`.
   */
  function ReinsertAsWritten<V>(t: Table<V>, keys: seq<Bytes>, tmp: Table<V>): (r: Option<Table<V>>)
    ensures r.Some? ==> |r.value.buckets| == |tmp.buckets|
    decreases |keys|
  {
    if |keys| == 0 then Some(tmp)
    else
      var (next, code) := Link(Some(tmp), Some(keys[0]), Lookup(Some(t), Some(keys[0])), true);
      if code == 0 && Overloaded(next.value) then None
      else ReinsertAsWritten(t, keys[1..], next.value)
  }

  /** `htable_rehash` as written: `Rehash` with the re-add loop of `ReinsertAsWritten`. */
  function RehashAsWritten<V>(t: Table<V>, scale: nat, mem: bool): (r: Outcome<V>)
    ensures !mem ==> r == Returned(Some(t), -1)
    ensures r.Returned? && r.code != 0 ==> r == Returned(Some(t), -1)
  {
    if scale == 0 || !mem then Returned(Some(t), -1)
    else match GetKeys(Some(t), true)
      case Died => Exited
      case Null => Returned(Some(t), -1)
      case Keys(ks) =>
        match ReinsertAsWritten(t, ks, Create<V>(|t.buckets| * scale).value)
        case None => Undefined
        case Some(r) => Returned(Some(TableRep(r.buckets, t.mappingCount)), 0)
  }

  /**
   * The re-add loop as written is the corrected one until the entries
   * re-added pass three quarters of the temporary table's buckets, and
   * undefined from there on.
   */
  lemma {:induction false} ReinsertAsWrittenAgrees<V>(t: Table<V>, keys: seq<Bytes>, tmp: Table<V>)
    requires Valid(t) && Valid(tmp) && Distinct(keys)
    requires forall k | k in keys :: k in Map(t) && k !in Map(tmp)
    ensures ReinsertAsWritten(t, keys, tmp) ==
      if |keys| > 0 && 4 * (tmp.mappingCount + |keys|) > 3 * |tmp.buckets| then None else Some(Reinsert(t, keys, tmp))
    decreases |keys|
  {
    if |keys| > 0 {
      var k := keys[0];
      assert k in keys;
      var v := Map(t)[k];
      LookupCorrect(t, k);
      LinkCorrect(tmp, k, v);
      var next := Link(Some(tmp), Some(k), Some(v), true).0.value;
      if !Overloaded(next) {
        DistinctTail(keys);
        assert forall k' | k' in keys[1..] :: k' in Map(t) && k' !in Map(next) by {
          forall k' | k' in keys[1..] ensures k' in keys {
          }
        }
        ReinsertAsWrittenAgrees(t, keys[1..], next);
      }
    }
  }

  /** With its allocations succeeding the rehash as written is the corrected one, unless the entries pass three quarters of the scaled table. */
  lemma RehashAsWrittenAgrees<V>(t: Table<V>, scale: nat)
    requires Valid(t) && t.mappingCount > 0 && scale > 0
    ensures RehashAsWritten(t, scale, true) ==
      if 4 * t.mappingCount > 3 * (scale * |t.buckets|) then Undefined else Rehash(t, scale, true)
  {
    GetKeysCorrect(t);
    var ks := GetKeys(Some(t), true).keys;
    var tmp := Create<V>(|t.buckets| * scale).value;
    ReinsertAsWrittenAgrees(t, ks, tmp);
  }

  /**
   * Adding a new key as written does what the corrected add does, save
   * that a rehash whose re-added entries pass the threshold of the doubled
   * table, more than one and a half entries per prev bucket, is undefined
   * behaviour.
   */
  lemma AddAsWrittenAgrees<V>(t: Table<V>, key: Bytes, value: V, mem: bool)
    requires Valid(t) && |key| > 0 && key !in Map(t)
    ensures AddAsWritten(Some(t), Some(key), Some(value), true, mem) ==
      if mem && 4 * (t.mappingCount + 1) > 6 * |t.buckets| then Undefined
      else Add(Some(t), Some(key), Some(value), true, mem)
  {
    LinkCorrect(t, key, value);
    var t1 := Link(Some(t), Some(key), Some(value), true).0.value;
    if Overloaded(t1) && mem {
      RehashAsWrittenAgrees(t1, 2);
    }
  }

  /**
   * As written, an add whose rehash can allocate is undefined behaviour once
   * the entries pass one and a half per bucket; corrected, it doubles the
   * table and keeps every mapping.
   */
  lemma NestedRehashAsWritten<V>(t: Table<V>, key: Bytes, value: V)
    requires Valid(t) && |key| > 0 && key !in Map(t) && 4 * (t.mappingCount + 1) > 6 * |t.buckets|
    ensures AddAsWritten(Some(t), Some(key), Some(value), true, true) == Undefined
    ensures var r := Add(Some(t), Some(key), Some(value), true, true);
      && r.Returned? && r.code == 0 && r.table.Some? && Valid(r.table.value)
      && |r.table.value.buckets| == 2 * |t.buckets|
      && Map(r.table.value) == Map(t)[key := value]
  {
    AddAsWrittenAgrees(t, key, value, true);
    AddCorrect(t, key, value, true);
  }

  /** A new key added to a valid table whose rehash cannot allocate: valid, counted, no more buckets, as written and corrected. */
  lemma AddWithoutRehash<V>(t: Table<V>, key: Bytes, value: V) returns (u: Table<V>)
    requires Valid(t) && |key| > 0 && key !in Map(t)
    ensures AddAsWritten(Some(t), Some(key), Some(value), true, false) == Returned(Some(u), 0)
    ensures Add(Some(t), Some(key), Some(value), true, false) == Returned(Some(u), 0)
    ensures Valid(u) && u.mappingCount == t.mappingCount + 1 && |u.buckets| == |t.buckets|
    ensures Map(u) == Map(t)[key := value]
  {
    AddAsWrittenAgrees(t, key, value, false);
    AddCorrect(t, key, value, false);
    u := Add(Some(t), Some(key), Some(value), true, false).table.value;
  }

  /**
   * The smallest instance of the nested rehash, for any three distinct
   * keys: two adds to a one-bucket table whose rehashes fail, then a third
   * whose rehash can allocate. As written the temporary two-bucket table
   * passes its threshold and is rehashed to four buckets, which the swap
   * puts under a `bucket_count` of two; corrected, the table holds the
   * three mappings in two buckets.
   */
  lemma NestedRehashExample(a: Bytes, b: Bytes, c: Bytes) returns (t0: Table<int>, t1: Table<int>, t2: Table<int>)
    requires |a| > 0 && |b| > 0 && |c| > 0 && a != b && b != c && a != c
    ensures Create<int>(1) == Some(t0)
    ensures Add(Some(t0), Some(a), Some(1), true, false) == Returned(Some(t1), 0)
    ensures AddAsWritten(Some(t0), Some(a), Some(1), true, false) == Returned(Some(t1), 0)
    ensures Add(Some(t1), Some(b), Some(2), true, false) == Returned(Some(t2), 0)
    ensures AddAsWritten(Some(t1), Some(b), Some(2), true, false) == Returned(Some(t2), 0)
    ensures AddAsWritten(Some(t2), Some(c), Some(3), true, true) == Undefined
    ensures var r := Add(Some(t2), Some(c), Some(3), true, true);
      && r.Returned? && r.code == 0 && r.table.Some? && Valid(r.table.value)
      && |r.table.value.buckets| == 2
      && Map(r.table.value) == map[a := 1, b := 2, c := 3]
  {
    t0 := Create<int>(1).value;
    t1 := AddWithoutRehash(t0, a, 1);
    assert b !in Map(t1);
    t2 := AddWithoutRehash(t1, b, 2);
    assert c !in Map(t2);
    NestedRehashAsWritten(t2, c, 3);
  }

  /** A rehash whose allocations fail returns -1 and leaves the table as it was. */
  lemma RehashFails<V>(t: Table<V>, scale: nat)
    ensures Rehash(t, scale, false) == Returned(Some(t), -1)
  {
  }

  /** One step of the re-add loop: the first key is linked into the temporary table with its looked-up value. */
  lemma ReinsertStep<V>(t: Table<V>, keys: seq<Bytes>, tmp: Table<V>) returns (next: Table<V>)
    requires Valid(t) && Valid(tmp) && |keys| > 0
    requires keys[0] in Map(t) && keys[0] !in Map(tmp)
    ensures Valid(next) && next.mappingCount == tmp.mappingCount + 1
    ensures Reinsert(t, keys, tmp) == Reinsert(t, keys[1..], next)
    ensures Map(next) == Map(tmp)[keys[0] := Map(t)[keys[0]]]
  {
    var k := keys[0];
    var v := Map(t)[k];
    LookupCorrect(t, k);
    LinkCorrect(tmp, k, v);
    next := Link(Some(tmp), Some(k), Some(v), true).0.value;
  }

  /** Re-adding distinct keys of a valid table into a valid table that lacks them adds exactly their mappings. */
  lemma {:induction false} ReinsertCorrect<V>(t: Table<V>, keys: seq<Bytes>, tmp: Table<V>)
    requires Valid(t) && Valid(tmp) && Distinct(keys)
    requires forall k | k in keys :: k in Map(t) && k !in Map(tmp)
    ensures var r := Reinsert(t, keys, tmp);
      && Valid(r)
      && r.mappingCount == tmp.mappingCount + |keys|
      && Map(r) == Map(tmp) + Pick(Map(t), keys)
    decreases |keys|
  {
    if |keys| > 0 {
      assert keys[0] in keys;
      var next := ReinsertStep(t, keys, tmp);
      DistinctTail(keys);
      assert forall k' | k' in keys[1..] :: k' in Map(t) && k' !in Map(next) by {
        forall k' | k' in keys[1..] ensures k' in keys {
        }
      }
      ReinsertCorrect(t, keys[1..], next);
      PickStep(Map(tmp), Map(t), keys);
    }
  }

  /** A rehash of a valid non-empty table with its allocations succeeding keeps every mapping and scales the bucket array. */
  lemma RehashCorrect<V>(t: Table<V>, scale: nat)
    requires Valid(t) && t.mappingCount > 0 && scale > 0
    ensures var r := Rehash(t, scale, true);
      && r.Returned? && r.code == 0
      && Valid(r.table.value)
      && Map(r.table.value) == Map(t)
      && |r.table.value.buckets| == scale * |t.buckets|
  {
    GetKeysCorrect(t);
    var ks := GetKeys(Some(t), true).keys;
    var tmp := Create<V>(|t.buckets| * scale).value;
    ReinsertCorrect(t, ks, tmp);
    PickAll(Map(t), ks);
  }

  // ---------------------------------------------------------------------
  // Removing

  /**
   * `htable_remove` as written: -1 for a NULL table, a NULL or empty key or
   * an absent key; otherwise the entry is unlinked and 0 returned, but
   * `mapping_count` is never decremented.
   */
  function RemoveAsWritten<V>(t: Option<Table<V>>, key: Option<Bytes>): (r: (Option<Table<V>>, int))
    ensures r.1 != 0 ==> r == (t, -1)
  {
    if t.None? || key.None? || |key.value| == 0 then (t, -1)
    else
      var b := t.value.buckets;
      var i := Bucket(key.value, |b|, SIGNED_CHARS);
      match Position(b[i], key.value)
      case None => (t, -1)
      case Some(j) => (Some(TableRep(b[i := b[i][..j] + b[i][j + 1..]], t.value.mappingCount)), 0)
  }

  /** `htable_remove` with the counter decremented along with the unlink. */
  function Remove<V>(t: Option<Table<V>>, key: Option<Bytes>): (r: (Option<Table<V>>, int))
    ensures r.1 != 0 ==> r == (t, -1)
  {
    match RemoveAsWritten(t, key)
    case (Some(u), 0) =>
      (Some(TableRep(u.buckets, if u.mappingCount > 0 then u.mappingCount - 1 else 0)), 0)
    case other => other
  }

  /** The unlink itself: on a valid table, removing a present key drops exactly its mapping and one counted entry. */
  lemma UnlinkCorrect<V>(t: Table<V>, key: Bytes)
    requires Valid(t) && key in Map(t)
    ensures var r := RemoveAsWritten(Some(t), Some(key));
      && r.1 == 0 && r.0.Some?
      && Chains.Valid(r.0.value.buckets, SIGNED_CHARS)
      && KeysNonEmpty(r.0.value.buckets)
      && Contents(r.0.value.buckets) == Map(t) - {key}
      && Count(r.0.value.buckets) + 1 == t.mappingCount
      && r.0.value.mappingCount == t.mappingCount
  {
    LookupCorrect(t, key);
    var i := Bucket(key, |t.buckets|, SIGNED_CHARS);
    var j := Position(t.buckets[i], key).value;
    assert |key| > 0;
    var c := t.buckets[i][..j] + t.buckets[i][j + 1..];
    assert RemoveAsWritten(Some(t), Some(key)) == (Some(TableRep(t.buckets[i := c], t.mappingCount)), 0);
    Delete(t.buckets, SIGNED_CHARS, i, j, c);
  }

  /** Removal of a key the table does not map returns -1 and changes nothing, in both versions. */
  lemma RemoveAbsent<V>(t: Table<V>, key: Bytes)
    requires Valid(t) && key !in Map(t)
    ensures RemoveAsWritten(Some(t), Some(key)) == (Some(t), -1)
    ensures Remove(Some(t), Some(key)) == (Some(t), -1)
  {
    LookupCorrect(t, key);
  }

  /** The table the corrected removal of a present key leaves: valid, with the mapping gone. */
  lemma RemoveShape<V>(t: Table<V>, key: Bytes) returns (u: Table<V>)
    requires Valid(t) && key in Map(t)
    ensures Valid(u) && Remove(Some(t), Some(key)) == (Some(u), 0)
    ensures Map(u) == Map(t) - {key}
  {
    UnlinkCorrect(t, key);
    var w := RemoveAsWritten(Some(t), Some(key)).0.value;
    u := TableRep(w.buckets, w.mappingCount - 1);
  }

  /** The corrected removal keeps the table valid and drops exactly the removed mapping. */
  lemma RemoveCorrect<V>(t: Table<V>, key: Bytes)
    requires Valid(t) && key in Map(t)
    ensures var r := Remove(Some(t), Some(key));
      && r.1 == 0 && r.0.Some?
      && Valid(r.0.value)
      && Map(r.0.value) == Map(t) - {key}
      && (forall k | k != key :: Lookup(r.0, Some(k)) == Lookup(Some(t), Some(k)))
      && Lookup(r.0, Some(key)).None?
  {
    var u := RemoveShape(t, key);
    LookupOthers(t, u, key);
    LookupCorrect(u, key);
  }

  /** Two valid tables whose mappings differ at most at one key agree on every other lookup. */
  lemma LookupOthers<V>(t: Table<V>, u: Table<V>, key: Bytes)
    requires Valid(t) && Valid(u) && Map(u) == Map(t) - {key}
    ensures forall k | k != key :: Lookup(Some(u), Some(k)) == Lookup(Some(t), Some(k))
  {
    forall k | k != key
      ensures Lookup(Some(u), Some(k)) == Lookup(Some(t), Some(k))
    {
      LookupCorrect(u, k);
      LookupCorrect(t, k);
    }
  }

  /**
   * The removal as written leaves the counter one above the entries, so the
   * next key enumeration finds fewer keys than counted and ends the process.
   */
  lemma RemoveThenGetKeysExits<V>(t: Table<V>, key: Bytes)
    requires Valid(t) && key in Map(t)
    ensures var r := RemoveAsWritten(Some(t), Some(key));
      && r.1 == 0
      && GetKeys(r.0, true) == Died
  {
    UnlinkCorrect(t, key);
  }

  /** A concrete instance: one mapping added to a one-bucket table, then removed. */
  lemma RemoveThenGetKeysExitsExample()
    ensures var t := Create<int>(1).value;
      && Add(Some(t), Some([0x61]), Some(7), true, false) == Returned(Some(TableRep([[Occupied([0x61], 7)]], 1)), 0)
      && GetKeys(RemoveAsWritten(Some(TableRep([[Occupied([0x61], 7)]], 1)), Some([0x61])).0, true) == Died
  {
    var key: Bytes := [0x61];
    var t := Create<int>(1).value;
    assert t.buckets == [[]];
    assert Bucket(key, 1, SIGNED_CHARS) == 0;
    assert Lookup(Some(t), Some(key)).None?;
    var t1: Table<int> := TableRep([[Occupied(key, 7)]], 1);
    var e: Slot<int> := Occupied(key, 7);
    assert t.buckets[0] + [e] == [e];
    assert t.buckets[0 := [e]] == [[e]];
    assert Append(t, key, 7) == t1;
    assert Link(Some(t), Some(key), Some(7), true) == (Some(t1), 0);
    assert Overloaded(t1);
    assert Add(Some(t), Some(key), Some(7), true, false) == Returned(Some(t1), 0);
    assert Position(t1.buckets[0], key) == Some(0);
    var u: Table<int> := TableRep([[]], 1);
    assert t1.buckets[0][..0] + t1.buckets[0][1..] == [];
    assert t1.buckets[0 := []] == u.buckets;
    assert RemoveAsWritten(Some(t1), Some(key)) == (Some(u), 0);
    assert LiveKeys(u.buckets) == [];
  }
}
