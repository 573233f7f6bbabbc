/**
 * `HashTable` (stored-value.hh): an array of buckets, each the head of a
 * singly-linked chain of records, guarded by a smaller array of stripe
 * locks.  Every public operation runs under the stripe lock of its key's
 * bucket, so each is modelled as one atomic step on the object.  Each
 * mutating method is proved to leave the bucket as the matching
 * `...InChain` function of HashChains says, to touch no other bucket, and
 * to keep the object invariant: records sit in the bucket their key hashes
 * to, have the table's layout, `numItems` counts them and the bytes charged
 * to the memory accountant equal the sum of their sizes.
 */
module HashTables {
  import opened Types
  import opened StoredValues
  import opened HashChains

  /** The `v->next` walk of `unlocked_del`: from position `from` on, to the first record with the key, or the end. */
  method ScanForKey(c: seq<StoredValue>, key: seq<byte>, from: nat) returns (j: nat)
    requires from <= |c| && forall i :: 0 <= i < from ==> !HasKey(c[i], key)
    ensures from <= j <= |c|
    ensures forall i :: 0 <= i < j ==> !HasKey(c[i], key)
    ensures j < |c| ==> HasKey(c[j], key)
  {
    j := from;
    while j < |c| && !HasKey(c[j], key)
      invariant from <= j <= |c|
      invariant forall i :: 0 <= i < j ==> !HasKey(c[i], key)
    {
      j := j + 1;
    }
  }

  class HashTable {
    /** The number of buckets. */
    const size: int
    /** The number of stripe locks. */
    const nLocks: int
    /** The layout of every record this table builds (its factory's type). */
    const valueType: StoredValueType
    /** `values[b]` is bucket b's chain, head first. */
    var values: array<seq<StoredValue>>
    var numItems: nat
    /** A plain counter the source decrements; no invariant ties it to the records. */
    var numNonResidentItems: int
    /** The bytes this table's records have charged to the memory accountant. */
    ghost var charged: int
    /** `activeState`, set when the table is built. */
    var activeState: bool

    ghost predicate Valid()
      reads this, values
    {
      && 0 < size < 0x8000_0000 && 0 < nLocks < 0x8000_0000
      && values.Length == size
      && numItems == TotalItems(values[..])
      && charged == TableSize(values[..])
      && TableWellFormed(values[..], IsSmall(), size)
    }

    predicate IsSmall()
    {
      valueType == SmallType
    }

    /**
     * The constructor.  Bucket and lock counts arrive already resolved from
     * their defaults; the source asserts both are positive.  The requested
     * layout `t` is overwritten by the process-wide default, so the table's
     * layout is always `defaultType`.
     */
    constructor (s: int, l: int, t: StoredValueType, defaultType: StoredValueType)
      requires 0 < s < 0x8000_0000 && 0 < l < 0x8000_0000
      ensures Valid() && fresh(values)
      ensures size == s && nLocks == l && valueType == defaultType
      ensures forall b :: 0 <= b < size ==> values[b] == []
      ensures numItems == 0 && numNonResidentItems == 0 && activeState
    {
      size, nLocks, valueType := s, l, defaultType;
      activeState := true;
      values := new seq<StoredValue>[s](_ => []);
      numItems, numNonResidentItems := 0, 0;
      charged := 0;
      new;
      EmptyTable(values[..]);
    }

    /**
     * `active()`: the source ASSIGNS true to the flag instead of reading it,
     * so the answer is always true and the table is left active; every
     * `assert(active())` of the operations therefore holds.
     */
    method Active() returns (r: bool)
      modifies this`activeState
      ensures r && activeState
    {
      activeState := true;
      r := activeState;
    }

    /** `hash`: the fold of `h = ((h << 5) + h) ^ c` over the key from 5381. */
    method Hash(key: seq<byte>) returns (h: int)
      ensures h == HashOf(key)
    {
      var acc := HashSeed;
      var i := 0;
      while i < |key|
        invariant 0 <= i <= |key|
        invariant acc == HashBits(key[..i])
      {
        assert key[..i + 1][..i] == key[..i];
        acc := HashStep(acc, key[i]);
        i := i + 1;
      }
      assert key[..|key|] == key;
      h := ToInt32(acc);
    }

    /** The bucket `getLockedBucket` settles on for a key (the locking itself is not modelled). */
    method BucketFor(key: seq<byte>) returns (b: int)
      requires 0 < size < 0x8000_0000
      ensures b == BucketForKey(key, size)
    {
      var h := Hash(key);
      b := BucketForHash(h, size);
    }

    /** `unlocked_find`: walk the chain to the first record with the key. */
    method UnlockedFind(key: seq<byte>, b: int, wantsDeleted: bool) returns (r: Option<nat>)
      requires 0 <= b < values.Length
      ensures r == FindInChain(values[b], key, wantsDeleted)
      ensures r.Some? ==> r.value < |values[b]| && HasKey(values[b][r.value], key)
      ensures r.None? && wantsDeleted ==> forall j :: 0 <= j < |values[b]| ==> !HasKey(values[b][j], key)
    {
      var c := values[b];
      var i := 0;
      while i < |c|
        invariant 0 <= i <= |c|
        invariant forall j :: 0 <= j < i ==> !HasKey(c[j], key)
      {
        if HasKey(c[i], key) {
          FirstIndexIsUnique(c, key, i);
          if wantsDeleted || !IsDeleted(c[i]) {
            return Some(i);
          } else {
            return None;
          }
        }
        i := i + 1;
      }
      return None;
    }

    /** `find`: the live record with the key, if any. */
    method Find(key: seq<byte>) returns (v: Option<StoredValue>)
      requires Valid()
      ensures var c := values[BucketForKey(key, size)];
              var f := FindInChain(c, key, false);
              v == if f.Some? then Some(c[f.value]) else None
      ensures v.Some? ==> HasKey(v.value, key) && !IsDeleted(v.value)
    {
      var b := BucketFor(key);
      var r := UnlockedFind(key, b, false);
      v := if r.Some? then Some(values[b][r.value]) else None;
    }

    // -------------------------------------------------------------------
    // Chain surgery shared by the operations, each with its accounting

    /** Overwrite record i of bucket b in place; the accountant is charged the size difference. */
    method StoreAt(b: int, i: nat, w: StoredValue)
      requires Valid() && 0 <= b < size && i < |values[b]|
      requires w.key == values[b][i].key && w.extra.Small? == values[b][i].extra.Small?
      modifies values, this`charged
      ensures Valid()
      ensures values[b] == old(values[b])[i := w]
      ensures charged == old(charged) - ChainSize(old(values[b])) + ChainSize(values[b])
      ensures forall k :: 0 <= k < size && k != b ==> values[k] == old(values[k])
    {
      var c := values[b][i := w];
      ChainSizeUpdate(values[b], i, w);
      UpdateKeepsWellFormed(values[b], i, w, IsSmall(), b, size);
      Replace(b, c);
    }

    /** Link a new record at the head of bucket b (the factory charges its size). */
    method Prepend(b: int, w: StoredValue)
      requires Valid() && 0 <= b < size
      requires w.extra.Small? == IsSmall() && BucketForKey(w.key, size) == b
      modifies values, this`charged, this`numItems
      ensures Valid()
      ensures values[b] == [w] + old(values[b]) && numItems == old(numItems) + 1
      ensures charged == old(charged) - ChainSize(old(values[b])) + ChainSize(values[b])
      ensures forall k :: 0 <= k < size && k != b ==> values[k] == old(values[k])
    {
      var c := [w] + values[b];
      assert c[1..] == values[b];
      PrependKeepsWellFormed(values[b], w, IsSmall(), b, size);
      numItems := numItems + 1;
      Replace(b, c);
    }

    /** Unlink record j of bucket b; its size is released. */
    method RemoveAt(b: int, j: nat)
      requires Valid() && 0 <= b < size && j < |values[b]|
      modifies values, this`charged, this`numItems
      ensures Valid()
      ensures values[b] == old(values[b])[..j] + old(values[b])[j + 1..] && numItems == old(numItems) - 1
      ensures charged == old(charged) - ChainSize(old(values[b])) + ChainSize(values[b])
      ensures forall k :: 0 <= k < size && k != b ==> values[k] == old(values[k])
    {
      var c := values[b][..j] + values[b][j + 1..];
      ChainSizeRemove(values[b], j);
      RemoveKeepsWellFormed(values[b], j, IsSmall(), b, size);
      TotalItemsUpdate(values[..], b, []);
      numItems := numItems - 1;
      Replace(b, c);
    }

    /**
     * Install chain c as bucket b, charging the accountant the change in
     * size.  The item count has already been adjusted by the caller.
     */
    method Replace(b: int, c: seq<StoredValue>)
      requires 0 < size < 0x8000_0000 && 0 < nLocks < 0x8000_0000 && values.Length == size
      requires 0 <= b < size && TableWellFormed(values[..], IsSmall(), size)
      requires numItems == TotalItems(values[..]) - |values[b]| + |c|
      requires charged == TableSize(values[..])
      requires ChainWellFormed(c, IsSmall(), b, size)
      modifies values, this`charged
      ensures Valid()
      ensures values[b] == c
      ensures charged == old(charged) - ChainSize(old(values[b])) + ChainSize(c)
      ensures forall k :: 0 <= k < size && k != b ==> values[k] == old(values[k])
    {
      ghost var before := values[..];
      TableSizeUpdate(before, b, c);
      TotalItemsUpdate(before, b, c);
      charged := charged - ChainSize(values[b]) + ChainSize(c);
      values[b] := c;
      assert values[..] == before[b := c];
    }

    // -------------------------------------------------------------------
    // The operations

    /**
     * `set`: the item's key, flags, expiry and value; `freshCas` stands for
     * the CAS `Item::setCas` assigns, `spaceAvailable` for the accountant's
     * `hasAvailableSpace`.  `rowId` is the out-parameter, `None` when the
     * source leaves it untouched.
     */
    method Set(itm: Item, freshCas: uint64, spaceAvailable: bool, t: Clocks) returns (rv: MutationType, rowId: Option<int>)
      requires Valid()
      modifies values, this`charged, this`numItems, this`numNonResidentItems
      ensures Valid()
      ensures var b := BucketForKey(itm.key, size);
              var o := SetInChain(old(values[b]), itm, IsSmall(), freshCas, spaceAvailable, t);
              && rv == o.rv && rowId == o.rowId && values[b] == o.chain
              && numNonResidentItems == old(numNonResidentItems) + o.nonResidentDelta
      ensures numItems == old(numItems) - |old(values[BucketForKey(itm.key, size)])| + |values[BucketForKey(itm.key, size)]|
      ensures charged == old(charged) - ChainSize(old(values[BucketForKey(itm.key, size)])) + ChainSize(values[BucketForKey(itm.key, size)])
      ensures forall k :: 0 <= k < size && k != BucketForKey(itm.key, size) ==> values[k] == old(values[k])
    {
      if !spaceAvailable {
        return NoMem, None;
      }
      rv, rowId := NotFound, None;
      var b := BucketFor(itm.key);
      var found := UnlockedFind(itm.key, b, true);
      var skipLock := false;
      if found.Some? && IsExpired(values[b][found.value], t.realTime) {
        if itm.cas != 0 {
          return NotFound, None;
        }
        skipLock := true;
      }
      if found.Some? && !skipLock {
        rv, rowId := SetLive(itm, b, found.value, freshCas, t);
      } else {
        if itm.cas != 0 {
          return NotFound, None;
        }
        SetNew(itm, b, freshCas, t);
      }
    }

    /**
     * The branch of `set` for a live (unexpired) record i of bucket b that
     * is the first with the key: the lock and CAS checks, then the update
     * in place.
     */
    method SetLive(itm: Item, b: int, i: nat, freshCas: uint64, t: Clocks) returns (rv: MutationType, rowId: Option<int>)
      requires Valid() && 0 <= b < size
      requires FirstIndexOf(values[b], itm.key) == Some(i) && !IsExpired(values[b][i], t.realTime)
      modifies values, this`charged, this`numNonResidentItems
      ensures Valid()
      ensures var o := SetInChain(old(values[b]), itm, IsSmall(), freshCas, true, t);
              && rv == o.rv && rowId == o.rowId && values[b] == o.chain
              && numNonResidentItems == old(numNonResidentItems) + o.nonResidentDelta
      ensures |values[b]| == |old(values[b])|
      ensures charged == old(charged) - ChainSize(old(values[b])) + ChainSize(values[b])
      ensures forall k :: 0 <= k < size && k != b ==> values[k] == old(values[k])
    {
      var chk := IsLocked(values[b][i], t.now);
      var v := chk.rec;
      if chk.locked {
        if itm.cas != GetCas(v) {
          return Locked, None;
        }
        v := Unlock(v);
      } else if itm.cas != 0 && itm.cas != GetCas(v) {
        // The expired lock cleared by isLocked stays cleared.
        StoreAt(b, i, v);
        return InvalidCas, None;
      }
      rv := Cleanliness(v);
      if !IsResident(v) {
        numNonResidentItems := numNonResidentItems - 1;
      }
      StoreAt(b, i, SetValue(v, itm.value, itm.flags, itm.exptime, freshCas, t.now));
      rowId := Some(v.id);
    }

    /** The branch of `set` that links a new record for an absent or expired key written without CAS. */
    method SetNew(itm: Item, b: int, freshCas: uint64, t: Clocks)
      requires Valid() && 0 <= b < size && BucketForKey(itm.key, size) == b && itm.cas == 0
      requires FirstIndexOf(values[b], itm.key).None? || IsExpired(values[b][FirstIndexOf(values[b], itm.key).value], t.realTime)
      modifies values, this`charged, this`numItems
      ensures Valid()
      ensures var o := SetInChain(old(values[b]), itm, IsSmall(), freshCas, true, t);
              o.rv == NotFound && o.rowId == None && o.nonResidentDelta == 0 && values[b] == o.chain
      ensures numItems == old(numItems) + 1 && |values[b]| == |old(values[b])| + 1
      ensures charged == old(charged) - ChainSize(old(values[b])) + ChainSize(values[b])
      ensures forall k :: 0 <= k < size && k != b ==> values[k] == old(values[k])
    {
      SetPrepends(values[b], itm, IsSmall(), freshCas, t);
      Prepend(b, Make(valueType, itm.(cas := freshCas), true, t.now));
    }

    /** `add` with `storeVal` true: store only if no live, unexpired record has the key. */
    method Add(itm: Item, isDirty: bool, freshCas: uint64, spaceAvailable: bool, t: Clocks) returns (rv: AddType)
      requires Valid()
      modifies values, this`charged, this`numItems
      ensures Valid()
      ensures var b := BucketForKey(itm.key, size);
              var o := AddInChain(old(values[b]), itm, IsSmall(), isDirty, freshCas, spaceAvailable, t);
              rv == o.rv && values[b] == o.chain
      ensures numItems == old(numItems) - |old(values[BucketForKey(itm.key, size)])| + |values[BucketForKey(itm.key, size)]|
      ensures charged == old(charged) - ChainSize(old(values[BucketForKey(itm.key, size)])) + ChainSize(values[BucketForKey(itm.key, size)])
      ensures forall k :: 0 <= k < size && k != BucketForKey(itm.key, size) ==> values[k] == old(values[k])
    {
      var b := BucketFor(itm.key);
      var found := UnlockedFind(itm.key, b, true);
      rv := AddSuccess;
      if found.Some? && !IsDeleted(values[b][found.value]) && !IsExpired(values[b][found.value], t.realTime) {
        rv := AddExists;
      } else {
        if !spaceAvailable {
          return AddNoMem;
        }
        if found.Some? {
          var i := found.value;
          var v := values[b][i];
          rv := if IsDeleted(v) || IsExpired(v, t.realTime) then AddUndel else AddSuccess;
          var w := SetValue(v, itm.value, itm.flags, itm.exptime, freshCas, t.now);
          StoreAt(b, i, if isDirty then MarkDirty(w, t.now) else MarkClean(w));
        } else {
          Prepend(b, Make(valueType, itm.(cas := freshCas), isDirty, t.now));
        }
      }
    }

    /** `unlocked_softDelete` on bucket b, whose lock the caller holds. */
    method UnlockedSoftDelete(key: seq<byte>, cas: uint64, b: int, t: Clocks) returns (rv: MutationType)
      requires Valid() && 0 <= b < size
      modifies values, this`charged, this`numNonResidentItems
      ensures Valid()
      ensures var o := SoftDeleteInChain(old(values[b]), key, cas, t);
              && rv == o.rv && values[b] == o.chain
              && numNonResidentItems == old(numNonResidentItems) + o.nonResidentDelta
      ensures charged == old(charged) - ChainSize(old(values[b])) + ChainSize(values[b])
      ensures forall k :: 0 <= k < size && k != b ==> values[k] == old(values[k])
    {
      rv := NotFound;
      var found := UnlockedFind(key, b, false);
      if found.Some? {
        var i := found.value;
        var v := values[b][i];
        if IsExpired(v, t.realTime) {
          StoreAt(b, i, StoredValues.Del(v, t.now));
          return rv;
        }
        var chk := IsLocked(v, t.now);
        if chk.locked {
          return Locked;
        }
        v := chk.rec;
        if cas != 0 && cas != GetCas(v) {
          StoreAt(b, i, v);
          return NotFound;
        }
        if !IsResident(v) {
          numNonResidentItems := numNonResidentItems - 1;
        }
        rv := Cleanliness(v);
        StoreAt(b, i, StoredValues.Del(Unlock(v), t.now));
      }
    }

    /** `softDelete`: the row id of the live record (if any) and the outcome of `unlocked_softDelete`. */
    method SoftDelete(key: seq<byte>, cas: uint64, t: Clocks) returns (rv: MutationType, rowId: Option<int>)
      requires Valid()
      modifies values, this`charged, this`numNonResidentItems
      ensures Valid()
      ensures var b := BucketForKey(key, size);
              var o := SoftDeleteInChain(old(values[b]), key, cas, t);
              var f := FindInChain(old(values[b]), key, false);
              && rv == o.rv && values[b] == o.chain
              && rowId == (if f.Some? then Some(old(values[b])[f.value].id) else None)
              && numNonResidentItems == old(numNonResidentItems) + o.nonResidentDelta
      ensures charged == old(charged) - ChainSize(old(values[BucketForKey(key, size)])) + ChainSize(values[BucketForKey(key, size)])
      ensures forall k :: 0 <= k < size && k != BucketForKey(key, size) ==> values[k] == old(values[k])
    {
      var b := BucketFor(key);
      var found := UnlockedFind(key, b, false);
      rowId := if found.Some? then Some(values[b][found.value].id) else None;
      rv := UnlockedSoftDelete(key, cas, b, t);
    }

    /** `unlocked_del`: unlink the first record with the key from bucket b. */
    method UnlockedDel(key: seq<byte>, b: int, now: RelTime) returns (removed: bool)
      requires Valid() && 0 <= b < size
      modifies values, this`charged, this`numItems
      ensures Valid()
      ensures var o := DelInChain(old(values[b]), key, now);
              removed == o.removed && values[b] == o.chain
      ensures numItems == old(numItems) - (if removed then 1 else 0)
      ensures charged == old(charged) - ChainSize(old(values[b])) + ChainSize(values[b])
      ensures forall k :: 0 <= k < size && k != b ==> values[k] == old(values[k])
    {
      var c := values[b];
      if c == [] {
        DelAbsent(c, key, now);
        return false;
      }
      // j: the head if it has the key, else the first `v->next` that does.
      var j := 0;
      if !HasKey(c[0], key) {
        j := ScanForKey(c, key, 1);
        if j == |c| {
          DelAbsent(c, key, now);
          return false;
        }
      }
      DelAt(c, key, now, j);
      var guard := if j == 0 then c[0] else c[j - 1];
      if !IsDeleted(guard) && IsLocked(c[j], now).locked {
        return false;
      }
      RemoveAt(b, j);
      return true;
    }

    /** `del`: `unlocked_del` on the key's bucket. */
    method Del(key: seq<byte>, now: RelTime) returns (removed: bool)
      requires Valid()
      modifies values, this`charged, this`numItems
      ensures Valid()
      ensures var b := BucketForKey(key, size);
              var o := DelInChain(old(values[b]), key, now);
              removed == o.removed && values[b] == o.chain
      ensures numItems == old(numItems) - (if removed then 1 else 0)
      ensures charged == old(charged) - ChainSize(old(values[BucketForKey(key, size)])) + ChainSize(values[BucketForKey(key, size)])
      ensures forall k :: 0 <= k < size && k != BucketForKey(key, size) ==> values[k] == old(values[k])
    {
      var b := BucketFor(key);
      removed := UnlockedDel(key, b, now);
    }

    /** `addUnlessThere`: restore a record unless any record, even a tombstone, has the key. */
    method AddUnlessThere(key: Key, op: QueueOperation, value: Blob, flags: uint32, exptime: int, cas: uint64,
                          t: Clocks) returns (added: bool)
      requires Valid()
      modifies values, this`charged, this`numItems, this`numNonResidentItems
      ensures Valid()
      ensures var b := BucketForKey(key, size);
              var o := AddUnlessThereInChain(old(values[b]), key, op, value, flags, exptime, cas, IsSmall(), t);
              && added == o.added && values[b] == o.chain
              && numNonResidentItems == old(numNonResidentItems) + o.nonResidentDelta
      ensures numItems == old(numItems) + (if added then 1 else 0)
      ensures charged == old(charged) - ChainSize(old(values[BucketForKey(key, size)])) + ChainSize(values[BucketForKey(key, size)])
      ensures forall k :: 0 <= k < size && k != BucketForKey(key, size) ==> values[k] == old(values[k])
    {
      var b := BucketFor(key);
      var found := UnlockedFind(key, b, true);
      if found.Some? {
        return false;
      }
      var itm := Item(key, flags, exptime, value, cas, NoId);
      Prepend(b, Make(valueType, itm, true, t.now));
      if op == DelOp {
        var ignored := UnlockedSoftDelete(key, cas, b, t);
      }
      return true;
    }
  }
}
