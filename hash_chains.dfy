/**
 * The hash function, the bucket and lock mappings, and the effect of each
 * hash-table operation on ONE bucket chain (stored-value.hh, class
 * HashTable).  A chain is the sequence of records reached from
 * `values[bucket]` through `next`, head first.  Each `...InChain` function
 * is the specification the corresponding `HashTable` method is proved
 * against; the lemmas state what the source promises about it.
 */
module HashChains {
  import opened Types
  import opened StoredValues

  // ---------------------------------------------------------------------
  // Hashing and index mappings

  /** The seed of the string hash. */
  const HashSeed: bv32 := 5381

  /** `char` is signed on the targets of the engine: bytes from 128 up are sign-extended. */
  function SignExtend(c: byte): bv32
  {
    if c < 128 then c as bv32 else (c + 0xFFFF_FF00) as bv32
  }

  /** One step of the hash, `h = ((h << 5) + h) ^ c`, in 32-bit two's complement. */
  function HashStep(h: bv32, c: byte): bv32
  {
    ((h << 5) + h) ^ SignExtend(c)
  }

  /** The step multiplies by 33 before mixing in the byte. */
  lemma HashStepMultipliesBy33(h: bv32, c: byte)
    ensures HashStep(h, c) == (h * 33) ^ SignExtend(c)
  {
    assert (h << 5) == h * 32;
  }

  /** The hash of a prefix-extended string: a left fold of `HashStep` from the seed. */
  function HashBits(s: seq<byte>): bv32
  {
    if s == [] then HashSeed else HashStep(HashBits(s[..|s| - 1]), s[|s| - 1])
  }

  /** Reading 32 bits as a signed `int`. */
  function ToInt32(h: bv32): (r: int)
    ensures -0x8000_0000 <= r < 0x8000_0000
    ensures r >= 0 <==> h as int < 0x8000_0000
  {
    var n := h as int;
    if n < 0x8000_0000 then n else n - 0x1_0000_0000
  }

  /** `HashTable::hash`: the signed 32-bit hash of a key. */
  function HashOf(s: seq<byte>): int
  {
    ToInt32(HashBits(s))
  }

  /** C's `%`, which truncates toward zero (the remainder takes the dividend's sign). */
  function CRem(a: int, n: int): (r: int)
    requires n > 0
    ensures -n < r < n
    ensures a >= 0 ==> 0 <= r
    ensures a <= 0 ==> r <= 0
  {
    if a >= 0 then a % n else -((-a) % n)
  }

  function Abs(x: int): nat
  {
    if x < 0 then -x else x
  }

  /** `getBucketForHash`: `abs(h % size)` with C's remainder. */
  function BucketForHash(h: int, size: int): (b: int)
    requires 0 < size < 0x8000_0000
    ensures 0 <= b < size
    ensures b == Abs(h) % size
  {
    Abs(CRem(h, size))
  }

  /** `mutexForBucket`: the stripe lock guarding a bucket (the source asserts `bucket_num >= 0`). */
  function MutexForBucket(bucket: int, nLocks: int): (l: int)
    requires bucket >= 0 && 0 < nLocks < 0x8000_0000
    ensures 0 <= l < nLocks
  {
    bucket % nLocks
  }

  /** The bucket a key lives in. */
  function BucketForKey(key: seq<byte>, size: int): (b: int)
    requires 0 < size < 0x8000_0000
    ensures 0 <= b < size
  {
    BucketForHash(HashOf(key), size)
  }

  // ---------------------------------------------------------------------
  // Lookup

  /** The position of the first record in the chain carrying `key` (the `next` walk of `unlocked_find`). */
  function FirstIndexOf(c: seq<StoredValue>, key: seq<byte>): (r: Option<nat>)
    ensures r.Some? ==> r.value < |c| && HasKey(c[r.value], key)
    ensures r.Some? ==> forall j :: 0 <= j < r.value ==> !HasKey(c[j], key)
    ensures r.None? <==> forall j :: 0 <= j < |c| ==> !HasKey(c[j], key)
  {
    if c == [] then None
    else if HasKey(c[0], key) then Some(0)
    else match FirstIndexOf(c[1..], key)
      case None => None
      case Some(i) => Some(i + 1)
  }

  /** Two positions that both satisfy "first record with the key" are the same position. */
  lemma FirstIndexIsUnique(c: seq<StoredValue>, key: seq<byte>, i: nat)
    requires i < |c| && HasKey(c[i], key)
    requires forall j :: 0 <= j < i ==> !HasKey(c[j], key)
    ensures FirstIndexOf(c, key) == Some(i)
  {
  }

  /** Rewriting one record without changing its key leaves every lookup position where it was. */
  lemma FirstIndexAfterUpdate(c: seq<StoredValue>, i: nat, v: StoredValue, key: seq<byte>)
    requires i < |c| && v.key == c[i].key
    ensures FirstIndexOf(c[i := v], key) == FirstIndexOf(c, key)
  {
    var c' := c[i := v];
    assert forall j :: 0 <= j < |c| ==> (HasKey(c'[j], key) <==> HasKey(c[j], key));
    match FirstIndexOf(c, key)
    case None =>
    case Some(k) => FirstIndexIsUnique(c', key, k);
  }

  /** `unlocked_find`: the first record with the key; a tombstone there hides the key unless asked for. */
  function FindInChain(c: seq<StoredValue>, key: seq<byte>, wantsDeleted: bool): (r: Option<nat>)
    ensures r.Some? ==> r.value < |c| && HasKey(c[r.value], key)
                        && (wantsDeleted || !IsDeleted(c[r.value]))
    ensures r.Some? ==> FirstIndexOf(c, key) == r
    ensures r.None? <==> FirstIndexOf(c, key).None?
                         || (!wantsDeleted && IsDeleted(c[FirstIndexOf(c, key).value]))
  {
    match FirstIndexOf(c, key)
    case None => None
    case Some(i) => if wantsDeleted || !IsDeleted(c[i]) then Some(i) else None
  }

  // ---------------------------------------------------------------------
  // Counting and accounting

  /** The number of records in a table's chains (`numItems`). */
  function TotalItems(s: seq<seq<StoredValue>>): nat
  {
    if s == [] then 0 else TotalItems(s[..|s| - 1]) + |s[|s| - 1]|
  }

  lemma {:induction false} TotalItemsUpdate(s: seq<seq<StoredValue>>, b: nat, c: seq<StoredValue>)
    requires b < |s|
    ensures TotalItems(s[b := c]) == TotalItems(s) - |s[b]| + |c|
  {
    var n := |s| - 1;
    if b < n {
      assert s[b := c][..n] == s[..n][b := c];
      TotalItemsUpdate(s[..n], b, c);
    } else {
      assert s[b := c][..n] == s[..n];
    }
  }

  /** A table whose chains are all empty holds no records and is charged nothing. */
  lemma {:induction false} EmptyTable(s: seq<seq<StoredValue>>)
    requires forall b :: 0 <= b < |s| ==> s[b] == []
    ensures TotalItems(s) == 0 && TableSize(s) == 0
  {
    if s != [] {
      EmptyTable(s[..|s| - 1]);
    }
  }

  /** The bytes a chain's records are charged for. */
  function ChainSize(c: seq<StoredValue>): nat
  {
    if c == [] then 0 else Size(c[0]) + ChainSize(c[1..])
  }

  lemma {:induction false} ChainSizeUpdate(c: seq<StoredValue>, i: nat, v: StoredValue)
    requires i < |c|
    ensures ChainSize(c[i := v]) == ChainSize(c) - Size(c[i]) + Size(v)
  {
    if i > 0 {
      assert c[i := v][1..] == c[1..][i - 1 := v];
      ChainSizeUpdate(c[1..], i - 1, v);
    } else {
      assert c[i := v][1..] == c[1..];
    }
  }

  lemma {:induction false} ChainSizeRemove(c: seq<StoredValue>, i: nat)
    requires i < |c|
    ensures ChainSize(c[..i] + c[i + 1..]) == ChainSize(c) - Size(c[i])
  {
    if i > 0 {
      assert (c[..i] + c[i + 1..])[1..] == c[1..][..i - 1] + c[1..][i..];
      ChainSizeRemove(c[1..], i - 1);
    } else {
      assert c[..i] + c[i + 1..] == c[1..];
    }
  }

  /** The bytes a whole table's records are charged for. */
  function TableSize(s: seq<seq<StoredValue>>): nat
  {
    if s == [] then 0 else TableSize(s[..|s| - 1]) + ChainSize(s[|s| - 1])
  }

  lemma {:induction false} TableSizeUpdate(s: seq<seq<StoredValue>>, b: nat, c: seq<StoredValue>)
    requires b < |s|
    ensures TableSize(s[b := c]) == TableSize(s) - ChainSize(s[b]) + ChainSize(c)
  {
    var n := |s| - 1;
    if b < n {
      assert s[b := c][..n] == s[..n][b := c];
      TableSizeUpdate(s[..n], b, c);
    } else {
      assert s[b := c][..n] == s[..n];
    }
  }

  /** Every record of bucket `b` has the table's layout and hashes to `b`. */
  ghost predicate ChainWellFormed(c: seq<StoredValue>, small: bool, b: int, size: int)
    requires 0 < size < 0x8000_0000
  {
    forall i :: 0 <= i < |c| ==> c[i].extra.Small? == small && BucketForKey(c[i].key, size) == b
  }

  /** Unlinking a record leaves a well-formed chain well formed. */
  lemma RemoveKeepsWellFormed(c: seq<StoredValue>, j: nat, small: bool, b: int, size: int)
    requires 0 < size < 0x8000_0000 && j < |c| && ChainWellFormed(c, small, b, size)
    ensures ChainWellFormed(c[..j] + c[j + 1..], small, b, size)
  {
    var r := c[..j] + c[j + 1..];
    assert forall i :: 0 <= i < |r| ==> r[i] == (if i < j then c[i] else c[i + 1]);
  }

  /** Rewriting a record in place with the same key and layout keeps the chain well formed. */
  lemma UpdateKeepsWellFormed(c: seq<StoredValue>, i: nat, w: StoredValue, small: bool, b: int, size: int)
    requires 0 < size < 0x8000_0000 && i < |c| && ChainWellFormed(c, small, b, size)
    requires w.key == c[i].key && w.extra.Small? == c[i].extra.Small?
    ensures ChainWellFormed(c[i := w], small, b, size)
  {
  }

  /** A record of the table's layout that hashes to the bucket may be linked at its head. */
  lemma PrependKeepsWellFormed(c: seq<StoredValue>, w: StoredValue, small: bool, b: int, size: int)
    requires 0 < size < 0x8000_0000 && ChainWellFormed(c, small, b, size)
    requires w.extra.Small? == small && BucketForKey(w.key, size) == b
    ensures ChainWellFormed([w] + c, small, b, size)
  {
    var r := [w] + c;
    assert forall i :: 0 < i < |r| ==> r[i] == c[i - 1];
  }

  /** Every bucket of the table is well formed. */
  ghost predicate TableWellFormed(s: seq<seq<StoredValue>>, small: bool, size: int)
    requires 0 < size < 0x8000_0000
  {
    forall b :: 0 <= b < |s| ==> ChainWellFormed(s[b], small, b, size)
  }

  // ---------------------------------------------------------------------
  // Results of the operations

  /** `mutation_type_t`. */
  datatype MutationType = InvalidVbucket | NotFound | InvalidCas | WasClean | WasDirty | Locked | NoMem

  /** `add_type_t`. */
  datatype AddType = AddSuccess | AddNoMem | AddExists | AddUndel

  /** The queue operation passed to `addUnlessThere`; only the delete operation is told apart. */
  datatype QueueOperation = SetOp | DelOp

  /** The clocks an operation reads: `ep_real_time()` for expiry, `ep_current_time()` for locks and dirtiness. */
  datatype Clocks = Clocks(realTime: int, now: RelTime)

  datatype SetOutcome = SetOutcome(rv: MutationType, chain: seq<StoredValue>, rowId: Option<int>, nonResidentDelta: int)
  datatype AddOutcome = AddOutcome(rv: AddType, chain: seq<StoredValue>)
  datatype DeleteOutcome = DeleteOutcome(rv: MutationType, chain: seq<StoredValue>, nonResidentDelta: int)
  datatype RemoveOutcome = RemoveOutcome(removed: bool, chain: seq<StoredValue>)
  datatype RestoreOutcome = RestoreOutcome(added: bool, chain: seq<StoredValue>, nonResidentDelta: int)

  /** `dirty ? WAS_DIRTY : WAS_CLEAN`. */
  function Cleanliness(v: StoredValue): MutationType
  {
    if v.isDirty then WasDirty else WasClean
  }

  // ---------------------------------------------------------------------
  // set

  /**
   * `HashTable::set` on the key's chain.  `freshCas` is the CAS that
   * `Item::setCas` would hand out; `space` is the accountant's answer to
   * `hasAvailableSpace`.
   */
  function SetInChain(c: seq<StoredValue>, itm: Item, small: bool, freshCas: uint64, space: bool, t: Clocks)
    : SetOutcome
  {
    if !space then SetOutcome(NoMem, c, None, 0)
    else
      var found := FirstIndexOf(c, itm.key);
      if found.Some? && IsExpired(c[found.value], t.realTime) && itm.cas != 0 then
        SetOutcome(NotFound, c, None, 0)
      else if found.Some? && !IsExpired(c[found.value], t.realTime) then
        var i := found.value;
        var chk := IsLocked(c[i], t.now);
        if chk.locked && itm.cas != GetCas(chk.rec) then SetOutcome(Locked, c, None, 0)
        else if !chk.locked && itm.cas != 0 && itm.cas != GetCas(chk.rec) then
          SetOutcome(InvalidCas, c[i := chk.rec], None, 0)
        else
          var v := if chk.locked then Unlock(chk.rec) else chk.rec;
          SetOutcome(Cleanliness(v),
                     c[i := SetValue(v, itm.value, itm.flags, itm.exptime, freshCas, t.now)],
                     Some(v.id),
                     if IsResident(v) then 0 else -1)
      else if itm.cas != 0 then SetOutcome(NotFound, c, None, 0)
      else
        // Absent, or expired and written without a CAS: a new record goes to
        // the head, and the result stays NOT_FOUND.
        SetOutcome(NotFound, [NewStoredValue(itm.(cas := freshCas), small, true, t.now)] + c, None, 0)
  }

  /** No room: NOMEM before anything changes. */
  lemma SetWithoutSpace(c: seq<StoredValue>, itm: Item, small: bool, freshCas: uint64, t: Clocks)
    ensures SetInChain(c, itm, small, freshCas, false, t) == SetOutcome(NoMem, c, None, 0)
  {
  }

  /** A CAS-qualified set of an expired record is NOT_FOUND and changes nothing. */
  lemma SetWithCasOnExpired(c: seq<StoredValue>, itm: Item, small: bool, freshCas: uint64, t: Clocks, i: nat)
    requires FirstIndexOf(c, itm.key) == Some(i)
    requires IsExpired(c[i], t.realTime) && itm.cas != 0
    ensures SetInChain(c, itm, small, freshCas, true, t) == SetOutcome(NotFound, c, None, 0)
  {
  }

  /** A record locked at `now` refuses any set whose CAS differs from its own, and stays as it was. */
  lemma SetOnLockedRecord(c: seq<StoredValue>, itm: Item, small: bool, freshCas: uint64, t: Clocks, i: nat)
    requires FirstIndexOf(c, itm.key) == Some(i)
    requires !IsExpired(c[i], t.realTime) && LockedAt(c[i], t.now) && itm.cas != GetCas(c[i])
    ensures SetInChain(c, itm, small, freshCas, true, t) == SetOutcome(Locked, c, None, 0)
  {
  }

  /**
   * An unlocked record refuses a nonzero CAS that differs from its own.  The
   * only change is the clearing of an expired lock flag, which no later lock
   * check can tell apart.
   */
  lemma SetWithStaleCas(c: seq<StoredValue>, itm: Item, small: bool, freshCas: uint64, t: Clocks, i: nat,
                        later: RelTime)
    requires FirstIndexOf(c, itm.key) == Some(i)
    requires !IsExpired(c[i], t.realTime) && !LockedAt(c[i], t.now)
    requires itm.cas != 0 && itm.cas != GetCas(c[i])
    requires t.now <= later
    ensures var o := SetInChain(c, itm, small, freshCas, true, t);
            o.rv == InvalidCas && o.rowId == None && |o.chain| == |c|
            && (forall j :: 0 <= j < |c| && j != i ==> o.chain[j] == c[j])
            && o.chain[i].value == c[i].value && GetCas(o.chain[i]) == GetCas(c[i])
            && LockedAt(o.chain[i], later) == LockedAt(c[i], later)
  {
    ClearedLockIsUnobservable(c[i], t.now, later);
  }

  /** A CAS-qualified set of a key that is not in the chain is NOT_FOUND and changes nothing. */
  lemma SetWithCasOnAbsent(c: seq<StoredValue>, itm: Item, small: bool, freshCas: uint64, t: Clocks)
    requires FirstIndexOf(c, itm.key).None? && itm.cas != 0
    ensures SetInChain(c, itm, small, freshCas, true, t) == SetOutcome(NotFound, c, None, 0)
  {
  }

  /**
   * A set that passes the lock and CAS checks rewrites the record in place:
   * it reports the record's prior cleanliness, installs value, flags and the
   * fresh CAS, leaves the record unlocked, and lookups find the new value.
   */
  lemma SetOverwrites(c: seq<StoredValue>, itm: Item, small: bool, freshCas: uint64, t: Clocks, i: nat)
    requires FirstIndexOf(c, itm.key) == Some(i)
    requires !IsExpired(c[i], t.realTime)
    requires LockedAt(c[i], t.now) ==> itm.cas == GetCas(c[i])
    requires !LockedAt(c[i], t.now) ==> itm.cas == 0 || itm.cas == GetCas(c[i])
    ensures var o := SetInChain(c, itm, small, freshCas, true, t);
            && (o.rv == WasDirty <==> c[i].isDirty) && (o.rv == WasClean <==> !c[i].isDirty)
            && o.rowId == Some(c[i].id)
            && |o.chain| == |c| && (forall j :: 0 <= j < |c| && j != i ==> o.chain[j] == c[j])
            && o.chain[i].value == Some(itm.value) && o.chain[i].flags == itm.flags && o.chain[i].isDirty
            && (c[i].extra.Featured? ==> GetCas(o.chain[i]) == freshCas && GetExptime(o.chain[i]) == itm.exptime)
            && !LockedAt(o.chain[i], t.now)
            && FindInChain(o.chain, itm.key, false) == Some(i)
            && o.nonResidentDelta == (if IsResident(c[i]) then 0 else -1)
  {
    var o := SetInChain(c, itm, small, freshCas, true, t);
    FirstIndexAfterUpdate(c, i, o.chain[i], itm.key);
  }

  /** Without CAS, an absent or expired key gets a new record at the head of the chain. */
  lemma SetPrepends(c: seq<StoredValue>, itm: Item, small: bool, freshCas: uint64, t: Clocks)
    requires itm.cas == 0
    requires FirstIndexOf(c, itm.key).None? || IsExpired(c[FirstIndexOf(c, itm.key).value], t.realTime)
    ensures SetInChain(c, itm, small, freshCas, true, t)
            == SetOutcome(NotFound, [NewStoredValue(itm.(cas := freshCas), small, true, t.now)] + c, None, 0)
  {
  }

  /**
   * A set without CAS of an absent or expired key puts a new dirty record at
   * the head of the chain, which lookups then find; the result is still
   * NOT_FOUND, because the source never reassigns its result on this path.
   */
  lemma SetInserts(c: seq<StoredValue>, itm: Item, small: bool, freshCas: uint64, t: Clocks)
    requires itm.cas == 0
    requires FirstIndexOf(c, itm.key).None? || IsExpired(c[FirstIndexOf(c, itm.key).value], t.realTime)
    ensures var o := SetInChain(c, itm, small, freshCas, true, t);
            && o.rv == NotFound && o.rowId == None && o.nonResidentDelta == 0
            && o.chain[1..] == c && |o.chain| == |c| + 1
            && o.chain[0].key == itm.key && o.chain[0].value == Some(itm.value) && o.chain[0].isDirty
            && (!small ==> GetCas(o.chain[0]) == freshCas)
            && FindInChain(o.chain, itm.key, false) == Some(0)
  {
  }

  /**
   * Writing an expired key without CAS leaves the expired record in the
   * chain behind the new one, so the key then occurs twice.
   */
  lemma SetOnExpiredShadowsOldRecord(c: seq<StoredValue>, itm: Item, small: bool, freshCas: uint64, t: Clocks,
                                     i: nat)
    requires FirstIndexOf(c, itm.key) == Some(i) && IsExpired(c[i], t.realTime) && itm.cas == 0
    ensures var o := SetInChain(c, itm, small, freshCas, true, t);
            HasKey(o.chain[0], itm.key) && o.chain[i + 1] == c[i] && HasKey(o.chain[i + 1], itm.key)
  {
  }

  // ---------------------------------------------------------------------
  // add

  /** `HashTable::add` with the value stored (`storeVal` true). */
  function AddInChain(c: seq<StoredValue>, itm: Item, small: bool, isDirty: bool, freshCas: uint64, space: bool,
                      t: Clocks): AddOutcome
  {
    var found := FirstIndexOf(c, itm.key);
    if found.Some? && !IsDeleted(c[found.value]) && !IsExpired(c[found.value], t.realTime) then
      AddOutcome(AddExists, c)
    else if !space then AddOutcome(AddNoMem, c)
    else if found.Some? then
      var v := c[found.value];
      var rv := if IsDeleted(v) || IsExpired(v, t.realTime) then AddUndel else AddSuccess;
      var w := SetValue(v, itm.value, itm.flags, itm.exptime, freshCas, t.now);
      AddOutcome(rv, c[found.value := if isDirty then MarkDirty(w, t.now) else MarkClean(w)])
    else
      AddOutcome(AddSuccess, [NewStoredValue(itm.(cas := freshCas), small, isDirty, t.now)] + c)
  }

  /** A live, unexpired record makes `add` report ADD_EXISTS and change nothing. */
  lemma AddOnLiveRecord(c: seq<StoredValue>, itm: Item, small: bool, isDirty: bool, freshCas: uint64,
                        space: bool, t: Clocks, i: nat)
    requires FirstIndexOf(c, itm.key) == Some(i) && !IsDeleted(c[i]) && !IsExpired(c[i], t.realTime)
    ensures AddInChain(c, itm, small, isDirty, freshCas, space, t) == AddOutcome(AddExists, c)
  {
  }

  /** Otherwise lack of room is ADD_NOMEM with nothing changed. */
  lemma AddWithoutSpace(c: seq<StoredValue>, itm: Item, small: bool, isDirty: bool, freshCas: uint64, t: Clocks)
    requires FindInChain(c, itm.key, false).None? || IsExpired(c[FirstIndexOf(c, itm.key).value], t.realTime)
    ensures AddInChain(c, itm, small, isDirty, freshCas, false, t) == AddOutcome(AddNoMem, c)
  {
  }

  /**
   * Adding over a tombstone or an expired record reuses that record in
   * place and always reports ADD_UNDEL, never ADD_SUCCESS; lookups then
   * find the new live value.
   */
  lemma AddRevives(c: seq<StoredValue>, itm: Item, small: bool, isDirty: bool, freshCas: uint64, t: Clocks, i: nat)
    requires FirstIndexOf(c, itm.key) == Some(i) && (IsDeleted(c[i]) || IsExpired(c[i], t.realTime))
    ensures var o := AddInChain(c, itm, small, isDirty, freshCas, true, t);
            && o.rv == AddUndel && |o.chain| == |c|
            && (forall j :: 0 <= j < |c| && j != i ==> o.chain[j] == c[j])
            && o.chain[i].value == Some(itm.value) && o.chain[i].isDirty == isDirty
            && (c[i].extra.Featured? ==> GetCas(o.chain[i]) == freshCas)
            && FindInChain(o.chain, itm.key, false) == Some(i)
  {
    var o := AddInChain(c, itm, small, isDirty, freshCas, true, t);
    FirstIndexAfterUpdate(c, i, o.chain[i], itm.key);
  }

  /** Adding an absent key prepends a fresh record with the fresh CAS and reports ADD_SUCCESS. */
  lemma AddFresh(c: seq<StoredValue>, itm: Item, small: bool, isDirty: bool, freshCas: uint64, t: Clocks)
    requires FirstIndexOf(c, itm.key).None?
    ensures var o := AddInChain(c, itm, small, isDirty, freshCas, true, t);
            && o.rv == AddSuccess && o.chain[1..] == c && |o.chain| == |c| + 1
            && o.chain[0].value == Some(itm.value) && o.chain[0].isDirty == isDirty
            && (!small ==> GetCas(o.chain[0]) == freshCas)
            && FindInChain(o.chain, itm.key, false) == Some(0)
  {
  }

  // ---------------------------------------------------------------------
  // softDelete

  /** `unlocked_softDelete`: logical deletion in place; the node stays in the chain. */
  function SoftDeleteInChain(c: seq<StoredValue>, key: seq<byte>, cas: uint64, t: Clocks): DeleteOutcome
  {
    match FindInChain(c, key, false)
    case None => DeleteOutcome(NotFound, c, 0)
    case Some(i) =>
      if IsExpired(c[i], t.realTime) then DeleteOutcome(NotFound, c[i := Del(c[i], t.now)], 0)
      else
        var chk := IsLocked(c[i], t.now);
        if chk.locked then DeleteOutcome(Locked, c, 0)
        else if cas != 0 && cas != GetCas(chk.rec) then DeleteOutcome(NotFound, c[i := chk.rec], 0)
        else
          DeleteOutcome(Cleanliness(chk.rec), c[i := Del(Unlock(chk.rec), t.now)],
                        if IsResident(chk.rec) then 0 else -1)
  }

  /** Absent key, or a tombstone first in the chain: NOT_FOUND, nothing changed. */
  lemma SoftDeleteAbsent(c: seq<StoredValue>, key: seq<byte>, cas: uint64, t: Clocks)
    requires FindInChain(c, key, false).None?
    ensures SoftDeleteInChain(c, key, cas, t) == DeleteOutcome(NotFound, c, 0)
  {
  }

  /** An expired record is deleted whatever CAS was given, and the result is NOT_FOUND. */
  lemma SoftDeleteExpired(c: seq<StoredValue>, key: seq<byte>, cas: uint64, t: Clocks, i: nat)
    requires FindInChain(c, key, false) == Some(i) && IsExpired(c[i], t.realTime)
    ensures var o := SoftDeleteInChain(c, key, cas, t);
            o.rv == NotFound && o.chain == c[i := Del(c[i], t.now)] && IsDeleted(o.chain[i])
  {
  }

  /** A record locked at `now` is not deleted. */
  lemma SoftDeleteLocked(c: seq<StoredValue>, key: seq<byte>, cas: uint64, t: Clocks, i: nat)
    requires FindInChain(c, key, false) == Some(i) && !IsExpired(c[i], t.realTime) && LockedAt(c[i], t.now)
    ensures SoftDeleteInChain(c, key, cas, t) == DeleteOutcome(Locked, c, 0)
  {
  }

  /** A mismatched nonzero CAS is reported as NOT_FOUND (not INVALID_CAS) and the value is kept. */
  lemma SoftDeleteStaleCas(c: seq<StoredValue>, key: seq<byte>, cas: uint64, t: Clocks, i: nat)
    requires FindInChain(c, key, false) == Some(i) && !IsExpired(c[i], t.realTime) && !LockedAt(c[i], t.now)
    requires cas != 0 && cas != GetCas(c[i])
    ensures var o := SoftDeleteInChain(c, key, cas, t);
            o.rv == NotFound && o.chain == c[i := IsLocked(c[i], t.now).rec] && !IsDeleted(o.chain[i])
  {
  }

  /**
   * A successful soft delete reports the record's prior cleanliness, leaves
   * it deleted, dirty and unlocked in its place, and hides the key from
   * lookups that do not ask for tombstones.
   */
  lemma SoftDeleteSucceeds(c: seq<StoredValue>, key: seq<byte>, cas: uint64, t: Clocks, i: nat)
    requires FindInChain(c, key, false) == Some(i) && !IsExpired(c[i], t.realTime) && !LockedAt(c[i], t.now)
    requires cas == 0 || cas == GetCas(c[i])
    ensures var o := SoftDeleteInChain(c, key, cas, t);
            && (o.rv == WasDirty <==> c[i].isDirty) && (o.rv == WasClean <==> !c[i].isDirty)
            && |o.chain| == |c| && (forall j :: 0 <= j < |c| && j != i ==> o.chain[j] == c[j])
            && IsDeleted(o.chain[i]) && o.chain[i].isDirty && !LockedAt(o.chain[i], t.now)
            && (c[i].extra.Featured? ==> GetCas(o.chain[i]) == (GetCas(c[i]) + 1) % 0x1_0000_0000_0000_0000)
            && FindInChain(o.chain, key, false).None?
            && FindInChain(o.chain, key, true) == Some(i)
  {
    var chk := IsLocked(c[i], t.now);
    var d := Del(Unlock(chk.rec), t.now);
    var o := SoftDeleteInChain(c, key, cas, t);
    assert o.chain == c[i := d] && o.rv == Cleanliness(chk.rec);
    TombstoneHidesKey(c, i, d, key);
  }

  /** A tombstone written over the record `find` returns hides the key from every later `find` but a deleted-wanting one. */
  lemma TombstoneHidesKey(c: seq<StoredValue>, i: nat, d: StoredValue, key: seq<byte>)
    requires FindInChain(c, key, false) == Some(i) && d.key == c[i].key && IsDeleted(d)
    ensures FindInChain(c[i := d], key, false).None?
    ensures FindInChain(c[i := d], key, true) == Some(i)
  {
    FirstIndexAfterUpdate(c, i, d, key);
  }

  /** A key soft-deleted by a successful `softDelete` is revived by `add`, which reports ADD_UNDEL. */
  lemma SoftDeleteThenAddUndeletes(c: seq<StoredValue>, itm: Item, cas: uint64, small: bool, isDirty: bool,
                                   freshCas: uint64, t: Clocks)
    requires SoftDeleteInChain(c, itm.key, cas, t).rv in {WasClean, WasDirty}
    ensures AddInChain(SoftDeleteInChain(c, itm.key, cas, t).chain, itm, small, isDirty, freshCas, true, t).rv
            == AddUndel
  {
    var i := FindInChain(c, itm.key, false).value;
    var o := SoftDeleteInChain(c, itm.key, cas, t);
    FirstIndexAfterUpdate(c, i, o.chain[i], itm.key);
  }

  // ---------------------------------------------------------------------
  // unlocked_del

  /**
   * `unlocked_del`: physically unlink the first record with the key.  At the
   * head the source refuses a live locked record; further down it tests
   * whether the PREDECESSOR is deleted before looking at the victim's lock.
   */
  function DelInChain(c: seq<StoredValue>, key: seq<byte>, now: RelTime): RemoveOutcome
  {
    match FirstIndexOf(c, key)
    case None => RemoveOutcome(false, c)
    case Some(j) =>
      var guard := if j == 0 then c[0] else c[j - 1];
      if !IsDeleted(guard) && LockedAt(c[j], now) then RemoveOutcome(false, c)
      else RemoveOutcome(true, c[..j] + c[j + 1..])
  }

  /** No record has the key: nothing is removed. */
  lemma DelAbsent(c: seq<StoredValue>, key: seq<byte>, now: RelTime)
    requires forall i :: 0 <= i < |c| ==> !HasKey(c[i], key)
    ensures DelInChain(c, key, now) == RemoveOutcome(false, c)
  {
  }

  /** Record j is the first with the key: its guard decides between removing it and refusing. */
  lemma DelAt(c: seq<StoredValue>, key: seq<byte>, now: RelTime, j: nat)
    requires j < |c| && HasKey(c[j], key)
    requires forall i :: 0 <= i < j ==> !HasKey(c[i], key)
    ensures var guard := if j == 0 then c[0] else c[j - 1];
            DelInChain(c, key, now)
            == if !IsDeleted(guard) && LockedAt(c[j], now) then RemoveOutcome(false, c)
               else RemoveOutcome(true, c[..j] + c[j + 1..])
  {
    FirstIndexIsUnique(c, key, j);
  }

  /**
   * Removal takes out exactly the first record with the key and keeps the
   * rest of the chain in order; a refusal changes nothing.
   */
  lemma DelRemovesFirstMatch(c: seq<StoredValue>, key: seq<byte>, now: RelTime)
    ensures var o := DelInChain(c, key, now);
            && (o.removed ==>
                  (FirstIndexOf(c, key).Some?
                   && o.chain == c[..FirstIndexOf(c, key).value] + c[FirstIndexOf(c, key).value + 1..]
                   && |o.chain| == |c| - 1))
            && (!o.removed ==> o.chain == c)
            && (FirstIndexOf(c, key).None? ==> !o.removed)
  {
  }

  /** A live record at the head that is locked at `now` is not removed. */
  lemma DelRefusesLockedHead(c: seq<StoredValue>, key: seq<byte>, now: RelTime)
    requires |c| > 0 && HasKey(c[0], key) && !IsDeleted(c[0]) && LockedAt(c[0], now)
    ensures DelInChain(c, key, now) == RemoveOutcome(false, c)
  {
  }

  /**
   * Below the head the guard reads the predecessor: behind a tombstone, a
   * live record locked at `now` is removed all the same.
   */
  lemma DelBehindTombstoneIgnoresLock(c: seq<StoredValue>, key: seq<byte>, now: RelTime, j: nat)
    requires FirstIndexOf(c, key) == Some(j) && j > 0
    requires IsDeleted(c[j - 1]) && !IsDeleted(c[j]) && LockedAt(c[j], now)
    ensures DelInChain(c, key, now).removed
  {
  }

  // ---------------------------------------------------------------------
  // addUnlessThere

  /**
   * `addUnlessThere` (restore from backup): only a key with no record at all,
   * not even a tombstone, is added, as a new dirty record with no row id;
   * for a delete operation it is then soft-deleted with the given CAS.
   */
  function AddUnlessThereInChain(c: seq<StoredValue>, key: Key, op: QueueOperation, value: Blob, flags: uint32,
                                 exptime: int, cas: uint64, small: bool, t: Clocks): RestoreOutcome
  {
    if FindInChain(c, key, true).Some? then RestoreOutcome(false, c, 0)
    else
      var c1 := [NewStoredValue(Item(key, flags, exptime, value, cas, NoId), small, true, t.now)] + c;
      if op == DelOp then
        var d := SoftDeleteInChain(c1, key, cas, t);
        RestoreOutcome(true, d.chain, d.nonResidentDelta)
      else RestoreOutcome(true, c1, 0)
  }

  /**
   * A restored delete leaves a tombstone at the head, except on the small
   * layout with a nonzero CAS: there the record reports CAS 0, the soft
   * delete sees a mismatch, and the restored record stays live.
   */
  lemma RestoredDeleteIsTombstone(c: seq<StoredValue>, key: Key, value: Blob, flags: uint32, exptime: int,
                                  cas: uint64, small: bool, t: Clocks)
    requires FirstIndexOf(c, key).None?
    ensures var o := AddUnlessThereInChain(c, key, DelOp, value, flags, exptime, cas, small, t);
            && o.added && |o.chain| == |c| + 1 && o.chain[1..] == c && HasKey(o.chain[0], key)
            && (IsDeleted(o.chain[0]) <==> !small || cas == 0)
            && o.nonResidentDelta == 0
  {
    var c1 := [NewStoredValue(Item(key, flags, exptime, value, cas, NoId), small, true, t.now)] + c;
    FirstIndexIsUnique(c1, key, 0);
  }

  /** A key already present in any state is left alone. */
  lemma AddUnlessThereKeepsPresent(c: seq<StoredValue>, key: Key, op: QueueOperation, value: Blob, flags: uint32,
                                   exptime: int, cas: uint64, small: bool, t: Clocks)
    requires FirstIndexOf(c, key).Some?
    ensures AddUnlessThereInChain(c, key, op, value, flags, exptime, cas, small, t) == RestoreOutcome(false, c, 0)
  {
  }
}
