/**
 * The in-memory record of one key (`StoredValue` in stored-value.hh) and the
 * factory that builds it from an `Item`.
 *
 * A record has one of two metadata layouts, fixed when it is built: the
 * "small" layout keeps only the key, and the "featured" layout adds a CAS,
 * an expiry time, a lock with its own expiry and a resident flag.  The
 * source mutates a record in place through `StoredValue*`; here each mutator is
 * a function from the old record to the new one.
 */
module StoredValues {
  import opened Types

  /** Keys are at most 255 bytes: the record stores their length in one byte. */
  type Key = k: seq<byte> | |k| < 256

  /** The bytes behind a value handle. */
  type Blob = seq<byte>

  /** The coarsened dirty timestamp: 30 bits holding a clock value shifted right by 2. */
  type Dirtiness = x: int | 0 <= x < 0x4000_0000

  /** The two metadata layouts (the union `stored_value_bodies`). */
  datatype Extra =
    | Small
    | Featured(cas: uint64, exptime: int, lockExpiry: RelTime, locked: bool, resident: bool)

  /** The row id meaning "no id" (after `clearId`). */
  const NoId := -1
  /** The row id meaning "submitted to the backend, id not yet assigned". */
  const PendingId := -2

  /**
   * One record.  `value == None` is the null value handle of a logically
   * deleted record.  The chain link `next` is the record's position in its
   * bucket's sequence.
   */
  datatype StoredValue = StoredValue(
    key: Key,
    value: Option<Blob>,
    id: int,
    dirtiness: Dirtiness,
    isDirty: bool,
    flags: uint32,
    replicas: uint8,
    extra: Extra)

  /** What a client hands to the table: the source's `Item`. */
  datatype Item = Item(key: Key, flags: uint32, exptime: int, value: Blob, cas: uint64, id: int)

  /** The table-wide choice of layout (`stored_value_type`). */
  datatype StoredValueType = SmallType | FeaturedType

  // ---------------------------------------------------------------------
  // Dirtiness

  /** Time of dirtiness as reported by `getDataAge`: the shifted clock shifted back. */
  function DataAge(v: StoredValue): RelTime
  {
    v.dirtiness * 4
  }

  /** `markDirty`: stamp the record dirty as of the current clock. */
  function MarkDirty(v: StoredValue, now: RelTime): (r: StoredValue)
    ensures r.isDirty
    ensures DataAge(r) <= now < DataAge(r) + 4
    ensures r.(dirtiness := v.dirtiness, isDirty := v.isDirty) == v
  {
    v.(dirtiness := now / 4, isDirty := true)
  }

  /** `reDirty`: dirty again as of an earlier data age, leaving any pending-id state. */
  function ReDirty(v: StoredValue, dataAge: RelTime): (r: StoredValue)
    ensures r.isDirty
    ensures DataAge(r) <= dataAge < DataAge(r) + 4
    ensures r.id == (if v.id == PendingId then NoId else v.id)
    ensures r.(dirtiness := v.dirtiness, isDirty := v.isDirty, id := v.id) == v
  {
    ClearPendingId(v.(dirtiness := dataAge / 4, isDirty := true))
  }

  /** `markClean`: the record becomes clean; its data age (the out-parameter) is kept. */
  function MarkClean(v: StoredValue): (r: StoredValue)
    ensures !r.isDirty
    ensures DataAge(r) == DataAge(v)
    ensures r.(isDirty := v.isDirty) == v
  {
    v.(isDirty := false)
  }

  // ---------------------------------------------------------------------
  // Layout-dependent accessors

  function GetExptime(v: StoredValue): int
  {
    if v.extra.Small? then 0 else v.extra.exptime
  }

  /** `isExpired`: true when an expiry is set and lies strictly before `asOf`. */
  predicate IsExpired(v: StoredValue, asOf: int)
  {
    GetExptime(v) != 0 && GetExptime(v) < asOf
  }

  /** `setExptime`: a no-op on the small layout; otherwise sets the expiry and marks dirty. */
  function SetExptime(v: StoredValue, tim: int, now: RelTime): (r: StoredValue)
    ensures v.extra.Small? ==> r == v
    ensures v.extra.Featured? ==> GetExptime(r) == tim && r.isDirty && r.extra.Featured?
    ensures v.extra.Featured? ==> DataAge(r) <= now < DataAge(r) + 4
    ensures v.extra.Featured? ==> r.extra.(exptime := v.extra.exptime) == v.extra
    ensures r.(dirtiness := v.dirtiness, isDirty := v.isDirty, extra := v.extra) == v
  {
    if v.extra.Small? then v else MarkDirty(v.(extra := v.extra.(exptime := tim)), now)
  }

  function GetCas(v: StoredValue): uint64
  {
    if v.extra.Small? then 0 else v.extra.cas
  }

  /** `setCas`: a no-op on the small layout. */
  function SetCas(v: StoredValue, c: uint64): (r: StoredValue)
    ensures v.extra.Small? ==> r == v
    ensures v.extra.Featured? ==> GetCas(r) == c && r.extra.Featured?
    ensures r.key == v.key && r.value == v.value && r.id == v.id && r.isDirty == v.isDirty
    ensures v.extra.Featured? ==> r.extra.(cas := v.extra.cas) == v.extra
    ensures r.(extra := v.extra) == v
  {
    if v.extra.Small? then v else v.(extra := v.extra.(cas := c))
  }

  /** `lock(expiry)`: a no-op on the small layout. */
  function Lock(v: StoredValue, expiry: RelTime): (r: StoredValue)
    ensures v.extra.Small? ==> r == v
    ensures v.extra.Featured? ==> r.extra.Featured? && r.extra.locked && r.extra.lockExpiry == expiry
    ensures v.extra.Featured? ==> r.extra.(locked := v.extra.locked, lockExpiry := v.extra.lockExpiry) == v.extra
    ensures r.(extra := v.extra) == v
  {
    if v.extra.Small? then v else v.(extra := v.extra.(locked := true, lockExpiry := expiry))
  }

  /** `unlock()`: a no-op on the small layout. */
  function Unlock(v: StoredValue): (r: StoredValue)
    ensures v.extra.Small? ==> r == v
    ensures v.extra.Featured? ==> r.extra.Featured? && !r.extra.locked && r.extra.lockExpiry == 0
    ensures v.extra.Featured? ==> r.extra.(locked := v.extra.locked, lockExpiry := v.extra.lockExpiry) == v.extra
    ensures r.(extra := v.extra) == v
  {
    if v.extra.Small? then v else v.(extra := v.extra.(locked := false, lockExpiry := 0))
  }

  /** Whether the lock holds at `curtime`, with no side effect. */
  predicate LockedAt(v: StoredValue, curtime: RelTime)
  {
    v.extra.Featured? && v.extra.locked && curtime <= v.extra.lockExpiry
  }

  /** The answer of `isLocked` together with the record it leaves behind. */
  datatype LockCheck = LockCheck(locked: bool, rec: StoredValue)

  /**
   * `isLocked(curtime)`: an expired lock is reported as not held and its
   * flag is cleared as a side effect; otherwise the record is unchanged.
   */
  function IsLocked(v: StoredValue, curtime: RelTime): (r: LockCheck)
    ensures r.locked == LockedAt(v, curtime)
    ensures r.locked ==> r.rec == v
    ensures r.rec.(extra := v.extra) == v && r.rec.extra.Small? == v.extra.Small?
    ensures v.extra.Featured? && v.extra.locked && curtime > v.extra.lockExpiry ==>
              !r.rec.extra.locked && r.rec.extra == v.extra.(locked := false)
    ensures !(v.extra.Featured? && v.extra.locked && curtime > v.extra.lockExpiry) ==> r.rec == v
  {
    if v.extra.Small? then LockCheck(false, v)
    else if v.extra.locked && curtime > v.extra.lockExpiry then
      LockCheck(false, v.(extra := v.extra.(locked := false)))
    else LockCheck(v.extra.locked, v)
  }

  /** `isResident`: always true on the small layout. */
  predicate IsResident(v: StoredValue)
  {
    v.extra.Small? || v.extra.resident
  }

  /** `isDeleted`: the value handle is null. */
  predicate IsDeleted(v: StoredValue)
  {
    v.value.None?
  }

  /** `hasKey`: same length and same bytes. */
  predicate HasKey(v: StoredValue, k: seq<byte>)
  {
    |k| == |v.key| && k == v.key
  }

  /** `incrementNumReplicas`: the 8-bit counter wraps around. */
  function IncrementNumReplicas(v: StoredValue, count: uint8): (r: StoredValue)
    ensures r.replicas == (v.replicas + count) % 0x100
    ensures r.(replicas := v.replicas) == v
  {
    v.(replicas := (v.replicas + count) % 0x100)
  }

  // ---------------------------------------------------------------------
  // Row ids

  /** `hasId`: only a strictly positive id counts; 0 is "no id" too. */
  predicate HasId(v: StoredValue)
  {
    v.id > 0
  }

  predicate IsPendingId(v: StoredValue)
  {
    v.id == PendingId
  }

  /** `setId`: the asserts demand no id before and an id after. */
  function SetId(v: StoredValue, to: int): (r: StoredValue)
    requires !HasId(v) && to > 0
    ensures HasId(r) && r.id == to
    ensures r.(id := v.id) == v
  {
    v.(id := to)
  }

  /** `clearId` (after the row was deleted on disk). */
  function ClearId(v: StoredValue): (r: StoredValue)
    ensures !HasId(r) && !IsPendingId(r) && r.id == NoId
    ensures r.(id := v.id) == v
  {
    v.(id := NoId)
  }

  /** `setPendingId`: submitted to the backend, waiting for an id. */
  function SetPendingId(v: StoredValue): (r: StoredValue)
    requires !HasId(v) && !IsPendingId(v)
    ensures IsPendingId(r) && !HasId(r)
    ensures r.(id := v.id) == v
  {
    v.(id := PendingId)
  }

  /** `clearPendingId`: only the pending state -2 is turned into -1. */
  function ClearPendingId(v: StoredValue): (r: StoredValue)
    ensures !IsPendingId(r)
    ensures r.id == (if v.id == PendingId then NoId else v.id)
    ensures r.(id := v.id) == v
  {
    if IsPendingId(v) then v.(id := NoId) else v
  }

  // ---------------------------------------------------------------------
  // Sizes (memory accounting)

  /** `sizeof(void*)` on the LP64 targets the engine is built for. */
  const WordSize := 8
  /** `sizeof(value_t)`: the reference-counted value handle. */
  const ValueHandleSize := 16
  /** `StoredValue::sizeOf(true)`: the fixed part of a small record. */
  const SmallHeaderSize := 49
  /** `StoredValue::sizeOf(false)`: the fixed part of a featured record. */
  const FeaturedHeaderSize := 71

  function HeaderSize(small: bool): nat
  {
    if small then SmallHeaderSize else FeaturedHeaderSize
  }

  /** `min(sizeof(void*), sizeof(void*) - n % sizeof(void*))`: always 1 to 8 bytes. */
  function Pad(n: nat): (p: nat)
    ensures 1 <= p <= WordSize
    ensures (n + p) % WordSize == 0
  {
    var d := WordSize - n % WordSize;
    if d < WordSize then d else WordSize
  }

  /** The bytes of value the record keeps in memory (0 once deleted). */
  function ResidentLength(v: StoredValue): nat
  {
    if v.value.None? then 0 else |v.value.value|
  }

  /** `size()`: every byte the memory accountant is charged for this record. */
  function Size(v: StoredValue): nat
  {
    HeaderSize(v.extra.Small?) + |v.key| + ResidentLength(v) + ValueHandleSize
      + Pad(ResidentLength(v)) + Pad(|v.key|)
  }

  /** Little-endian reading of the 4-byte placeholder left by an ejected value. */
  function DecodeLength(b: seq<byte>): nat
    requires |b| == 4
  {
    (b[0] as int) + 0x100 * (b[1] as int) + 0x1_0000 * (b[2] as int) + 0x100_0000 * (b[3] as int)
  }

  /**
   * `valLength`: 0 once deleted, the value's length while resident, and the
   * length recorded in the 4-byte placeholder after ejection (the source
   * asserts that the placeholder is 4 bytes long).
   */
  function ValLength(v: StoredValue): nat
    requires v.value.Some? && !IsResident(v) ==> |v.value.value| == 4
  {
    if IsDeleted(v) then 0
    else if IsResident(v) then |v.value.value|
    else DecodeLength(v.value.value)
  }

  // ---------------------------------------------------------------------
  // Value updates

  /**
   * `setValue`: install a new value, make the record resident, set flags
   * (and on the featured layout CAS and expiry), mark it dirty and reset the
   * replica counter.  Key, row id and lock state are untouched.
   */
  function SetValue(v: StoredValue, val: Blob, newFlags: uint32, newExp: int, theCas: uint64, now: RelTime)
    : (r: StoredValue)
    ensures !IsDeleted(r) && r.value == Some(val) && IsResident(r)
    ensures r.isDirty && r.replicas == 0 && r.flags == newFlags
    ensures DataAge(r) <= now < DataAge(r) + 4
    ensures r.key == v.key && r.id == v.id && r.extra.Small? == v.extra.Small?
    ensures v.extra.Featured? ==> GetCas(r) == theCas && GetExptime(r) == newExp
                                  && r.extra.locked == v.extra.locked
                                  && r.extra.lockExpiry == v.extra.lockExpiry
    ensures ValLength(r) == |val|
  {
    var extra := if v.extra.Small? then Small
                 else v.extra.(resident := true, cas := theCas, exptime := newExp);
    MarkDirty(v.(value := Some(val), flags := newFlags, extra := extra), now).(replicas := 0)
  }

  /**
   * `del`: drop the value handle, mark dirty and bump the CAS by one (the
   * 64-bit CAS wraps; the small layout has no CAS to bump).
   */
  function Del(v: StoredValue, now: RelTime): (r: StoredValue)
    ensures IsDeleted(r) && r.isDirty && ValLength(r) == 0
    ensures DataAge(r) <= now < DataAge(r) + 4
    ensures v.extra.Featured? ==> GetCas(r) == (GetCas(v) + 1) % 0x1_0000_0000_0000_0000
    ensures r.key == v.key && r.id == v.id && r.flags == v.flags && r.replicas == v.replicas
    ensures r.extra.Small? == v.extra.Small?
    ensures v.extra.Featured? ==> r.extra.(cas := v.extra.cas) == v.extra
    ensures Size(r) <= Size(v)
  {
    var r := SetCas(MarkDirty(v.(value := None), now), (GetCas(v) + 1) % 0x1_0000_0000_0000_0000);
    DeletedIsSmaller(v, r);
    r
  }

  /** A deleted record is charged no more than the record it came from. */
  lemma DeletedIsSmaller(v: StoredValue, r: StoredValue)
    requires r.value.None? && r.key == v.key && r.extra.Small? == v.extra.Small?
    ensures Size(r) <= Size(v)
  {
    var n := ResidentLength(v);
    if n > 0 {
      assert n + Pad(n) >= WordSize by {
        assert (n + Pad(n)) % WordSize == 0;
      }
    }
  }

  // ---------------------------------------------------------------------
  // The factory

  /**
   * `StoredValueFactory::operator()`: a fresh record for `itm`, live and
   * resident, unlocked, with no replicas; dirty or clean as requested
   * (a clean record keeps dirtiness 0).
   */
  function NewStoredValue(itm: Item, small: bool, setDirty: bool, now: RelTime): (r: StoredValue)
    ensures r.key == itm.key && r.value == Some(itm.value) && r.id == itm.id && r.flags == itm.flags
    ensures r.replicas == 0 && r.extra.Small? == small && r.isDirty == setDirty
    ensures !IsDeleted(r) && IsResident(r)
    ensures forall t :: !LockedAt(r, t)
    ensures !small ==> GetCas(r) == itm.cas && GetExptime(r) == itm.exptime
    ensures setDirty ==> DataAge(r) <= now < DataAge(r) + 4
  {
    var extra := if small then Small else Featured(itm.cas, itm.exptime, 0, false, true);
    var v := StoredValue(itm.key, Some(itm.value), itm.id, 0, false, itm.flags, 0, extra);
    if setDirty then MarkDirty(v, now) else MarkClean(v)
  }

  /** The factory object: builds records of the table-wide layout, through `newStoredValue`. */
  function Make(t: StoredValueType, itm: Item, setDirty: bool, now: RelTime): (r: StoredValue)
    ensures r.extra.Small? <==> t == SmallType
    ensures r == NewStoredValue(itm, t == SmallType, setDirty, now)
  {
    NewStoredValue(itm, t == SmallType, setDirty, now)
  }

  // ---------------------------------------------------------------------
  // Properties of the record

  /** On the small layout every featured accessor answers its default and every featured mutator is a no-op. */
  lemma SmallLayoutIsInert(v: StoredValue, t: RelTime, asOf: int, c: uint64, e: RelTime, tim: int)
    requires v.extra.Small?
    ensures GetCas(v) == 0 && GetExptime(v) == 0 && !IsExpired(v, asOf)
    ensures SetCas(v, c) == v && SetExptime(v, tim, t) == v && Lock(v, e) == v && Unlock(v) == v
    ensures IsLocked(v, t) == LockCheck(false, v) && IsResident(v)
  {
  }

  /** A lock taken until `e` is reported held at every time up to `e`. */
  lemma LockHeldUntilExpiry(v: StoredValue, e: RelTime, t: RelTime)
    requires v.extra.Featured? && t <= e
    ensures IsLocked(Lock(v, e), t).locked
    ensures IsLocked(Lock(v, e), t).rec == Lock(v, e)
  {
  }

  /**
   * Clearing an expired lock inside `isLocked` is invisible to every later
   * check: at any time not earlier than the check, the cleared record and
   * the original are locked alike.
   */
  lemma ClearedLockIsUnobservable(v: StoredValue, t: RelTime, later: RelTime)
    requires t <= later
    ensures LockedAt(IsLocked(v, t).rec, later) == LockedAt(v, later)
  {
  }

  /** `isExpired` in terms of the featured expiry field: a record expires only if it has an expiry. */
  lemma ExpiredMeansFeaturedExpiry(v: StoredValue, asOf: int)
    ensures IsExpired(v, asOf) <==> v.extra.Featured? && v.extra.exptime != 0 && v.extra.exptime < asOf
  {
  }

  /** The row-id life cycle: none, pending, assigned, and cleared back to none. */
  lemma RowIdLifecycle(v: StoredValue, to: int)
    requires v.id == NoId && to > 0
    ensures IsPendingId(SetPendingId(v))
    ensures ClearPendingId(SetPendingId(v)).id == NoId
    ensures HasId(SetId(SetPendingId(v), to))
    ensures ClearPendingId(SetId(SetPendingId(v), to)) == SetId(SetPendingId(v), to)
    ensures ClearId(SetId(SetPendingId(v), to)).id == NoId
    ensures ReDirty(SetPendingId(v), 0).id == NoId
  {
  }
}
