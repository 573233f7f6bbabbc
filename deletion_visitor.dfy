/**
 * `VBucketDeletionVisitor` (ep.hh): visiting a vbucket's records collects
 * their row ids into an ordered set; `createRangeList` then cuts that set
 * into runs of `chunk_size` consecutive ids and adds each run, as the range
 * from its first to its last id, to a `VBDeletionChunkRangeList`.
 */
module DeletionVisitors {
  import opened StoredValues
  import opened ChunkRanges

  /** A `std::set<int64_t>` in iteration order: each id is below the next. */
  ghost predicate StrictlySorted(s: seq<int>)
  {
    forall i, j :: 0 <= i && j == i + 1 && j < |s| ==> s[i] < s[j]
  }

  /** `std::set::insert`: add x in its place, unless already present. */
  function Insert(s: seq<int>, x: int): (r: seq<int>)
    requires StrictlySorted(s)
    ensures StrictlySorted(r)
    ensures forall y :: y in r <==> y in s || y == x
    ensures |r| == if x in s then |s| else |s| + 1
    ensures r[0] == if s != [] && s[0] < x then s[0] else x
  {
    if s == [] then [x]
    else if x < s[0] then SortedHead(s); ConsSorted(x, s); [x] + s
    else if x == s[0] then s
    else
      SortedSuffix(s, 1);
      var tail := Insert(s[1..], x);
      assert x in s <==> x in s[1..];
      assert s[1..] != [] ==> s[1..][0] == s[1];
      ConsSorted(s[0], tail);
      [s[0]] + tail
  }

  /** The first of sorted ids is the least. */
  lemma SortedHead(s: seq<int>)
    requires StrictlySorted(s) && s != []
    ensures forall y :: y in s ==> s[0] <= y
  {
    forall y | y in s
      ensures s[0] <= y
    {
      var i :| 0 <= i < |s| && s[i] == y;
      SortedPair(s, 0, i);
    }
  }

  /** An id below the first of sorted ids keeps them sorted when put in front. */
  lemma ConsSorted(h: int, t: seq<int>)
    requires StrictlySorted(t) && (t != [] ==> h < t[0])
    ensures StrictlySorted([h] + t)
  {
    var r := [h] + t;
    forall i, j | 0 <= i && j == i + 1 && j < |r|
      ensures r[i] < r[j]
    {
      if i > 0 {
        assert r[i] == t[i - 1] && r[j] == t[j - 1];
      }
    }
  }

  /**
   * The chunks `createRangeList` emits for sorted ids: runs of k ids, the
   * last possibly shorter; a chunk size of 0 is never reached by the
   * counter, so all ids form one chunk.
   */
  function Chunks(ids: seq<int>, k: nat): seq<ChunkRange>
    decreases |ids|
  {
    if ids == [] then []
    else if 0 < k < |ids| then [ChunkRange(ids[0], ids[k - 1])] + Chunks(ids[k..], k)
    else [ChunkRange(ids[0], ids[|ids| - 1])]
  }

  /** `add` applied to each range in turn. */
  function AddAll(rs: seq<ChunkRange>, cs: seq<ChunkRange>): seq<ChunkRange>
  {
    if cs == [] then rs else Added(AddAll(rs, cs[..|cs| - 1]), cs[|cs| - 1])
  }

  /** m ids make a whole number of chunks of size k (0 always does). */
  ghost predicate OnBoundary(m: nat, k: nat)
    decreases m
  {
    m == 0 || (0 < k <= m && OnBoundary(m - k, k))
  }

  lemma MulShift(j: nat, k: nat)
    ensures j * k + k == (j + 1) * k
  {
  }

  /**
   * For a positive chunk size there are ceil(n/k) chunks: the fewest whose
   * k ids each reach n.
   */
  lemma {:induction false} ChunkCount(ids: seq<int>, k: nat)
    requires k > 0
    ensures ids == [] <==> Chunks(ids, k) == []
    ensures ids != [] ==> (|Chunks(ids, k)| - 1) * k < |ids| <= |Chunks(ids, k)| * k
    decreases |ids|
  {
    if k < |ids| {
      var tail := Chunks(ids[k..], k);
      ChunkCount(ids[k..], k);
      MulShift(|tail|, k);
    }
  }

  /** With chunk size 0 the ids, if any, form a single chunk. */
  lemma ZeroChunkSizeIsOneChunk(ids: seq<int>)
    requires ids != []
    ensures Chunks(ids, 0) == [ChunkRange(ids[0], ids[|ids| - 1])]
  {
  }

  lemma SortedSuffix(ids: seq<int>, k: nat)
    requires StrictlySorted(ids) && k <= |ids|
    ensures StrictlySorted(ids[k..])
  {
    var rest := ids[k..];
    forall i, j | 0 <= i && j == i + 1 && j < |rest|
      ensures rest[i] < rest[j]
    {
      assert rest[i] == ids[k + i] && rest[j] == ids[k + j];
    }
  }

  /** Chunks of sorted ids are ordered, the first starting at the least id and the last ending at the greatest. */
  lemma {:induction false} ChunksOrdered(ids: seq<int>, k: nat)
    requires StrictlySorted(ids)
    ensures Ordered(Chunks(ids, k))
    ensures ids != [] ==> Chunks(ids, k)[0].first == ids[0]
    ensures ids != [] ==> Chunks(ids, k)[|Chunks(ids, k)| - 1].second == ids[|ids| - 1]
    decreases |ids|
  {
    if 0 < k < |ids| {
      SortedSuffix(ids, k);
      ChunksOrdered(ids[k..], k);
      SortedPair(ids, 0, k - 1);
      SortedPair(ids, k - 1, k);
      ChunkConsOrdered(ids, k);
    } else if ids != [] {
      SortedPair(ids, 0, |ids| - 1);
      SingleChunkOrdered(ids, k);
    }
  }

  /** Ids that make a single chunk give one ordered range from the first id to the last. */
  lemma SingleChunkOrdered(ids: seq<int>, k: nat)
    requires ids != [] && !(0 < k < |ids|) && ids[0] <= ids[|ids| - 1]
    ensures Ordered(Chunks(ids, k))
    ensures Chunks(ids, k)[0].first == ids[0]
    ensures Chunks(ids, k)[|Chunks(ids, k)| - 1].second == ids[|ids| - 1]
  {
  }

  /** The first chunk put in front of the ordered chunks of the rest, which start after it ends. */
  lemma ChunkConsOrdered(ids: seq<int>, k: nat)
    requires 0 < k < |ids| && ids[0] <= ids[k - 1] < ids[k]
    requires Ordered(Chunks(ids[k..], k))
    requires ids[k..] != [] ==> Chunks(ids[k..], k)[0].first == ids[k..][0]
    requires ids[k..] != [] ==> Chunks(ids[k..], k)[|Chunks(ids[k..], k)| - 1].second == ids[k..][|ids[k..]| - 1]
    ensures Ordered(Chunks(ids, k))
    ensures Chunks(ids, k)[0].first == ids[0]
    ensures Chunks(ids, k)[|Chunks(ids, k)| - 1].second == ids[|ids| - 1]
  {
    var head := [ChunkRange(ids[0], ids[k - 1])];
    var tail := Chunks(ids[k..], k);
    OrderedConcat(head, tail);
    assert Chunks(ids, k) == head + tail;
  }

  /** In sorted ids an earlier id is below a later one. */
  lemma {:induction false} SortedPair(ids: seq<int>, i: nat, j: nat)
    requires StrictlySorted(ids) && i <= j < |ids|
    ensures ids[i] <= ids[j]
    ensures i < j ==> ids[i] < ids[j]
    decreases j - i
  {
    if i < j {
      SortedPair(ids, i, j - 1);
    }
  }

  /** Every chunk starts and ends at a collected id. */
  lemma {:induction false} ChunkEndsAreIds(ids: seq<int>, k: nat)
    ensures forall c :: c in Chunks(ids, k) ==> c.first in ids && c.second in ids
    decreases |ids|
  {
    if 0 < k < |ids| {
      ChunkEndsAreIds(ids[k..], k);
      assert forall y :: y in ids[k..] ==> y in ids;
    }
  }

  /** Every collected id lies in some chunk. */
  lemma {:induction false} ChunksCover(ids: seq<int>, k: nat, x: int)
    requires StrictlySorted(ids) && x in ids
    ensures Covers(Chunks(ids, k), x)
    decreases |ids|
  {
    var i :| 0 <= i < |ids| && ids[i] == x;
    if 0 < k < |ids| && i >= k {
      SortedSuffix(ids, k);
      assert ids[k..][i - k] == x;
      ChunksCover(ids[k..], k, x);
      CoverInLaterChunk(ids, k, x);
    } else {
      var last := if 0 < k < |ids| then k - 1 else |ids| - 1;
      SortedPair(ids, 0, i);
      SortedPair(ids, i, last);
      CoverInFirstChunk(ids, k, last, x);
    }
  }

  /** An id between the first id and the end of the first chunk is covered by that chunk. */
  lemma CoverInFirstChunk(ids: seq<int>, k: nat, last: nat, x: int)
    requires ids != [] && last == (if 0 < k < |ids| then k - 1 else |ids| - 1)
    requires ids[0] <= x <= ids[last]
    ensures Covers(Chunks(ids, k), x)
  {
    assert Chunks(ids, k)[0] == ChunkRange(ids[0], ids[last]);
  }

  /** An id covered by the chunks after the first is covered by the chunks of all the ids. */
  lemma CoverInLaterChunk(ids: seq<int>, k: nat, x: int)
    requires 0 < k < |ids| && Covers(Chunks(ids[k..], k), x)
    ensures Covers(Chunks(ids, k), x)
  {
    var head := ChunkRange(ids[0], ids[k - 1]);
    var tail := Chunks(ids[k..], k);
    assert Chunks(ids, k) == [head] + tail;
    CoversBehind(head, tail, x);
  }

  /** A range put in front of a list loses no covered id. */
  lemma CoversBehind(head: ChunkRange, tail: seq<ChunkRange>, x: int)
    requires Covers(tail, x)
    ensures Covers([head] + tail, x)
  {
    var c :| 0 <= c < |tail| && tail[c].first <= x <= tail[c].second;
    assert ([head] + tail)[c + 1] == tail[c];
  }

  /** Ordered ranges that start where the list leaves off are all appended, in order. */
  lemma {:induction false} AddAllAppends(rs: seq<ChunkRange>, cs: seq<ChunkRange>)
    requires Ordered(cs)
    requires rs != [] && cs != [] ==> rs[|rs| - 1].second <= cs[0].first
    ensures AddAll(rs, cs) == rs + cs
  {
    if cs != [] {
      var init := cs[..|cs| - 1];
      OrderedSlice(cs, 0, |cs| - 1);
      AddAllAppends(rs, init);
      var last := cs[|cs| - 1];
      if init != [] {
        assert (rs + init)[|rs + init| - 1] == cs[|cs| - 2];
      }
      assert AddAll(rs, cs) == Added(rs + init, last);
      AddAppendsIff(rs + init, last);
      assert rs + init + [last] == rs + cs;
    }
  }

  /**
   * Splitting the ids after a whole number of chunks: the chunks of a prefix
   * ending on a chunk boundary, followed by the final (possibly short) run.
   */
  lemma {:induction false} ChunksAppend(s: seq<int>, m: nat, k: nat)
    requires m < |s| && OnBoundary(m, k)
    requires k > 0 ==> |s| - m <= k
    ensures Chunks(s, k) == Chunks(s[..m], k) + [ChunkRange(s[m], s[|s| - 1])]
    decreases m
  {
    if m > 0 {
      assert s[..m][k..] == s[k..][..m - k];
      ChunksAppend(s[k..], m - k, k);
      assert s[k..][m - k] == s[m];
    }
  }

  /** Adding the range of the run ids[m..i] completes the chunks of ids[..i+1]. */
  lemma EmitChunk(rs: seq<ChunkRange>, r0: seq<ChunkRange>, ids: seq<int>, m: nat, i: nat, k: nat)
    requires m <= i < |ids| && OnBoundary(m, k)
    requires k > 0 ==> i + 1 - m <= k
    requires rs == AddAll(r0, Chunks(ids[..m], k))
    ensures Added(rs, ChunkRange(ids[m], ids[i])) == AddAll(r0, Chunks(ids[..i + 1], k))
    ensures OnBoundary(i + 1, k) <== k > 0 && i + 1 - m == k
  {
    var s := ids[..i + 1];
    ChunksAppend(s, m, k);
    assert s[..m] == ids[..m];
    var cs := Chunks(ids[..m], k);
    var c := ChunkRange(ids[m], ids[i]);
    assert (cs + [c])[..|cs|] == cs;
  }

  class VBucketDeletionVisitor {
    /** The collected row ids in set order. */
    var rowIds: seq<int>
    /** Set once `createRangeList` has freed the id set. */
    var released: bool
    const chunkSize: nat

    ghost predicate Valid()
      reads this
    {
      StrictlySorted(rowIds) && (released ==> rowIds == [])
    }

    constructor (deletionSize: nat)
      ensures Valid() && rowIds == [] && !released && chunkSize == deletionSize
    {
      rowIds, released, chunkSize := [], false, deletionSize;
    }

    /** `visit`: collect the record's row id if it has one (id > 0). */
    method Visit(v: StoredValue)
      requires Valid() && !released
      modifies this
      ensures Valid() && !released
      ensures rowIds == if HasId(v) then Insert(old(rowIds), v.id) else old(rowIds)
    {
      if HasId(v) {
        rowIds := Insert(rowIds, v.id);
      }
    }

    /** `createRangeList`: add one range per run of `chunk_size` ids, then free the id set. */
    method CreateRangeList(rangeList: VBDeletionChunkRangeList)
      requires Valid() && !released
      modifies this, rangeList
      ensures Valid() && released && rowIds == []
      ensures rangeList.ranges == AddAll(old(rangeList.ranges), Chunks(old(rowIds), chunkSize))
    {
      var ids := rowIds;
      var k := chunkSize;
      ghost var r0 := rangeList.ranges;
      // The ids before index m have been added as whole chunks.
      ghost var m := 0;
      var counter := 0;
      var startRowId := -1;
      var i := 0;
      while i < |ids|
        modifies rangeList
        invariant 0 <= counter <= i <= |ids| && m == i - counter
        invariant k > 0 ==> counter < k
        invariant i < |ids| ==> OnBoundary(m, k)
        invariant i == |ids| ==> counter == 0
        invariant counter > 0 ==> startRowId == ids[m]
        invariant rangeList.ranges == AddAll(r0, Chunks(ids[..m], k))
      {
        counter := counter + 1;
        if counter == 1 {
          startRowId := ids[i];
        }
        if counter == k || i == |ids| - 1 {
          var endRowId := ids[i];
          EmitChunk(rangeList.ranges, r0, ids, m, i, k);
          rangeList.Add(startRowId, endRowId);
          counter := 0;
          m := i + 1;
        }
        i := i + 1;
      }
      assert ids[..m] == ids;
      rowIds := [];
      released := true;
    }
  }

  /**
   * On an empty range list, `createRangeList` over sorted ids yields exactly
   * their chunks: no chunk is refused by `add`.
   */
  lemma RangeListFromIds(ids: seq<int>, k: nat)
    requires StrictlySorted(ids)
    ensures AddAll([], Chunks(ids, k)) == Chunks(ids, k)
  {
    ChunksOrdered(ids, k);
    AddAllAppends([], Chunks(ids, k));
    assert [] + Chunks(ids, k) == Chunks(ids, k);
  }
}
