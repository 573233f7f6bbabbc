/**
 * `VBDeletionChunkRangeList` (ep.hh): the ordered list of row-id ranges a
 * vbucket deletion works through chunk by chunk.  The `std::list` becomes a
 * sequence field; an iterator into it is an index, with `|ranges|` standing
 * for `end()`.  Each method is proved equal to a function on the old
 * sequence, and the lemmas state what those functions promise: ranges stay
 * ordered, splitting keeps the covered ids, merging only widens them.
 */
module ChunkRanges {

  /** `chunk_range_t`: the closed row-id interval [first, second]. */
  datatype ChunkRange = ChunkRange(first: int, second: int)

  /** Every range is non-empty and starts no earlier than its predecessor ends. */
  ghost predicate Ordered(rs: seq<ChunkRange>)
  {
    && (forall i :: 0 <= i < |rs| ==> rs[i].first <= rs[i].second)
    && (forall i, j :: 0 <= i && j == i + 1 && j < |rs| ==> rs[i].second <= rs[j].first)
  }

  /** Row id x lies in one of the ranges. */
  ghost predicate Covers(rs: seq<ChunkRange>, x: int)
  {
    exists i :: 0 <= i < |rs| && rs[i].first <= x <= rs[i].second
  }

  /** In an ordered list every range ends no later than any later range starts. */
  lemma {:induction false} OrderedAcross(rs: seq<ChunkRange>, i: nat, j: nat)
    requires Ordered(rs) && i < j < |rs|
    ensures rs[i].second <= rs[j].first
    ensures rs[i].first <= rs[j].first && rs[i].second <= rs[j].second
    decreases j - i
  {
    if i + 1 < j {
      OrderedAcross(rs, i + 1, j);
    }
  }

  /** Any slice of an ordered list is ordered. */
  lemma OrderedSlice(rs: seq<ChunkRange>, i: nat, j: nat)
    requires Ordered(rs) && i <= j <= |rs|
    ensures Ordered(rs[i..j])
  {
    assert forall k :: 0 <= k < j - i ==> rs[i..j][k] == rs[i + k];
  }

  /** Two ordered lists joined where the first ends no later than the second starts. */
  lemma OrderedConcat(a: seq<ChunkRange>, b: seq<ChunkRange>)
    requires Ordered(a) && Ordered(b)
    requires a != [] && b != [] ==> a[|a| - 1].second <= b[0].first
    ensures Ordered(a + b)
  {
    var ab := a + b;
    forall k | 0 < k < |ab|
      ensures ab[k - 1].second <= ab[k].first
    {
      if k < |a| {
        assert ab[k - 1] == a[k - 1] && ab[k] == a[k];
      } else if k == |a| {
        assert ab[k - 1] == a[k - 1] && ab[k] == b[0];
      } else {
        assert ab[k - 1] == b[k - 1 - |a|] && ab[k] == b[k - |a|];
      }
    }
  }

  /** Replacing rs[start..p] by two ranges that fit between their neighbours keeps the list ordered. */
  lemma SpliceOrdered(rs: seq<ChunkRange>, start: nat, p: nat, a: ChunkRange, b: ChunkRange)
    requires Ordered(rs) && start <= p < |rs|
    requires start > 0 ==> rs[start - 1].second <= a.first
    requires a.first <= a.second <= b.first <= b.second
    requires p + 1 < |rs| ==> b.second <= rs[p + 1].first
    ensures Ordered(rs[..start] + [a, b] + rs[p + 1..])
  {
    var left := rs[..start] + [a];
    var right := [b] + rs[p + 1..];
    OrderedPrefixThen(rs, start, a);
    OrderedThenSuffix(rs, p, b);
    OrderedConcat(left, right);
    assert rs[..start] + [a, b] + rs[p + 1..] == left + right;
  }

  /** The first `start` ranges followed by a range that starts after them. */
  lemma OrderedPrefixThen(rs: seq<ChunkRange>, start: nat, a: ChunkRange)
    requires Ordered(rs) && start <= |rs| && a.first <= a.second
    requires start > 0 ==> rs[start - 1].second <= a.first
    ensures Ordered(rs[..start] + [a])
  {
    OrderedSlice(rs, 0, start);
    OrderedConcat(rs[..start], [a]);
  }

  /** A range followed by the ranges after p, which start after it ends. */
  lemma OrderedThenSuffix(rs: seq<ChunkRange>, p: nat, b: ChunkRange)
    requires Ordered(rs) && p < |rs| && b.first <= b.second
    requires p + 1 < |rs| ==> b.second <= rs[p + 1].first
    ensures Ordered([b] + rs[p + 1..])
  {
    OrderedSlice(rs, p + 1, |rs|);
    OrderedConcat([b], rs[p + 1..]);
  }

  // ---------------------------------------------------------------------
  // add

  /** `add(range)`: append unless the range is empty or starts before the last one ends. */
  function Added(rs: seq<ChunkRange>, r: ChunkRange): (out: seq<ChunkRange>)
    ensures Ordered(rs) ==> Ordered(out)
  {
    if r.first > r.second || (|rs| > 0 && rs[|rs| - 1].second > r.first) then rs else rs + [r]
  }

  /**
   * A range is appended exactly when it is non-empty and starts at or after
   * the end of the last range (touching it counts); otherwise the list is
   * left as it was.
   */
  lemma AddAppendsIff(rs: seq<ChunkRange>, r: ChunkRange)
    ensures Added(rs, r) == rs + [r] <==> r.first <= r.second && (rs == [] || rs[|rs| - 1].second <= r.first)
    ensures Added(rs, r) != rs + [r] ==> Added(rs, r) == rs
  {
    if Added(rs, r) == rs + [r] {
      assert |Added(rs, r)| == |rs| + 1;
    }
  }

  // ---------------------------------------------------------------------
  // splitChunkRange

  /** `splitChunkRange(it, n)`: cut [s, e] into [s, s+n] and [s+n+1, e] when it spans more than n. */
  function Split(rs: seq<ChunkRange>, it: nat, n: int): seq<ChunkRange>
    requires it <= |rs|
  {
    if it == |rs| || rs[it].second - rs[it].first <= n then rs
    else
      var s := rs[it];
      rs[..it] + [ChunkRange(s.first, s.first + n), ChunkRange(s.first + n + 1, s.second)] + rs[it + 1..]
  }

  /** A real split adds one range, leaves the others in place and keeps the list ordered. */
  lemma SplitShape(rs: seq<ChunkRange>, it: nat, n: int)
    requires it < |rs| && rs[it].second - rs[it].first > n && n >= 0
    ensures var out := Split(rs, it, n);
            && |out| == |rs| + 1
            && out[..it] == rs[..it] && out[it + 2..] == rs[it + 1..]
            && out[it].first == rs[it].first && out[it].second - out[it].first == n
            && out[it + 1].first == out[it].second + 1 && out[it + 1].second == rs[it].second
            && (Ordered(rs) ==> Ordered(out))
  {
    if Ordered(rs) {
      var s := rs[it];
      if it > 0 {
        OrderedAcross(rs, it - 1, it);
      }
      if it + 1 < |rs| {
        OrderedAcross(rs, it, it + 1);
      }
      SpliceOrdered(rs, it, it, ChunkRange(s.first, s.first + n), ChunkRange(s.first + n + 1, s.second));
    }
  }

  /** Splitting by a non-negative size covers exactly the ids covered before. */
  lemma SplitKeepsCoverage(rs: seq<ChunkRange>, it: nat, n: int, x: int)
    requires it <= |rs| && n >= 0
    ensures Covers(Split(rs, it, n), x) <==> Covers(rs, x)
  {
    var out := Split(rs, it, n);
    if out != rs {
      if Covers(rs, x) {
        var i :| 0 <= i < |rs| && rs[i].first <= x <= rs[i].second;
        if i < it {
          assert out[i] == rs[i];
        } else if i > it {
          assert out[i + 1] == rs[i];
        } else if x <= rs[it].first + n {
          assert out[it].first <= x <= out[it].second;
        } else {
          assert out[it + 1].first <= x <= out[it + 1].second;
        }
      }
      if Covers(out, x) {
        var i :| 0 <= i < |out| && out[i].first <= x <= out[i].second;
        if i < it {
          assert out[i] == rs[i];
        } else if i > it + 1 {
          assert out[i] == rs[i - 1];
        } else {
          assert rs[it].first <= x <= rs[it].second;
        }
      }
    }
  }

  // ---------------------------------------------------------------------
  // findClosestChunkByRangeSize, removeChunkRanges, mergeChunkRanges

  /** The first index from p on whose range ends beyond `bound`, or the end. */
  function Closest(rs: seq<ChunkRange>, p: nat, bound: int): (q: nat)
    requires p <= |rs|
    ensures p <= q <= |rs|
    decreases |rs| - p
  {
    if p < |rs| && rs[p].second <= bound then Closest(rs, p + 1, bound) else p
  }

  /** `Closest` is the first such index: everything before it ends within the bound. */
  lemma {:induction false} ClosestIsFirstBeyond(rs: seq<ChunkRange>, p: nat, bound: int)
    requires p <= |rs|
    ensures var q := Closest(rs, p, bound);
            && (forall j :: p <= j < q ==> rs[j].second <= bound)
            && (q < |rs| ==> rs[q].second > bound)
    decreases |rs| - p
  {
    if p < |rs| && rs[p].second <= bound {
      ClosestIsFirstBeyond(rs, p + 1, bound);
    }
  }

  /**
   * `removeChunkRanges(first, last)`: erase the ranges strictly between the
   * two iterators, unless they coincide, `first` is the end, or `first`'s
   * range ends after `last`'s begins.
   */
  function Removed(rs: seq<ChunkRange>, first: nat, last: nat): seq<ChunkRange>
    requires first <= last <= |rs|
  {
    if first == last || first == |rs| || (last != |rs| && rs[first].second > rs[last].first) then rs
    else rs[..first + 1] + rs[last..]
  }

  /**
   * The first step of `mergeChunkRanges(start, n)`, given the range p that
   * `findClosestChunkByRangeSize` found and the merge point `endpoint`:
   * stretch or trim `start`, and trim p if it straddles the merge point.
   */
  function Adjusted(rs: seq<ChunkRange>, start: nat, p: nat, endpoint: int): seq<ChunkRange>
    requires start < |rs| && start <= p <= |rs| && (p < |rs| ==> 0 < p)
  {
    var s := rs[start];
    if p == |rs| then rs[start := s.(second := rs[|rs| - 1].second)]
    else if rs[p].first <= endpoint <= rs[p].second then
      rs[start := s.(second := endpoint)][p := rs[p].(first := endpoint + 1)]
    else rs[start := s.(second := rs[p - 1].second)]
  }

  /** `mergeChunkRanges(start, n)`, whose result the lemmas below describe. */
  function Merged(rs: seq<ChunkRange>, start: nat, n: int): seq<ChunkRange>
    requires start <= |rs|
  {
    if start == |rs| || rs[start].second - rs[start].first >= n then rs
    else
      var endpoint := rs[start].first + n;
      var p := Closest(rs, start, endpoint);
      Removed(Adjusted(rs, start, p, endpoint), start, p)
  }

  /** Nothing to merge: `start` is the end or already spans n or more. */
  lemma MergeNoOp(rs: seq<ChunkRange>, start: nat, n: int)
    requires start <= |rs|
    ensures Merged(rs, start, n) == rs <== start == |rs| || rs[start].second - rs[start].first >= n
  {
  }

  // When some later range ends beyond `start.first + n`, the first such one,
  // p, survives: every range strictly between start and p is erased and the
  // ranges after p are untouched.  The next two lemmas give the result for
  // p straddling the merge point and for p beginning beyond it.

  /** p straddles the merge point: start ends there and p resumes right after it. */
  lemma MergeStraddling(rs: seq<ChunkRange>, start: nat, n: int, p: nat)
    requires start < |rs| && rs[start].second - rs[start].first < n
    requires p == Closest(rs, start, rs[start].first + n) && p < |rs|
    requires rs[p].first <= rs[start].first + n
    ensures start < p && rs[start].first + n < rs[p].second
    ensures Merged(rs, start, n)
            == rs[..start] + [ChunkRange(rs[start].first, rs[start].first + n),
                              ChunkRange(rs[start].first + n + 1, rs[p].second)] + rs[p + 1..]
  {
    ClosestIsFirstBeyond(rs, start, rs[start].first + n);
  }

  /** p starts beyond the merge point: start absorbs up to p's predecessor and p is kept whole. */
  lemma MergeBeforeGap(rs: seq<ChunkRange>, start: nat, n: int, p: nat)
    requires start < |rs| && rs[start].second - rs[start].first < n
    requires p == Closest(rs, start, rs[start].first + n) && p < |rs|
    requires rs[p].first > rs[start].first + n && 0 < p && rs[p - 1].second <= rs[p].first
    ensures start < p
    ensures Merged(rs, start, n) == rs[..start] + [ChunkRange(rs[start].first, rs[p - 1].second), rs[p]] + rs[p + 1..]
  {
  }

  /**
   * When no range ends beyond `start.first + n`, start becomes the last range
   * and stretches to the old last range's end.
   */
  lemma MergeToTail(rs: seq<ChunkRange>, start: nat, n: int)
    requires start < |rs| && rs[start].second - rs[start].first < n
    requires Closest(rs, start, rs[start].first + n) == |rs|
    ensures Merged(rs, start, n) == rs[..start] + [ChunkRange(rs[start].first, rs[|rs| - 1].second)]
  {
  }

  /** The shape `MergeWidensStart` promises, for a list and a candidate result. */
  ghost predicate WidensStart(rs: seq<ChunkRange>, start: nat, out: seq<ChunkRange>)
    requires start < |rs|
  {
    && start < |out| <= |rs|
    && out[..start] == rs[..start]
    && out[start].first == rs[start].first && out[start].second >= rs[start].second
    && Ordered(out)
  }

  lemma MergeToTailWidens(rs: seq<ChunkRange>, start: nat, n: int)
    requires Ordered(rs) && start < |rs| && rs[start].second - rs[start].first < n
    requires Closest(rs, start, rs[start].first + n) == |rs|
    ensures WidensStart(rs, start, Merged(rs, start, n))
  {
    MergeToTail(rs, start, n);
    if start < |rs| - 1 {
      OrderedAcross(rs, start, |rs| - 1);
    }
    if start > 0 {
      OrderedAcross(rs, start - 1, start);
    }
    OrderedSlice(rs, 0, start);
    OrderedConcat(rs[..start], [ChunkRange(rs[start].first, rs[|rs| - 1].second)]);
  }

  lemma StraddlingWidens(rs: seq<ChunkRange>, start: nat, n: int, p: nat)
    requires Ordered(rs) && start < |rs| && rs[start].second - rs[start].first < n
    requires p == Closest(rs, start, rs[start].first + n) && p < |rs|
    requires rs[p].first <= rs[start].first + n
    ensures WidensStart(rs, start, Merged(rs, start, n))
  {
    MergeStraddling(rs, start, n, p);
    SplitAtWidens(rs, start, p, rs[start].first + n);
  }

  /** Ending start at e and resuming p right after e widens start and keeps the list ordered. */
  lemma SplitAtWidens(rs: seq<ChunkRange>, start: nat, p: nat, e: int)
    requires Ordered(rs) && start < p < |rs| && rs[start].second <= e < rs[p].second
    ensures WidensStart(rs, start, rs[..start] + [ChunkRange(rs[start].first, e), ChunkRange(e + 1, rs[p].second)] + rs[p + 1..])
  {
    NeighbourBounds(rs, start, p);
    SpliceWidens(rs, start, p, ChunkRange(rs[start].first, e), ChunkRange(e + 1, rs[p].second));
  }

  lemma BeforeGapWidens(rs: seq<ChunkRange>, start: nat, n: int, p: nat)
    requires Ordered(rs) && start < |rs| && rs[start].second - rs[start].first < n
    requires p == Closest(rs, start, rs[start].first + n) && p < |rs|
    requires rs[p].first > rs[start].first + n
    ensures WidensStart(rs, start, Merged(rs, start, n))
  {
    ClosestPastStart(rs, start, rs[start].first + n);
    NeighbourBounds(rs, start, p);
    MergeBeforeGap(rs, start, n, p);
    SpliceWidens(rs, start, p, ChunkRange(rs[start].first, rs[p - 1].second), rs[p]);
  }

  /** A range that ends within the bound is passed over by `Closest`. */
  lemma ClosestPastStart(rs: seq<ChunkRange>, start: nat, bound: int)
    requires start < |rs| && rs[start].second <= bound
    ensures start < Closest(rs, start, bound)
  {
  }

  /** The order facts about start, p and their neighbours that a merge relies on. */
  lemma NeighbourBounds(rs: seq<ChunkRange>, start: nat, p: nat)
    requires Ordered(rs) && start < p < |rs|
    ensures rs[start].first <= rs[start].second <= rs[p - 1].second <= rs[p].first <= rs[p].second
    ensures start > 0 ==> rs[start - 1].second <= rs[start].first
    ensures p + 1 < |rs| ==> rs[p].second <= rs[p + 1].first
  {
    if start > 0 {
      OrderedAcross(rs, start - 1, start);
    }
    if p - 1 > start {
      OrderedAcross(rs, start, p - 1);
    }
    OrderedAcross(rs, p - 1, p);
    if p + 1 < |rs| {
      OrderedAcross(rs, p, p + 1);
    }
  }

  lemma SpliceWidens(rs: seq<ChunkRange>, start: nat, p: nat, a: ChunkRange, b: ChunkRange)
    requires Ordered(rs) && start < p < |rs|
    requires a.first == rs[start].first && a.second >= rs[start].second
    requires start > 0 ==> rs[start - 1].second <= a.first
    requires a.second <= b.first <= b.second
    requires p + 1 < |rs| ==> b.second <= rs[p + 1].first
    ensures WidensStart(rs, start, rs[..start] + [a, b] + rs[p + 1..])
  {
    SpliceOrdered(rs, start, p, a, b);
    var out := rs[..start] + [a, b] + rs[p + 1..];
    assert out[..start] == rs[..start];
  }

  /** A merge never shrinks `start`'s range, keeps what precedes it and keeps the list ordered. */
  lemma MergeWidensStart(rs: seq<ChunkRange>, start: nat, n: int)
    requires Ordered(rs) && start < |rs|
    ensures WidensStart(rs, start, Merged(rs, start, n))
  {
    if rs[start].second - rs[start].first < n {
      if Closest(rs, start, rs[start].first + n) == |rs| {
        MergeToTailWidens(rs, start, n);
      } else {
        var p := Closest(rs, start, rs[start].first + n);
        if rs[p].first <= rs[start].first + n {
          StraddlingWidens(rs, start, n, p);
        } else {
          BeforeGapWidens(rs, start, n, p);
        }
      }
    }
  }

  lemma MergeToTailCovers(rs: seq<ChunkRange>, start: nat, n: int, i: nat, x: int)
    requires Ordered(rs) && start <= i < |rs| && rs[i].first <= x <= rs[i].second
    requires rs[start].second - rs[start].first < n
    requires Closest(rs, start, rs[start].first + n) == |rs|
    ensures Covers(Merged(rs, start, n), x)
  {
    MergeToTail(rs, start, n);
    if i > start {
      OrderedAcross(rs, start, i);
    }
    if i < |rs| - 1 {
      OrderedAcross(rs, i, |rs| - 1);
    }
    CoversAt(rs[..start] + [ChunkRange(rs[start].first, rs[|rs| - 1].second)], start, x);
  }

  /** A range holding x is a witness that x is covered. */
  lemma CoversAt(rs: seq<ChunkRange>, i: nat, x: int)
    requires i < |rs| && rs[i].first <= x <= rs[i].second
    ensures Covers(rs, x)
  {
  }

  /**
   * Replacing rs[start..p] by [rs[start].first, e] and [f, rs[p].second]
   * loses no id, provided the ranges before p end by e and f leaves no
   * covered id of rs[p] uncovered.
   */
  lemma SpliceCovers(rs: seq<ChunkRange>, start: nat, p: nat, e: int, f: int, i: nat, x: int)
    requires Ordered(rs) && start < p < |rs| && start <= i < |rs| && rs[i].first <= x <= rs[i].second
    requires forall j :: start <= j < p ==> rs[j].second <= e
    requires f <= rs[p].first || f <= e + 1
    ensures Covers(rs[..start] + [ChunkRange(rs[start].first, e), ChunkRange(f, rs[p].second)] + rs[p + 1..], x)
  {
    var out := rs[..start] + [ChunkRange(rs[start].first, e), ChunkRange(f, rs[p].second)] + rs[p + 1..];
    if i > p {
      assert out[i - (p - start - 1)] == rs[i];
      CoversAt(out, i - (p - start - 1), x);
    } else {
      if i > start {
        OrderedAcross(rs, start, i);
      }
      if i == p && x > e {
        CoversAt(out, start + 1, x);
      } else {
        CoversAt(out, start, x);
      }
    }
  }

  /** In an ordered list no range before p ends after p's predecessor. */
  lemma EndsByPredecessor(rs: seq<ChunkRange>, start: nat, p: nat)
    requires Ordered(rs) && start < p <= |rs|
    ensures forall j :: start <= j < p ==> rs[j].second <= rs[p - 1].second
  {
    forall j | start <= j < p - 1
      ensures rs[j].second <= rs[p - 1].second
    {
      OrderedAcross(rs, j, p - 1);
    }
  }

  lemma MergeUpToStraddlerCovers(rs: seq<ChunkRange>, start: nat, n: int, i: nat, x: int)
    requires Ordered(rs) && start <= i < |rs| && rs[i].first <= x <= rs[i].second
    requires rs[start].second - rs[start].first < n
    requires Closest(rs, start, rs[start].first + n) < |rs|
    ensures Covers(Merged(rs, start, n), x)
  {
    var endpoint := rs[start].first + n;
    var p := Closest(rs, start, endpoint);
    ClosestIsFirstBeyond(rs, start, endpoint);
    if rs[p].first <= endpoint {
      MergeStraddling(rs, start, n, p);
      SpliceCovers(rs, start, p, endpoint, endpoint + 1, i, x);
    } else {
      EndsByPredecessor(rs, start, p);
      OrderedAcross(rs, p - 1, p);
      MergeBeforeGap(rs, start, n, p);
      SpliceCovers(rs, start, p, rs[p - 1].second, rs[p].first, i, x);
    }
  }

  /** Every id covered before a merge of an ordered list is covered after it. */
  lemma MergeKeepsCoverage(rs: seq<ChunkRange>, start: nat, n: int, x: int)
    requires Ordered(rs) && start <= |rs| && Covers(rs, x)
    ensures Covers(Merged(rs, start, n), x)
  {
    var i :| 0 <= i < |rs| && rs[i].first <= x <= rs[i].second;
    if start < |rs| && rs[start].second - rs[start].first < n {
      if i < start {
        MergeWidensStart(rs, start, n);
        var out := Merged(rs, start, n);
        assert out[..start][i] == rs[..start][i];
      } else if Closest(rs, start, rs[start].first + n) == |rs| {
        MergeToTailCovers(rs, start, n, i, x);
      } else {
        MergeUpToStraddlerCovers(rs, start, n, i, x);
      }
    }
  }

  /** `VBDeletionChunkRangeList`. */
  class VBDeletionChunkRangeList {
    /** The ranges in list order; index `|ranges|` plays `end()`. */
    var ranges: seq<ChunkRange>

    constructor ()
      ensures ranges == []
    {
      ranges := [];
    }

    /** `add(start_id, end_id)`. */
    method Add(startId: int, endId: int)
      modifies this
      ensures ranges == Added(old(ranges), ChunkRange(startId, endId))
    {
      var r := ChunkRange(startId, endId);
      if r.first > r.second || (|ranges| > 0 && ranges[|ranges| - 1].second > r.first) {
        return;
      }
      ranges := ranges + [r];
    }

    /** `splitChunkRange(it, range_size)`. */
    method SplitChunkRange(it: nat, rangeSize: int)
      requires it <= |ranges|
      modifies this
      ensures ranges == Split(old(ranges), it, rangeSize)
    {
      if it == |ranges| || ranges[it].second - ranges[it].first <= rangeSize {
        return;
      }
      var rangeEnd := ranges[it].second;
      var head := ranges[it].(second := ranges[it].first + rangeSize);
      var r := ChunkRange(head.second + 1, rangeEnd);
      ranges := ranges[..it] + [head, r] + ranges[it + 1..];
    }

    /**
     * `findClosestChunkByRangeSize(it, range_size)`: walk from `it` to the
     * first range ending beyond `it->first + range_size`.
     */
    method FindClosestChunkByRangeSize(it: nat, rangeSize: int) returns (p: nat)
      requires it < |ranges|
      ensures p == Closest(ranges, it, ranges[it].first + rangeSize)
      ensures it <= p <= |ranges|
      ensures forall j :: it <= j < p ==> ranges[j].second <= ranges[it].first + rangeSize
      ensures p < |ranges| ==> ranges[p].second > ranges[it].first + rangeSize
    {
      ClosestIsFirstBeyond(ranges, it, ranges[it].first + rangeSize);
      p := it;
      while p != |ranges| && ranges[p].second <= ranges[it].first + rangeSize
        invariant it <= p <= |ranges|
        invariant Closest(ranges, p, ranges[it].first + rangeSize) == Closest(ranges, it, ranges[it].first + rangeSize)
        decreases |ranges| - p
      {
        p := p + 1;
      }
    }

    /** `removeChunkRanges(first, last)`; the source requires `first` not to come after `last`. */
    method RemoveChunkRanges(first: nat, last: nat)
      requires first <= last <= |ranges|
      modifies this
      ensures ranges == Removed(old(ranges), first, last)
    {
      if first == last || first == |ranges| || (last != |ranges| && ranges[first].second > ranges[last].first) {
        return;
      }
      ranges := ranges[..first + 1] + ranges[last..];
    }

    /** `mergeChunkRanges(start, range_size)`. */
    method MergeChunkRanges(start: nat, rangeSize: int)
      requires start <= |ranges|
      modifies this
      ensures ranges == Merged(old(ranges), start, rangeSize)
    {
      if start == |ranges| || ranges[start].second - ranges[start].first >= rangeSize {
        return;
      }
      var p := FindClosestChunkByRangeSize(start, rangeSize);
      ghost var adjusted := Adjusted(ranges, start, p, ranges[start].first + rangeSize);
      if p != |ranges| {
        var endpoint := ranges[start].first + rangeSize;
        if ranges[p].first <= endpoint && endpoint <= ranges[p].second {
          ranges := ranges[start := ranges[start].(second := endpoint)];
          ranges := ranges[p := ranges[p].(first := endpoint + 1)];
        } else {
          ranges := ranges[start := ranges[start].(second := ranges[p - 1].second)];
        }
      } else {
        ranges := ranges[start := ranges[start].(second := ranges[|ranges| - 1].second)];
      }
      assert ranges == adjusted;
      RemoveChunkRanges(start, p);
    }
  }
}
