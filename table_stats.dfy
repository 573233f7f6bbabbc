/**
 * The two statistics visitors of stored-value.hh.  `HashTableStatVisitor`
 * is handed every record of a table and `HashTableDepthStatVisitor` every
 * bucket's depth; each only accumulates.  Both keep a ghost log of what they
 * were shown, and their invariants tie every counter to a function of that
 * log, so what a counter means is stated independently of how it is bumped.
 */
module TableStats {
  import opened StoredValues

  /** The summed `size()` of a run of records. */
  function SizeOf(vs: seq<StoredValue>): nat
  {
    if vs == [] then 0 else SizeOf(vs[..|vs| - 1]) + Size(vs[|vs| - 1])
  }

  /** The summed `size()` of the resident records of a run. */
  function ResidentSizeOf(vs: seq<StoredValue>): nat
  {
    if vs == [] then 0
    else ResidentSizeOf(vs[..|vs| - 1]) + (if IsResident(vs[|vs| - 1]) then Size(vs[|vs| - 1]) else 0)
  }

  /** The number of non-resident records of a run. */
  function NonResidentCount(vs: seq<StoredValue>): nat
  {
    if vs == [] then 0
    else NonResidentCount(vs[..|vs| - 1]) + (if IsResident(vs[|vs| - 1]) then 0 else 1)
  }

  /** The resident records are part of all records: the cache share never exceeds the memory total. */
  lemma {:induction false} ResidentWithinTotal(vs: seq<StoredValue>)
    ensures ResidentSizeOf(vs) <= SizeOf(vs)
    ensures NonResidentCount(vs) <= |vs|
    ensures ResidentSizeOf(vs) == SizeOf(vs) <==> NonResidentCount(vs) == 0
  {
    if vs != [] {
      ResidentWithinTotal(vs[..|vs| - 1]);
    }
  }

  /** `HashTableStatVisitor`: counts and sizes of all records and of the resident ones. */
  class HashTableStatVisitor {
    var numNonResident: nat
    var numTotal: nat
    var memSize: nat
    var cacheSize: nat
    /** The records visited so far, in visiting order. */
    ghost var visited: seq<StoredValue>

    ghost predicate Valid()
      reads this
    {
      && numTotal == |visited|
      && memSize == SizeOf(visited)
      && cacheSize == ResidentSizeOf(visited)
      && numNonResident == NonResidentCount(visited)
    }

    constructor ()
      ensures Valid() && visited == []
      ensures numNonResident == 0 && numTotal == 0 && memSize == 0 && cacheSize == 0
    {
      numNonResident, numTotal, memSize, cacheSize := 0, 0, 0, 0;
      visited := [];
    }

    /** `visit`: count one record, into the cache size if resident, else as non-resident. */
    method Visit(v: StoredValue)
      requires Valid()
      modifies this
      ensures Valid() && visited == old(visited) + [v]
      ensures numNonResident <= numTotal && cacheSize <= memSize
    {
      numTotal := numTotal + 1;
      memSize := memSize + Size(v);
      if IsResident(v) {
        cacheSize := cacheSize + Size(v);
      } else {
        numNonResident := numNonResident + 1;
      }
      visited := visited + [v];
      assert visited[..|visited| - 1] == old(visited);
      ResidentWithinTotal(visited);
    }
  }

  /** The sum of a run of numbers. */
  function Sum(s: seq<nat>): nat
  {
    if s == [] then 0 else Sum(s[..|s| - 1]) + s[|s| - 1]
  }

  /** The least element of a non-empty run. */
  function Least(s: seq<nat>): nat
    requires s != []
  {
    if |s| == 1 then s[0]
    else var m := Least(s[..|s| - 1]); if s[|s| - 1] < m then s[|s| - 1] else m
  }

  /** The greatest element of a run, 0 for the empty one. */
  function Greatest(s: seq<nat>): nat
  {
    if s == [] then 0
    else var m := Greatest(s[..|s| - 1]); if s[|s| - 1] > m then s[|s| - 1] else m
  }

  /** `Least` is a lower bound of the run and one of its elements. */
  lemma {:induction false} LeastIsMinimum(s: seq<nat>)
    requires s != []
    ensures Least(s) in s
    ensures forall i :: 0 <= i < |s| ==> Least(s) <= s[i]
  {
    if |s| > 1 {
      LeastIsMinimum(s[..|s| - 1]);
      assert forall i :: 0 <= i < |s| - 1 ==> s[..|s| - 1][i] == s[i];
    }
  }

  /** `Greatest` is an upper bound of the run and, for a non-empty one, one of its elements. */
  lemma {:induction false} GreatestIsMaximum(s: seq<nat>)
    ensures s != [] ==> Greatest(s) in s
    ensures forall i :: 0 <= i < |s| ==> s[i] <= Greatest(s)
  {
    if s != [] {
      GreatestIsMaximum(s[..|s| - 1]);
      assert forall i :: 0 <= i < |s| - 1 ==> s[..|s| - 1][i] == s[i];
    }
  }

  /** No single element exceeds the sum. */
  lemma {:induction false} GreatestWithinSum(s: seq<nat>)
    ensures Greatest(s) <= Sum(s)
  {
    if s != [] {
      GreatestWithinSum(s[..|s| - 1]);
    }
  }

  /** One more element: how the sum, the least and the greatest move. */
  lemma FiguresAfter(s: seq<nat>, d: nat)
    ensures Sum(s + [d]) == Sum(s) + d
    ensures Least(s + [d]) == if s == [] || d < Least(s) then d else Least(s)
    ensures Greatest(s + [d]) == if d > Greatest(s) then d else Greatest(s)
    ensures Greatest(s + [d]) <= Sum(s + [d])
  {
    assert (s + [d])[..|s|] == s;
    GreatestWithinSum(s + [d]);
  }

  /**
   * `HashTableDepthStatVisitor` without its depth histogram: the shallowest
   * and deepest bucket (min is -1 until a bucket is seen), the total depth
   * and the memory reported.
   */
  class HashTableDepthStatVisitor {
    var size: nat
    var memUsed: nat
    var min: int
    var max: int
    /** The depths and memory figures reported so far, in order. */
    ghost var depths: seq<nat>
    ghost var mems: seq<nat>

    ghost predicate Valid()
      reads this
    {
      && size == Sum(depths)
      && memUsed == Sum(mems)
      && min == (if depths == [] then -1 else Least(depths))
      && max == Greatest(depths)
    }

    constructor ()
      ensures Valid() && depths == [] && mems == []
      ensures size == 0 && memUsed == 0 && min == -1 && max == 0
    {
      size, memUsed, min, max := 0, 0, -1, 0;
      depths, mems := [], [];
    }

    /** `visit(bucket, depth, mem)`: fold one bucket's depth and memory into the figures. */
    method Visit(bucket: int, depth: nat, mem: nat)
      requires Valid()
      modifies this
      ensures Valid() && depths == old(depths) + [depth] && mems == old(mems) + [mem]
      ensures 0 <= min <= depth <= max <= size
    {
      var m := if min == -1 then depth else min;
      min := if depth < m then depth else m;
      max := if depth > max then depth else max;
      size := size + depth;
      memUsed := memUsed + mem;
      FiguresAfter(depths, depth);
      FiguresAfter(mems, mem);
      depths := depths + [depth];
      mems := mems + [mem];
    }
  }

  /** After any visits, min and max are a visited depth's bounds and neither exceeds the total. */
  lemma DepthFiguresAreBounds(v: HashTableDepthStatVisitor)
    requires v.Valid() && v.depths != []
    ensures v.min in v.depths && v.max in v.depths
    ensures forall i :: 0 <= i < |v.depths| ==> v.min <= v.depths[i] <= v.max
    ensures v.min <= v.max <= v.size
  {
    LeastIsMinimum(v.depths);
    GreatestIsMaximum(v.depths);
    GreatestWithinSum(v.depths);
  }
}
