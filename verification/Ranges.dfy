/** `group_contiguous` (src/reader.rs): block indices as ranges for sequential I/O. */
module Ranges {
  import opened Prelude

  datatype Range = Range(lo: nat, hi: nat)

  function Span(r: Range): seq<nat> {
    seq(Max(r.hi - r.lo, 0), j requires 0 <= j => r.lo + j)
  }

  function Unroll(ranges: seq<Range>): seq<nat> {
    if ranges == [] then [] else Unroll(ranges[..|ranges| - 1]) + Span(ranges[|ranges| - 1])
  }

  ghost predicate Increasing(s: seq<nat>) {
    forall i, j :: 0 <= i < j < |s| ==> s[i] < s[j]
  }

  /** Non-empty ranges, each separated from the next by a real gap. */
  ghost predicate Maximal(ranges: seq<Range>) {
    && (forall i :: 0 <= i < |ranges| ==> ranges[i].lo < ranges[i].hi)
    && (forall i, j :: 0 <= i < j < |ranges| ==> ranges[i].hi < ranges[j].lo)
  }

  lemma UnrollSnoc(ranges: seq<Range>, r: Range)
    ensures Unroll(ranges + [r]) == Unroll(ranges) + Span(r)
  {
    assert (ranges + [r])[..|ranges|] == ranges;
  }

  /** The ranges flatten back to exactly the indices and are maximal. */
  method GroupContiguous(indices: seq<nat>) returns (ranges: seq<Range>)
    requires Increasing(indices)
    ensures Maximal(ranges) && Unroll(ranges) == indices
    ensures indices != [] ==> ranges != [] && ranges[|ranges| - 1].hi == indices[|indices| - 1] + 1
    ensures indices == [] ==> ranges == []
  {
    hide Covered, Maximal, Increasing, Unroll, Span;
    if indices == [] {
      NoRanges();
      return [];
    }
    ranges := [];
    var start, prev := indices[0], indices[0];
    CoverFirst(indices);
    for i := 1 to |indices|
      invariant start <= prev == indices[i - 1]
      invariant Maximal(ranges)
      invariant ranges != [] ==> ranges[|ranges| - 1].hi < start
      invariant Covered(ranges, start, prev) == indices[..i]
    {
      var idx := indices[i];
      Consecutive(indices, i);
      if idx == prev + 1 {
        CoverMore(ranges, start, prev);
        prev := idx;
      } else {
        CloseRange(ranges, start, prev, idx);
        ranges := ranges + [Range(start, prev + 1)];
        start, prev := idx, idx;
      }
    }
    assert indices[..|indices|] == indices;
    CloseRange(ranges, start, prev, prev + 2);
    ranges := ranges + [Range(start, prev + 1)];
  }

  /** The indices in the closed ranges and the open one. */
  function Covered(ranges: seq<Range>, start: nat, prev: nat): seq<nat> {
    Unroll(ranges) + Span(Range(start, prev + 1))
  }

  lemma NoRanges()
    ensures Maximal([]) && Unroll([]) == []
  {
  }

  lemma CoverFirst(indices: seq<nat>)
    requires indices != []
    ensures Covered([], indices[0], indices[0]) == indices[..1] && Maximal([])
  {
  }

  lemma CoverMore(ranges: seq<Range>, start: nat, prev: nat)
    requires start <= prev
    ensures Covered(ranges, start, prev + 1) == Covered(ranges, start, prev) + [prev + 1]
  {
  }

  lemma ExtendMaximal(ranges: seq<Range>, r: Range)
    requires Maximal(ranges) && r.lo < r.hi && (ranges != [] ==> ranges[|ranges| - 1].hi < r.lo)
    ensures Maximal(ranges + [r])
  {
    var closed := ranges + [r];
    forall i, j | 0 <= i < j < |closed|
      ensures closed[i].hi < closed[j].lo
    {
      var last := |ranges| - 1;
      if j == |ranges| && i < last { assert ranges[i].hi < ranges[last].lo < ranges[last].hi; }
    }
  }

  lemma SpanOne(n: nat)
    ensures Span(Range(n, n + 1)) == [n]
  {
  }

  lemma CloseRange(ranges: seq<Range>, start: nat, prev: nat, idx: nat)
    requires Maximal(ranges) && start <= prev && (ranges != [] ==> ranges[|ranges| - 1].hi < start)
    ensures var closed := ranges + [Range(start, prev + 1)];
            Maximal(closed) && Unroll(closed) == Covered(ranges, start, prev) &&
            Covered(closed, idx, idx) == Covered(ranges, start, prev) + [idx]
  {
    hide Maximal, Unroll, Span;
    ExtendMaximal(ranges, Range(start, prev + 1));
    UnrollSnoc(ranges, Range(start, prev + 1));
    SpanOne(idx);
  }

  lemma Consecutive(indices: seq<nat>, i: nat)
    requires Increasing(indices) && 0 < i < |indices|
    ensures indices[i - 1] < indices[i] && indices[..i + 1] == indices[..i] + [indices[i]]
  {
  }

  lemma {:induction false} UnrollInside(ranges: seq<Range>, i: nat, k: nat)
    requires i < |ranges| && ranges[i].lo <= k < ranges[i].hi
    ensures k in Unroll(ranges)
    decreases |ranges|
  {
    if i == |ranges| - 1 {
      assert Span(ranges[i])[k - ranges[i].lo] == k;
    } else {
      UnrollInside(ranges[..|ranges| - 1], i, k);
    }
  }

  /** Every maximal range starts right after an index that is missing. */
  lemma GapBeforeRange(ranges: seq<Range>, indices: seq<nat>, i: nat)
    requires Maximal(ranges) && Unroll(ranges) == indices && i < |ranges|
    ensures ranges[i].lo >= 1 ==> ranges[i].lo - 1 !in indices
  {
    hide Unroll;
    if ranges[i].lo >= 1 && ranges[i].lo - 1 in indices {
      var j := RangeOf(ranges, ranges[i].lo - 1);
      assert false;
    }
  }

  lemma {:induction false} RangeOf(ranges: seq<Range>, k: nat) returns (j: nat)
    requires k in Unroll(ranges)
    ensures j < |ranges| && ranges[j].lo <= k < ranges[j].hi
    decreases |ranges|
  {
    var n := |ranges| - 1;
    if k in Unroll(ranges[..n]) {
      j := RangeOf(ranges[..n], k);
    } else {
      assert k in Span(ranges[n]);
      j := n;
    }
  }

  function Starts(ranges: seq<Range>): set<nat> {
    if ranges == [] then {} else Starts(ranges[..|ranges| - 1]) + {ranges[|ranges| - 1].lo}
  }

  lemma {:induction false} StartsAtMost(ranges: seq<Range>)
    ensures |Starts(ranges)| <= |ranges|
    ensures forall i :: 0 <= i < |ranges| ==> ranges[i].lo in Starts(ranges)
  {
    if ranges != [] {
      var n := |ranges| - 1;
      StartsAtMost(ranges[..n]);
      assert forall i :: 0 <= i < n ==> ranges[i] == ranges[..n][i];
    }
  }

  lemma {:induction false} StartsFrom(ranges: seq<Range>, x: nat) returns (i: nat)
    requires x in Starts(ranges)
    ensures i < |ranges| && ranges[i].lo == x
    decreases |ranges|
  {
    i := |ranges| - 1;
    if ranges[i].lo != x {
      i := StartsFrom(ranges[..i], x);
    }
  }

  lemma MaximalInit(ranges: seq<Range>, n: nat)
    requires Maximal(ranges) && |ranges| == n + 1
    ensures Maximal(ranges[..n])
    ensures forall i :: 0 <= i < n ==> ranges[..n][i].lo < ranges[n].lo
  {
    forall i | 0 <= i < n
      ensures ranges[..n][i].lo < ranges[n].lo
    {
      assert ranges[i].lo < ranges[i].hi < ranges[n].lo;
    }
  }

  lemma StartsBelow(ranges: seq<Range>, x: nat)
    requires forall i :: 0 <= i < |ranges| ==> ranges[i].lo < x
    ensures x !in Starts(ranges)
  {
    hide Starts;
    if x in Starts(ranges) {
      var i := StartsFrom(ranges, x);
      assert false;
    }
  }

  lemma {:induction false} StartsDistinct(ranges: seq<Range>)
    requires Maximal(ranges)
    ensures |Starts(ranges)| == |ranges|
  {
    if ranges != [] {
      var n := |ranges| - 1;
      MaximalInit(ranges, n);
      StartsDistinct(ranges[..n]);
      StartsBelow(ranges[..n], ranges[n].lo);
    }
  }

  /** Maximal ranges are the fewest: no other list of ranges covers the same indices with less. */
  lemma FewestRanges(ranges: seq<Range>, other: seq<Range>)
    requires Maximal(ranges) && Unroll(other) == Unroll(ranges)
    ensures |ranges| <= |other|
  {
    hide Unroll, Starts;
    StartsDistinct(ranges);
    StartsAtMost(other);
    forall x | x in Starts(ranges)
      ensures x in Starts(other)
    {
      var i := StartsFrom(ranges, x);
      UnrollInside(ranges, i, x);
      GapBeforeRange(ranges, Unroll(ranges), i);
      var j := RangeOf(other, x);
      if other[j].lo < x { UnrollInside(other, j, x - 1); }
    }
    Subset(Starts(ranges), Starts(other));
  }

  lemma Subset(a: set<nat>, b: set<nat>)
    requires a <= b
    ensures |a| <= |b|
  {
    assert b == a + (b - a);
  }
}
