/** Busy calendars: half-open UTC intervals, their union and the free-time test. */
module Busy {
  import opened Sorting

  datatype Interval = Interval(start: int, end: int)

  /** Intervals are validated when built: strictly positive length. */
  type BusyInterval = i: Interval | i.start < i.end witness Interval(0, 1)

  predicate Contains(i: Interval, t: int) {
    i.start <= t < i.end
  }

  ghost predicate Covered(busy: seq<BusyInterval>, t: int) {
    exists i :: 0 <= i < |busy| && Contains(busy[i], t)
  }

  /** Consecutive intervals leave a gap of positive length between them. */
  ghost predicate Separated(busy: seq<BusyInterval>) {
    forall i, j :: 0 <= i < j < |busy| ==> busy[i].end < busy[j].start
  }

  predicate Apart(start: int, end: int, i: Interval) {
    end <= i.start || start >= i.end
  }

  /** No busy interval meets `[start, end)`. */
  predicate Free(start: int, end: int, busy: seq<BusyInterval>) {
    forall i :: 0 <= i < |busy| ==> Apart(start, end, busy[i])
  }

  predicate StartsNoLater(a: BusyInterval, b: BusyInterval) {
    a.start <= b.start
  }

  ghost predicate SameInstants(a: seq<BusyInterval>, b: seq<BusyInterval>) {
    forall t :: Covered(a, t) <==> Covered(b, t)
  }

  /** The union of two calendars, in place over the list sorted by start. */
  method MergeBusyIntervals(outlook: seq<BusyInterval>, google: seq<BusyInterval>)
    returns (merged: seq<BusyInterval>)
    ensures Separated(merged)
    ensures forall t :: Covered(merged, t) <==> Covered(outlook, t) || Covered(google, t)
  {
    var intervals := Sort(outlook + google, StartsNoLater);
    SortSorts(outlook + google, StartsNoLater);
    merged := [];
    for n := 0 to |intervals|
      invariant Separated(merged)
      invariant merged == [] <==> n == 0
      invariant n > 0 ==> merged[|merged| - 1].start <= intervals[n - 1].start
      invariant SameInstants(merged, intervals[..n])
    {
      var interval := intervals[n];
      ghost var before := merged;
      if merged == [] {
        merged := [interval];
      } else {
        var previous := merged[|merged| - 1];
        assert StartsNoLater(intervals[n - 1], intervals[n]);
        if interval.start <= previous.end {
          if interval.end > previous.end {
            merged := merged[|merged| - 1 := Interval(previous.start, interval.end)];
          }
        } else {
          merged := merged + [interval];
        }
      }
      assert MergeStep(before, interval, merged);
      MergeOne(before, interval, merged, intervals[..n]);
      assert intervals[..n] + [interval] == intervals[..n + 1];
    }
    assert intervals[..|intervals|] == intervals;
    MergedUnion(merged, intervals, outlook, google);
  }

  /** What one turn of the merge does. */
  predicate MergeStep(before: seq<BusyInterval>, next: BusyInterval, after: seq<BusyInterval>) {
    if before == [] then after == [next]
    else
      var last := before[|before| - 1];
      last.start <= next.start
      && after == if next.start > last.end then before + [next]
                  else if next.end > last.end then before[|before| - 1 := Interval(last.start, next.end)]
                  else before
  }

  lemma MergeOne(before: seq<BusyInterval>, next: BusyInterval, after: seq<BusyInterval>, done: seq<BusyInterval>)
    requires MergeStep(before, next, after) && SameInstants(before, done)
    ensures SameInstants(after, done + [next])
  {
    forall t ensures Covered(after, t) <==> Covered(done + [next], t) {
      CoveredStep(before, next, after, t);
      CoveredSplit(done, [next], t);
      assert Covered([next], t) <==> Contains([next][0], t);
    }
  }

  lemma MergedUnion(merged: seq<BusyInterval>, intervals: seq<BusyInterval>, outlook: seq<BusyInterval>, google: seq<BusyInterval>)
    requires SameInstants(merged, intervals) && multiset(intervals) == multiset(outlook + google)
    ensures forall t :: Covered(merged, t) <==> Covered(outlook, t) || Covered(google, t)
  {
    forall t ensures Covered(merged, t) <==> Covered(outlook, t) || Covered(google, t) {
      CoveredPermuted(intervals, outlook + google, t);
      CoveredSplit(outlook, google, t);
    }
  }

  /** One step of the merge adds exactly the instants of the interval it takes. */
  lemma CoveredStep(before: seq<BusyInterval>, next: BusyInterval, after: seq<BusyInterval>, t: int)
    requires MergeStep(before, next, after)
    ensures Covered(after, t) <==> Covered(before, t) || Contains(next, t)
  {
    if before == [] {
      assert after[0] == next;
    } else {
      var k := |before| - 1;
      if Contains(next, t) {
        assert Contains(after[|after| - 1], t) || Contains(before[k], t);
        if next.end > before[k].end || next.start > before[k].end {
          assert Covered(after, t);
        }
      }
      if Covered(before, t) {
        var i :| 0 <= i < |before| && Contains(before[i], t);
        assert Contains(after[i], t);
      }
      if Covered(after, t) {
        var i :| 0 <= i < |after| && Contains(after[i], t);
        assert i < |before| ==> Contains(before[i], t) || i == k;
      }
    }
  }

  lemma CoveredSplit(a: seq<BusyInterval>, b: seq<BusyInterval>, t: int)
    ensures Covered(a + b, t) <==> Covered(a, t) || Covered(b, t)
  {
    if Covered(a, t) {
      var i :| 0 <= i < |a| && Contains(a[i], t);
      assert Contains((a + b)[i], t);
    }
    if Covered(b, t) {
      var i :| 0 <= i < |b| && Contains(b[i], t);
      assert Contains((a + b)[|a| + i], t);
    }
  }

  lemma CoveredPermuted(a: seq<BusyInterval>, b: seq<BusyInterval>, t: int)
    requires multiset(a) == multiset(b)
    ensures Covered(a, t) ==> Covered(b, t)
    ensures Covered(b, t) ==> Covered(a, t)
  {
    if Covered(a, t) {
      var i :| 0 <= i < |a| && Contains(a[i], t);
      assert a[i] in multiset(b);
    }
    if Covered(b, t) {
      var i :| 0 <= i < |b| && Contains(b[i], t);
      assert b[i] in multiset(a);
    }
  }

  /** For a candidate of positive length, the pairwise test says that no instant of it is busy. */
  lemma FreeIffUncovered(start: int, end: int, busy: seq<BusyInterval>)
    requires start < end
    ensures Free(start, end, busy) <==> forall t :: start <= t < end ==> !Covered(busy, t)
  {
    if !Free(start, end, busy) {
      var i :| 0 <= i < |busy| && !Apart(start, end, busy[i]);
      var t := if start < busy[i].start then busy[i].start else start;
      assert Contains(busy[i], t);
      assert Covered(busy, t);
    }
  }

  /** Testing against the merged union is testing against both calendars. */
  lemma FreeOfUnion(start: int, end: int, merged: seq<BusyInterval>,
                    outlook: seq<BusyInterval>, google: seq<BusyInterval>)
    requires start < end
    requires forall t :: Covered(merged, t) <==> Covered(outlook, t) || Covered(google, t)
    ensures Free(start, end, merged) <==> Free(start, end, outlook) && Free(start, end, google)
  {
    FreeIffUncovered(start, end, merged);
    FreeIffUncovered(start, end, outlook);
    FreeIffUncovered(start, end, google);
  }

  /** The positive length is needed: an empty candidate where two calendars touch is free of
      each, but not of their union. */
  lemma EmptyCandidateOnSeam()
    ensures var merged, outlook, google := [Interval(0, 2)], [Interval(0, 1)], [Interval(1, 2)];
            && (forall t :: Covered(merged, t) <==> Covered(outlook, t) || Covered(google, t))
            && Free(1, 1, outlook) && Free(1, 1, google) && !Free(1, 1, merged)
  {
    var merged, outlook, google: seq<BusyInterval> := [Interval(0, 2)], [Interval(0, 1)], [Interval(1, 2)];
    assert !Apart(1, 1, merged[0]);
    forall t
      ensures Covered(merged, t) <==> Covered(outlook, t) || Covered(google, t)
    {
      assert Covered(merged, t) <==> Contains(merged[0], t);
      assert Covered(outlook, t) <==> Contains(outlook[0], t);
      assert Covered(google, t) <==> Contains(google[0], t);
    }
  }
}
