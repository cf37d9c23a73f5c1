/**
 Where the availability search is complete. It stops at the local date of the
 booking horizon, so it finds every valid start exactly when no grid time up to
 the horizon shows a later date; a clock that falls back across midnight shortly
 before the horizon breaks that.
 */
module AvailabilityHorizon {
  import opened Common
  import opened Zone
  import opened Selection
  import opened Availability

  const SECOND: int := 1_000_000_000

  /** Transitions and offsets fall on whole seconds, as in the timezone database. */
  ghost predicate OnWholeSeconds(zone: TimeZone) {
    zone.initial % SECOND == 0
    && forall i :: 0 <= i < |zone.transitions| ==>
         zone.transitions[i].at % SECOND == 0 && zone.transitions[i].offset % SECOND == 0
  }

  /** `u` is the earliest reading of a fifteen-minute grid time. */
  predicate GridReading(zone: TimeZone, u: int) {
    zone.ToLocal(u) % QUARTER == 0 && zone.LocalToUtc(zone.ToLocal(u)) == Some(u)
  }

  /** No bookable grid time shows a date after that of the horizon. */
  ghost predicate CoversHorizon(zone: TimeZone, lead: int, horizonEnd: int) {
    forall u :: lead <= u < horizonEnd && GridReading(zone, u) ==>
      Date(zone.ToLocal(u)) <= Date(zone.ToLocal(horizonEnd))
  }

  ghost predicate SameFrame(q: Request, zone: TimeZone, now: int, notice: int, horizon: int) {
    && q.Ready() && q.policy.zone == zone && q.now == now
    && q.policy.notice == notice && q.policy.horizon == horizon
  }

  ghost predicate Misses(q: Request, u: int) {
    ValidStart(q, u) && !Offered(q, u)
  }

  lemma CoveredIsOffered(q: Request, u: int)
    requires q.Ready() && CoversHorizon(q.policy.zone, q.Lead(), q.HorizonEnd())
    ensures !Misses(q, u)
  {
    if ValidStart(q, u) {
      var w := ValidStartOnGrid(q, u);
      assert GridReading(q.policy.zone, u);
    }
  }

  /** A nanosecond after a grid time the clock has moved on by a nanosecond. */
  lemma NextNanosecond(zone: TimeZone, u: int)
    requires zone.Sorted() && OnWholeSeconds(zone) && GridReading(zone, u)
    ensures zone.ToLocal(u + 1) == zone.ToLocal(u) + 1
  {
    var i := ClockSpan(zone, u);
    WholeSecond(zone, u, i);
    SpanIsUnique(zone, i, u + 1);
  }

  lemma WholeSecond(zone: TimeZone, u: int, i: nat)
    requires OnWholeSeconds(zone) && i <= zone.Last() && (u + zone.Offset(i)) % QUARTER == 0
    ensures u % SECOND == 0
    ensures i < zone.Last() ==> zone.transitions[i].at != u + 1
  {
    var local, offset := u + zone.Offset(i), zone.Offset(i);
    assert offset % SECOND == 0;
    assert local == 900 * SECOND * (local / QUARTER);
    assert u == SECOND * (900 * (local / QUARTER) - offset / SECOND);
    assert u % SECOND == 0;
  }

  /** A missed grid time can be made the start of a bookable meeting. */
  lemma MissedMeeting(zone: TimeZone, now: Instant, notice: int, horizon: int, u: int) returns (q: Request)
    requires zone.WellSpaced() && OnWholeSeconds(zone) && notice >= 0 && horizon > 0
    requires now + notice <= MAX_INSTANT && now + horizon <= MAX_INSTANT
    requires now + notice <= u < now + horizon && GridReading(zone, u)
    requires Date(zone.ToLocal(now + horizon)) < Date(zone.ToLocal(u))
    ensures SameFrame(q, zone, now, notice, horizon) && Misses(q, u)
  {
    var local := zone.ToLocal(u);
    var time := TimeOfDay(local);
    GridBeforeMidnight(local);
    var w: WorkingWindow := Window(time, time + 1);
    q := Request(Policy(zone, [[w], [w], [w], [w], [w], [w], [w]], notice, horizon, 0), now, 1, [], []);
    EndsANanosecondLater(zone, u);
    assert q.WindowsOn(Date(local)) == [w];
    assert Fits(q, u, q.WindowsOn(Date(local))[0]);
  }

  lemma EndsANanosecondLater(zone: TimeZone, u: int)
    requires zone.WellSpaced() && OnWholeSeconds(zone) && GridReading(zone, u)
    ensures EndsWithinWindow(zone, Date(zone.ToLocal(u)), TimeOfDay(zone.ToLocal(u)) + 1, u + 1)
  {
    var local := zone.ToLocal(u);
    GridBeforeMidnight(local);
    NextNanosecond(zone, u);
    DateAndTime(local);
    LocalOf(Date(local), TimeOfDay(local) + 1);
    if zone.LocalToUtc(local + 1).Some? {
      EarliestReadingsAdvance(zone, local, local + 1);
    }
  }

  lemma GridBeforeMidnight(local: int)
    requires local % QUARTER == 0
    ensures TimeOfDay(local) + 1 < DAY
  {
    assert local == QUARTER * (local / QUARTER);
  }

  /** The search misses no valid start of any request exactly when the zone covers the horizon. */
  lemma CompleteIffHorizonCovered(zone: TimeZone, now: Instant, notice: int, horizon: int)
    requires zone.WellSpaced() && OnWholeSeconds(zone) && notice >= 0 && horizon > 0
    requires now + notice <= MAX_INSTANT && now + horizon <= MAX_INSTANT
    ensures CoversHorizon(zone, now + notice, now + horizon)
       <==> forall q, u :: SameFrame(q, zone, now, notice, horizon) ==> !Misses(q, u)
  {
    if CoversHorizon(zone, now + notice, now + horizon) {
      forall q, u | SameFrame(q, zone, now, notice, horizon) ensures !Misses(q, u) {
        CoveredIsOffered(q, u);
      }
    } else {
      var u :| now + notice <= u < now + horizon && GridReading(zone, u)
             && Date(zone.ToLocal(now + horizon)) < Date(zone.ToLocal(u));
      var q := MissedMeeting(zone, now, notice, horizon, u);
    }
  }

  /** Where the horizon is covered, the answer is the first valid starts outright. */
  lemma CoveredAnswer(q: Request, slots: seq<int>, limit: nat)
    requires q.Ready() && CoversHorizon(q.policy.zone, q.Lead(), q.HorizonEnd())
    ensures FirstOffered(q, slots, limit) <==> First(slots, limit, Valid(q))
  {
    forall u ensures Valid(q)(u) <==> OfferedStarts(q)(u) {
      CoveredIsOffered(q, u);
    }
  }

  /** A transition that does not take the wall clock back to an earlier date. */
  predicate KeepsDate(zone: TimeZone, i: nat)
    requires i < |zone.transitions|
  {
    Date(zone.transitions[i].at - 1 + zone.Offset(i)) <= Date(zone.transitions[i].at + zone.Offset(i + 1))
  }

  lemma {:induction false} DatesAdvance(zone: TimeZone, i: nat, u: int, j: nat, v: int)
    requires zone.WellSpaced() && forall k: nat :: k < |zone.transitions| ==> KeepsDate(zone, k)
    requires i <= j <= zone.Last() && zone.InSpan(i, u) && zone.InSpan(j, v) && u <= v
    ensures Date(u + zone.Offset(i)) <= Date(v + zone.Offset(j))
    decreases j - i
  {
    if i == j {
      EarlierDate(u + zone.Offset(i), v + zone.Offset(i));
    } else {
      var t := zone.transitions[j - 1].at;
      assert KeepsDate(zone, j - 1);
      EarlierDate(t + zone.Offset(j), v + zone.Offset(j));
      if i < j - 1 {
        assert zone.transitions[j - 2].at < t;
        LaterSpanIsLater(zone, i, j - 1, u, t - 1);
      }
      DatesAdvance(zone, i, u, j - 1, t - 1);
    }
  }

  /** In a zone whose clock never goes back across midnight the search is complete. */
  lemma NoMidnightRewind(zone: TimeZone, lead: int, horizonEnd: int)
    requires zone.WellSpaced() && forall k: nat :: k < |zone.transitions| ==> KeepsDate(zone, k)
    ensures CoversHorizon(zone, lead, horizonEnd)
  {
    forall u | lead <= u < horizonEnd
      ensures Date(zone.ToLocal(u)) <= Date(zone.ToLocal(horizonEnd))
    {
      var i := ClockSpan(zone, u);
      var j := ClockSpan(zone, horizonEnd);
      if j < i {
        LaterSpanIsLater(zone, j, i, horizonEnd, u);
      }
      DatesAdvance(zone, i, u, j, horizonEnd);
    }
  }

  const REWIND_ZONE: TimeZone := TimeZone(-9_000 * SECOND, [Transition(DAY + 9_060 * SECOND, -12_600 * SECOND)])

  lemma RewindClock()
    ensures REWIND_ZONE.WellSpaced() && OnWholeSeconds(REWIND_ZONE)
    ensures REWIND_ZONE.ToLocal(DAY) == DAY - 9_000 * SECOND
    ensures REWIND_ZONE.ToLocal(DAY + 9_900 * SECOND) == DAY - 2_700 * SECOND
    ensures REWIND_ZONE.ToLocal(DAY + 9_000 * SECOND) == DAY
    ensures REWIND_ZONE.LocalToUtc(DAY) == Some(DAY + 9_000 * SECOND)
  {
    assert REWIND_ZONE.InSpan(0, DAY + 9_000 * SECOND);
    assert REWIND_ZONE.ReadingFrom(DAY, 0) == Some(0);
    FirstReadingWins(REWIND_ZONE, DAY);
  }

  function RewindRequest(): Request {
    var w: WorkingWindow := Window(0, 8 * 60 * MINUTE);
    Request(Policy(REWIND_ZONE, [[], [], [], [], [w], [], []], 0, 9_900 * SECOND, 0), DAY, 30 * SECOND, [], [])
  }

  lemma RewindMissesMidnight()
    ensures RewindRequest().Ready() && Misses(RewindRequest(), DAY + 9_000 * SECOND)
  {
    var q, u := RewindRequest(), DAY + 9_000 * SECOND;
    RewindClock();
    MidnightWindowEnd(REWIND_ZONE);
    var w: WorkingWindow := Window(0, 8 * 60 * MINUTE);
    assert q.WindowsOn(1) == [w];
    assert Fits(q, u, q.WindowsOn(1)[0]);
  }

  lemma RewindDates()
    ensures RewindRequest().FirstDate() == 0 && RewindRequest().FinalDate() == 0 && RewindRequest().WindowsOn(0) == []
  {
    RewindClock();
  }

  lemma NotBeforeToday(q: Request, s: int)
    requires q.Ready() && ValidStart(q, s)
    ensures q.FirstDate() <= Date(q.policy.zone.ToLocal(s))
  {
    var w := ValidStartOnGrid(q, s);
    NotBelowOnTheClock(q.policy.zone, q.policy.zone.ToLocal(s), q.now);
    EarlierDate(q.policy.zone.ToLocal(q.now), q.policy.zone.ToLocal(s));
  }

  lemma NoWindowToday(q: Request, s: int)
    requires q.Ready() && q.FinalDate() == q.FirstDate() && q.WindowsOn(q.FirstDate()) == []
    ensures !Offered(q, s)
  {
    if Offered(q, s) {
      NotBeforeToday(q, s);
    }
  }

  lemma RewindOffersNothing(s: int)
    ensures !Offered(RewindRequest(), s)
  {
    RewindDates();
    RewindMissesMidnight();
    NoWindowToday(RewindRequest(), s);
  }

  /** A clock that goes back from 00:01 to 23:01: a horizon inside the repeated hour hides a
      half-minute meeting at midnight, and the search answers that there is no start. */
  lemma MidnightFallBack()
    ensures RewindRequest().Ready() && OnWholeSeconds(RewindRequest().policy.zone)
    ensures Misses(RewindRequest(), DAY + 9_000 * SECOND)
    ensures FirstOffered(RewindRequest(), [], 1) && !First([], 1, Valid(RewindRequest()))
  {
    RewindClock();
    RewindMissesMidnight();
    forall s ensures !OfferedStarts(RewindRequest())(s) {
      RewindOffersNothing(s);
    }
    assert Valid(RewindRequest())(DAY + 9_000 * SECOND);
  }

  lemma MidnightWindowEnd(zone: TimeZone)
    requires zone == TimeZone(-9_000 * SECOND, [Transition(DAY + 9_060 * SECOND, -12_600 * SECOND)])
    ensures EndsWithinWindow(zone, 1, 8 * 60 * MINUTE, DAY + 9_030 * SECOND)
  {
    assert zone.ToLocal(DAY + 9_030 * SECOND) == DAY + 30 * SECOND;
    var local := DAY + 8 * 60 * MINUTE;
    assert zone.InSpan(1, local + 12_600 * SECOND);
    FirstReadingWins(zone, local);
    ReadingFromFinds(zone, local, 0, 1);
    assert zone.LocalToUtc(local).Some?;
  }

  /** A day's room at both ends of the supported range is enough never to fail: zone offsets
      stay below a day, and candidates lie within a day of the dates searched. */
  lemma NeverFailsWithRoom(q: Request, limit: nat)
    requires q.Ready()
    requires forall i: nat :: i <= q.policy.zone.Last() ==> -DAY < q.policy.zone.Offset(i) < DAY
    requires MIN_INSTANT + 2 * DAY + q.policy.buffer <= q.now
    requires q.HorizonEnd() + 3 * DAY + q.duration + q.policy.buffer <= MAX_INSTANT
    ensures !FailsFirst(q, limit)
  {
    forall l, w | GridTime(q, l, w) && Overflows(q, l, w) && Date(l) <= q.FinalDate() ensures false {
      WithinRoom(q, l);
    }
  }

  lemma WithinRoom(q: Request, l: int)
    requires q.Ready() && q.policy.zone.LocalToUtc(l).Some?
    requires forall i: nat :: i <= q.policy.zone.Last() ==> -DAY < q.policy.zone.Offset(i) < DAY
    requires q.policy.zone.ToLocal(q.Lead()) <= l && Date(l) <= q.FinalDate()
    ensures q.Lead() - 2 * DAY < q.policy.zone.LocalToUtc(l).value < q.HorizonEnd() + 3 * DAY
  {
    var zone := q.policy.zone;
    var start := zone.LocalToUtc(l).value;
    ReadingShows(zone, l);
    var i := ClockSpan(zone, start);
    var j := ClockSpan(zone, q.Lead());
    var k := ClockSpan(zone, q.HorizonEnd());
    WithinDate(l, q.FinalDate() + 1);
    DateAndTime(zone.ToLocal(q.HorizonEnd()));
  }
}
