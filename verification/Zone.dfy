/**
 Wall clocks: a timezone is an initial UTC offset and a list of UTC instants at
 which the offset changes. Instants and local times are integer nanoseconds.
 */
module Zone {
  import opened Common

  datatype Transition = Transition(at: int, offset: int)

  datatype TimeZone = TimeZone(initial: int, transitions: seq<Transition>) {

    /** Number of spans of constant offset, minus one: span `i` begins at transition `i - 1`. */
    function Last(): nat {
      |transitions|
    }

    function Offset(i: nat): int
      requires i <= Last()
    {
      if i == 0 then initial else transitions[i - 1].offset
    }

    predicate InSpan(i: nat, u: int)
      requires i <= Last()
    {
      && (i == 0 || transitions[i - 1].at <= u)
      && (i == Last() || u < transitions[i].at)
    }

    ghost predicate Sorted() {
      forall i, j :: 0 <= i < j < |transitions| ==> transitions[i].at < transitions[j].at
    }

    /** The span between transitions `i` and `i + 1` outlasts the two offset changes at its ends together. */
    predicate Outlasts(i: nat)
      requires i + 1 < |transitions|
    {
      transitions[i + 1].at - transitions[i].at
        > Abs(Offset(i + 1) - Offset(i)) + Abs(Offset(i + 2) - Offset(i + 1))
    }

    ghost predicate WellSpaced() {
      && Sorted()
      && forall i: nat :: i + 1 < |transitions| ==> Outlasts(i)
    }

    function SpanUpTo(u: int, i: nat): (s: nat)
      requires i <= Last()
      ensures s <= i
    {
      if i == 0 || transitions[i - 1].at <= u then i else SpanUpTo(u, i - 1)
    }

    /** The local time a wall clock shows at instant `u`. */
    function ToLocal(u: int): int {
      u + Offset(SpanUpTo(u, Last()))
    }

    /** The first span, from span `i` on, in which the wall clock shows `local`. */
    function ReadingFrom(local: int, i: nat): (r: Option<nat>)
      requires i <= Last() + 1
      ensures r.Some? ==> i <= r.value <= Last()
      decreases Last() + 1 - i
    {
      if i > Last() then None
      else if InSpan(i, local - Offset(i)) then Some(i)
      else ReadingFrom(local, i + 1)
    }

    /** The instants at which the wall clock shows `local`. */
    function FromLocal(local: int): LocalResult {
      match ReadingFrom(local, 0)
      case None => NoReading
      case Some(i) =>
        match ReadingFrom(local, i + 1)
        case None => Single(local - Offset(i))
        case Some(j) => Ambiguous(local - Offset(i), local - Offset(j))
    }

    /** The earliest reading of a local time. */
    function LocalToUtc(local: int): Option<int> {
      match FromLocal(local)
      case Single(u) => Some(u)
      case Ambiguous(first, second) => Some(if first <= second then first else second)
      case NoReading => None
    }
  }

  datatype LocalResult = NoReading | Single(instant: int) | Ambiguous(first: int, second: int)

  function Abs(x: int): int {
    if x < 0 then -x else x
  }

  /** `SpanUpTo` stops at the last transition not after `u`. */
  lemma {:induction false} SpanUpToStops(z: TimeZone, u: int, i: nat)
    requires i <= z.Last()
    ensures var s := z.SpanUpTo(u, i);
            (s == 0 || z.transitions[s - 1].at <= u) && (s < i ==> u < z.transitions[s].at)
  {
    if 0 < i && u < z.transitions[i - 1].at {
      SpanUpToStops(z, u, i - 1);
    }
  }

  /** The wall clock at `u` is that of the span holding `u`. */
  lemma ClockSpan(z: TimeZone, u: int) returns (i: nat)
    ensures i <= z.Last() && z.InSpan(i, u) && z.ToLocal(u) == u + z.Offset(i)
    ensures i == z.SpanUpTo(u, z.Last())
  {
    SpanUpToStops(z, u, z.Last());
    i := z.SpanUpTo(u, z.Last());
  }

  /** `ReadingFrom` returns the first span that shows the local time. */
  lemma {:induction false} ReadingFromFinds(z: TimeZone, local: int, i: nat, k: nat)
    requires i <= z.Last() + 1
    ensures var r := z.ReadingFrom(local, i);
            && (r.Some? ==> z.InSpan(r.value, local - z.Offset(r.value)))
            && (i <= k <= z.Last() && z.InSpan(k, local - z.Offset(k)) ==> r.Some? && r.value <= k)
    decreases z.Last() + 1 - i
  {
    if i <= z.Last() && !z.InSpan(i, local - z.Offset(i)) {
      ReadingFromFinds(z, local, i + 1, k);
    }
  }

  lemma LaterSpanIsLater(z: TimeZone, i: nat, j: nat, u: int, v: int)
    requires z.Sorted() && i < j <= z.Last() && z.InSpan(i, u) && z.InSpan(j, v)
    ensures u < v
  {
    assert i == j - 1 || z.transitions[i].at < z.transitions[j - 1].at;
  }

  lemma SpanIsUnique(z: TimeZone, i: nat, u: int)
    requires z.Sorted() && i <= z.Last() && z.InSpan(i, u)
    ensures z.SpanUpTo(u, z.Last()) == i
  {
    var s := ClockSpan(z, u);
    if s < i {
      LaterSpanIsLater(z, s, i, u, u);
    } else if i < s {
      LaterSpanIsLater(z, i, s, u, u);
    }
  }

  /** `LocalToUtc` returns the first span's reading. */
  lemma FirstReadingWins(z: TimeZone, local: int)
    requires z.Sorted()
    ensures z.LocalToUtc(local)
         == match z.ReadingFrom(local, 0) case None => None case Some(i) => Some(local - z.Offset(i))
  {
    ReadingFromFinds(z, local, 0, 0);
    if z.ReadingFrom(local, 0).Some? {
      SecondReadingIsLater(z, local, z.ReadingFrom(local, 0).value);
    }
  }

  lemma SecondReadingIsLater(z: TimeZone, local: int, i: nat)
    requires z.Sorted() && z.ReadingFrom(local, 0) == Some(i)
    ensures var s := z.ReadingFrom(local, i + 1);
            s.Some? ==> local - z.Offset(i) <= local - z.Offset(s.value)
  {
    ReadingFromFinds(z, local, 0, 0);
    ReadingFromFinds(z, local, i + 1, 0);
    var s := z.ReadingFrom(local, i + 1);
    if s.Some? {
      LaterSpanIsLater(z, i, s.value, local - z.Offset(i), local - z.Offset(s.value));
    }
  }

  lemma NoReadingBefore(z: TimeZone, local: int, v: int)
    requires z.Sorted() && z.ToLocal(v) == local
    ensures z.LocalToUtc(local).Some? && z.LocalToUtc(local).value <= v
  {
    FirstReadingWins(z, local);
    var k := ClockSpan(z, v);
    ReadingFromFinds(z, local, 0, k);
    var i := z.ReadingFrom(local, 0).value;
    if i < k {
      LaterSpanIsLater(z, i, k, local - z.Offset(i), v);
    }
  }

  lemma ReadingShows(z: TimeZone, local: int)
    requires z.Sorted() && z.LocalToUtc(local).Some?
    ensures z.ToLocal(z.LocalToUtc(local).value) == local
  {
    FirstReadingWins(z, local);
    ReadingFromFinds(z, local, 0, 0);
    var i := z.ReadingFrom(local, 0).value;
    SpanIsUnique(z, i, local - z.Offset(i));
  }

  /** `LocalToUtc` finds a reading of `local` exactly when there is one, and it is the first. */
  lemma EarliestReading(z: TimeZone, local: int)
    requires z.Sorted()
    ensures z.LocalToUtc(local).Some? ==> z.ToLocal(z.LocalToUtc(local).value) == local
    ensures forall v :: z.ToLocal(v) == local ==> z.LocalToUtc(local).Some? && z.LocalToUtc(local).value <= v
  {
    if z.LocalToUtc(local).Some? {
      ReadingShows(z, local);
    }
    forall v | z.ToLocal(v) == local
      ensures z.LocalToUtc(local).Some? && z.LocalToUtc(local).value <= v
    {
      NoReadingBefore(z, local, v);
    }
  }

  /** Wall-clock times at which spans begin never go backwards. */
  lemma {:induction false} SpanStartsAdvance(z: TimeZone, i: nat, j: nat)
    requires z.WellSpaced() && 1 <= i <= j <= z.Last()
    ensures z.transitions[i - 1].at + z.Offset(i) <= z.transitions[j - 1].at + z.Offset(j)
    decreases j
  {
    if i < j {
      SpanStartsAdvance(z, i, j - 1);
      assert z.Outlasts(j - 2);
    }
  }

  /** A wall clock shows any local time at most twice. */
  lemma AtMostTwoReadings(z: TimeZone, local: int, i: nat, j: nat, k: nat)
    requires z.WellSpaced() && i < j < k <= z.Last()
    requires z.InSpan(i, local - z.Offset(i)) && z.InSpan(j, local - z.Offset(j))
    ensures !z.InSpan(k, local - z.Offset(k))
  {
    // By the start of span i + 2 the clock is past every time shown in span i.
    SpanStartsAdvance(z, i + 2, k);
    assert z.Outlasts(i);
  }

  /** If the clock shows `local` at `u` and at least that much at some `v` in an earlier
      span, then that span shows `local` itself, at or before `v`. */
  lemma ShownInEarlierSpan(z: TimeZone, local: int, i: nat, v: int, j: nat, u: int)
    requires z.WellSpaced() && i <= j <= z.Last()
    requires z.InSpan(i, v) && z.InSpan(j, u)
    requires local == u + z.Offset(j) <= v + z.Offset(i)
    ensures z.InSpan(i, local - z.Offset(i))
  {
    if 0 < i {
      SpanStartsAdvance(z, i, j);
    }
  }

  /** Before its earliest reading a local time has not been reached: every earlier
      instant shows a strictly smaller wall-clock time. */
  lemma ClockFirstReaches(z: TimeZone, local: int, v: int)
    requires z.WellSpaced()
    requires z.LocalToUtc(local).Some? && v < z.LocalToUtc(local).value
    ensures z.ToLocal(v) < local
  {
    var u := z.LocalToUtc(local).value;
    FirstReadingWins(z, local);
    ReadingFromFinds(z, local, 0, 0);
    var j := z.ReadingFrom(local, 0).value;
    var i := ClockSpan(z, v);
    if j < i {
      LaterSpanIsLater(z, j, i, u, v);
    } else if local <= z.ToLocal(v) {
      ShownInEarlierSpan(z, local, i, v, j, u);
      ReadingFromFinds(z, local, 0, i);
    }
  }

  /** The earliest-reading map is strictly monotone where it is defined. */
  lemma EarliestReadingsAdvance(z: TimeZone, a: int, b: int)
    requires z.WellSpaced() && a < b
    requires z.LocalToUtc(a).Some? && z.LocalToUtc(b).Some?
    ensures z.LocalToUtc(a).value < z.LocalToUtc(b).value
  {
    ReadingShows(z, a);
    ReadingShows(z, b);
    if z.LocalToUtc(b).value < z.LocalToUtc(a).value {
      ClockFirstReaches(z, a, z.LocalToUtc(b).value);
    }
  }
}
