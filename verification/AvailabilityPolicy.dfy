/** The validating constructor of an availability policy. */
module AvailabilityPolicy {
  import opened Common
  import opened Zone
  import opened Sorting
  import opened Availability

  /** The windows given for one weekday, in the order given. */
  function GivenFor(days: seq<(nat, seq<WorkingWindow>)>, weekday: nat): seq<WorkingWindow> {
    if days == [] then []
    else
      var rest := GivenFor(days[..|days| - 1], weekday);
      var last := days[|days| - 1];
      if last.0 == weekday then rest + last.1 else rest
  }

  predicate ApartWindows(a: WorkingWindow, b: WorkingWindow) {
    a.end <= b.start || b.end <= a.start
  }

  /** No two of the windows share an instant. */
  ghost predicate NoOverlap(windows: multiset<WorkingWindow>) {
    && (forall a :: a in windows ==> windows[a] == 1)
    && (forall a, b :: a in windows && b in windows && a != b ==> ApartWindows(a, b))
  }

  ghost predicate StartOrdered(s: seq<WorkingWindow>) {
    SortedBy(s, StartsEarlier)
  }

  lemma {:induction false} NeighboursSuffice(s: seq<WorkingWindow>)
    requires forall i :: 0 <= i < |s| - 1 ==> s[i].end <= s[i + 1].start
    ensures Disjoint(s)
  {
    if s != [] {
      var init := s[..|s| - 1];
      NeighboursSuffice(init);
      forall i | 0 <= i < |s| - 1 ensures s[i].end <= s[|s| - 1].start {
        if i < |s| - 2 {
          assert init[i].end <= init[|s| - 2].start;
        }
      }
      assert forall i, j :: 0 <= i < j < |s| - 1 ==> init[i].end <= init[j].start;
    }
  }

  lemma {:induction false} DisjointHasNoRepeat(s: seq<WorkingWindow>, a: WorkingWindow)
    requires Disjoint(s)
    ensures multiset(s)[a] <= 1
  {
    if s != [] {
      var init, last := s[..|s| - 1], s[|s| - 1];
      assert s == init + [last];
      forall i, j | 0 <= i < j < |init| ensures init[i].end <= init[j].start {
        assert s[i].end <= s[j].start;
      }
      DisjointHasNoRepeat(init, a);
      forall i | 0 <= i < |init| ensures init[i] != last {
        assert s[i].end <= s[|s| - 1].start;
      }
    }
  }

  lemma RepeatCounts(s: seq<WorkingWindow>, i: nat)
    requires i + 1 < |s| && s[i] == s[i + 1]
    ensures multiset(s)[s[i]] >= 2
  {
    assert s == s[..i] + [s[i]] + [s[i + 1]] + s[i + 2..];
  }

  predicate NeighboursApart(s: seq<WorkingWindow>) {
    forall i :: 0 <= i < |s| - 1 ==> s[i].end <= s[i + 1].start
  }

  lemma NeighboursOf(s: seq<WorkingWindow>, i: nat)
    requires StartOrdered(s) && NoOverlap(multiset(s)) && i + 1 < |s|
    ensures s[i].end <= s[i + 1].start
  {
    assert s[i] in multiset(s) && s[i + 1] in multiset(s);
    if s[i] == s[i + 1] {
      RepeatCounts(s, i);
    }
    assert StartsEarlier(s[i], s[i + 1]);
  }

  lemma DisjointDoesNotOverlap(s: seq<WorkingWindow>)
    requires Disjoint(s)
    ensures NoOverlap(multiset(s))
  {
    forall a | a in multiset(s) ensures multiset(s)[a] == 1 {
      DisjointHasNoRepeat(s, a);
    }
    forall a, b | a in multiset(s) && b in multiset(s) && a != b ensures ApartWindows(a, b) {
      var i :| 0 <= i < |s| && s[i] == a;
      var j :| 0 <= j < |s| && s[j] == b;
    }
  }

  /** On a list ordered by start, comparing neighbours decides whether any two windows overlap. */
  lemma OrderedNoOverlap(s: seq<WorkingWindow>)
    requires StartOrdered(s)
    ensures NoOverlap(multiset(s)) <==> NeighboursApart(s)
    ensures NeighboursApart(s) ==> Disjoint(s)
  {
    if NeighboursApart(s) {
      NeighboursSuffice(s);
      DisjointDoesNotOverlap(s);
    } else if NoOverlap(multiset(s)) {
      forall i | 0 <= i < |s| - 1 ensures s[i].end <= s[i + 1].start {
        NeighboursOf(s, i);
      }
    }
  }

  ghost predicate DurationsValid(notice: int, horizon: int, buffer: int) {
    notice >= 0 && horizon > 0 && buffer >= 0
  }

  /** The duration named in the error. */
  function BadDuration(notice: int, horizon: int): string {
    if notice < 0 then "minimum_notice" else if horizon <= 0 then "booking_horizon" else "meeting_buffer"
  }

  /** Builds a policy, or says what is wrong with its parts. The parsed timezone is a parameter. */
  method NewPolicy(zone: Option<TimeZone>, days: seq<(nat, seq<WorkingWindow>)>, notice: int, horizon: int, buffer: int)
    returns (r: Result<Policy, Error>)
    requires forall i :: 0 <= i < |days| ==> days[i].0 < 7
    requires zone.Some? ==> zone.value.WellSpaced()
    ensures zone.None? ==> r == Err(InvalidTimezone)
    ensures zone.Some? && !DurationsValid(notice, horizon, buffer) ==>
              r == Err(InvalidDuration(BadDuration(notice, horizon)))
    ensures zone.Some? && DurationsValid(notice, horizon, buffer) ==>
              if forall d: nat :: d < 7 ==> NoOverlap(multiset(GivenFor(days, d)))
              then r.Ok? else r == Err(InvalidWorkingWindow)
    ensures r.Ok? ==>
              && r.value.Valid() && r.value.zone == zone.value
              && r.value.notice == notice && r.value.horizon == horizon && r.value.buffer == buffer
              && forall d: nat :: d < 7 ==> multiset(r.value.windows[d]) == multiset(GivenFor(days, d))
  {
    if zone.None? {
      return Err(InvalidTimezone);
    }
    if notice < 0 || horizon <= 0 || buffer < 0 {
      var field := if notice < 0 then "minimum_notice" else if horizon <= 0 then "booking_horizon" else "meeting_buffer";
      return Err(InvalidDuration(field));
    }
    var indexed := IndexWindows(days);
    var ordered := OrderDays(indexed);
    OrderedGiven(days, indexed);
    return if ordered.None? then Err(InvalidWorkingWindow) else Ok(Policy(zone.value, ordered.value, notice, horizon, buffer));
  }

  /** The windows listed for each day of the week are those given for it, in some order. */
  ghost predicate Indexes(indexed: seq<seq<WorkingWindow>>, days: seq<(nat, seq<WorkingWindow>)>) {
    |indexed| == 7 && forall d: nat :: d < 7 ==> multiset(indexed[d]) == multiset(GivenFor(days, d))
  }

  lemma IndexNext(indexed: seq<seq<WorkingWindow>>, days: seq<(nat, seq<WorkingWindow>)>, last: (nat, seq<WorkingWindow>),
                  windows: seq<WorkingWindow>)
    requires Indexes(indexed, days) && last.0 < 7 && multiset(windows) == multiset(last.1)
    ensures Indexes(indexed[last.0 := indexed[last.0] + windows], days + [last])
  {
    assert (days + [last])[..|days|] == days;
  }

  /** Sorts each given list into its weekday. */
  method IndexWindows(days: seq<(nat, seq<WorkingWindow>)>) returns (indexed: seq<seq<WorkingWindow>>)
    requires forall i :: 0 <= i < |days| ==> days[i].0 < 7
    ensures Indexes(indexed, days)
  {
    indexed := [[], [], [], [], [], [], []];
    for k := 0 to |days|
      invariant Indexes(indexed, days[..k])
    {
      var (weekday, windows) := days[k];
      var sorted := Sort(windows, StartsEarlier);
      IndexNext(indexed, days[..k], days[k], sorted);
      assert days[..k + 1] == days[..k] + [days[k]];
      indexed := indexed[weekday := indexed[weekday] + sorted];
    }
    assert days[..|days|] == days;
  }

  /** No two windows of one day overlap. */
  ghost predicate DaysApart(indexed: seq<seq<WorkingWindow>>) {
    forall d: nat :: d < |indexed| ==> NoOverlap(multiset(indexed[d]))
  }

  lemma OrderedGiven(days: seq<(nat, seq<WorkingWindow>)>, indexed: seq<seq<WorkingWindow>>)
    requires Indexes(indexed, days)
    ensures DaysApart(indexed) <==> forall d: nat :: d < 7 ==> NoOverlap(multiset(GivenFor(days, d)))
  {
    if DaysApart(indexed) {
      forall d: nat | d < 7 ensures NoOverlap(multiset(GivenFor(days, d))) {
        assert NoOverlap(multiset(indexed[d]));
      }
    } else {
      var d: nat :| d < 7 && !NoOverlap(multiset(indexed[d]));
      assert !NoOverlap(multiset(GivenFor(days, d)));
    }
  }

  method OrderDay(windows: seq<WorkingWindow>) returns (day: Option<seq<WorkingWindow>>)
    ensures day.Some? <==> NoOverlap(multiset(windows))
    ensures day.Some? ==> Disjoint(day.value) && multiset(day.value) == multiset(windows)
  {
    var sorted := Sort(windows, StartsEarlier);
    SortSorts(windows, StartsEarlier);
    OrderedNoOverlap(sorted);
    return if NeighboursApart(sorted) then Some(sorted) else None;
  }

  /** Sorts every day by start and refuses an overlap. */
  method OrderDays(indexed: seq<seq<WorkingWindow>>) returns (ordered: Option<seq<seq<WorkingWindow>>>)
    ensures ordered.Some? <==> DaysApart(indexed)
    ensures ordered.Some? ==>
              && |ordered.value| == |indexed|
              && forall d: nat :: d < |indexed| ==>
                   Disjoint(ordered.value[d]) && multiset(ordered.value[d]) == multiset(indexed[d])
  {
    var weekdays := indexed;
    for d := 0 to |indexed|
      invariant |weekdays| == |indexed|
      invariant forall e: nat :: e < d ==> Disjoint(weekdays[e]) && multiset(weekdays[e]) == multiset(indexed[e])
      invariant forall e: nat :: d <= e < |indexed| ==> weekdays[e] == indexed[e]
      invariant forall e: nat :: e < d ==> NoOverlap(multiset(indexed[e]))
    {
      var day := OrderDay(weekdays[d]);
      if day.None? {
        return None;
      }
      weekdays := weekdays[d := day.value];
    }
    return Some(weekdays);
  }
}
