/**
 Owner availability: which starts a calendar policy offers, and the search over
 local dates, working windows and a fifteen-minute grid that finds the first of
 them. Instants and local times count nanoseconds; a local date is a day number.
 */
module Availability {
  import opened Common
  import opened Zone
  import opened Busy
  import opened Selection

  const MINUTE: int := 60_000_000_000
  const QUARTER: int := 900_000_000_000
  const DAY: int := 86_400_000_000_000

  /** The instants a UTC date-time can hold: the years -9999 to 9999. */
  const MIN_INSTANT: int := -4_371_587 * 86_400_000_000_000
  const MAX_INSTANT: int := 2_932_897 * 86_400_000_000_000 - 1

  type Instant = t: int | MIN_INSTANT <= t <= MAX_INSTANT

  datatype Window = Window(start: int, end: int)

  /** A validated working window: times of one day, end after start. */
  type WorkingWindow = w: Window | 0 <= w.start < w.end < 86_400_000_000_000 witness Window(0, 1)

  datatype Error =
    | InvalidTimezone
    | InvalidDuration(field: string)
    | InvalidWorkingWindow
    | DateTimeOverflow

  function Date(local: int): int {
    local / DAY
  }

  function TimeOfDay(local: int): int {
    local % DAY
  }

  /** Days since Monday; day 0 is a Thursday. */
  function Weekday(date: int): (d: nat)
    ensures d < 7
  {
    (date + 3) % 7
  }

  predicate StartsEarlier(a: WorkingWindow, b: WorkingWindow) {
    a.start <= b.start
  }

  ghost predicate Disjoint(windows: seq<WorkingWindow>) {
    forall i, j :: 0 <= i < j < |windows| ==> windows[i].end <= windows[j].start
  }

  /** A policy as its constructor leaves it, over a zone whose transitions are well spaced. */
  datatype Policy = Policy(zone: TimeZone, windows: seq<seq<WorkingWindow>>, notice: int, horizon: int, buffer: int) {
    ghost predicate Valid() {
      && zone.WellSpaced()
      && |windows| == 7
      && (forall d :: 0 <= d < 7 ==> Disjoint(windows[d]))
      && notice >= 0 && horizon > 0 && buffer >= 0
    }
  }

  // ---------------------------------------------------------------- the grid

  /** The first grid time of `date` at or after `time`, when there is one before midnight. */
  function CeilWindowGrid(date: int, time: int): (r: Option<int>)
    requires 0 <= time < DAY
    ensures r.Some? ==> r.value % QUARTER == 0 && Date(r.value) == date
    ensures r.Some? ==> date * DAY + time <= r.value < date * DAY + time + QUARTER
    ensures r.None? ==> time > DAY - QUARTER
  {
    var minute := time / MINUTE + (if time % MINUTE != 0 then 1 else 0);
    var rounded := (minute + 14) / 15 * 15;
    if rounded >= 24 * 60 then None
    else
      assert rounded % 15 == 0;
      Some(date * DAY + rounded * MINUTE)
  }

  function CeilLocalGrid(local: int): (r: int)
    ensures r % QUARTER == 0 && local <= r < local + QUARTER
  {
    CeilingOfDay(local);
    match CeilWindowGrid(Date(local), TimeOfDay(local))
    case Some(grid) => grid
    case None => (Date(local) + 1) * DAY
  }

  lemma CeilingOfDay(local: int)
    ensures var next := (Date(local) + 1) * DAY;
            && Date(local) * DAY + TimeOfDay(local) == local && next % QUARTER == 0
            && (TimeOfDay(local) > DAY - QUARTER ==> local <= next < local + QUARTER)
  {
    DayOnGrid(Date(local) + 1);
  }

  lemma GridStep(a: int, b: int)
    requires a % QUARTER == 0 && b % QUARTER == 0 && a < b
    ensures a + QUARTER <= b
  {
    assert a == QUARTER * (a / QUARTER) && b == QUARTER * (b / QUARTER);
  }

  /** `CeilWindowGrid` finds the first grid time of the date from `time` on. */
  lemma CeilIsFirst(date: int, time: int, grid: int)
    requires 0 <= time < DAY && grid % QUARTER == 0 && date * DAY + time <= grid < (date + 1) * DAY
    ensures CeilWindowGrid(date, time).Some? && CeilWindowGrid(date, time).value <= grid
  {
    var first := CeilWindowGrid(date, time);
    DayOnGrid(date + 1);
    if first.Some? {
      if grid < first.value {
        GridStep(grid, first.value);
      }
    } else {
      GridStep(grid, (date + 1) * DAY);
    }
  }

  lemma DayOnGrid(date: int)
    ensures (date * DAY) % QUARTER == 0
  {
    assert date * DAY == QUARTER * (96 * date);
  }

  lemma NextOnGrid(grid: int)
    requires grid % QUARTER == 0
    ensures (grid + QUARTER) % QUARTER == 0
  {
  }

  /** Grid times at or after `CeilLocalGrid(local)` are the grid times at or after `local`. */
  lemma CeilingIsLeast(local: int, grid: int)
    requires grid % QUARTER == 0
    ensures CeilLocalGrid(local) <= grid <==> local <= grid
  {
    if grid < CeilLocalGrid(local) {
      GridStep(grid, CeilLocalGrid(local));
    }
  }

  // ------------------------------------------------- which starts are offered

  datatype Request = Request(policy: Policy, now: Instant, duration: int,
                             outlook: seq<BusyInterval>, google: seq<BusyInterval>) {
    function Lead(): int {
      now + policy.notice
    }

    function HorizonEnd(): int {
      now + policy.horizon
    }

    function FirstDate(): int {
      Date(policy.zone.ToLocal(now))
    }

    function FinalDate(): int {
      Date(policy.zone.ToLocal(HorizonEnd()))
    }

    function WindowsOn(date: int): seq<WorkingWindow> {
      if |policy.windows| == 7 then policy.windows[Weekday(date)] else []
    }

    /** What the search has checked before it starts to walk. */
    ghost predicate Ready() {
      policy.Valid() && duration > 0 && Lead() <= MAX_INSTANT && HorizonEnd() <= MAX_INSTANT
    }
  }

  predicate InWindow(local: int, w: WorkingWindow) {
    w.start <= TimeOfDay(local) < w.end
  }

  /** A meeting ends on its own local date, by the window end on the wall clock and,
      where the window end exists that day, by its earliest reading. */
  predicate EndsWithinWindow(zone: TimeZone, date: int, windowEnd: int, end: int) {
    var local := zone.ToLocal(end);
    && Date(local) == date && TimeOfDay(local) <= windowEnd
    && match zone.LocalToUtc(date * DAY + windowEnd)
       case Some(boundary) => end <= boundary
       case None => true
  }

  /** `u` is a start the policy allows in working window `w`. */
  ghost predicate Fits(q: Request, u: int, w: WorkingWindow) {
    var zone, end, local := q.policy.zone, u + q.duration, q.policy.zone.ToLocal(u);
    && local % QUARTER == 0 && zone.LocalToUtc(local) == Some(u)
    && InWindow(local, w)
    && q.Lead() <= u && end <= q.HorizonEnd()
    && EndsWithinWindow(zone, Date(local), w.end, end)
    && Free(u - q.policy.buffer, end + q.policy.buffer, q.outlook)
    && Free(u - q.policy.buffer, end + q.policy.buffer, q.google)
  }

  ghost predicate ValidStart(q: Request, u: int)
  {
    exists k :: 0 <= k < |q.WindowsOn(Date(q.policy.zone.ToLocal(u)))|
             && Fits(q, u, q.WindowsOn(Date(q.policy.zone.ToLocal(u)))[k])
  }

  /** The valid starts on the dates the search visits. */
  ghost predicate Offered(q: Request, u: int)
  {
    ValidStart(q, u) && Date(q.policy.zone.ToLocal(u)) <= q.FinalDate()
  }

  ghost function OfferedStarts(q: Request): int -> bool {
    u => Offered(q, u)
  }

  /** `slots` are the first `limit` offered starts, in order. */
  ghost predicate FirstOffered(q: Request, slots: seq<int>, limit: nat) {
    First(slots, limit, OfferedStarts(q))
  }

  // ------------------------------------------- the same, by the wall clock alone

  /** The wall clock shows `local` at instant `u`. */
  predicate Shows(zone: TimeZone, u: int, local: int) {
    zone.ToLocal(u) == local
  }

  /** Instant `u` is the first to show its local time. */
  ghost predicate FirstToShow(zone: TimeZone, u: int) {
    forall v :: Shows(zone, v, zone.ToLocal(u)) ==> u <= v
  }

  /** The clock does not show `local` before `end`. */
  ghost predicate NotShownBefore(zone: TimeZone, local: int, end: int) {
    forall v :: Shows(zone, v, local) ==> end <= v
  }

  /** No instant from `start` to `end` is busy. */
  ghost predicate Quiet(start: int, end: int, busy: seq<BusyInterval>) {
    forall t :: start <= t < end ==> !Covered(busy, t)
  }

  /** A meeting of the requested length can start at `u`: some window of the weekday shown there holds
      its start, on the quarter-hour, and its end, which shows the same date and comes no later than the
      window end, on the wall clock and before every instant that shows it; `u` is the first to show its
      local time; notice and horizon are kept; and neither calendar is busy within the buffer. */
  ghost predicate BookableIn(q: Request, u: int, date: int, w: WorkingWindow) {
    var zone, end := q.policy.zone, u + q.duration;
    && date * DAY + w.start <= zone.ToLocal(u) < date * DAY + w.end
    && zone.ToLocal(u) % (15 * MINUTE) == 0
    && date * DAY <= zone.ToLocal(end) <= date * DAY + w.end
    && NotShownBefore(zone, date * DAY + w.end, end)
    && FirstToShow(zone, u)
    && q.now + q.policy.notice <= u && end <= q.now + q.policy.horizon
    && Quiet(u - q.policy.buffer, end + q.policy.buffer, q.outlook)
    && Quiet(u - q.policy.buffer, end + q.policy.buffer, q.google)
  }

  /** Such a window on the date, with Monday's windows first and day 0 a Thursday; the search looks at
      the dates up to the horizon's. */
  ghost predicate Bookable(q: Request, u: int) {
    && |q.policy.windows| == 7
    && exists date :: BookableOn(q, u, date) && date * DAY <= q.policy.zone.ToLocal(q.now + q.policy.horizon)
  }

  ghost predicate BookableOn(q: Request, u: int, date: int)
    requires |q.policy.windows| == 7
  {
    exists w :: w in q.policy.windows[(date + 3) % 7] && BookableIn(q, u, date, w)
  }

  ghost function BookableStarts(q: Request): int -> bool {
    u => Bookable(q, u)
  }

  lemma WeekdayMeans(date: int)
    ensures Weekday(0) == 3 && Weekday(date + 1) == (Weekday(date) + 1) % 7
  {
  }

  /** The window end, on the wall clock and in UTC. */
  lemma EndsByTheClock(zone: TimeZone, date: int, windowEnd: int, end: int)
    requires zone.Sorted() && 0 <= windowEnd < DAY
    ensures EndsWithinWindow(zone, date, windowEnd, end)
       <==> && date * DAY <= zone.ToLocal(end) <= date * DAY + windowEnd
            && NotShownBefore(zone, date * DAY + windowEnd, end)
  {
    EarliestReading(zone, date * DAY + windowEnd);
    DateAndTime(zone.ToLocal(end));
    if date * DAY <= zone.ToLocal(end) <= date * DAY + windowEnd {
      LocalOf(date, zone.ToLocal(end) - date * DAY);
    }
    var boundary := zone.LocalToUtc(date * DAY + windowEnd);
    assert boundary.Some? ==> Shows(zone, boundary.value, date * DAY + windowEnd);
  }

  lemma FirstToShowMeans(zone: TimeZone, u: int)
    requires zone.Sorted()
    ensures zone.LocalToUtc(zone.ToLocal(u)) == Some(u) <==> FirstToShow(zone, u)
  {
    var local := zone.ToLocal(u);
    EarliestReading(zone, local);
    assert Shows(zone, u, local);
    var first := zone.LocalToUtc(local).value;
    assert Shows(zone, first, local);
  }

  /** In a window, "bookable" is what the search checks. */
  lemma FitsMeans(q: Request, u: int, w: WorkingWindow)
    requires q.Ready()
    ensures Fits(q, u, w) <==> BookableIn(q, u, Date(q.policy.zone.ToLocal(u)), w)
  {
    var zone, end, local := q.policy.zone, u + q.duration, q.policy.zone.ToLocal(u);
    DateAndTime(local);
    EndsByTheClock(zone, Date(local), w.end, end);
    FirstToShowMeans(zone, u);
    FreeIffUncovered(u - q.policy.buffer, end + q.policy.buffer, q.outlook);
    FreeIffUncovered(u - q.policy.buffer, end + q.policy.buffer, q.google);
  }

  lemma BookableDate(q: Request, u: int, date: int, w: WorkingWindow)
    requires BookableIn(q, u, date, w)
    ensures date == Date(q.policy.zone.ToLocal(u))
  {
    LocalOf(date, q.policy.zone.ToLocal(u) - date * DAY);
  }

  lemma DateReached(date: int, local: int)
    ensures date * DAY <= local <==> date <= Date(local)
  {
    DateAndTime(local);
  }

  /** The starts the search offers are the bookable ones. */
  lemma OfferedMeans(q: Request, u: int)
    requires q.Ready()
    ensures Offered(q, u) <==> Bookable(q, u)
  {
    var date := Date(q.policy.zone.ToLocal(u));
    DateReached(date, q.policy.zone.ToLocal(q.HorizonEnd()));
    if Offered(q, u) {
      var w := ValidStartOnGrid(q, u);
      FitsMeans(q, u, w);
      assert BookableOn(q, u, date);
    }
    if Bookable(q, u) {
      var d :| BookableOn(q, u, d) && d * DAY <= q.policy.zone.ToLocal(q.now + q.policy.horizon);
      var w :| w in q.policy.windows[(d + 3) % 7] && BookableIn(q, u, d, w);
      BookableDate(q, u, d, w);
      FitsMeans(q, u, w);
      var k :| 0 <= k < |q.WindowsOn(date)| && q.WindowsOn(date)[k] == w;
      assert Fits(q, u, q.WindowsOn(date)[k]);
    }
  }

  lemma FirstOfferedMeans(q: Request, slots: seq<int>, limit: nat)
    requires q.Ready()
    ensures FirstOffered(q, slots, limit) <==> First(slots, limit, BookableStarts(q))
  {
    forall u ensures OfferedStarts(q)(u) <==> BookableStarts(q)(u) {
      OfferedMeans(q, u);
    }
  }

  // ------------------------------------------------------------- the search

  /** `busy` covers what the two calendars of the request cover. */
  ghost predicate UnionOf(busy: seq<BusyInterval>, q: Request) {
    forall t :: Covered(busy, t) <==> Covered(q.outlook, t) || Covered(q.google, t)
  }

  /** What one grid time leads to: nothing, an offer, the end of its window, or an error. */
  datatype Outcome = Skip | Offer(start: int) | Leave | Fail

  function BufferedIsFree(start: int, end: int, buffer: int, busy: seq<BusyInterval>): Result<bool, Error> {
    if start - buffer < MIN_INSTANT || end + buffer > MAX_INSTANT then Err(DateTimeOverflow)
    else Ok(Free(start - buffer, end + buffer, busy))
  }

  function Examine(q: Request, busy: seq<BusyInterval>, local: int, windowEnd: int): Outcome {
    var zone := q.policy.zone;
    if local < CeilLocalGrid(zone.ToLocal(q.Lead())) then Skip
    else
      match zone.LocalToUtc(local)
      case None => Skip
      case Some(start) =>
        var end := start + q.duration;
        if start < MIN_INSTANT || start > MAX_INSTANT then Fail
        else if end > MAX_INSTANT then Leave
        else if start >= q.Lead() && end <= q.HorizonEnd() && EndsWithinWindow(zone, Date(local), windowEnd, end) then
          match BufferedIsFree(start, end, q.policy.buffer, busy)
          case Err(_) => Fail
          case Ok(free) => if free then Offer(start) else Skip
        else Skip
  }

  /** The search reaches a date-time outside the supported range at grid time `local`. */
  ghost predicate Overflows(q: Request, local: int, w: WorkingWindow) {
    var zone := q.policy.zone;
    && zone.ToLocal(q.Lead()) <= local && zone.LocalToUtc(local).Some?
    && var start := zone.LocalToUtc(local).value;
       var end := start + q.duration;
       || start < MIN_INSTANT || start > MAX_INSTANT
       || (&& end <= MAX_INSTANT && q.Lead() <= start && end <= q.HorizonEnd()
           && EndsWithinWindow(zone, Date(local), w.end, end)
           && (start - q.policy.buffer < MIN_INSTANT || end + q.policy.buffer > MAX_INSTANT))
  }

  /** At grid time `local` the meeting end alone is out of range, which ends the walk of its window. */
  ghost predicate Leaves(q: Request, local: int) {
    var zone := q.policy.zone;
    && zone.ToLocal(q.Lead()) <= local && zone.LocalToUtc(local).Some?
    && var start := zone.LocalToUtc(local).value;
       MIN_INSTANT <= start <= MAX_INSTANT < start + q.duration
  }

  ghost predicate GridTime(q: Request, local: int, w: WorkingWindow)
  {
    local % QUARTER == 0 && w in q.WindowsOn(Date(local)) && InWindow(local, w)
  }

  ghost predicate LeftBefore(q: Request, local: int, w: WorkingWindow) {
    exists l :: l % QUARTER == 0 && Date(l) == Date(local) && InWindow(l, w) && l < local && Leaves(q, l)
  }

  ghost predicate FailsAt(q: Request, local: int)
  {
    && q.FirstDate() <= Date(local) <= q.FinalDate()
    && exists w :: GridTime(q, local, w) && Overflows(q, local, w) && !LeftBefore(q, local, w)
  }

  ghost function Valid(q: Request): int -> bool {
    u => ValidStart(q, u)
  }

  ghost function Clock(q: Request): int -> int {
    u => q.policy.zone.ToLocal(u)
  }

  /** The search has seen every wall-clock time below `frontier`: `slots` are exactly the
      valid starts shown there, and none of those times is a failure. */
  ghost predicate Walked(q: Request, slots: seq<int>, frontier: int) {
    && Collected(slots, Valid(q), Clock(q), frontier)
    && (forall l :: l < frontier ==> !FailsAt(q, l))
  }

  lemma ValidStartOnGrid(q: Request, u: int) returns (w: WorkingWindow)
    requires ValidStart(q, u)
    ensures GridTime(q, q.policy.zone.ToLocal(u), w) && Fits(q, u, w)
  {
    var windows := q.WindowsOn(Date(q.policy.zone.ToLocal(u)));
    var k :| 0 <= k < |windows| && Fits(q, u, windows[k]);
    w := windows[k];
  }

  /** Where there is no grid time the frontier may move. */
  lemma Advance(q: Request, slots: seq<int>, frontier: int, next: int)
    requires Walked(q, slots, frontier) && frontier <= next
    requires forall l, w :: frontier <= l < next ==> !GridTime(q, l, w)
    ensures Walked(q, slots, next)
  {
    forall u | Valid(q)(u) ensures !(frontier <= Clock(q)(u) < next) {
      var w := ValidStartOnGrid(q, u);
    }
    CollectNone(slots, Valid(q), Clock(q), frontier, next);
  }

  /** Valid starts are ordered like the wall-clock times they show, across gaps and overlaps. */
  lemma StartsFollowTheClock(q: Request)
    requires q.policy.Valid()
    ensures Ordered(Valid(q), Clock(q))
  {
    forall u, v | Valid(q)(u) && Valid(q)(v) && Clock(q)(u) <= Clock(q)(v)
      ensures u <= v && (Clock(q)(u) < Clock(q)(v) ==> u < v)
    {
      var w := ValidStartOnGrid(q, u);
      var x := ValidStartOnGrid(q, v);
      if Clock(q)(u) < Clock(q)(v) {
        EarliestReadingsAdvance(q.policy.zone, q.policy.zone.ToLocal(u), q.policy.zone.ToLocal(v));
      }
    }
  }

  /** The rounded-lead prefilter removes no start that the exact lead check keeps: a start
      that is its local time's earliest reading and not before an instant is not below it on
      the wall clock either. */
  lemma NotBelowOnTheClock(zone: TimeZone, local: int, instant: int)
    requires zone.WellSpaced() && zone.LocalToUtc(local).Some?
    requires instant <= zone.LocalToUtc(local).value
    ensures zone.ToLocal(instant) <= local
  {
    EarliestReading(zone, local);
    if instant < zone.LocalToUtc(local).value {
      ClockFirstReaches(zone, local, instant);
    }
  }

  lemma ReadingFacts(q: Request, local: int, start: int)
    requires q.Ready() && local % QUARTER == 0 && q.policy.zone.LocalToUtc(local) == Some(start)
    ensures q.policy.zone.ToLocal(start) == local
    ensures CeilLocalGrid(q.policy.zone.ToLocal(q.Lead())) <= local <==> q.policy.zone.ToLocal(q.Lead()) <= local
    ensures q.Lead() <= start ==> q.policy.zone.ToLocal(q.Lead()) <= local
  {
    EarliestReading(q.policy.zone, local);
    CeilingIsLeast(q.policy.zone.ToLocal(q.Lead()), local);
    if q.Lead() <= start {
      NotBelowOnTheClock(q.policy.zone, local, q.Lead());
    }
  }

  lemma ExamineStops(q: Request, busy: seq<BusyInterval>, local: int, w: WorkingWindow, start: int)
    requires q.Ready() && GridTime(q, local, w) && q.policy.zone.LocalToUtc(local) == Some(start)
    ensures Examine(q, busy, local, w.end).Fail? <==> Overflows(q, local, w)
    ensures Examine(q, busy, local, w.end).Leave? <==> Leaves(q, local)
  {
    ReadingFacts(q, local, start);
  }

  lemma ExamineOffers(q: Request, busy: seq<BusyInterval>, local: int, w: WorkingWindow, start: int)
    requires q.Ready() && GridTime(q, local, w) && q.policy.zone.LocalToUtc(local) == Some(start)
    requires UnionOf(busy, q)
    ensures Examine(q, busy, local, w.end).Offer? ==> Examine(q, busy, local, w.end) == Offer(start)
    ensures !Overflows(q, local, w) ==> (Examine(q, busy, local, w.end).Offer? <==> Fits(q, start, w))
  {
    ReadingFacts(q, local, start);
    FreeOfUnion(start - q.policy.buffer, start + q.duration + q.policy.buffer, busy, q.outlook, q.google);
  }

  /** Examining a grid time offers its start exactly when the policy allows it there. */
  lemma ExamineDecides(q: Request, busy: seq<BusyInterval>, local: int, w: WorkingWindow, start: int)
    requires q.Ready() && GridTime(q, local, w) && q.policy.zone.LocalToUtc(local) == Some(start)
    requires UnionOf(busy, q)
    ensures Examine(q, busy, local, w.end).Fail? <==> Overflows(q, local, w)
    ensures Examine(q, busy, local, w.end).Leave? <==> Leaves(q, local)
    ensures Examine(q, busy, local, w.end).Offer? ==> Examine(q, busy, local, w.end) == Offer(start)
    ensures !Overflows(q, local, w) ==> (Examine(q, busy, local, w.end).Offer? <==> Fits(q, start, w))
  {
    ExamineStops(q, busy, local, w, start);
    ExamineOffers(q, busy, local, w, start);
  }

  lemma OneWindow(q: Request, local: int, w: WorkingWindow, x: WorkingWindow)
    requires q.policy.Valid() && GridTime(q, local, w) && GridTime(q, local, x)
    ensures w == x
  {
    var windows := q.WindowsOn(Date(local));
    assert Disjoint(q.policy.windows[Weekday(Date(local))]);
    var i :| 0 <= i < |windows| && windows[i] == w;
    var j :| 0 <= j < |windows| && windows[j] == x;
  }

  lemma NoStartFits(q: Request, busy: seq<BusyInterval>, local: int, w: WorkingWindow, u: int)
    requires q.Ready() && GridTime(q, local, w)
    requires UnionOf(busy, q)
    requires ValidStart(q, u) && q.policy.zone.ToLocal(u) == local
    ensures var o := Examine(q, busy, local, w.end); o == Offer(u) || o == Fail
  {
    var x := ValidStartOnGrid(q, u);
    OneWindow(q, local, w, x);
    ExamineDecides(q, busy, local, w, u);
  }

  lemma OfferIsValid(q: Request, busy: seq<BusyInterval>, local: int, w: WorkingWindow)
    requires q.Ready() && GridTime(q, local, w)
    requires UnionOf(busy, q)
    requires Examine(q, busy, local, w.end).Offer?
    ensures var u := Examine(q, busy, local, w.end).start;
            q.policy.zone.ToLocal(u) == local && ValidStart(q, u)
  {
    var u := q.policy.zone.LocalToUtc(local).value;
    ExamineDecides(q, busy, local, w, u);
    ReadingShows(q.policy.zone, local);
    var windows := q.WindowsOn(Date(local));
    var k :| 0 <= k < |windows| && windows[k] == w;
    assert Fits(q, u, windows[k]);
  }

  lemma PassTime(q: Request, slots: seq<int>, local: int, offer: Option<int>, next: seq<int>)
    requires q.policy.Valid() && Walked(q, slots, local) && !FailsAt(q, local)
    requires offer.Some? ==> Valid(q)(offer.value) && Clock(q)(offer.value) == local
    requires forall u :: Valid(q)(u) && Clock(q)(u) == local ==> offer == Some(u)
    requires next == if offer.Some? then slots + [offer.value] else slots
    ensures Walked(q, next, local + 1)
  {
    if offer.Some? {
      StartsFollowTheClock(q);
      CollectOne(slots, Valid(q), Clock(q), offer.value);
    } else {
      CollectNone(slots, Valid(q), Clock(q), local, local + 1);
    }
  }

  /** Passing one grid time that is not a failure. */
  lemma PassGridTime(q: Request, busy: seq<BusyInterval>, slots: seq<int>, local: int, w: WorkingWindow, next: seq<int>)
    requires q.Ready() && GridTime(q, local, w) && Walked(q, slots, local)
    requires UnionOf(busy, q)
    requires var o := Examine(q, busy, local, w.end);
             !o.Fail? && next == if o.Offer? then slots + [o.start] else slots
    ensures Walked(q, next, local + 1)
  {
    var o := Examine(q, busy, local, w.end);
    forall u | Valid(q)(u) && Clock(q)(u) == local
      ensures o == Offer(u)
    {
      NoStartFits(q, busy, local, w, u);
    }
    if o.Offer? {
      OfferIsValid(q, busy, local, w);
    }
    NoFailureHere(q, busy, local, w);
    PassTime(q, slots, local, if o.Offer? then Some(o.start) else None, next);
  }

  lemma NoFailureHere(q: Request, busy: seq<BusyInterval>, local: int, w: WorkingWindow)
    requires q.Ready() && GridTime(q, local, w) && !Examine(q, busy, local, w.end).Fail?
    requires UnionOf(busy, q)
    ensures !FailsAt(q, local)
  {
    forall x | GridTime(q, local, x) && Overflows(q, local, x)
      ensures false
    {
      OneWindow(q, local, w, x);
      ExamineDecides(q, busy, local, w, q.policy.zone.LocalToUtc(local).value);
    }
  }

  lemma LocalOf(date: int, time: int)
    requires 0 <= time < DAY
    ensures Date(date * DAY + time) == date && TimeOfDay(date * DAY + time) == time
  {
  }

  lemma DateAndTime(local: int)
    ensures local == Date(local) * DAY + TimeOfDay(local) && 0 <= TimeOfDay(local) < DAY
  {
  }

  /** When a meeting end leaves the supported range, no later time of the window is offered or fails. */
  lemma LeaveWindow(q: Request, slots: seq<int>, local: int, w: WorkingWindow)
    requires q.Ready() && GridTime(q, local, w) && Walked(q, slots, local) && Leaves(q, local)
    ensures Walked(q, slots, Date(local) * DAY + w.end)
  {
    var zone, start := q.policy.zone, q.policy.zone.LocalToUtc(local).value;
    var end := Date(local) * DAY + w.end;
    DateAndTime(local);
    forall u | Valid(q)(u) ensures Clock(q)(u) < local {
      var x := ValidStartOnGrid(q, u);
      if local < zone.ToLocal(u) {
        EarliestReadingsAdvance(zone, local, zone.ToLocal(u));
      }
    }
    CollectNone(slots, Valid(q), Clock(q), local, end);
    forall l | local <= l < end ensures !FailsAt(q, l) {
      DateAndTime(l);
      LocalOf(Date(local), l - Date(local) * DAY);
      LeftFrom(q, local, l, w);
    }
  }

  lemma LeftFrom(q: Request, local: int, l: int, w: WorkingWindow)
    requires q.Ready() && GridTime(q, local, w) && Leaves(q, local)
    requires local <= l && Date(l) == Date(local) && TimeOfDay(l) < w.end
    ensures !FailsAt(q, l)
  {
    DateAndTime(local);
    DateAndTime(l);
    forall x | GridTime(q, l, x) && Overflows(q, l, x) ensures LeftBefore(q, l, x) {
      OneWindow(q, l, w, x);
    }
  }

  /** Grid times of a date lie in its windows, so none lies between two windows or past the last. */
  lemma NoGridTimeBetween(q: Request, date: int, n: nat, l: int, w: WorkingWindow)
    requires q.policy.Valid() && n <= |q.WindowsOn(date)| && GridTime(q, l, w) && Date(l) == date
    requires n == 0 || q.WindowsOn(date)[n - 1].end <= TimeOfDay(l)
    ensures n < |q.WindowsOn(date)| && q.WindowsOn(date)[n].start <= TimeOfDay(l)
  {
    var windows := q.WindowsOn(date);
    assert Disjoint(q.policy.windows[Weekday(date)]);
    var k :| 0 <= k < |windows| && windows[k] == w;
    assert n <= k;
  }

  function Boundary(q: Request, date: int, n: nat): int
    requires n <= |q.WindowsOn(date)|
  {
    if n == 0 then date * DAY else date * DAY + q.WindowsOn(date)[n - 1].end
  }

  lemma FirstGridTime(q: Request, date: int, n: nat, l: int, w: WorkingWindow)
    requires q.policy.Valid() && n < |q.WindowsOn(date)| && GridTime(q, l, w)
    requires Boundary(q, date, n) <= l < Boundary(q, date, n + 1)
    ensures var first := CeilWindowGrid(date, q.WindowsOn(date)[n].start);
            first.Some? && first.value <= l
  {
    LocalOf(date, l - date * DAY);
    NoGridTimeBetween(q, date, n, l, w);
    CeilIsFirst(date, q.WindowsOn(date)[n].start, l);
  }

  lemma BoundariesAdvance(q: Request, date: int, n: nat)
    requires q.policy.Valid() && n < |q.WindowsOn(date)|
    ensures Boundary(q, date, n) <= date * DAY + q.WindowsOn(date)[n].start < Boundary(q, date, n + 1)
  {
    assert Disjoint(q.policy.windows[Weekday(date)]);
  }

  /** From the end of one window the walk enters the next at its first grid time. */
  lemma EnterWindow(q: Request, slots: seq<int>, date: int, n: nat, local: int)
    requires q.policy.Valid() && n < |q.WindowsOn(date)| && Walked(q, slots, Boundary(q, date, n))
    requires var first := CeilWindowGrid(date, q.WindowsOn(date)[n].start);
             first.Some? ==> local <= first.value
    requires Boundary(q, date, n) <= local <= Boundary(q, date, n + 1)
    ensures Walked(q, slots, local)
  {
    forall l, w | Boundary(q, date, n) <= l < local ensures !GridTime(q, l, w) {
      if GridTime(q, l, w) {
        FirstGridTime(q, date, n, l, w);
      }
    }
    Advance(q, slots, Boundary(q, date, n), local);
  }

  lemma EnterDate(q: Request, slots: seq<int>, date: int)
    requires q.policy.Valid() && Walked(q, slots, Boundary(q, date, |q.WindowsOn(date)|))
    ensures Walked(q, slots, Boundary(q, date + 1, 0))
  {
    var n := |q.WindowsOn(date)|;
    var from, to := Boundary(q, date, n), (date + 1) * DAY;
    forall l, x | from <= l < to ensures !GridTime(q, l, x) {
      LocalOf(date, l - date * DAY);
      if GridTime(q, l, x) {
        NoGridTimeBetween(q, date, n, l, x);
      }
    }
    Advance(q, slots, from, to);
  }

  /** Between a grid time and the next, the walk passes no other. */
  lemma StepGrid(q: Request, slots: seq<int>, local: int, next: int)
    requires Walked(q, slots, local + 1) && local % QUARTER == 0 && local < next <= local + QUARTER
    ensures Walked(q, slots, next)
  {
    forall l, w | local + 1 <= l < next ensures !GridTime(q, l, w) {
      if l % QUARTER == 0 {
        GridStep(local, l);
      }
    }
    Advance(q, slots, local + 1, next);
  }

  lemma StartWalk(q: Request)
    requires q.Ready()
    ensures Walked(q, [], Boundary(q, q.FirstDate(), 0))
  {
    forall u | Valid(q)(u) ensures q.FirstDate() * DAY <= Clock(q)(u) {
      var w := ValidStartOnGrid(q, u);
      NotBelowOnTheClock(q.policy.zone, q.policy.zone.ToLocal(u), q.now);
      DateAndTime(q.policy.zone.ToLocal(q.now));
    }
    forall l | l < q.FirstDate() * DAY ensures !FailsAt(q, l) {
      DateAndTime(l);
    }
  }

  /** The search fails at a time it reaches: fewer than `limit` starts are valid before it. */
  ghost predicate FailsFirst(q: Request, limit: nat) {
    exists l, before: seq<int> :: FailsAt(q, l) && Collected(before, Valid(q), Clock(q), l) && |before| < limit
  }

  lemma EarlierDate(l: int, m: int)
    requires l <= m
    ensures Date(l) <= Date(m)
  {
  }

  lemma WithinDate(l: int, date: int)
    ensures Date(l) < date <==> l < date * DAY
  {
  }

  /** Everything below the frontier collected: with the limit reached, that is the answer. */
  lemma FullIsFirst(q: Request, slots: seq<int>, limit: nat, l: int)
    requires q.Ready() && Walked(q, slots, l + 1) && |slots| == limit && Date(l) <= q.FinalDate()
    ensures FirstOffered(q, slots, limit)
    ensures !FailsFirst(q, limit)
  {
    StartsFollowTheClock(q);
    CollectedIsFirst(slots, limit, Valid(q), Clock(q), l + 1);
    forall s | s in slots ensures Offered(q, s) {
      EarlierDate(Clock(q)(s), l);
    }
    forall m, before | FailsAt(q, m) && Collected(before, Valid(q), Clock(q), m)
      ensures |before| >= limit
    {
      ContainedIsNoLonger(slots, before);
    }
  }

  /** With all dates walked and the limit not reached, all offered starts are in the answer. */
  lemma WalkedAllIsFirst(q: Request, slots: seq<int>, limit: nat, date: int)
    requires q.Ready() && Walked(q, slots, date * DAY) && |slots| < limit
    requires q.FinalDate() < date && (date == q.FinalDate() + 1 || date == q.FirstDate())
    ensures FirstOffered(q, slots, limit)
    ensures !FailsFirst(q, limit)
  {
    forall s | s in slots ensures Offered(q, s) {
      WithinDate(Clock(q)(s), date);
      if q.FirstDate() == date {
        var w := ValidStartOnGrid(q, s);
        NotBelowOnTheClock(q.policy.zone, q.policy.zone.ToLocal(s), q.now);
        DateAndTime(q.policy.zone.ToLocal(q.now));
        DateAndTime(Clock(q)(s));
      }
    }
    forall u | Offered(q, u) ensures u in slots {
      WithinDate(Clock(q)(u), date);
    }
    forall m | FailsAt(q, m) ensures false {
      WithinDate(m, date);
    }
  }

  lemma OutcomeMeaning(q: Request, busy: seq<BusyInterval>, local: int, w: WorkingWindow)
    requires q.Ready() && UnionOf(busy, q) && GridTime(q, local, w)
    ensures Examine(q, busy, local, w.end).Fail? ==> Overflows(q, local, w)
    ensures Examine(q, busy, local, w.end).Leave? <==> Leaves(q, local)
  {
    if q.policy.zone.LocalToUtc(local).Some? {
      ExamineDecides(q, busy, local, w, q.policy.zone.LocalToUtc(local).value);
    }
  }

  lemma NotLeftAtFirst(q: Request, date: int, n: nat, local: int)
    requires n < |q.WindowsOn(date)| && CeilWindowGrid(date, q.WindowsOn(date)[n].start) == Some(local)
    ensures !LeftBefore(q, local, q.WindowsOn(date)[n])
  {
    forall l | l % QUARTER == 0 && Date(l) == date && q.WindowsOn(date)[n].start <= TimeOfDay(l)
      ensures local <= l
    {
      DateAndTime(l);
      if l < local {
        GridStep(l, local);
      }
    }
  }

  lemma NotLeftYet(q: Request, local: int, w: WorkingWindow)
    requires local % QUARTER == 0 && !LeftBefore(q, local, w) && !Leaves(q, local)
    requires Date(local + QUARTER) == Date(local)
    ensures !LeftBefore(q, local + QUARTER, w)
  {
    forall l | l % QUARTER == 0 && l < local + QUARTER && local < l ensures false {
      GridStep(local, l);
    }
  }

  lemma OnGrid(q: Request, date: int, n: nat, local: int)
    requires n < |q.WindowsOn(date)| && local % QUARTER == 0
    requires date * DAY + q.WindowsOn(date)[n].start <= local < Boundary(q, date, n + 1)
    ensures Date(local) == date && GridTime(q, local, q.WindowsOn(date)[n])
  {
    LocalOf(date, local - date * DAY);
  }

  /** One turn of the walk through a window that neither fails nor leaves it. */
  lemma NextGridTime(q: Request, busy: seq<BusyInterval>, slots: seq<int>, date: int, n: nat, local: int,
                     after: seq<int>, next: int)
    requires q.Ready() && UnionOf(busy, q) && n < |q.WindowsOn(date)| && Walked(q, slots, local)
    requires GridTime(q, local, q.WindowsOn(date)[n]) && Date(local) == date
    requires !LeftBefore(q, local, q.WindowsOn(date)[n])
    requires var o := Examine(q, busy, local, q.WindowsOn(date)[n].end);
             !o.Fail? && !o.Leave? && after == if o.Offer? then slots + [o.start] else slots
    requires local < next <= local + QUARTER && next <= Boundary(q, date, n + 1)
    ensures Walked(q, after, next) && Walked(q, after, local + 1)
    ensures next < Boundary(q, date, n + 1) && next == local + QUARTER ==>
              next % QUARTER == 0 && !LeftBefore(q, next, q.WindowsOn(date)[n])
  {
    var w := q.WindowsOn(date)[n];
    PassGridTime(q, busy, slots, local, w, after);
    StepGrid(q, after, local, next);
    NextOnGrid(local);
    if next == local + QUARTER < date * DAY + w.end {
      StaysInWindow(q, busy, date, w, local);
    }
  }

  lemma StaysInWindow(q: Request, busy: seq<BusyInterval>, date: int, w: WorkingWindow, local: int)
    requires q.Ready() && UnionOf(busy, q) && GridTime(q, local, w) && Date(local) == date
    requires !LeftBefore(q, local, w) && !Examine(q, busy, local, w.end).Leave?
    requires local + QUARTER < date * DAY + w.end
    ensures !LeftBefore(q, local + QUARTER, w)
  {
    DateAndTime(local);
    LocalOf(date, local + QUARTER - date * DAY);
    OutcomeMeaning(q, busy, local, w);
    NotLeftYet(q, local, w);
  }

  lemma FailsHere(q: Request, busy: seq<BusyInterval>, slots: seq<int>, local: int, w: WorkingWindow, limit: nat)
    requires q.Ready() && UnionOf(busy, q) && GridTime(q, local, w) && Walked(q, slots, local)
    requires Examine(q, busy, local, w.end).Fail? && !LeftBefore(q, local, w)
    requires |slots| < limit && q.FirstDate() <= Date(local) <= q.FinalDate()
    ensures FailsFirst(q, limit)
  {
    OutcomeMeaning(q, busy, local, w);
    assert FailsAt(q, local);
  }

  /** The earliest starts the policy offers, or the reason there is no answer. */
  method AvailableSlots(q: Request, limit: nat) returns (r: Result<seq<int>, Error>)
    requires q.policy.Valid()
    ensures q.duration <= 0 ==> r == Err(InvalidDuration("requested_duration"))
    ensures q.duration > 0 && limit == 0 ==> r == Ok([])
    ensures q.duration > 0 && limit > 0 && !q.Ready() ==> r == Err(DateTimeOverflow)
    ensures q.Ready() && limit > 0 ==> (r == Err(DateTimeOverflow) <==> FailsFirst(q, limit))
    ensures q.Ready() && limit > 0 && !FailsFirst(q, limit) ==> r.Ok? && FirstOffered(q, r.value, limit)
    ensures q.Ready() && limit > 0 && !FailsFirst(q, limit) ==> First(r.value, limit, BookableStarts(q))
  {
    if q.duration <= 0 {
      return Err(InvalidDuration("requested_duration"));
    }
    if limit == 0 {
      return Ok([]);
    }
    if q.HorizonEnd() > MAX_INSTANT || q.Lead() > MAX_INSTANT {
      return Err(DateTimeOverflow);
    }
    var busy := MergeBusyIntervals(q.outlook, q.google);
    var date := q.FirstDate();
    var slots: seq<int> := [];
    StartWalk(q);
    while date <= q.FinalDate()
      invariant q.FirstDate() <= date
      invariant date <= q.FinalDate() + 1 || date == q.FirstDate()
      invariant |slots| < limit
      invariant Walked(q, slots, Boundary(q, date, 0))
    {
      var windows := q.WindowsOn(date);
      for n := 0 to |windows|
        invariant |slots| < limit
        invariant Walked(q, slots, Boundary(q, date, n))
      {
        var result := WalkWindow(q, busy, date, n, slots, limit);
        match result {
          case Full(all) =>
            ghost var l :| Date(l) <= q.FinalDate() && Walked(q, all, l + 1);
            FullIsFirst(q, all, limit, l);
            FirstOfferedMeans(q, all, limit);
            return Ok(all);
          case Failed => return Err(DateTimeOverflow);
          case More(all) => slots := all;
        }
      }
      EnterDate(q, slots, date);
      date := date + 1;
    }
    WalkedAllIsFirst(q, slots, limit, date);
    FirstOfferedMeans(q, slots, limit);
    return Ok(slots);
  }

  datatype WindowResult = More(slots: seq<int>) | Full(slots: seq<int>) | Failed

  /** One turn of the walk through window `n` of `date`: the outcome, and the slots after it. */
  method VisitGridTime(q: Request, busy: seq<BusyInterval>, date: int, n: nat, slots: seq<int>, local: int, limit: nat)
    returns (r: WindowResult, next: int)
    requires q.Ready() && UnionOf(busy, q) && |slots| < limit && n < |q.WindowsOn(date)|
    requires q.FirstDate() <= date <= q.FinalDate()
    requires local % QUARTER == 0
    requires date * DAY + q.WindowsOn(date)[n].start <= local < Boundary(q, date, n + 1)
    requires Walked(q, slots, local) && !LeftBefore(q, local, q.WindowsOn(date)[n])
    ensures r.More? ==> |r.slots| < limit && local < next <= Boundary(q, date, n + 1) && Walked(q, r.slots, next)
    ensures r.More? && next < Boundary(q, date, n + 1) ==>
              next % QUARTER == 0 && !LeftBefore(q, next, q.WindowsOn(date)[n])
    ensures r.Full? ==> |r.slots| == limit && Walked(q, r.slots, local + 1)
    ensures r.Failed? ==> FailsFirst(q, limit)
  {
    var w := q.WindowsOn(date)[n];
    var windowEnd := date * DAY + w.end;
    OnGrid(q, date, n, local);
    next := if local + QUARTER < windowEnd then local + QUARTER else windowEnd;
    match Examine(q, busy, local, w.end) {
      case Fail =>
        FailsHere(q, busy, slots, local, w, limit);
        r := Failed;
      case Leave =>
        OutcomeMeaning(q, busy, local, w);
        LeaveWindow(q, slots, local, w);
        r, next := More(slots), windowEnd;
      case Offer(start) =>
        NextGridTime(q, busy, slots, date, n, local, slots + [start], next);
        r := if |slots| + 1 == limit then Full(slots + [start]) else More(slots + [start]);
      case Skip =>
        NextGridTime(q, busy, slots, date, n, local, slots, next);
        r := More(slots);
    }
  }

  method WalkWindow(q: Request, busy: seq<BusyInterval>, date: int, n: nat, slots: seq<int>, limit: nat)
    returns (r: WindowResult)
    requires q.Ready() && UnionOf(busy, q) && |slots| < limit && n < |q.WindowsOn(date)|
    requires q.FirstDate() <= date <= q.FinalDate()
    requires Walked(q, slots, Boundary(q, date, n))
    ensures r.More? ==> |r.slots| < limit && Walked(q, r.slots, Boundary(q, date, n + 1))
    ensures r.Full? ==> |r.slots| == limit && exists l :: Date(l) <= q.FinalDate() && Walked(q, r.slots, l + 1)
    ensures r.Failed? ==> FailsFirst(q, limit)
  {
    BoundariesAdvance(q, date, n);
    var w := q.WindowsOn(date)[n];
    var first := CeilWindowGrid(date, w.start);
    if first.None? || Boundary(q, date, n + 1) <= first.value {
      EnterWindow(q, slots, date, n, Boundary(q, date, n + 1));
      return More(slots);
    }
    EnterWindow(q, slots, date, n, first.value);
    NotLeftAtFirst(q, date, n, first.value);
    r := More(slots);
    var local := first.value;
    while local < Boundary(q, date, n + 1)
      invariant date * DAY + w.start <= local <= Boundary(q, date, n + 1)
      invariant r.More? && |r.slots| < limit && Walked(q, r.slots, local)
      invariant local < Boundary(q, date, n + 1) ==> local % QUARTER == 0 && !LeftBefore(q, local, w)
    {
      ghost var at := local;
      r, local := VisitGridTime(q, busy, date, n, r.slots, local, limit);
      if !r.More? {
        LocalOf(date, at - date * DAY);
        return;
      }
    }
  }
}
