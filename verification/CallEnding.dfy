/**
 Ending a call without a lock: any number of threads ask for the BYE, now or after
 the farewell, over two atomic flags. Each atomic operation is one step and the
 threads interleave freely; `call.end()` may take many steps and may fail.
 */
module CallEnding {

  /** Where a thread is; the name says what its next step does. */
  datatype Thread =
    | StoreRequested     // end_call: sets end_requested
    | SwapRequested      // schedule_end_call: swaps end_requested
    | Delayed            // the scheduled task, asleep
    | Exchange           // send_end: compare-exchange on end_sent
    | Ending             // inside call.end()
    | Clear              // call.end() failed: resets end_sent
    | Returned(outcome: Outcome)

  datatype Outcome = Sent | Failed | AlreadySent | AlreadyRequested

  /** The flags, the threads, and what has happened: calls of `call.end()`, whether one
      succeeded, and delayed tasks started. */
  datatype State = State(endRequested: bool, endSent: bool, threads: seq<Thread>,
                         invocations: nat, byeSent: bool, scheduled: nat)

  datatype Move = StartEndCall | StartSchedule | Advance(thread: nat, endSucceeds: bool)

  const INITIAL: State := State(false, false, [], 0, false, 0)

  function Goto(s: State, i: nat, t: Thread): State
    requires i < |s.threads|
  {
    s.(threads := s.threads[i := t])
  }

  function Next(s: State, move: Move): State {
    match move
    case StartEndCall => s.(threads := s.threads + [StoreRequested])
    case StartSchedule => s.(threads := s.threads + [SwapRequested])
    case Advance(i, succeeds) =>
      if i >= |s.threads| then s
      else
        match s.threads[i]
        case StoreRequested => Goto(s, i, Exchange).(endRequested := true)
        case SwapRequested =>
          if s.endRequested then Goto(s, i, Returned(AlreadyRequested))
          else Goto(s, i, Delayed).(endRequested := true, scheduled := s.scheduled + 1)
        case Delayed => Goto(s, i, Exchange)
        case Exchange =>
          if s.endSent then Goto(s, i, Returned(AlreadySent))
          else Goto(s, i, Ending).(endSent := true, invocations := s.invocations + 1)
        case Ending =>
          if succeeds then Goto(s, i, Returned(Sent)).(byeSent := true) else Goto(s, i, Clear)
        case Clear => Goto(s, i, Returned(Failed)).(endSent := false)
        case Returned(_) => s
  }

  function Run(moves: seq<Move>): State {
    if moves == [] then INITIAL else Next(Run(moves[..|moves| - 1]), moves[|moves| - 1])
  }

  /** A thread here took `end_sent` and has neither succeeded nor given it back. */
  const HOLDERS: set<Thread> := {Ending, Clear}

  /** How many threads are in one of the given places. */
  function Count(ts: seq<Thread>, among: set<Thread>): nat {
    if ts == [] then 0 else Count(ts[..|ts| - 1], among) + if ts[|ts| - 1] in among then 1 else 0
  }

  function HolderCount(s: State): nat {
    Count(s.threads, HOLDERS)
  }

  function ToldCount(s: State, outcome: Outcome): nat {
    Count(s.threads, {Returned(outcome)})
  }

  lemma CountAppend(ts: seq<Thread>, t: Thread, among: set<Thread>)
    ensures Count(ts + [t], among) == Count(ts, among) + if t in among then 1 else 0
  {
    assert (ts + [t])[..|ts|] == ts;
  }

  /** A move of one thread counts only that thread. */
  lemma {:induction false} CountMove(ts: seq<Thread>, i: nat, t: Thread, among: set<Thread>)
    requires i < |ts|
    ensures Count(ts[i := t], among) + (if ts[i] in among then 1 else 0) == Count(ts, among) + if t in among then 1 else 0
  {
    var init := ts[..|ts| - 1];
    if i == |ts| - 1 {
      assert ts[i := t] == init + [t];
      CountAppend(init, t, among);
    } else {
      CountMove(init, i, t, among);
      assert ts[i := t] == init[i := t] + [ts[|ts| - 1]];
      CountAppend(init[i := t], ts[|ts| - 1], among);
    }
  }

  lemma {:induction false} CountAtLeast(ts: seq<Thread>, i: nat, j: nat, among: set<Thread>)
    requires i < |ts| && j < |ts| && ts[i] in among && ts[j] in among
    ensures Count(ts, among) >= if i == j then 1 else 2
  {
    var init, last := ts[..|ts| - 1], |ts| - 1;
    if i != last && j != last {
      CountAtLeast(init, i, j, among);
    } else if i != last {
      CountAtLeast(init, i, i, among);
    } else if j != last {
      CountAtLeast(init, j, j, among);
    }
  }

  /** `end_sent` is set exactly while one thread holds it or once the BYE is out, never both; one
      delayed task at most. Every call of `call.end()` is still held or was answered to exactly one
      thread, as sent, once the BYE is out and never twice, or as failed. */
  ghost predicate Invariant(s: State) {
    && HolderCount(s) + (if s.byeSent then 1 else 0) == (if s.endSent then 1 else 0)
    && s.scheduled <= 1 && (s.scheduled == 1 ==> s.endRequested)
    && s.invocations == HolderCount(s) + ToldCount(s, Sent) + ToldCount(s, Failed)
    && ToldCount(s, Sent) == (if s.byeSent then 1 else 0)
    && (ToldCount(s, AlreadySent) > 0 ==> s.invocations > 0)
    && (ToldCount(s, AlreadyRequested) > 0 ==> s.endRequested)
  }

  lemma StartKeeps(s: State, t: Thread)
    requires Invariant(s) && (t == StoreRequested || t == SwapRequested)
    ensures Invariant(s.(threads := s.threads + [t]))
  {
    CountAppend(s.threads, t, HOLDERS);
    CountAppend(s.threads, t, {Returned(AlreadySent)});
    CountAppend(s.threads, t, {Returned(Failed)});
    CountAppend(s.threads, t, {Returned(Sent)});
    CountAppend(s.threads, t, {Returned(AlreadyRequested)});
  }

  /** The counts after thread `i` moves to `t`. */
  lemma CountsAfter(s: State, i: nat, t: Thread)
    requires i < |s.threads| && !s.threads[i].Returned?
    ensures var g := s.(threads := s.threads[i := t]);
            && HolderCount(g) == HolderCount(s) + (if t in HOLDERS then 1 else 0) - (if s.threads[i] in HOLDERS then 1 else 0)
            && ToldCount(g, AlreadySent) == ToldCount(s, AlreadySent) + (if t == Returned(AlreadySent) then 1 else 0)
            && ToldCount(g, Failed) == ToldCount(s, Failed) + (if t == Returned(Failed) then 1 else 0)
            && ToldCount(g, Sent) == ToldCount(s, Sent) + (if t == Returned(Sent) then 1 else 0)
            && ToldCount(g, AlreadyRequested) == ToldCount(s, AlreadyRequested) + (if t == Returned(AlreadyRequested) then 1 else 0)
  {
    CountMove(s.threads, i, t, HOLDERS);
    CountMove(s.threads, i, t, {Returned(AlreadySent)});
    CountMove(s.threads, i, t, {Returned(Failed)});
    CountMove(s.threads, i, t, {Returned(Sent)});
    CountMove(s.threads, i, t, {Returned(AlreadyRequested)});
  }

  lemma RequestKeeps(s: State, i: nat, succeeds: bool)
    requires Invariant(s) && i < |s.threads|
    requires s.threads[i] == StoreRequested || s.threads[i] == SwapRequested || s.threads[i] == Delayed
    ensures Invariant(Next(s, Advance(i, succeeds)))
  {
    CountsAfter(s, i, Exchange);
    CountsAfter(s, i, Delayed);
    CountsAfter(s, i, Returned(AlreadyRequested));
  }

  lemma ExchangeKeeps(s: State, i: nat, succeeds: bool)
    requires Invariant(s) && i < |s.threads| && s.threads[i] == Exchange
    ensures Invariant(Next(s, Advance(i, succeeds)))
  {
    CountsAfter(s, i, if s.endSent then Returned(AlreadySent) else Ending);
  }

  lemma EndKeeps(s: State, i: nat, succeeds: bool)
    requires Invariant(s) && i < |s.threads| && s.threads[i] in HOLDERS
    ensures Invariant(Next(s, Advance(i, succeeds)))
  {
    CountAtLeast(s.threads, i, i, HOLDERS);
    CountsAfter(s, i, Clear);
    CountsAfter(s, i, Returned(Sent));
    CountsAfter(s, i, Returned(Failed));
  }

  lemma AdvanceKeeps(s: State, i: nat, succeeds: bool)
    requires Invariant(s) && i < |s.threads|
    ensures Invariant(Next(s, Advance(i, succeeds)))
  {
    match s.threads[i]
    case Exchange => ExchangeKeeps(s, i, succeeds);
    case Ending => EndKeeps(s, i, succeeds);
    case Clear => EndKeeps(s, i, succeeds);
    case Returned(_) =>
    case _ => RequestKeeps(s, i, succeeds);
  }

  lemma {:induction false} EveryRun(moves: seq<Move>)
    ensures Invariant(Run(moves))
  {
    if moves != [] {
      var s, move := Run(moves[..|moves| - 1]), moves[|moves| - 1];
      EveryRun(moves[..|moves| - 1]);
      match move
      case StartEndCall => StartKeeps(s, StoreRequested);
      case StartSchedule => StartKeeps(s, SwapRequested);
      case Advance(i, succeeds) =>
        if i < |s.threads| {
          AdvanceKeeps(s, i, succeeds);
        }
    }
  }

  /** `call.end()` never runs in two threads at once, and at most one delayed task is started. */
  lemma EndRunsAlone(moves: seq<Move>, i: nat, j: nat)
    requires i < |Run(moves).threads| && j < |Run(moves).threads|
    requires Run(moves).threads[i] == Ending && Run(moves).threads[j] == Ending
    ensures i == j
    ensures Run(moves).scheduled <= 1
  {
    EveryRun(moves);
    CountAtLeast(Run(moves).threads, i, j, HOLDERS);
  }

  lemma RunOn(moves: seq<Move>, move: Move)
    ensures Run(moves + [move]) == Next(Run(moves), move)
  {
    assert (moves + [move])[..|moves|] == moves;
  }

  lemma NoCallAfterSuccess(moves: seq<Move>, move: Move)
    requires Run(moves).byeSent
    ensures Run(moves + [move]).byeSent && Run(moves + [move]).invocations == Run(moves).invocations
  {
    RunOn(moves, move);
    EveryRun(moves);
  }

  /** Once `call.end()` has returned Ok no run calls it again. */
  lemma {:induction false} SentOnce(moves: seq<Move>, more: seq<Move>)
    requires Run(moves).byeSent
    ensures Run(moves + more).byeSent && Run(moves + more).invocations == Run(moves).invocations
    decreases |more|
  {
    if more == [] {
      assert moves + more == moves;
    } else {
      NoCallAfterSuccess(moves, more[0]);
      SentOnce(moves + [more[0]], more[1..]);
      assert moves + more == moves + [more[0]] + more[1..];
    }
  }

  /** After an error the BYE can be tried again: with no thread holding the flag and no success,
      the next thread to reach the exchange calls `call.end()`. With a success or a holder it does not. */
  lemma RetryAfterError(moves: seq<Move>, i: nat, succeeds: bool)
    requires i < |Run(moves).threads| && Run(moves).threads[i] == Exchange
    ensures var s := Run(moves);
            Next(s, Advance(i, succeeds)).threads[i] == (if s.byeSent || HolderCount(s) > 0 then Returned(AlreadySent) else Ending)
  {
    EveryRun(moves);
  }

  predicate AllReturned(s: State) {
    forall i :: 0 <= i < |s.threads| ==> s.threads[i].Returned?
  }

  lemma {:induction false} NoneHolds(ts: seq<Thread>)
    requires forall i :: 0 <= i < |ts| ==> ts[i].Returned?
    ensures Count(ts, HOLDERS) == 0
  {
    if ts != [] {
      NoneHolds(ts[..|ts| - 1]);
    }
  }

  /** Once all threads have returned, every attempt that did not send the BYE has been reported as
      failed, each to one thread. */
  lemma FailureIsReported(moves: seq<Move>)
    requires AllReturned(Run(moves))
    ensures Run(moves).invocations == ToldCount(Run(moves), Failed) + if Run(moves).byeSent then 1 else 0
  {
    EveryRun(moves);
    NoneHolds(Run(moves).threads);
  }

  /** The thread is on its way to the BYE, or has been there. */
  predicate Committed(s: State, i: nat) {
    i < |s.threads|
    && s.threads[i] != StoreRequested && s.threads[i] != SwapRequested && s.threads[i] != Returned(AlreadyRequested)
  }

  ghost predicate FlagMeans(s: State) {
    s.endRequested <==> exists i :: Committed(s, i)
  }

  /** A committed thread stays committed, and a first request commits its thread. */
  lemma CommittedMove(s: State, i: nat, succeeds: bool, j: nat)
    requires i < |s.threads|
    ensures var next := Next(s, Advance(i, succeeds));
            Committed(next, j) <==>
            (Committed(s, j) || (j == i && (s.threads[i] == StoreRequested || (!s.endRequested && next.endRequested))))
  {
  }

  lemma FlagMove(s: State, i: nat, succeeds: bool)
    requires FlagMeans(s) && i < |s.threads|
    ensures FlagMeans(Next(s, Advance(i, succeeds)))
  {
    var next := Next(s, Advance(i, succeeds));
    if s.endRequested {
      var j :| Committed(s, j);
      CommittedMove(s, i, succeeds, j);
    } else if next.endRequested {
      CommittedMove(s, i, succeeds, i);
    } else {
      forall j ensures Committed(next, j) <==> Committed(s, j) {
        CommittedMove(s, i, succeeds, j);
      }
    }
  }

  lemma FlagStart(s: State, t: Thread)
    requires FlagMeans(s) && (t == StoreRequested || t == SwapRequested)
    ensures FlagMeans(s.(threads := s.threads + [t]))
  {
    var next := s.(threads := s.threads + [t]);
    assert forall i :: Committed(next, i) <==> Committed(s, i);
  }

  /** The flag is set exactly when some thread is committed to the BYE: the first request on a clear flag commits its
      thread, and a swap on a set flag leaves the BYE to another. */
  lemma {:induction false} RequestedMeansCommitted(moves: seq<Move>)
    ensures FlagMeans(Run(moves))
  {
    if moves != [] {
      var s, move := Run(moves[..|moves| - 1]), moves[|moves| - 1];
      RequestedMeansCommitted(moves[..|moves| - 1]);
      match move
      case StartEndCall => FlagStart(s, StoreRequested);
      case StartSchedule => FlagStart(s, SwapRequested);
      case Advance(i, succeeds) =>
        if i < |s.threads| {
          FlagMove(s, i, succeeds);
        }
    }
  }

  lemma ToldOne(s: State, i: nat)
    requires i < |s.threads| && s.threads[i].Returned?
    ensures ToldCount(s, s.threads[i].outcome) > 0
  {
    CountAtLeast(s.threads, i, i, {s.threads[i]});
  }

  lemma CommittedIsTold(s: State, i: nat)
    requires Invariant(s) && AllReturned(s) && Committed(s, i)
    ensures s.invocations > 0
  {
    ToldOne(s, i);
    match s.threads[i].outcome {
      case Sent => assert ToldCount(s, Sent) > 0;
      case Failed => assert ToldCount(s, Failed) > 0;
      case AlreadySent => assert ToldCount(s, AlreadySent) > 0;
      case AlreadyRequested =>
    }
  }

  /** When a thread was started and all have returned, `call.end()` was called, and the BYE is out or some thread
      was told of a failure. */
  lemma EndIsAttempted(moves: seq<Move>)
    requires AllReturned(Run(moves)) && Run(moves).threads != []
    ensures var s := Run(moves);
            s.invocations > 0 && (s.byeSent || ToldCount(s, Failed) > 0)
  {
    var s := Run(moves);
    EveryRun(moves);
    RequestedMeansCommitted(moves);
    FailureIsReported(moves);
    ToldOne(s, 0);
    assert Committed(s, 0) || s.threads[0] == Returned(AlreadyRequested);
    assert s.endRequested;
    var i :| Committed(s, i);
    CommittedIsTold(s, i);
  }

  /** Whatever happens next, the BYE is out once no thread holds the flag. */
  ghost predicate SentInTheEnd(moves: seq<Move>) {
    forall more :: HolderCount(Run(moves + more)) == 0 ==> Run(moves + more).byeSent
  }

  lemma {:induction false} SomeHolder(ts: seq<Thread>) returns (i: nat)
    requires Count(ts, HOLDERS) > 0
    ensures i < |ts| && ts[i] in HOLDERS
  {
    i := |ts| - 1;
    if ts[i] !in HOLDERS {
      i := SomeHolder(ts[..i]);
    }
  }

  /** The holder's attempt fails and it gives the flag back. */
  lemma HolderFails(moves: seq<Move>, i: nat)
    requires i < |Run(moves).threads| && Run(moves).threads[i] in HOLDERS
    ensures exists more :: HolderCount(Run(moves + more)) == 0 && !Run(moves + more).byeSent
  {
    EveryRun(moves);
    CountAtLeast(Run(moves).threads, i, i, HOLDERS);
    var fail := Advance(i, false);
    if Run(moves).threads[i] == Clear {
      HolderClears(moves, i);
    } else {
      RunOn(moves, fail);
      EveryRun(moves + [fail]);
      HolderClears(moves + [fail], i);
      assert moves + [fail, fail] == moves + [fail] + [fail];
    }
  }

  lemma HolderClears(moves: seq<Move>, i: nat)
    requires i < |Run(moves).threads| && Run(moves).threads[i] == Clear
    ensures HolderCount(Run(moves + [Advance(i, false)])) == 0 && !Run(moves + [Advance(i, false)]).byeSent
  {
    EveryRun(moves);
    CountAtLeast(Run(moves).threads, i, i, HOLDERS);
    RunOn(moves, Advance(i, false));
    EveryRun(moves + [Advance(i, false)]);
  }

  /** The answer "already sent" is given exactly while the flag is set, and is right exactly when no
      thread holds it: then the BYE is out for good, and otherwise the holder may still fail. */
  lemma AlreadySentIsRight(moves: seq<Move>, i: nat, succeeds: bool)
    requires i < |Run(moves).threads| && Run(moves).threads[i] == Exchange
    ensures Next(Run(moves), Advance(i, succeeds)).threads[i] == Returned(AlreadySent) <==> Run(moves).endSent
    ensures Run(moves).endSent ==> (SentInTheEnd(moves) <==> HolderCount(Run(moves)) == 0)
  {
    EveryRun(moves);
    if Run(moves).endSent {
      if HolderCount(Run(moves)) == 0 {
        forall more ensures Run(moves + more).byeSent {
          SentOnce(moves, more);
        }
      } else {
        var holder := SomeHolder(Run(moves).threads);
        HolderFails(moves, holder);
      }
    }
  }

  /** A run in which it is wrong: the thread meets an attempt that then fails. */
  lemma AlreadySentMayBeWrong() returns (moves: seq<Move>)
    ensures AllReturned(Run(moves)) && !Run(moves).byeSent
    ensures Run(moves).threads == [Returned(Failed), Returned(AlreadySent)]
  {
    var a := [StartEndCall, StartEndCall, Advance(0, false), Advance(0, false)];
    assert a[..3][..2][..1] == [StartEndCall] && a[..3][..2] == [StartEndCall, StartEndCall];
    assert [] + [StartEndCall] == [StartEndCall];
    RunOn([], StartEndCall);
    RunOn([StartEndCall], StartEndCall);
    assert [StartEndCall] + [StartEndCall] == a[..2];
    RunOn(a[..2], Advance(0, false));
    assert a[..2] + [Advance(0, false)] == a[..3];
    RunOn(a[..3], Advance(0, false));
    assert a[..3] + [Advance(0, false)] == a;
    assert Run(a).threads == [Ending, StoreRequested];
    RunOn(a, Advance(1, false));
    var b := a + [Advance(1, false)];
    RunOn(b, Advance(1, false));
    var c := b + [Advance(1, false)];
    assert Run(c).threads == [Ending, Returned(AlreadySent)];
    RunOn(c, Advance(0, false));
    RunOn(c + [Advance(0, false)], Advance(0, false));
    moves := c + [Advance(0, false)] + [Advance(0, false)];
  }
}
