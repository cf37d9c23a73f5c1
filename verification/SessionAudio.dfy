/**
 What becomes of the audio of a session: every decoded delta is queued, in order,
 and what is played and dropped is a prefix of it.
 */
module SessionAudio {
  import opened Common
  import opened QueuedAudio
  import opened EventMapper
  import opened RealtimeSession

  /** The audio a step brings from the provider. */
  function StepAudio(step: Step): seq<byte> {
    if step.Provider? && step.event.OutputAudioDelta? && step.event.payload.Some? && step.event.payload.value.Decoded?
    then step.event.payload.value.audio else []
  }

  function ProviderAudio(steps: seq<Step>): seq<byte> {
    if steps == [] then [] else StepAudio(steps[0]) + ProviderAudio(steps[1..])
  }

  /** The audio a log says was queued. */
  function Enqueued(log: seq<Entry>): seq<byte> {
    if log == [] then [] else (if log[0].Enqueue? then log[0].audio else []) + Enqueued(log[1..])
  }

  /** The frames a log says were played. */
  function Frames(log: seq<Entry>): seq<seq<byte>> {
    if log == [] then [] else (if log[0].Play? then [log[0].frame] else []) + Frames(log[1..])
  }

  /** The frames among what left the queue: the bytes taken, completed with silence. */
  function PlayedFrames(ds: seq<Departure>): seq<seq<byte>> {
    if ds == [] then []
    else
      var last := ds[|ds| - 1];
      PlayedFrames(ds[..|ds| - 1]) + if last.Played? then [last.content + Silence(last.padding)] else []
  }

  // ------------------------------------------------------------- queued in order

  function AudioOf(events: seq<BridgeEvent>): seq<byte> {
    if events == [] then [] else (if events[0].AudioDelta? then events[0].audio else []) + AudioOf(events[1..])
  }

  lemma {:induction false} AudioSplit(a: seq<BridgeEvent>, b: seq<BridgeEvent>)
    ensures AudioOf(a + b) == AudioOf(a) + AudioOf(b)
    decreases |a|
  {
    if a == [] {
      assert a + b == b;
    } else {
      assert (a + b)[1..] == a[1..] + b;
      AudioSplit(a[1..], b);
    }
  }

  lemma {:induction false} EnqueuedSplit(a: seq<Entry>, b: seq<Entry>)
    ensures Enqueued(a + b) == Enqueued(a) + Enqueued(b)
    decreases |a|
  {
    if a == [] {
      assert a + b == b;
    } else {
      assert (a + b)[1..] == a[1..] + b;
      EnqueuedSplit(a[1..], b);
    }
  }

  lemma {:induction false} FramesSplit(a: seq<Entry>, b: seq<Entry>)
    ensures Frames(a + b) == Frames(a) + Frames(b)
    decreases |a|
  {
    if a == [] {
      assert a + b == b;
    } else {
      assert (a + b)[1..] == a[1..] + b;
      FramesSplit(a[1..], b);
    }
  }

  predicate Silent(events: seq<BridgeEvent>) {
    forall i :: 0 <= i < |events| ==> !events[i].AudioDelta?
  }

  lemma {:induction false} SilentAudio(events: seq<BridgeEvent>)
    requires Silent(events)
    ensures AudioOf(events) == []
    decreases |events|
  {
    if events != [] {
      SilentAudio(events[1..]);
    }
  }

  lemma AudioOfOne(audio: seq<byte>, item: Option<string>)
    ensures AudioOf([AudioDelta(audio, item)]) == audio
  {
    assert [AudioDelta(audio, item)][1..] == [];
  }

  /** Apart from decoded audio the mapper's events carry none. */
  lemma MappedSilence(m: Mapper, event: ProviderEvent)
    requires !(event.OutputAudioDelta? && event.payload.Some? && event.payload.value.Decoded?)
    ensures Silent(m.Apply(event).0)
  {
    assert Silent(m.FinalInput()) && Silent(m.CloseInput().0);
  }

  /** The mapper passes on exactly the decoded audio. */
  lemma MapperAudio(m: Mapper, event: ProviderEvent)
    ensures AudioOf(m.Apply(event).0) == StepAudio(Provider(event))
  {
    if event.OutputAudioDelta? && event.payload.Some? && event.payload.value.Decoded? {
      var audio, item := event.payload.value.audio, if event.itemId.Some? then event.itemId else m.responseItemId;
      var closed := m.CloseInput().0;
      assert m.Apply(event).0 == closed + [AudioDelta(audio, item)];
      assert Silent(closed);
      SilentAudio(closed);
      AudioSplit(closed, [AudioDelta(audio, item)]);
      AudioOfOne(audio, item);
    } else {
      MappedSilence(m, event);
      SilentAudio(m.Apply(event).0);
    }
  }

  /** Entries that neither play a frame nor record a step. */
  predicate Plain(log: seq<Entry>) {
    forall i :: 0 <= i < |log| ==> !log[i].Play? && !log[i].Did?
  }

  predicate NothingQueued(log: seq<Entry>) {
    forall i :: 0 <= i < |log| ==> !log[i].Enqueue?
  }

  lemma {:induction false} NothingEnqueued(log: seq<Entry>)
    requires NothingQueued(log)
    ensures Enqueued(log) == []
    decreases |log|
  {
    if log != [] {
      NothingEnqueued(log[1..]);
    }
  }

  lemma {:induction false} PlainPlaysNothing(log: seq<Entry>)
    requires Plain(log)
    ensures Frames(log) == []
    decreases |log|
  {
    if log != [] {
      PlainPlaysNothing(log[1..]);
    }
  }

  lemma HandlingOneQueues(s: Session, event: BridgeEvent)
    ensures Enqueued(Handle(s, event).1) == (if event.AudioDelta? then event.audio else []) && Plain(Handle(s, event).1)
  {
    var entries := Handle(s, event).1;
    if event.AudioDelta? {
      assert entries[1..] == [];
    } else {
      assert NothingQueued(entries);
      NothingEnqueued(entries);
    }
  }

  lemma {:induction false} HandlingQueues(s: Session, events: seq<BridgeEvent>)
    ensures Enqueued(HandleAll(s, events).1) == AudioOf(events) && Plain(HandleAll(s, events).1)
    decreases |events|
  {
    if events != [] {
      var (next, entries) := Handle(s, events[0]);
      HandlingOneQueues(s, events[0]);
      HandlingQueues(next, events[1..]);
      EnqueuedSplit(entries, HandleAll(next, events[1..]).1);
    }
  }

  lemma EnqueuedNext(e: Entry, rest: seq<Entry>)
    ensures Enqueued([e] + rest) == (if e.Enqueue? then e.audio else []) + Enqueued(rest)
    ensures Frames([e] + rest) == (if e.Play? then [e.frame] else []) + Frames(rest)
  {
    assert ([e] + rest)[1..] == rest;
  }

  /** A provider message queues exactly the audio it brings, and plays nothing. */
  lemma ProviderQueues(s: Session, event: ProviderEvent)
    ensures Enqueued(React(s, Provider(event)).1) == StepAudio(Provider(event))
    ensures Plain(React(s, Provider(event)).1)
  {
    var (mapped, s1) := Mapped(s, event);
    var sent := HandleAll(s1, mapped).1;
    MapperAudio(s.mapper, event);
    HandlingQueues(s1, mapped);
    if EndsAudio(event) {
      EnqueuedSplit(sent, [FinishAudio]);
      NothingEnqueued([FinishAudio]);
    }
  }

  lemma StepQueues(s: Session, step: Step)
    ensures Enqueued(React(s, step).1) == StepAudio(step)
    ensures !step.Tick? ==> Plain(React(s, step).1)
  {
    if step.Provider? {
      ProviderQueues(s, step.event);
    } else {
      NothingEnqueued(React(s, step).1);
    }
  }

  /** A step and the entries it causes. */
  function Turn(s: Session, step: Step): seq<Entry> {
    [Did(step)] + React(s, step).1
  }

  lemma TurnQueues(s: Session, step: Step)
    ensures Enqueued(Turn(s, step)) == StepAudio(step)
  {
    StepQueues(s, step);
    EnqueuedNext(Did(step), React(s, step).1);
  }

  lemma LogFirst(s: Session, steps: seq<Step>, turn: seq<Entry>, next: Session)
    requires steps != [] && turn == Turn(s, steps[0]) && next == React(s, steps[0]).0
    ensures Log(s, steps) == turn + Log(next, steps[1..])
  {
  }

  lemma AudioFirst(steps: seq<Step>, audio: seq<byte>)
    requires steps != [] && audio == StepAudio(steps[0])
    ensures ProviderAudio(steps) == audio + ProviderAudio(steps[1..])
  {
  }

  /** In every run the audio queued is the audio decoded, in order. */
  lemma {:induction false} QueuedIsDecoded(s: Session, steps: seq<Step>)
    ensures Enqueued(Log(s, steps)) == ProviderAudio(steps)
    decreases |steps|
  {
    if steps != [] {
      var turn, next := Turn(s, steps[0]), React(s, steps[0]).0;
      TurnQueues(s, steps[0]);
      QueuedIsDecoded(next, steps[1..]);
      LogFirst(s, steps, turn, next);
      AudioFirst(steps, StepAudio(steps[0]));
      EnqueuedSplit(turn, Log(next, steps[1..]));
    }
  }

  // -------------------------------------------------------------- played in order

  /** A history that has grown by some audio and is in order. */
  ghost predicate Grown(before: History, after: History, audio: seq<byte>) {
    InOrder(after) && after.pushed == before.pushed + audio
  }

  lemma GrownOn(before: History, between: History, after: History, a: seq<byte>, b: seq<byte>)
    requires Grown(before, between, a) && Grown(between, after, b)
    ensures Grown(before, after, a + b)
  {
  }

  /** The history the monitor keeps of the queue holds what the log says was queued. */
  lemma {:induction false} HistoryOfLog(m: Monitor, log: seq<Entry>)
    requires InOrder(m.queued)
    ensures Grown(m.queued, Watch(m, log).queued, Enqueued(log))
    decreases |log|
  {
    if log != [] {
      var next := Observe(m, log[0]);
      HistoryOfEntry(m.queued, log[0]);
      HistoryOfLog(next, log[1..]);
      GrownOn(m.queued, next.queued, Watch(m, log).queued, if log[0].Enqueue? then log[0].audio else [], Enqueued(log[1..]));
    }
  }

  lemma HistoryOfEntry(h: History, e: Entry)
    requires InOrder(h)
    ensures InOrder(QueuedAfter(h, e))
    ensures QueuedAfter(h, e).pushed == h.pushed + if e.Enqueue? then e.audio else []
  {
    match e
    case Enqueue(audio, item) =>
      ApplyKeepsOrder(h, PushOp(item, audio));
      ApplyKeepsOrder(Apply(h, PushOp(item, audio)), DiscardOp);
    case FlushSink => ApplyKeepsOrder(h, FlushOp);
    case FinishAudio => ApplyKeepsOrder(h, FinishOp);
    case Did(Tick) => ApplyKeepsOrder(h, TickOp);
    case _ =>
  }

  lemma PlayedNext(ds: seq<Departure>, d: Departure)
    ensures PlayedFrames(ds + [d]) == PlayedFrames(ds) + if d.Played? then [d.content + Silence(d.padding)] else []
  {
    assert (ds + [d])[..|ds|] == ds;
  }

  /** Nothing but a tick plays. */
  lemma QuietEntry(h: History, e: Entry)
    requires !(e.Did? && e.step.Tick?)
    ensures PlayedFrames(QueuedAfter(h, e).departed) == PlayedFrames(h.departed)
  {
    match e
    case Enqueue(audio, item) =>
      var pushed := Apply(h, PushOp(item, audio));
      PlayedNext(pushed.departed, Dropped(pushed.queue.bytes[..pushed.queue.Overflow()]));
    case FlushSink => PlayedNext(h.departed, Dropped(h.queue.bytes[..|h.queue.bytes|]));
    case _ =>
  }

  lemma {:induction false} QuietLog(m: Monitor, log: seq<Entry>)
    requires Plain(log)
    ensures PlayedFrames(Watch(m, log).queued.departed) == PlayedFrames(m.queued.departed)
    decreases |log|
  {
    if log != [] {
      QuietEntry(m.queued, log[0]);
      QuietLog(Observe(m, log[0]), log[1..]);
    }
  }

  /** The frames a log plays are those its history of the queue says were played. */
  ghost predicate Plays(m: Monitor, log: seq<Entry>) {
    PlayedFrames(Watch(m, log).queued.departed) == PlayedFrames(m.queued.departed) + Frames(log)
  }

  /** A tick plays the frame the queue gives up, if it gives one. */
  lemma TickPlays(m: Monitor, s: Session)
    requires m.queued.queue == s.queue
    ensures Plays(m, Turn(s, Tick))
  {
    var q, entries := s.queue, React(s, Tick).1;
    var n := q.Playable();
    WatchNext(true, m, Did(Tick), entries);
    EnqueuedNext(Did(Tick), entries);
    if n != 0 {
      PlayedNext(m.queued.departed, Played(q.bytes[..n], FRAME - n));
      assert entries == [Play(q.bytes[..n] + Silence(FRAME - n), s.marker)] + [];
      EnqueuedNext(entries[0], []);
      WatchNext(true, Observe(m, Did(Tick)), entries[0], []);
    }
  }

  lemma StepPlays(m: Monitor, s: Session, step: Step)
    requires Tracks(m, s)
    ensures Plays(m, Turn(s, step))
  {
    if step.Tick? {
      TickPlays(m, s);
    } else {
      var entries := React(s, step).1;
      StepQueues(s, step);
      WatchNext(true, m, Did(step), entries);
      EnqueuedNext(Did(step), entries);
      QuietEntry(m.queued, Did(step));
      QuietLog(Observe(m, Did(step)), entries);
      PlainPlaysNothing(entries);
    }
  }

  lemma PlaysOn(m: Monitor, a: seq<Entry>, b: seq<Entry>)
    requires Plays(m, a) && Plays(Watch(m, a), b)
    ensures Plays(m, a + b)
  {
    WatchSplit(true, m, a, b);
    FramesSplit(a, b);
    Associates(PlayedFrames(m.queued.departed), Frames(a), Frames(b));
  }

  lemma Associates<T>(x: seq<T>, y: seq<T>, z: seq<T>)
    ensures x + y + z == x + (y + z)
  {
  }

  lemma {:induction false} RunPlays(m: Monitor, s: Session, steps: seq<Step>)
    requires Tracks(m, s)
    ensures Plays(m, Log(s, steps))
    decreases |steps|
  {
    if steps != [] {
      var turn, next := Turn(s, steps[0]), React(s, steps[0]).0;
      StepFine(m, s, steps[0]);
      StepPlays(m, s, steps[0]);
      RunPlays(Watch(m, turn), next, steps[1..]);
      LogFirst(s, steps, turn, next);
      PlaysOn(m, turn, Log(next, steps[1..]));
    }
  }

  /** In every run nothing is invented, lost before the queue or reordered: the audio queued is the
      audio decoded, what was played and dropped, taken together in order, is a prefix of it, and the
      frames sent are those played, completed with silence. */
  lemma AudioIsDelivered(xai: bool, steps: seq<Step>)
    ensures var log := Log(Opened(xai), steps);
            var h := Watch(FRESH, log).queued;
            && Enqueued(log) == ProviderAudio(steps) == h.pushed
            && Contents(h.departed) <= ProviderAudio(steps)
            && h.queue.bytes == ProviderAudio(steps)[|Contents(h.departed)|..]
            && Frames(log) == PlayedFrames(h.departed)
  {
    var log := Log(Opened(xai), steps);
    NothingPending();
    QueuedIsDecoded(Opened(xai), steps);
    HistoryOfLog(FRESH, log);
    RunPlays(FRESH, Opened(xai), steps);
  }
}
