/**
 The select loop of a realtime session as steps: caller audio, commands, provider
 messages and the 20 ms ticker, taken in any order. A session that fails on a
 send leaves a prefix of such a run. The claims are made by a monitor that sees
 only what came in and what went out.
 */
module RealtimeSession {
  import opened Common
  import opened QueuedAudio
  import opened EventMapper
  import opened Whitespace

  datatype Step = CallerAudio(audio: seq<byte>) | Speak(text: string) | Provider(event: ProviderEvent) | Tick

  datatype Entry =
    | Did(step: Step)
    | Append(audio: seq<byte>)
    | Say(text: string)
    | Enqueue(audio: seq<byte>, item: Option<string>)
    | FlushSink
    | Cancel
    | Truncate(heardItem: string, audioEndMs: nat)
    | Emit(event: BridgeEvent)
    | FinishAudio
    | Play(frame: seq<byte>, marker: bool)

  datatype Session = Session(mapper: Mapper, queue: Queue, marker: bool)

  function Opened(xai: bool): Session {
    Session(Mapper(xai, "", "", false, None), EMPTY, true)
  }

  /** Handling one mapped event. */
  function Handle(s: Session, event: BridgeEvent): (Session, seq<Entry>) {
    match event
    case AudioDelta(audio, item) =>
      (s.(queue := s.queue.Push(item, audio).DiscardOverflow()), [Enqueue(audio, item)])
    case SpeechStarted =>
      var heard := s.queue.HeardMs();
      var truncates := s.mapper.responseActive && s.queue.itemId.Some? && heard > 0;
      (s.(queue := s.queue.FlushForBargeIn(), marker := true, mapper := s.mapper.(responseActive := false)),
       [FlushSink]
       + (if s.mapper.responseActive then [Cancel] else [])
       + (if truncates then [Truncate(s.queue.itemId.value, heard)] else [])
       + [Emit(SpeechStarted)])
    case _ => (s, [Emit(event)])
  }

  function HandleAll(s: Session, events: seq<BridgeEvent>): (Session, seq<Entry>)
    decreases |events|
  {
    if events == [] then (s, [])
    else
      var (next, entries) := Handle(s, events[0]);
      var (last, more) := HandleAll(next, events[1..]);
      (last, entries + more)
  }

  /** A provider message starts a new talkspurt. */
  function StartsTalkspurt(s: Session, event: ProviderEvent): bool {
    event.ResponseCreated? || (event.OutputAudioDelta? && !s.mapper.responseActive)
  }

  function EndsAudio(event: ProviderEvent): bool {
    event.OutputAudioDone? || event.ResponseFinished?
  }

  function React(s: Session, step: Step): (Session, seq<Entry>) {
    match step
    case CallerAudio(audio) => (s, [Append(audio)])
    case Speak(text) =>
      if IsBlankText(text) then (s, [])
      else (s.(mapper := s.mapper.(responseActive := true), marker := true), [Say(text)])
    case Provider(event) =>
      var marked := if StartsTalkspurt(s, event) then s.(marker := true) else s;
      var (mapped, mapper) := marked.mapper.Apply(event);
      var (handled, entries) := HandleAll(marked.(mapper := mapper), mapped);
      if EndsAudio(event) then (handled.(queue := handled.queue.Finish()), entries + [FinishAudio])
      else (handled, entries)
    case Tick =>
      var (frame, queue) := s.queue.NextFrame();
      if frame.None? then (s, []) else (s.(queue := queue, marker := false), [Play(frame.value, s.marker)])
  }

  /** The log of a run: each step, and what it sent. */
  function Log(s: Session, steps: seq<Step>): seq<Entry>
    decreases |steps|
  {
    if steps == [] then []
    else
      var (next, entries) := React(s, steps[0]);
      [Did(steps[0])] + entries + Log(next, steps[1..])
  }

  // --------------------------------------------------------------- the monitor

  predicate Activates(e: Entry) {
    match e
    case Did(Speak(text)) => !IsBlankText(text)
    case Did(Provider(event)) => event.ResponseCreated? || event.OutputAudioDelta? || event.OutputTextDelta?
    case _ => false
  }

  /** What the log so far implies: whether a response is active, the output text since the last
      done event, the caller text not yet final, whether the next frame begins a talkspurt, the
      history of the output queue, now and before its last flush, and the last entry. */
  datatype Monitor = Monitor(active: bool, deltas: string, awaiting: string, talkspurt: bool,
                             queued: History, flushed: History, last: Option<Entry>)

  const FRESH: Monitor := Monitor(false, "", "", true, START, START, None)

  function DeltasAfter(deltas: string, e: Entry): string {
    if !(e.Did? && e.step.Provider?) then deltas
    else
      match e.step.event
      case OutputTextDelta(Some(delta)) => deltas + delta
      case OutputTextDone(Some(_)) => ""
      case ResponseFinished(_) => ""
      case _ => deltas
  }

  function AwaitingAfter(awaiting: string, e: Entry): string {
    match e
    case Emit(InputTranscript(_, true)) => ""
    case Did(Provider(InputDelta(Some(delta)))) => awaiting + delta
    case Did(Provider(InputUpdated(Some(text)))) => text
    case Did(Provider(InputCompleted(_))) => ""
    case _ => awaiting
  }

  function ActiveAfter(active: bool, e: Entry): bool {
    Activates(e) || (active && !e.Cancel? && !(e.Did? && e.step.Provider? && e.step.event.ResponseFinished?))
  }

  function TalkspurtAfter(m: Monitor, e: Entry): bool {
    match e
    case Play(_, _) => false
    case FlushSink => true
    case Did(Speak(text)) => m.talkspurt || !IsBlankText(text)
    case Did(Provider(event)) => m.talkspurt || event.ResponseCreated? || (event.OutputAudioDelta? && !m.active)
    case _ => m.talkspurt
  }

  function QueuedAfter(h: History, e: Entry): History {
    match e
    case Enqueue(audio, item) => Apply(Apply(h, PushOp(item, audio)), DiscardOp)
    case FlushSink => Apply(h, FlushOp)
    case FinishAudio => Apply(h, FinishOp)
    case Did(Tick) => Apply(h, TickOp)
    case _ => h
  }

  function Observe(m: Monitor, e: Entry): Monitor {
    Monitor(ActiveAfter(m.active, e), DeltasAfter(m.deltas, e), AwaitingAfter(m.awaiting, e), TalkspurtAfter(m, e),
            QueuedAfter(m.queued, e), if e.FlushSink? then m.queued else m.flushed, Some(e))
  }

  /** What every entry must satisfy, given the log before it. */
  predicate Allowed(xai: bool, m: Monitor, e: Entry) {
    match e
    case Cancel => m.active
    case Truncate(item, ms) =>
      m.last == Some(Cancel) && m.flushed.queue.itemId == Some(item) && 0 < ms <= m.flushed.played / 8
    case Enqueue(_, _) => xai ==> IsBlankText(m.awaiting)
    case Emit(OutputTranscript(text, false)) => text == m.deltas && (xai ==> IsBlankText(m.awaiting))
    case Play(frame, marker) => marker == m.talkspurt && |frame| == FRAME
    case _ => true
  }

  function Watch(m: Monitor, log: seq<Entry>): Monitor
    decreases |log|
  {
    if log == [] then m else Watch(Observe(m, log[0]), log[1..])
  }

  predicate AllAllowed(xai: bool, m: Monitor, log: seq<Entry>)
    decreases |log|
  {
    log == [] || (Allowed(xai, m, log[0]) && AllAllowed(xai, Observe(m, log[0]), log[1..]))
  }

  lemma {:induction false} WatchSplit(xai: bool, m: Monitor, a: seq<Entry>, b: seq<Entry>)
    ensures Watch(m, a + b) == Watch(Watch(m, a), b)
    ensures AllAllowed(xai, m, a + b) <==> AllAllowed(xai, m, a) && AllAllowed(xai, Watch(m, a), b)
    decreases |a|
  {
    if a == [] {
      assert a + b == b;
    } else {
      WatchSplit(xai, Observe(m, a[0]), a[1..], b);
      assert (a + b)[1..] == a[1..] + b;
    }
  }

  lemma WatchNext(xai: bool, m: Monitor, e: Entry, rest: seq<Entry>)
    ensures Watch(m, [e] + rest) == Watch(Observe(m, e), rest)
    ensures AllAllowed(xai, m, [e] + rest) <==> Allowed(xai, m, e) && AllAllowed(xai, Observe(m, e), rest)
  {
    assert ([e] + rest)[1..] == rest;
  }

  /** The caller text the session still holds, as the monitor sees it: up to blank text dropped before it. */
  ghost predicate Holds(awaiting: string, pending: string) {
    exists dropped :: awaiting == dropped + pending && IsBlankText(dropped)
  }

  /** The monitor and the session agree, but for caller text. */
  ghost predicate Agrees(m: Monitor, s: Session) {
    && m.active == s.mapper.responseActive
    && m.deltas == s.mapper.outputPending
    && m.talkspurt == s.marker
    && m.queued.queue == s.queue && InOrder(m.queued) && Accounted(m.queued)
  }

  ghost predicate Tracks(m: Monitor, s: Session) {
    Agrees(m, s) && (s.mapper.xai ==> Holds(m.awaiting, s.mapper.inputPending))
  }

  /** Handling these events keeps to the rules and ends in agreement. */
  ghost predicate Fine(m: Monitor, s: Session, events: seq<BridgeEvent>) {
    var (next, entries) := HandleAll(s, events);
    AllAllowed(s.mapper.xai, m, entries) && Tracks(Watch(m, entries), next)
  }

  lemma FineNone(m: Monitor, s: Session)
    requires Tracks(m, s)
    ensures Fine(m, s, [])
  {
  }

  lemma FineEmit(m: Monitor, s: Session, event: BridgeEvent, rest: seq<BridgeEvent>)
    requires !event.AudioDelta? && !event.SpeechStarted? && Allowed(s.mapper.xai, m, Emit(event))
    requires Fine(Observe(m, Emit(event)), s, rest)
    ensures Fine(m, s, [event] + rest)
  {
    assert ([event] + rest)[1..] == rest;
    var entries := HandleAll(s, rest).1;
    assert ([Emit(event)] + entries)[1..] == entries;
  }

  lemma ApplyTracked(h: History, op: Op)
    requires InOrder(h) && Accounted(h)
    ensures InOrder(Apply(h, op)) && Accounted(Apply(h, op))
  {
    ApplyKeepsOrder(h, op);
    ApplyKeepsAccount(h, op);
  }

  lemma FineAudio(m: Monitor, s: Session, audio: seq<byte>, item: Option<string>)
    requires Tracks(m, s) && (s.mapper.xai ==> IsBlankText(m.awaiting))
    ensures Fine(m, s, [AudioDelta(audio, item)])
  {
    ApplyTracked(m.queued, PushOp(item, audio));
    ApplyTracked(Apply(m.queued, PushOp(item, audio)), DiscardOp);
    var e := Enqueue(audio, item);
    assert [e][1..] == [] && [e] + [] == [e] && [AudioDelta(audio, item)][1..] == [];
  }

  /** These entries keep to the rules and end in agreement with `s`. */
  ghost predicate Closes(m: Monitor, s: Session, entries: seq<Entry>) {
    AllAllowed(s.mapper.xai, m, entries) && Tracks(Watch(m, entries), s)
  }

  lemma CloseNone(m: Monitor, s: Session)
    requires Tracks(m, s)
    ensures Closes(m, s, [])
  {
  }

  lemma CloseNext(m: Monitor, s: Session, e: Entry, rest: seq<Entry>)
    requires Allowed(s.mapper.xai, m, e) && Closes(Observe(m, e), s, rest)
    ensures Closes(m, s, [e] + rest)
  {
    WatchNext(s.mapper.xai, m, e, rest);
  }

  lemma CloseReport(m: Monitor, s: Session)
    requires Tracks(m, s)
    ensures Closes(m, s, [Emit(SpeechStarted)])
  {
    CloseNone(Observe(m, Emit(SpeechStarted)), s);
    CloseNext(m, s, Emit(SpeechStarted), []);
    assert [Emit(SpeechStarted)] + [] == [Emit(SpeechStarted)];
  }

  lemma FlushTracked(m: Monitor, s: Session)
    requires Tracks(m, s)
    ensures var flushed := s.(queue := s.queue.FlushForBargeIn(), marker := true);
            Tracks(Observe(m, FlushSink), flushed)
    ensures s.queue.HeardMs() <= m.queued.played / 8
  {
    ApplyTracked(m.queued, FlushOp);
    HeardIsPlayed(m.queued);
  }

  predicate TruncatesHeard(m: Monitor, e: Entry) {
    e.Truncate? && m.flushed.queue.itemId == Some(e.heardItem) && 0 < e.audioEndMs <= m.flushed.played / 8
  }

  lemma CloseCancel(m: Monitor, s: Session, truncate: seq<Entry>)
    requires Tracks(m, s) && m.active
    requires truncate == [] || (|truncate| == 1 && TruncatesHeard(m, truncate[0]))
    ensures Closes(m, s.(mapper := s.mapper.(responseActive := false)), [Cancel] + (truncate + [Emit(SpeechStarted)]))
  {
    var done := s.(mapper := s.mapper.(responseActive := false));
    var cancelled := Observe(m, Cancel);
    var tail := [Emit(SpeechStarted)];
    if truncate == [] {
      CloseReport(cancelled, done);
      assert truncate + tail == tail;
    } else {
      CloseReport(Observe(cancelled, truncate[0]), done);
      CloseNext(cancelled, done, truncate[0], tail);
      assert [truncate[0]] + tail == truncate + tail;
    }
    CloseNext(m, done, Cancel, truncate + tail);
  }

  /** A barge-in cancels an active response once, and may then truncate what was not heard. */
  lemma FineSpeech(m: Monitor, s: Session)
    requires Tracks(m, s)
    ensures Fine(m, s, [SpeechStarted])
  {
    FlushTracked(m, s);
    var heard := s.queue.HeardMs();
    var flushed := s.(queue := s.queue.FlushForBargeIn(), marker := true);
    var tail := [Emit(SpeechStarted)];
    var (next, entries) := Handle(s, SpeechStarted);
    assert [SpeechStarted][1..] == [] && entries + [] == entries;
    if s.mapper.responseActive {
      var truncate := if s.queue.itemId.Some? && heard > 0 then [Truncate(s.queue.itemId.value, heard)] else [];
      CloseCancel(Observe(m, FlushSink), flushed, truncate);
      assert entries == [FlushSink] + ([Cancel] + (truncate + tail));
      CloseNext(m, next, FlushSink, [Cancel] + (truncate + tail));
    } else {
      CloseReport(Observe(m, FlushSink), flushed);
      assert entries == [FlushSink] + tail && next == flushed;
      CloseNext(m, next, FlushSink, tail);
    }
  }

  /** The session after a provider message has been mapped and before the mapped events are handled. */
  function Mapped(s: Session, event: ProviderEvent): (seq<BridgeEvent>, Session) {
    var marked := if StartsTalkspurt(s, event) then s.(marker := true) else s;
    var (mapped, mapper) := marked.mapper.Apply(event);
    (mapped, marked.(mapper := mapper))
  }

  lemma MappedAgrees(m: Monitor, s: Session, event: ProviderEvent)
    requires Tracks(m, s)
    ensures Agrees(Observe(m, Did(Provider(event))), Mapped(s, event).1)
  {
  }

  lemma BlankPending(awaiting: string, pending: string)
    requires Holds(awaiting, pending) && IsBlankText(pending)
    ensures IsBlankText(awaiting) && Holds(awaiting, "")
  {
    assert awaiting == awaiting + "";
  }

  lemma NothingPending()
    ensures IsBlankText("") && Holds("", "")
  {
    assert "" == "" + "";
  }

  /** The monitor once the caller's text is closed. */
  function AfterClose(m: Monitor, before: Mapper): Monitor {
    if before.xai && !IsBlankText(before.inputPending) then Observe(m, Emit(InputTranscript(before.inputPending, true)))
    else m
  }

  /** Closing the caller's text leaves only blank text awaited. */
  lemma CloseInputTracks(m: Monitor, s: Session, before: Mapper)
    requires Agrees(m, s) && s.mapper.xai == before.xai
    requires before.xai ==> s.mapper.inputPending == "" && Holds(m.awaiting, before.inputPending)
    ensures Tracks(AfterClose(m, before), s) && AfterClose(m, before).deltas == m.deltas
    ensures before.xai ==> IsBlankText(AfterClose(m, before).awaiting)
  {
    NothingPending();
    if before.xai && IsBlankText(before.inputPending) {
      BlankPending(m.awaiting, before.inputPending);
    }
  }

  lemma FineAfterClose(m: Monitor, s: Session, before: Mapper, rest: seq<BridgeEvent>)
    requires Fine(AfterClose(m, before), s, rest)
    ensures Fine(m, s, before.CloseInput().0 + rest)
  {
    var final := before.CloseInput().0;
    if final == [] {
      assert final + rest == rest;
    } else {
      FineEmit(m, s, final[0], rest);
      assert final + rest == [final[0]] + rest;
    }
  }

  lemma FineOne(m: Monitor, s: Session, event: BridgeEvent)
    requires !event.AudioDelta? && !event.SpeechStarted? && Allowed(s.mapper.xai, m, Emit(event))
    requires Tracks(Observe(m, Emit(event)), s)
    ensures Fine(m, s, [event])
  {
    FineNone(Observe(m, Emit(event)), s);
    FineEmit(m, s, event, []);
    assert [event] + [] == [event];
  }

  lemma FineCreated(m: Monitor, s: Session)
    requires Tracks(m, s)
    ensures Fine(Observe(m, Did(Provider(ResponseCreated))), Mapped(s, ResponseCreated).1, Mapped(s, ResponseCreated).0)
  {
    MappedAgrees(m, s, ResponseCreated);
    var m1 := Observe(m, Did(Provider(ResponseCreated)));
    var (mapped, s1) := Mapped(s, ResponseCreated);
    CloseInputTracks(m1, s1, s.mapper);
    FineNone(AfterClose(m1, s.mapper), s1);
    FineAfterClose(m1, s1, s.mapper, []);
    assert mapped == s.mapper.CloseInput().0 + [];
  }

  lemma FineAudioDelta(m: Monitor, s: Session, payload: Option<Payload>, itemId: Option<string>)
    requires Tracks(m, s)
    ensures var event := OutputAudioDelta(payload, itemId);
            Fine(Observe(m, Did(Provider(event))), Mapped(s, event).1, Mapped(s, event).0)
  {
    var event := OutputAudioDelta(payload, itemId);
    MappedAgrees(m, s, event);
    var m1 := Observe(m, Did(Provider(event)));
    var (mapped, s1) := Mapped(s, event);
    CloseInputTracks(m1, s1, s.mapper);
    var after := AfterClose(m1, s.mapper);
    var rest: seq<BridgeEvent>;
    if payload.None? {
      rest := [];
      FineNone(after, s1);
    } else if payload.value.Undecodable? {
      rest := [INVALID_AUDIO];
      FineOne(after, s1, INVALID_AUDIO);
    } else {
      var item := if itemId.Some? then itemId else s.mapper.responseItemId;
      rest := [AudioDelta(payload.value.audio, item)];
      FineAudio(after, s1, payload.value.audio, item);
    }
    FineAfterClose(m1, s1, s.mapper, rest);
    assert mapped == s.mapper.CloseInput().0 + rest;
  }

  lemma FineTextDelta(m: Monitor, s: Session, delta: Option<string>)
    requires Tracks(m, s)
    ensures var event := OutputTextDelta(delta);
            Fine(Observe(m, Did(Provider(event))), Mapped(s, event).1, Mapped(s, event).0)
  {
    var event := OutputTextDelta(delta);
    MappedAgrees(m, s, event);
    var m1 := Observe(m, Did(Provider(event)));
    var (mapped, s1) := Mapped(s, event);
    CloseInputTracks(m1, s1, s.mapper);
    var after := AfterClose(m1, s.mapper);
    var rest: seq<BridgeEvent> := [];
    if delta.Some? {
      rest := [OutputTranscript(s.mapper.outputPending + delta.value, false)];
      FineOne(after, s1, rest[0]);
    } else {
      FineNone(after, s1);
    }
    FineAfterClose(m1, s1, s.mapper, rest);
    assert mapped == s.mapper.CloseInput().0 + rest;
  }

  lemma FineEnd(m: Monitor, s: Session, output: seq<BridgeEvent>, usage: Option<Usage>)
    requires Tracks(m, s)
    requires output == [] || (|output| == 1 && output[0].OutputTranscript? && output[0].final)
    ensures Fine(m, s, output + [ResponseDone(usage)])
  {
    if output == [] {
      FineOne(m, s, ResponseDone(usage));
      assert output + [ResponseDone(usage)] == [ResponseDone(usage)];
    } else {
      FineOne(Observe(m, Emit(output[0])), s, ResponseDone(usage));
      FineEmit(m, s, output[0], [ResponseDone(usage)]);
      assert output + [ResponseDone(usage)] == [output[0]] + [ResponseDone(usage)];
    }
  }

  lemma FinishedTracks(m: Monitor, s: Session, usage: Option<Usage>)
    requires Tracks(m, s)
    ensures var event := ResponseFinished(usage);
            Tracks(AfterClose(Observe(m, Did(Provider(event))), s.mapper.(xai := true)), Mapped(s, event).1)
  {
    MappedAgrees(m, s, ResponseFinished(usage));
    if s.mapper.xai {
      CloseInputTracks(Observe(m, Did(Provider(ResponseFinished(usage)))), Mapped(s, ResponseFinished(usage)).1, s.mapper);
    }
  }

  /** The end of a response closes both texts, whatever the provider. */
  lemma FineFinished(m: Monitor, s: Session, usage: Option<Usage>)
    requires Tracks(m, s)
    ensures var event := ResponseFinished(usage);
            Fine(Observe(m, Did(Provider(event))), Mapped(s, event).1, Mapped(s, event).0)
  {
    FinishedTracks(m, s, usage);
    var m1 := Observe(m, Did(Provider(ResponseFinished(usage))));
    var (mapped, s1) := Mapped(s, ResponseFinished(usage));
    var closing := s.mapper.(xai := true);
    var output := if s.mapper.outputPending == "" then [] else [OutputTranscript(s.mapper.outputPending, true)];
    FineEnd(AfterClose(m1, closing), s1, output, usage);
    FineAfterClose(m1, s1, closing, output + [ResponseDone(usage)]);
    assert mapped == closing.CloseInput().0 + (output + [ResponseDone(usage)]);
  }

  lemma HoldsExtended(awaiting: string, pending: string, delta: string)
    requires Holds(awaiting, pending)
    ensures Holds(awaiting + delta, pending + delta)
  {
    var dropped :| awaiting == dropped + pending && IsBlankText(dropped);
    assert awaiting + delta == dropped + (pending + delta);
  }

  lemma HoldsItself(text: string)
    ensures Holds(text, text)
  {
    assert text == "" + text;
  }

  /** Caller transcripts. */
  lemma FineCallerText(m: Monitor, s: Session, event: ProviderEvent)
    requires Tracks(m, s) && (event.InputDelta? || event.InputUpdated? || event.InputCompleted?)
    ensures Fine(Observe(m, Did(Provider(event))), Mapped(s, event).1, Mapped(s, event).0)
  {
    MappedAgrees(m, s, event);
    NothingPending();
    var m1 := Observe(m, Did(Provider(event)));
    var (mapped, s1) := Mapped(s, event);
    if event.InputDelta? && event.delta.Some? && s.mapper.xai {
      HoldsExtended(m.awaiting, s.mapper.inputPending, event.delta.value);
    } else if event.InputUpdated? && event.text.Some? {
      HoldsItself(event.text.value);
    }
    assert Tracks(m1, s1);
    if mapped == [] {
      FineNone(m1, s1);
    } else {
      assert mapped == [mapped[0]];
      FineOne(m1, s1, mapped[0]);
    }
  }

  /** The other messages. */
  lemma FineOther(m: Monitor, s: Session, event: ProviderEvent)
    requires Tracks(m, s)
    requires event.OutputItemAdded? || event.OutputAudioDone? || event.OutputTextDone? || event.CallerSpeechStarted?
          || event.ProviderError? || event.TranscriptionFailed? || event.Unknown?
    ensures Fine(Observe(m, Did(Provider(event))), Mapped(s, event).1, Mapped(s, event).0)
  {
    MappedAgrees(m, s, event);
    var m1 := Observe(m, Did(Provider(event)));
    var (mapped, s1) := Mapped(s, event);
    assert Tracks(m1, s1);
    if event.CallerSpeechStarted? {
      FineSpeech(m1, s1);
    } else if mapped == [] {
      FineNone(m1, s1);
    } else {
      assert mapped == [mapped[0]];
      FineOne(m1, s1, mapped[0]);
    }
  }

  lemma ProviderFine(m: Monitor, s: Session, event: ProviderEvent)
    requires Tracks(m, s)
    ensures Fine(Observe(m, Did(Provider(event))), Mapped(s, event).1, Mapped(s, event).0)
  {
    match event
    case ResponseCreated => FineCreated(m, s);
    case OutputAudioDelta(payload, itemId) => FineAudioDelta(m, s, payload, itemId);
    case OutputTextDelta(delta) => FineTextDelta(m, s, delta);
    case ResponseFinished(usage) => FineFinished(m, s, usage);
    case InputDelta(_) => FineCallerText(m, s, event);
    case InputUpdated(_) => FineCallerText(m, s, event);
    case InputCompleted(_) => FineCallerText(m, s, event);
    case _ => FineOther(m, s, event);
  }

  lemma FinishTracked(m: Monitor, s: Session)
    requires Tracks(m, s)
    ensures Tracks(Observe(m, FinishAudio), s.(queue := s.queue.Finish()))
  {
    ApplyTracked(m.queued, FinishOp);
  }

  lemma TickAgrees(m: Monitor, s: Session)
    requires Tracks(m, s)
    ensures Tracks(Observe(m, Did(Tick)), s.(queue := s.queue.NextFrame().1))
    ensures s.queue.NextFrame().0.Some? ==> |s.queue.NextFrame().0.value| == FRAME
  {
    ApplyTracked(m.queued, TickOp);
    FramesAreWhole(m.queued);
  }

  lemma PlayTracked(m: Monitor, s: Session, frame: seq<byte>)
    requires Tracks(m, s) && |frame| == FRAME
    ensures AllAllowed(s.mapper.xai, m, [Play(frame, s.marker)])
    ensures Tracks(Watch(m, [Play(frame, s.marker)]), s.(marker := false))
  {
    var play := Play(frame, s.marker);
    WatchNext(s.mapper.xai, m, play, []);
    assert [play] + [] == [play];
  }

  /** Playing keeps step with the queue's history. */
  lemma TickTracked(m: Monitor, s: Session)
    requires Tracks(m, s)
    ensures var (next, entries) := React(s, Tick);
            && AllAllowed(s.mapper.xai, m, [Did(Tick)] + entries) && Tracks(Watch(m, [Did(Tick)] + entries), next)
  {
    var (frame, queue) := s.queue.NextFrame();
    TickAgrees(m, s);
    WatchNext(s.mapper.xai, m, Did(Tick), React(s, Tick).1);
    if frame.Some? {
      PlayTracked(Observe(m, Did(Tick)), s.(queue := queue), frame.value);
    }
  }

  /** These entries take the session to `next` within the rules. */
  ghost predicate Leads(m: Monitor, s: Session, entries: seq<Entry>, next: Session) {
    AllAllowed(s.mapper.xai, m, entries) && Tracks(Watch(m, entries), next) && next.mapper.xai == s.mapper.xai
  }

  lemma FinishLeads(m: Monitor, s: Session, sent: seq<Entry>, handled: Session)
    requires Leads(m, s, sent, handled)
    ensures Leads(m, s, sent + [FinishAudio], handled.(queue := handled.queue.Finish()))
  {
    var watched := Watch(m, sent);
    WatchSplit(s.mapper.xai, m, sent, [FinishAudio]);
    FinishTracked(watched, handled);
    WatchNext(s.mapper.xai, watched, FinishAudio, []);
    assert [FinishAudio] + [] == [FinishAudio];
  }

  lemma ProviderLeads(m: Monitor, s: Session, event: ProviderEvent)
    requires Tracks(m, s)
    ensures Leads(Observe(m, Did(Provider(event))), s, React(s, Provider(event)).1, React(s, Provider(event)).0)
  {
    ProviderFine(m, s, event);
    var (mapped, s1) := Mapped(s, event);
    var (handled, sent) := HandleAll(s1, mapped);
    HandlingKeepsProvider(s1, mapped);
    if EndsAudio(event) {
      FinishLeads(Observe(m, Did(Provider(event))), s, sent, handled);
    }
  }

  lemma SpeakLeads(m: Monitor, s: Session, text: string)
    requires Tracks(m, s)
    ensures Leads(Observe(m, Did(Speak(text))), s, React(s, Speak(text)).1, React(s, Speak(text)).0)
  {
    if !IsBlankText(text) {
      WatchNext(s.mapper.xai, Observe(m, Did(Speak(text))), Say(text), []);
      assert [Say(text)] + [] == [Say(text)];
    }
  }

  lemma AudioLeads(m: Monitor, s: Session, audio: seq<byte>)
    requires Tracks(m, s)
    ensures Leads(Observe(m, Did(CallerAudio(audio))), s, React(s, CallerAudio(audio)).1, React(s, CallerAudio(audio)).0)
  {
    WatchNext(s.mapper.xai, Observe(m, Did(CallerAudio(audio))), Append(audio), []);
    assert [Append(audio)] + [] == [Append(audio)];
  }

  /** One step of the session keeps to the rules. */
  lemma StepFine(m: Monitor, s: Session, step: Step)
    requires Tracks(m, s)
    ensures Leads(m, s, [Did(step)] + React(s, step).1, React(s, step).0)
  {
    WatchNext(s.mapper.xai, m, Did(step), React(s, step).1);
    match step {
      case Tick => TickTracked(m, s);
      case CallerAudio(audio) => AudioLeads(m, s, audio);
      case Speak(text) => SpeakLeads(m, s, text);
      case Provider(event) => ProviderLeads(m, s, event);
    }
  }

  lemma {:induction false} HandlingKeepsProvider(s: Session, events: seq<BridgeEvent>)
    ensures HandleAll(s, events).0.mapper.xai == s.mapper.xai
    decreases |events|
  {
    if events != [] {
      HandlingKeepsProvider(Handle(s, events[0]).0, events[1..]);
    }
  }

  lemma {:induction false} RunFrom(m: Monitor, s: Session, steps: seq<Step>)
    requires Tracks(m, s)
    ensures AllAllowed(s.mapper.xai, m, Log(s, steps))
    decreases |steps|
  {
    if steps != [] {
      var (next, entries) := React(s, steps[0]);
      var turn := [Did(steps[0])] + entries;
      StepFine(m, s, steps[0]);
      RunFrom(Watch(m, turn), next, steps[1..]);
      WatchSplit(s.mapper.xai, m, turn, Log(next, steps[1..]));
    }
  }

  /** Every run keeps to the rules: a cancel only for an active response, a truncate only right
      after a cancel and never past the audio played, partial output transcripts that are the
      deltas since the last done event, no xAI output while caller text is pending, and markers
      on exactly the first frame of a talkspurt. */
  lemma EveryRunAllowed(xai: bool, steps: seq<Step>)
    ensures AllAllowed(xai, FRESH, Log(Opened(xai), steps))
  {
    NothingPending();
    RunFrom(FRESH, Opened(xai), steps);
  }

  // ------------------------------------------------- the rules, by log position

  lemma {:induction false} AllowedAt(xai: bool, m: Monitor, log: seq<Entry>, k: nat)
    requires AllAllowed(xai, m, log) && k < |log|
    ensures Allowed(xai, Watch(m, log[..k]), log[k])
    decreases |log|
  {
    if k > 0 {
      AllowedAt(xai, Observe(m, log[0]), log[1..], k - 1);
      assert log[..k] == [log[0]] + log[1..][..k - 1];
      WatchNext(xai, m, log[0], log[1..][..k - 1]);
    }
  }

  lemma {:induction false} ActivatedSince(m: Monitor, log: seq<Entry>) returns (k: nat)
    requires Watch(m, log).active && !m.active
    ensures k < |log| && Activates(log[k])
    decreases |log|
  {
    if Activates(log[0]) {
      k := 0;
    } else {
      var j := ActivatedSince(Observe(m, log[0]), log[1..]);
      k := j + 1;
    }
  }

  lemma {:induction false} LastEntry(m: Monitor, log: seq<Entry>)
    requires log != []
    ensures Watch(m, log).last == Some(log[|log| - 1])
    decreases |log|
  {
    if |log| > 1 {
      LastEntry(Observe(m, log[0]), log[1..]);
    }
  }

  lemma InactiveAfterCancel(log: seq<Entry>, i: nat)
    requires i < |log| && log[i] == Cancel
    ensures !Watch(FRESH, log[..i + 1]).active
  {
    assert log[..i + 1] == log[..i] + [Cancel];
    WatchSplit(true, FRESH, log[..i], [Cancel]);
  }

  lemma ActivatedBetween(log: seq<Entry>, i: nat, j: nat)
    requires i < j < |log| && log[i] == Cancel && Watch(FRESH, log[..j]).active
    ensures exists k :: i < k < j && Activates(log[k])
  {
    var upTo, between := log[..i + 1], log[i + 1..j];
    assert log[..j] == upTo + between;
    InactiveAfterCancel(log, i);
    WatchSplit(true, FRESH, upTo, between);
    var k := ActivatedSince(Watch(FRESH, upTo), between);
    assert log[i + 1 + k] == between[k];
  }

  /** Between two cancels a response was activated. */
  lemma CancelsAreSeparated(xai: bool, steps: seq<Step>, i: nat, j: nat)
    requires i < j < |Log(Opened(xai), steps)|
    requires Log(Opened(xai), steps)[i] == Cancel && Log(Opened(xai), steps)[j] == Cancel
    ensures exists k :: i < k < j && Activates(Log(Opened(xai), steps)[k])
  {
    EveryRunAllowed(xai, steps);
    AllowedAt(xai, FRESH, Log(Opened(xai), steps), j);
    ActivatedBetween(Log(Opened(xai), steps), i, j);
  }

  /** Each truncate directly follows a cancel. */
  lemma TruncateFollowsCancel(xai: bool, steps: seq<Step>, k: nat)
    requires k < |Log(Opened(xai), steps)| && Log(Opened(xai), steps)[k].Truncate?
    ensures k > 0 && Log(Opened(xai), steps)[k - 1] == Cancel
  {
    var log := Log(Opened(xai), steps);
    EveryRunAllowed(xai, steps);
    AllowedAt(xai, FRESH, log, k);
    if k > 0 {
      LastEntry(FRESH, log[..k]);
    }
  }
}
