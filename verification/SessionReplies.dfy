/**
 What the session owes for every step, said from the outside: from what was sent so far and from what the
 provider has said, without the session's own state. The log of every run is exactly that.
 */
module SessionReplies {
  import opened Common
  import opened QueuedAudio
  import opened EventMapper
  import opened RealtimeSession
  import opened Whitespace

  /** What the provider has said: the caller's text not yet final, the output text since its last end,
      and the item of the current response. */
  datatype Heard = Heard(input: string, output: string, item: Option<string>)

  const NOTHING_HEARD: Heard := Heard("", "", None)

  /** Messages that end the caller's text: the end of a response, and for xAI the beginning of output. */
  predicate EndsInput(xai: bool, e: ProviderEvent) {
    e.ResponseFinished? || (xai && (e.ResponseCreated? || e.OutputAudioDelta? || e.OutputTextDelta?))
  }

  function InputAfter(xai: bool, input: string, e: ProviderEvent): string {
    if EndsInput(xai, e) || (e.InputCompleted? && (xai || e.transcript.Some?)) then ""
    else if e.InputUpdated? && e.text.Some? then e.text.value
    else if e.InputDelta? && e.delta.Some? then input + e.delta.value
    else input
  }

  function OutputAfter(output: string, e: ProviderEvent): string {
    if e.ResponseFinished? || (e.OutputTextDone? && e.transcript.Some?) then ""
    else if e.OutputTextDelta? && e.delta.Some? then output + e.delta.value
    else output
  }

  function ItemAfter(item: Option<string>, e: ProviderEvent): Option<string> {
    if e.OutputItemAdded? then e.id else if e.ResponseCreated? || e.ResponseFinished? then None else item
  }

  function HeardAfter(xai: bool, h: Heard, step: Step): Heard {
    if step.Provider? then
      Heard(InputAfter(xai, h.input, step.event), OutputAfter(h.output, step.event), ItemAfter(h.item, step.event))
    else h
  }

  function HeardIn(xai: bool, steps: seq<Step>): Heard {
    if steps == [] then NOTHING_HEARD
    else HeardAfter(xai, HeardIn(xai, steps[..|steps| - 1]), steps[|steps| - 1])
  }

  // ------------------------------------------------------------------ what is owed

  /** A barge-in flushes, cancels an active response, truncates the item if some of it was heard, and is reported. */
  function BargeIn(active: bool, item: Option<string>, heardMs: nat): seq<Entry> {
    if !active then [FlushSink, Emit(SpeechStarted)]
    else if item.Some? && heardMs > 0 then [FlushSink, Cancel, Truncate(item.value, heardMs), Emit(SpeechStarted)]
    else [FlushSink, Cancel, Emit(SpeechStarted)]
  }

  function FinalInput(h: Heard): seq<Entry> {
    if IsBlankText(h.input) then [] else [Emit(InputTranscript(h.input, true))]
  }

  /** What a provider message itself leads to. */
  function Answer(m: Monitor, h: Heard, e: ProviderEvent): seq<Entry> {
    match e
    case InputDelta(Some(delta)) => [Emit(InputTranscript(h.input + delta, false))]
    case InputUpdated(Some(text)) => [Emit(InputTranscript(text, false))]
    case InputCompleted(Some(text)) => [Emit(InputTranscript(text, true))]
    case OutputAudioDelta(Some(Decoded(audio)), id) => [Enqueue(audio, if id.Some? then id else h.item)]
    case OutputAudioDelta(Some(Undecodable), _) => [Emit(Error(Some("invalid_audio"), None))]
    case OutputTextDelta(Some(delta)) => [Emit(OutputTranscript(h.output + delta, false))]
    case OutputTextDone(Some(text)) => [Emit(OutputTranscript(text, true))]
    case CallerSpeechStarted => BargeIn(m.active, m.queued.queue.itemId, m.queued.queue.HeardMs())
    case ResponseFinished(usage) =>
      (if h.output == "" then [] else [Emit(OutputTranscript(h.output, true))]) + [Emit(ResponseDone(usage))]
    case ProviderError(errorType, code) => [Emit(Error(errorType, code))]
    case TranscriptionFailed => [Emit(Error(Some("transcription_failed"), None))]
    case _ => []
  }

  function AudioEnd(e: ProviderEvent): seq<Entry> {
    if e.OutputAudioDone? || e.ResponseFinished? then [FinishAudio] else []
  }

  /** What a step must be followed by. */
  function Replies(xai: bool, m: Monitor, h: Heard, step: Step): seq<Entry> {
    match step
    case CallerAudio(audio) => [Append(audio)]
    case Speak(text) => if IsBlankText(text) then [] else [Say(text)]
    case Provider(e) => (if EndsInput(xai, e) then FinalInput(h) else []) + Answer(m, h, e) + AudioEnd(e)
    case Tick =>
      var frame := m.queued.queue.NextFrame().0;
      if frame.Some? then [Play(frame.value, m.talkspurt)] else []
  }

  /** The log a run must have: each step, and what it must be followed by. */
  function Expected(xai: bool, steps: seq<Step>): seq<Entry> {
    if steps == [] then []
    else
      var before, last := Expected(xai, steps[..|steps| - 1]), steps[|steps| - 1];
      before + ([Did(last)] + Replies(xai, Watch(FRESH, before), HeardIn(xai, steps[..|steps| - 1]), last))
  }

  // ----------------------------------------------------------- the session gives it

  ghost predicate Knows(h: Heard, s: Session) {
    h == Heard(s.mapper.inputPending, s.mapper.outputPending, s.mapper.responseItemId)
  }

  function Emits(events: seq<BridgeEvent>): seq<Entry> {
    if events == [] then [] else [Emit(events[0])] + Emits(events[1..])
  }

  predicate Told(events: seq<BridgeEvent>) {
    forall i :: 0 <= i < |events| ==> !events[i].AudioDelta? && !events[i].SpeechStarted?
  }

  lemma {:induction false} HandlingEmits(s: Session, events: seq<BridgeEvent>)
    requires Told(events)
    ensures HandleAll(s, events) == (s, Emits(events))
    decreases |events|
  {
    if events != [] {
      HandlingEmits(s, events[1..]);
    }
  }

  lemma {:induction false} HandlingAfter(s: Session, events: seq<BridgeEvent>, last: BridgeEvent)
    requires Told(events)
    ensures HandleAll(s, events + [last]) == (Handle(s, last).0, Emits(events) + Handle(s, last).1)
    decreases |events|
  {
    if events == [] {
      var entries := Handle(s, last).1;
      assert events + [last] == [last] && [last][1..] == [];
      assert entries + [] == entries && Emits(events) + entries == entries;
    } else {
      assert (events + [last])[1..] == events[1..] + [last];
      HandlingAfter(s, events[1..], last);
      Regroup([Emit(events[0])], Emits(events[1..]), Handle(s, last).1);
    }
  }

  lemma Regroup<T>(a: seq<T>, b: seq<T>, c: seq<T>)
    ensures a + (b + c) == a + b + c
  {
  }

  lemma EmitsOne(event: BridgeEvent)
    ensures Emits([event]) == [Emit(event)]
  {
    assert [event][1..] == [];
  }

  /** The entries of a provider message, before the end of audio. */
  function Sent(s: Session, e: ProviderEvent): seq<Entry> {
    HandleAll(Mapped(s, e).1, Mapped(s, e).0).1
  }

  lemma ReactSends(s: Session, e: ProviderEvent)
    ensures React(s, Provider(e)).1 == Sent(s, e) + AudioEnd(e)
  {
    assert Sent(s, e) + [] == Sent(s, e);
  }

  lemma FinalEmits(m: Mapper)
    ensures Told(m.FinalInput())
    ensures Emits(m.FinalInput()) == FinalInput(Heard(m.inputPending, m.outputPending, m.responseItemId))
  {
    if m.FinalInput() != [] {
      EmitsOne(m.FinalInput()[0]);
    }
  }

  /** What the mapper closes before the message itself. */
  function Closing(xai: bool, m: Mapper, e: ProviderEvent): seq<BridgeEvent> {
    if EndsInput(xai, e) then m.FinalInput() else []
  }

  lemma {:induction false} EmitsSplit(a: seq<BridgeEvent>, b: seq<BridgeEvent>)
    ensures Emits(a + b) == Emits(a) + Emits(b)
    decreases |a|
  {
    if a == [] {
      assert a + b == b;
    } else {
      assert (a + b)[1..] == a[1..] + b;
      EmitsSplit(a[1..], b);
    }
  }

  /** The session and the outside agree on what matters for a reply. */
  ghost predicate Level(m: Monitor, h: Heard, s: Session) {
    && m.queued.queue == s.queue && m.active == s.mapper.responseActive && m.talkspurt == s.marker
    && Knows(h, s)
  }

  lemma SentAudio(s: Session, m: Monitor, h: Heard, e: ProviderEvent)
    requires Level(m, h, s) && e.OutputAudioDelta? && e.payload.Some? && e.payload.value.Decoded?
    ensures Sent(s, e) == (if EndsInput(s.mapper.xai, e) then FinalInput(h) else []) + Answer(m, h, e)
  {
    var closing := Closing(s.mapper.xai, s.mapper, e);
    var audio := AudioDelta(e.payload.value.audio, if e.itemId.Some? then e.itemId else s.mapper.responseItemId);
    assert Mapped(s, e).0 == closing + [audio];
    FinalEmits(s.mapper);
    HandlingAfter(Mapped(s, e).1, closing, audio);
  }

  lemma SentBargeIn(s: Session, m: Monitor, h: Heard)
    requires Level(m, h, s)
    ensures Sent(s, CallerSpeechStarted) == Answer(m, h, CallerSpeechStarted)
  {
    var reply := Answer(m, h, CallerSpeechStarted);
    var s1 := Mapped(s, CallerSpeechStarted).1;
    assert Mapped(s, CallerSpeechStarted).0 == [] + [SpeechStarted];
    HandlingAfter(s1, [], SpeechStarted);
    assert Handle(s1, SpeechStarted).1 == reply;
    assert Emits([]) + reply == reply;
  }

  /** The events of the message itself, when they are only reported. */
  function Body(m: Mapper, e: ProviderEvent): seq<BridgeEvent> {
    match e
    case InputDelta(Some(delta)) => [InputTranscript(m.inputPending + delta, false)]
    case InputUpdated(Some(text)) => [InputTranscript(text, false)]
    case InputCompleted(Some(text)) => [InputTranscript(text, true)]
    case OutputAudioDelta(Some(Undecodable), _) => [Error(Some("invalid_audio"), None)]
    case OutputTextDelta(Some(delta)) => [OutputTranscript(m.outputPending + delta, false)]
    case OutputTextDone(Some(text)) => [OutputTranscript(text, true)]
    case ResponseFinished(usage) =>
      (if m.outputPending == "" then [] else [OutputTranscript(m.outputPending, true)]) + [ResponseDone(usage)]
    case ProviderError(errorType, code) => [Error(errorType, code)]
    case TranscriptionFailed => [Error(Some("transcription_failed"), None)]
    case _ => []
  }

  predicate OnlyTold(e: ProviderEvent) {
    !e.CallerSpeechStarted? && !(e.OutputAudioDelta? && e.payload.Some? && e.payload.value.Decoded?)
  }

  lemma MappedTold(s: Session, e: ProviderEvent)
    requires OnlyTold(e)
    ensures Mapped(s, e).0 == Closing(s.mapper.xai, s.mapper, e) + Body(s.mapper, e)
    ensures Told(Mapped(s, e).0)
  {
    FinalEmits(s.mapper);
  }

  lemma BodyEmits(m: Monitor, h: Heard, s: Session, e: ProviderEvent)
    requires Knows(h, s) && OnlyTold(e)
    ensures Emits(Body(s.mapper, e)) == Answer(m, h, e)
  {
    var body := Body(s.mapper, e);
    if |body| == 1 {
      EmitsOne(body[0]);
      assert body == [body[0]];
    } else if |body| == 2 {
      EmitsOne(body[0]);
      EmitsOne(body[1]);
      EmitsSplit([body[0]], [body[1]]);
    }
  }

  lemma SentTold(s: Session, m: Monitor, h: Heard, e: ProviderEvent)
    requires Level(m, h, s) && OnlyTold(e)
    ensures Sent(s, e) == (if EndsInput(s.mapper.xai, e) then FinalInput(h) else []) + Answer(m, h, e)
  {
    MappedTold(s, e);
    HandlingEmits(Mapped(s, e).1, Mapped(s, e).0);
    EmitsSplit(Closing(s.mapper.xai, s.mapper, e), Body(s.mapper, e));
    FinalEmits(s.mapper);
    BodyEmits(m, h, s, e);
  }

  lemma ReactReplies(s: Session, m: Monitor, h: Heard, step: Step)
    requires Level(m, h, s)
    ensures React(s, step).1 == Replies(s.mapper.xai, m, h, step)
  {
    if step.Provider? {
      var e := step.event;
      ReactSends(s, e);
      if e.CallerSpeechStarted? {
        SentBargeIn(s, m, h);
        assert [] + Answer(m, h, e) == Answer(m, h, e);
      } else if OnlyTold(e) {
        SentTold(s, m, h, e);
      } else {
        SentAudio(s, m, h, e);
      }
    }
  }

  // --------------------------------------------------------------- over every run

  lemma {:induction false} HandlingKeepsTexts(s: Session, events: seq<BridgeEvent>)
    ensures var after := HandleAll(s, events).0;
            && after.mapper.inputPending == s.mapper.inputPending && after.mapper.outputPending == s.mapper.outputPending
            && after.mapper.responseItemId == s.mapper.responseItemId && after.mapper.xai == s.mapper.xai
    decreases |events|
  {
    if events != [] {
      HandlingKeepsTexts(Handle(s, events[0]).0, events[1..]);
    }
  }

  lemma ApplyInput(m: Mapper, e: ProviderEvent)
    ensures m.Apply(e).1.inputPending == InputAfter(m.xai, m.inputPending, e)
  {
  }

  lemma ApplyOutput(m: Mapper, e: ProviderEvent)
    ensures m.Apply(e).1.outputPending == OutputAfter(m.outputPending, e)
  {
  }

  lemma ApplyItem(m: Mapper, e: ProviderEvent)
    ensures m.Apply(e).1.responseItemId == ItemAfter(m.responseItemId, e) && m.Apply(e).1.xai == m.xai
  {
  }

  lemma MappedKnows(s: Session, h: Heard, e: ProviderEvent)
    requires Knows(h, s)
    ensures Knows(HeardAfter(s.mapper.xai, h, Provider(e)), Mapped(s, e).1) && Mapped(s, e).1.mapper.xai == s.mapper.xai
  {
    ApplyInput(s.mapper, e);
    ApplyOutput(s.mapper, e);
    ApplyItem(s.mapper, e);
  }

  lemma ReactKnows(s: Session, h: Heard, step: Step)
    requires Knows(h, s)
    ensures Knows(HeardAfter(s.mapper.xai, h, step), React(s, step).0) && React(s, step).0.mapper.xai == s.mapper.xai
  {
    if step.Provider? {
      MappedKnows(s, h, step.event);
      HandlingKeepsTexts(Mapped(s, step.event).1, Mapped(s, step.event).0);
    }
  }

  /** The session after a run. */
  function After(s: Session, steps: seq<Step>): Session
    decreases |steps|
  {
    if steps == [] then s else After(React(s, steps[0]).0, steps[1..])
  }

  lemma {:induction false} LogLast(s: Session, steps: seq<Step>, last: Step)
    ensures Log(s, steps + [last]) == Log(s, steps) + ([Did(last)] + React(After(s, steps), last).1)
    ensures After(s, steps + [last]) == React(After(s, steps), last).0
    decreases |steps|
  {
    if steps == [] {
      assert steps + [last] == [last] && [last][1..] == [];
      assert Log(React(s, last).0, []) == [];
    } else {
      assert (steps + [last])[1..] == steps[1..] + [last];
      var next := React(s, steps[0]).0;
      LogLast(next, steps[1..], last);
      Regroup([Did(steps[0])] + React(s, steps[0]).1, Log(next, steps[1..]),
              [Did(last)] + React(After(s, steps), last).1);
    }
  }

  lemma TracksOn(m: Monitor, s: Session, h: Heard, step: Step)
    requires Tracks(m, s) && Knows(h, s)
    ensures var turn := [Did(step)] + Replies(s.mapper.xai, m, h, step);
            && turn == [Did(step)] + React(s, step).1
            && Tracks(Watch(m, turn), React(s, step).0)
            && Knows(HeardAfter(s.mapper.xai, h, step), React(s, step).0) && React(s, step).0.mapper.xai == s.mapper.xai
  {
    StepFine(m, s, step);
    ReactReplies(s, m, h, step);
    ReactKnows(s, h, step);
  }

  /** Every run has exactly the log it must have. */
  lemma {:induction false} LogIsExpected(xai: bool, steps: seq<Step>)
    ensures Log(Opened(xai), steps) == Expected(xai, steps)
    ensures var s := After(Opened(xai), steps);
            Tracks(Watch(FRESH, Expected(xai, steps)), s) && Knows(HeardIn(xai, steps), s) && s.mapper.xai == xai
  {
    if steps == [] {
      NothingPending();
    } else {
      var init, last := steps[..|steps| - 1], steps[|steps| - 1];
      assert steps == init + [last];
      LogIsExpected(xai, init);
      var before, s := Expected(xai, init), After(Opened(xai), init);
      LogLast(Opened(xai), init, last);
      TracksOn(Watch(FRESH, before), s, HeardIn(xai, init), last);
      WatchSplit(xai, FRESH, before, [Did(last)] + React(s, last).1);
    }
  }

  // ---------------------------------------------------------------- by log position

  /** The steps a log records. */
  function Inputs(log: seq<Entry>): seq<Step> {
    if log == [] then []
    else
      var last := log[|log| - 1];
      Inputs(log[..|log| - 1]) + if last.Did? then [last.step] else []
  }

  predicate NoSteps(entries: seq<Entry>) {
    forall i :: 0 <= i < |entries| ==> !entries[i].Did?
  }

  /** These entries, and no other, lie between the entry at `k` and the next step. */
  predicate FollowedBy(log: seq<Entry>, k: nat, entries: seq<Entry>) {
    var end := k + 1 + |entries|;
    end <= |log| && log[k + 1..end] == entries && NoSteps(entries) && (end < |log| ==> log[end].Did?)
  }

  /** The step at `k` is followed by what it must be followed by, given the log before it. */
  predicate Answered(xai: bool, log: seq<Entry>, k: nat)
    requires k < |log| && log[k].Did?
  {
    var before := log[..k];
    FollowedBy(log, k, Replies(xai, Watch(FRESH, before), HeardIn(xai, Inputs(before)), log[k].step))
  }

  lemma AnswerHasNoSteps(m: Monitor, h: Heard, e: ProviderEvent)
    ensures NoSteps(Answer(m, h, e))
  {
  }

  lemma RepliesHaveNoSteps(xai: bool, m: Monitor, h: Heard, step: Step)
    ensures NoSteps(Replies(xai, m, h, step))
  {
    if step.Provider? {
      AnswerHasNoSteps(m, h, step.event);
    }
  }

  lemma {:induction false} InputsOfTurn(before: seq<Entry>, last: Step, replies: seq<Entry>)
    requires NoSteps(replies)
    ensures Inputs(before + ([Did(last)] + replies)) == Inputs(before) + [last]
    decreases |replies|
  {
    var log := before + ([Did(last)] + replies);
    if replies == [] {
      assert log[..|log| - 1] == before;
    } else {
      var init := replies[..|replies| - 1];
      assert log[..|log| - 1] == before + ([Did(last)] + init);
      InputsOfTurn(before, last, init);
      assert log[|log| - 1] == replies[|replies| - 1];
      assert Inputs(before) + [last] + [] == Inputs(before) + [last];
    }
  }

  /** The steps of a run are those its log records. */
  lemma {:induction false} InputsOfExpected(xai: bool, steps: seq<Step>)
    ensures Inputs(Expected(xai, steps)) == steps
  {
    if steps != [] {
      var init, last := steps[..|steps| - 1], steps[|steps| - 1];
      InputsOfExpected(xai, init);
      var before := Expected(xai, init);
      var replies := Replies(xai, Watch(FRESH, before), HeardIn(xai, init), last);
      RepliesHaveNoSteps(xai, Watch(FRESH, before), HeardIn(xai, init), last);
      InputsOfTurn(before, last, replies);
      assert init + [last] == steps;
      assert Expected(xai, steps) == before + ([Did(last)] + replies);
    }
  }

  lemma FollowedLonger(log: seq<Entry>, k: nat, entries: seq<Entry>, last: Step, more: seq<Entry>)
    requires FollowedBy(log, k, entries)
    ensures FollowedBy(log + ([Did(last)] + more), k, entries)
  {
    var longer, end := log + ([Did(last)] + more), k + 1 + |entries|;
    assert longer[k + 1..end] == log[k + 1..end];
    assert longer[|log|] == Did(last);
  }

  lemma FollowedLast(log: seq<Entry>, last: Step, entries: seq<Entry>)
    requires NoSteps(entries)
    ensures FollowedBy(log + ([Did(last)] + entries), |log|, entries)
  {
    var longer := log + ([Did(last)] + entries);
    assert longer[|log| + 1..] == entries;
  }

  lemma {:induction false} ExpectedAnswers(xai: bool, steps: seq<Step>, k: nat)
    requires k < |Expected(xai, steps)| && Expected(xai, steps)[k].Did?
    ensures Answered(xai, Expected(xai, steps), k)
  {
    var init, last := steps[..|steps| - 1], steps[|steps| - 1];
    var before, log := Expected(xai, init), Expected(xai, steps);
    var m, h := Watch(FRESH, before), HeardIn(xai, init);
    var replies := Replies(xai, m, h, last);
    RepliesHaveNoSteps(xai, m, h, last);
    if k < |before| {
      assert log[k] == before[k] && log[..k] == before[..k];
      ExpectedAnswers(xai, init, k);
      var earlier := Replies(xai, Watch(FRESH, before[..k]), HeardIn(xai, Inputs(before[..k])), before[k].step);
      FollowedLonger(before, k, earlier, last, replies);
    } else if k == |before| {
      assert log[k] == Did(last) && log[..k] == before;
      InputsOfExpected(xai, init);
      FollowedLast(before, last, replies);
    }
  }

  /** In every log, each step is followed by exactly what it must be followed by, up to the next step. */
  lemma EveryStepIsAnswered(xai: bool, steps: seq<Step>, k: nat)
    requires k < |Log(Opened(xai), steps)| && Log(Opened(xai), steps)[k].Did?
    ensures Answered(xai, Log(Opened(xai), steps), k)
    ensures Inputs(Log(Opened(xai), steps)) == steps
  {
    LogIsExpected(xai, steps);
    InputsOfExpected(xai, steps);
    ExpectedAnswers(xai, steps, k);
  }

  /** The item of the audio queued last. */
  function QueuedItem(log: seq<Entry>): Option<string> {
    if log == [] then None
    else if log[|log| - 1].Enqueue? then log[|log| - 1].item
    else QueuedItem(log[..|log| - 1])
  }

  lemma {:induction false} ItemIsQueued(log: seq<Entry>)
    ensures Watch(FRESH, log).queued.queue.itemId == QueuedItem(log)
  {
    if log != [] {
      var init, last := log[..|log| - 1], log[|log| - 1];
      assert log == init + [last];
      ItemIsQueued(init);
      WatchSplit(true, FRESH, init, [last]);
      ObservedItem(Watch(FRESH, init), last);
    }
  }

  lemma ObservedItem(m: Monitor, e: Entry)
    ensures Watch(m, [e]).queued.queue.itemId == if e.Enqueue? then e.item else m.queued.queue.itemId
  {
    assert [e] + [] == [e];
    WatchNext(true, m, e, []);
  }

  /** The monitor accounts for every byte of the audio at every position of a log. */
  lemma MonitorAccounts(xai: bool, steps: seq<Step>, k: nat)
    requires k <= |Log(Opened(xai), steps)|
    ensures HeardPlayed(Watch(FRESH, Log(Opened(xai), steps)[..k]).queued)
  {
    WatchAccounts(FRESH, Log(Opened(xai), steps)[..k]);
    var h := Watch(FRESH, Log(Opened(xai), steps)[..k]).queued;
    HeardIsPlayed(h);
  }

  lemma {:induction false} WatchAccounts(m: Monitor, log: seq<Entry>)
    requires InOrder(m.queued) && Accounted(m.queued)
    ensures InOrder(Watch(m, log).queued) && Accounted(Watch(m, log).queued)
    decreases |log|
  {
    if log != [] {
      ObserveAccounts(m.queued, log[0]);
      WatchAccounts(Observe(m, log[0]), log[1..]);
    }
  }

  lemma ObserveAccounts(h: History, e: Entry)
    requires InOrder(h) && Accounted(h)
    ensures InOrder(QueuedAfter(h, e)) && Accounted(QueuedAfter(h, e))
  {
    match e
    case Enqueue(audio, item) =>
      ApplyTracked(h, PushOp(item, audio));
      ApplyTracked(Apply(h, PushOp(item, audio)), DiscardOp);
    case FlushSink => ApplyTracked(h, FlushOp);
    case FinishAudio => ApplyTracked(h, FinishOp);
    case Did(Tick) => ApplyTracked(h, TickOp);
    case _ =>
  }

  /** A barge-in is followed by a flush, by a cancel exactly when a response is active, then by a truncate of the item
      queued last exactly when some of it was heard, and by the report. */
  lemma BargeInIsAnswered(xai: bool, steps: seq<Step>, k: nat)
    requires k < |Log(Opened(xai), steps)| && Log(Opened(xai), steps)[k] == Did(Provider(CallerSpeechStarted))
    ensures var log := Log(Opened(xai), steps);
            var m := Watch(FRESH, log[..k]);
            && HeardPlayed(m.queued)
            && FollowedBy(log, k, BargeIn(m.active, QueuedItem(log[..k]), m.queued.queue.HeardMs()))
  {
    var log := Log(Opened(xai), steps);
    EveryStepIsAnswered(xai, steps, k);
    ItemIsQueued(log[..k]);
    MonitorAccounts(xai, steps, k);
    BargeInReplies(xai, Watch(FRESH, log[..k]), HeardIn(xai, Inputs(log[..k])));
  }

  lemma BargeInReplies(xai: bool, m: Monitor, h: Heard)
    ensures Replies(xai, m, h, Provider(CallerSpeechStarted))
         == BargeIn(m.active, m.queued.queue.itemId, m.queued.queue.HeardMs())
  {
    var reply := BargeIn(m.active, m.queued.queue.itemId, m.queued.queue.HeardMs());
    assert [] + reply + [] == reply;
  }

  /** Steps that are passed on whatever came before. */
  predicate PassesOn(step: Step) {
    step.CallerAudio? || step.Speak? || step == Provider(OutputAudioDone)
  }

  /** Caller audio is appended, a speak command is said unless it is blank, and audio that ends is finished. */
  function PassedOn(step: Step): seq<Entry>
    requires PassesOn(step)
  {
    match step
    case CallerAudio(audio) => [Append(audio)]
    case Speak(text) => if IsBlankText(text) then [] else [Say(text)]
    case Provider(_) => [FinishAudio]
  }

  lemma RepliesPassOn(xai: bool, m: Monitor, h: Heard, step: Step)
    requires PassesOn(step)
    ensures Replies(xai, m, h, step) == PassedOn(step)
  {
  }

  lemma InputIsPassedOn(xai: bool, steps: seq<Step>, k: nat)
    requires k < |Log(Opened(xai), steps)| && Log(Opened(xai), steps)[k].Did?
    requires PassesOn(Log(Opened(xai), steps)[k].step)
    ensures FollowedBy(Log(Opened(xai), steps), k, PassedOn(Log(Opened(xai), steps)[k].step))
  {
    var log := Log(Opened(xai), steps);
    EveryStepIsAnswered(xai, steps, k);
    RepliesPassOn(xai, Watch(FRESH, log[..k]), HeardIn(xai, Inputs(log[..k])), log[k].step);
  }
}
