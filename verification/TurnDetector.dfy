/**
 The voice-activity turn detector: caller frames in, utterances out. A suppressed
 input stands for a frame the bridge drops while it resets the detector.
 */
module TurnDetector {
  import opened Common

  datatype Input = Suppressed | Frame(samples: seq<int>)

  const PRE_ROLL: nat := 13
  const FRAME_MS: nat := 20

  /** Frames of silence that end an utterance, speech frames an utterance needs, and the level of speech. */
  datatype Config = Config(silence: nat, minimum: nat, threshold: int)

  function Magnitude(sample: int): nat {
    if sample < 0 then -sample else sample
  }

  function TotalMagnitude(samples: seq<int>): nat {
    if samples == [] then 0 else TotalMagnitude(samples[..|samples| - 1]) + Magnitude(samples[|samples| - 1])
  }

  function AverageMagnitude(samples: seq<int>): nat {
    if samples == [] then 0 else TotalMagnitude(samples) / |samples|
  }

  predicate IsSpeech(c: Config, i: Input) {
    i.Frame? && AverageMagnitude(i.samples) >= c.threshold
  }

  predicate IsQuiet(c: Config, i: Input) {
    i.Frame? && !IsSpeech(c, i)
  }

  /** The loudness of samples is that of their parts together, and one sample counts for its distance from zero. */
  lemma {:induction false} LoudnessAdds(a: seq<int>, b: seq<int>)
    ensures TotalMagnitude(a + b) == TotalMagnitude(a) + TotalMagnitude(b)
    ensures |a| == 1 ==> TotalMagnitude(a) == if a[0] >= 0 then a[0] else 0 - a[0]
    decreases |b|
  {
    if b == [] {
      assert a + b == a;
    } else {
      var init := b[..|b| - 1];
      assert (a + b)[..|a + b| - 1] == a + init;
      LoudnessAdds(a, init);
    }
  }

  lemma DivisionReaches(total: nat, n: nat, threshold: int)
    requires n > 0
    ensures total / n >= threshold <==> total >= threshold * n
  {
    var q := total / n;
    assert q * n <= total < q * n + n;
    if q >= threshold {
      assert (q - threshold) * n >= 0;
    } else {
      assert (threshold - q - 1) * n >= 0;
    }
  }

  /** A frame is speech when its samples reach the threshold on average. */
  lemma SpeechIsLoud(c: Config, samples: seq<int>)
    requires samples != []
    ensures IsSpeech(c, Frame(samples)) <==> TotalMagnitude(samples) >= c.threshold * |samples|
  {
    DivisionReaches(TotalMagnitude(samples), |samples|, c.threshold);
  }

  // ----------------------------------------------------- what an utterance is

  /** The inputs end in a speech frame and exactly `silence` quiet frames after it. */
  predicate EndsHere(c: Config, inputs: seq<Input>) {
    && c.silence < |inputs|
    && IsSpeech(c, inputs[|inputs| - 1 - c.silence])
    && forall k :: |inputs| - c.silence <= k < |inputs| ==> IsQuiet(c, inputs[k])
  }

  /** Nothing before this point belongs to a later utterance. */
  predicate BoundaryHere(c: Config, inputs: seq<Input>) {
    inputs == [] || inputs[|inputs| - 1].Suppressed? || EndsHere(c, inputs)
  }

  /** The inputs since the last boundary. */
  function Open(c: Config, inputs: seq<Input>): seq<Input> {
    if BoundaryHere(c, inputs) then []
    else Open(c, inputs[..|inputs| - 1]) + [inputs[|inputs| - 1]]
  }

  /** Index of the first speech frame, or the length when there is none. */
  function FirstSpeech(c: Config, run: seq<Input>): (n: nat)
    ensures n <= |run|
  {
    if run == [] then 0
    else
      var n := FirstSpeech(c, run[..|run| - 1]);
      if n < |run| - 1 || IsSpeech(c, run[|run| - 1]) then n else |run|
  }

  function SpeechCount(c: Config, run: seq<Input>): nat {
    if run == [] then 0
    else SpeechCount(c, run[..|run| - 1]) + if IsSpeech(c, run[|run| - 1]) then 1 else 0
  }

  /** The run from at most thirteen frames before its first speech frame. */
  function Trim(c: Config, run: seq<Input>): seq<Input> {
    run[Less(FirstSpeech(c, run), PRE_ROLL)..]
  }

  /** The run that the last input brings to its end. */
  function ClosedRun(c: Config, inputs: seq<Input>): seq<Input>
    requires inputs != []
  {
    Open(c, inputs[..|inputs| - 1]) + [inputs[|inputs| - 1]]
  }

  predicate UtteranceEnds(c: Config, inputs: seq<Input>) {
    EndsHere(c, inputs) && SpeechCount(c, ClosedRun(c, inputs)) >= c.minimum
  }

  function Utterances(c: Config, inputs: seq<Input>): seq<seq<Input>> {
    if inputs == [] then []
    else
      Utterances(c, inputs[..|inputs| - 1])
      + if UtteranceEnds(c, inputs) then [Trim(c, ClosedRun(c, inputs))] else []
  }

  /** The utterance still open at the end of the stream, when it has enough speech. */
  function LastUtterance(c: Config, inputs: seq<Input>): seq<seq<Input>> {
    var run := Open(c, inputs);
    if FirstSpeech(c, run) < |run| && SpeechCount(c, run) >= c.minimum then [Trim(c, run)] else []
  }

  function Samples(run: seq<Input>): seq<int> {
    if run == [] then []
    else Samples(run[..|run| - 1]) + if run[|run| - 1].Frame? then run[|run| - 1].samples else []
  }

  function SampleLists(runs: seq<seq<Input>>): seq<seq<int>> {
    seq(|runs|, i requires 0 <= i < |runs| => Samples(runs[i]))
  }

  // -------------------------------------------------------------- the detector

  function Frames(samples: seq<seq<int>>): seq<Input> {
    seq(|samples|, i requires 0 <= i < |samples| => Frame(samples[i]))
  }

  function CeilDiv(x: nat, y: nat): nat
    requires y > 0
  {
    (x + y - 1) / y
  }

  function AtLeast(x: nat, y: nat): nat {
    if x < y then y else x
  }

  /** Durations rounded up to whole frames, at least one. */
  function ConfigFor(turnSilenceMs: nat, minUtteranceMs: nat, vadThreshold: int): (c: Config)
    ensures c.silence > 0 && c.minimum > 0
  {
    Config(CeilDiv(AtLeast(turnSilenceMs, FRAME_MS), FRAME_MS), CeilDiv(AtLeast(minUtteranceMs, FRAME_MS), FRAME_MS), vadThreshold)
  }

  /** The fewest frames, at least one, that last for the duration. */
  predicate FewestFrames(ms: nat, frames: nat) {
    frames > 0 && ms <= frames * 20 && (frames > 1 ==> (frames - 1) * 20 < ms)
  }

  /** Each duration of the configuration, and the 250 ms of pre-roll, becomes the fewest frames that last for it. */
  lemma FramesLast(turnSilenceMs: nat, minUtteranceMs: nat, vadThreshold: int)
    ensures var c := ConfigFor(turnSilenceMs, minUtteranceMs, vadThreshold);
            FewestFrames(turnSilenceMs, c.silence) && FewestFrames(minUtteranceMs, c.minimum) && c.threshold == vadThreshold
    ensures FewestFrames(250, PRE_ROLL)
  {
  }

  datatype Fields = Fields(buffer: seq<int>, preRoll: seq<seq<int>>, speaking: bool, silent: nat, speech: nat)

  const IDLE: Fields := Fields([], [], false, 0, 0)

  /** The last `silent` inputs are quiet and the one before them is speech. */
  ghost predicate SilentFor(c: Config, inputs: seq<Input>, silent: nat) {
    && silent < |inputs| && IsSpeech(c, inputs[|inputs| - 1 - silent])
    && forall k :: |inputs| - silent <= k < |inputs| ==> IsQuiet(c, inputs[k])
  }

  /** The fields are what the inputs since the last boundary make them. */
  ghost predicate Describes(c: Config, inputs: seq<Input>, f: Fields) {
    var run := Open(c, inputs);
    && f.speaking == (FirstSpeech(c, run) < |run|)
    && f.speech == SpeechCount(c, run)
    && (f.speaking ==>
          f.preRoll == [] && f.buffer == Samples(Trim(c, run)) && f.silent < c.silence && SilentFor(c, inputs, f.silent))
    && (!f.speaking ==> f.buffer == [] && f.silent == 0 && Frames(f.preRoll) == run[Less(|run|, PRE_ROLL)..])
  }

  /** The fields after one frame. */
  function Pushed(c: Config, f: Fields, frame: seq<int>): Fields {
    if IsSpeech(c, Frame(frame)) then Fields(f.buffer + Samples(Frames(f.preRoll)) + frame, [], true, 0, f.speech + 1)
    else if !f.speaking then f.(preRoll := (f.preRoll + [frame])[Less(|f.preRoll| + 1, PRE_ROLL)..])
    else if f.silent + 1 >= c.silence then IDLE
    else f.(buffer := f.buffer + frame, silent := f.silent + 1)
  }

  /** The utterance one frame completes. */
  function Emitted(c: Config, f: Fields, frame: seq<int>): Option<seq<int>> {
    if IsQuiet(c, Frame(frame)) && f.speaking && f.silent + 1 >= c.silence && f.speech >= c.minimum
    then Some(f.buffer + frame) else None
  }

  /** The utterance that ends with these inputs. */
  function UtteranceHere(c: Config, inputs: seq<Input>): Option<seq<int>>
    requires inputs != []
  {
    if UtteranceEnds(c, inputs) then Some(Samples(Trim(c, ClosedRun(c, inputs)))) else None
  }

  /** One frame keeps the fields what the inputs make them, and emits what ends there. */
  ghost predicate Kept(c: Config, inputs: seq<Input>, f: Fields, frame: seq<int>) {
    && Describes(c, inputs + [Frame(frame)], Pushed(c, f, frame))
    && Emitted(c, f, frame) == UtteranceHere(c, inputs + [Frame(frame)])
  }

  class Detector {
    var buffer: seq<int>
    var preRoll: seq<seq<int>>
    var speaking: bool
    var silentFrames: nat
    var speechFrames: nat
    const config: Config
    ghost var inputs: seq<Input>

    ghost predicate Valid()
      reads this
    {
      config.silence > 0 && Describes(config, inputs, Fields(buffer, preRoll, speaking, silentFrames, speechFrames))
    }

    constructor (turnSilenceMs: nat, minUtteranceMs: nat, vadThreshold: int)
      ensures Valid() && inputs == []
      ensures config == ConfigFor(turnSilenceMs, minUtteranceMs, vadThreshold)
    {
      config := ConfigFor(turnSilenceMs, minUtteranceMs, vadThreshold);
      buffer, preRoll, speaking, silentFrames, speechFrames := [], [], false, 0, 0;
      inputs := [];
    }

    ghost function State(): Fields
      reads this
    {
      Fields(buffer, preRoll, speaking, silentFrames, speechFrames)
    }

    /** One frame of caller audio; an utterance when this frame completes one. */
    method PushFrame(frame: seq<int>) returns (utterance: Option<seq<int>>)
      requires Valid()
      modifies this
      ensures Valid() && inputs == old(inputs) + [Frame(frame)]
      ensures utterance == if UtteranceEnds(config, inputs) then Some(Samples(Trim(config, ClosedRun(config, inputs)))) else None
    {
      FrameKeeps(config, inputs, State(), frame);
      utterance := Advance(frame);
      inputs := inputs + [Frame(frame)];
    }

    /** What a frame does to the fields. */
    method Advance(frame: seq<int>) returns (utterance: Option<seq<int>>)
      requires (speaking ==> preRoll == []) && |preRoll| <= PRE_ROLL
      modifies this`buffer, this`preRoll, this`speaking, this`silentFrames, this`speechFrames
      ensures State() == Pushed(config, old(State()), frame)
      ensures utterance == Emitted(config, old(State()), frame)
    {
      if AverageMagnitude(frame) >= config.threshold {
        PushSpeech(frame);
        return None;
      }
      if speaking {
        buffer := buffer + frame;
        silentFrames := silentFrames + 1;
        if silentFrames >= config.silence {
          utterance := Finish();
          return;
        }
      } else {
        RememberPreRoll(frame);
      }
      return None;
    }

    /** A speech frame; the first one of an utterance takes the pre-roll with it. */
    method PushSpeech(frame: seq<int>)
      requires speaking ==> preRoll == []
      modifies this`buffer, this`preRoll, this`speaking, this`silentFrames, this`speechFrames
      ensures buffer == old(buffer) + Samples(Frames(old(preRoll))) + frame && preRoll == []
      ensures speaking && silentFrames == 0 && speechFrames == old(speechFrames) + 1
    {
      if speaking {
        NoPreRoll(buffer);
      } else {
        TakePreRoll();
        speaking := true;
      }
      silentFrames := 0;
      speechFrames := speechFrames + 1;
      buffer := buffer + frame;
    }

    /** Moves the remembered frames to the front of the utterance. */
    method TakePreRoll()
      modifies this`buffer, this`preRoll
      ensures buffer == old(buffer) + Samples(Frames(old(preRoll))) && preRoll == []
    {
      while preRoll != []
        invariant old(buffer) + Samples(Frames(old(preRoll))) == buffer + Samples(Frames(preRoll))
        decreases |preRoll|
      {
        FramesFromFront(preRoll);
        buffer := buffer + preRoll[0];
        preRoll := preRoll[1..];
      }
    }

    /** Ends the current utterance; too little speech is dropped. */
    method Finish() returns (utterance: Option<seq<int>>)
      modifies this`buffer, this`preRoll, this`speaking, this`silentFrames, this`speechFrames
      ensures !speaking && silentFrames == 0 && speechFrames == 0 && preRoll == [] && buffer == []
      ensures utterance == if old(speaking) && old(speechFrames) >= config.minimum then Some(old(buffer)) else None
    {
      var shouldEmit := speaking && speechFrames >= config.minimum;
      speaking := false;
      silentFrames := 0;
      speechFrames := 0;
      preRoll := [];
      utterance := if shouldEmit then Some(buffer) else None;
      buffer := [];
    }

    /** A suppressed input: everything gathered so far is dropped. */
    method Reset()
      requires Valid()
      modifies this
      ensures Valid() && inputs == old(inputs) + [Suppressed]
    {
      speaking := false;
      silentFrames := 0;
      speechFrames := 0;
      buffer := [];
      preRoll := [];
      inputs := inputs + [Suppressed];
    }

    method RememberPreRoll(frame: seq<int>)
      requires |preRoll| <= PRE_ROLL
      modifies this`preRoll
      ensures preRoll == (old(preRoll) + [frame])[Less(|old(preRoll)| + 1, PRE_ROLL)..]
    {
      if |preRoll| == PRE_ROLL {
        preRoll := preRoll[1..];
      }
      preRoll := preRoll + [frame];
    }
  }

  /** The bridge's loop over caller frames, with the last utterance flushed when the stream ends. */
  method DetectTurns(turnSilenceMs: nat, minUtteranceMs: nat, vadThreshold: int, inputs: seq<Input>)
    returns (utterances: seq<seq<int>>)
    ensures var c := ConfigFor(turnSilenceMs, minUtteranceMs, vadThreshold);
            utterances == SampleLists(Utterances(c, inputs) + LastUtterance(c, inputs))
  {
    var detector := new Detector(turnSilenceMs, minUtteranceMs, vadThreshold);
    ghost var c := detector.config;
    utterances := [];
    for n := 0 to |inputs|
      invariant fresh(detector) && detector.Valid() && detector.config == c && detector.inputs == inputs[..n]
      invariant utterances == SampleLists(Utterances(c, inputs[..n]))
    {
      assert inputs[..n + 1] == inputs[..n] + [inputs[n]];
      OneMore(c, inputs[..n], inputs[n]);
      if inputs[n].Suppressed? {
        detector.Reset();
      } else {
        var utterance := detector.PushFrame(inputs[n].samples);
        if utterance.Some? {
          utterances := utterances + [utterance.value];
        }
      }
    }
    assert inputs[..|inputs|] == inputs;
    AtEnd(c, inputs, Fields(detector.buffer, detector.preRoll, detector.speaking, detector.silentFrames, detector.speechFrames));
    var utterance := detector.Finish();
    if utterance.Some? {
      utterances := utterances + [utterance.value];
    }
  }

  lemma AtEnd(c: Config, inputs: seq<Input>, f: Fields)
    requires Describes(c, inputs, f)
    ensures var last := if f.speaking && f.speech >= c.minimum then [f.buffer] else [];
            SampleLists(Utterances(c, inputs) + LastUtterance(c, inputs)) == SampleLists(Utterances(c, inputs)) + last
  {
  }

  lemma OneMore(c: Config, inputs: seq<Input>, x: Input)
    ensures var more := inputs + [x];
            var ended := if UtteranceEnds(c, more) then [Samples(Trim(c, ClosedRun(c, more)))] else [];
            SampleLists(Utterances(c, more)) == SampleLists(Utterances(c, inputs)) + ended
    ensures c.silence > 0 && x.Suppressed? ==> !UtteranceEnds(c, inputs + [x])
  {
    var more := inputs + [x];
    assert more[..|inputs|] == inputs && more[|inputs|] == x;
  }

  // ---------------------------------------------------------- one more input

  lemma AppendRun(c: Config, run: seq<Input>, x: Input)
    ensures SpeechCount(c, run + [x]) == SpeechCount(c, run) + if IsSpeech(c, x) then 1 else 0
    ensures FirstSpeech(c, run + [x])
         == if FirstSpeech(c, run) < |run| || IsSpeech(c, x) then FirstSpeech(c, run) else |run| + 1
  {
    assert (run + [x])[..|run|] == run && (run + [x])[|run|] == x;
  }

  lemma AppendSamples(run: seq<Input>, x: Input)
    ensures Samples(run + [x]) == Samples(run) + if x.Frame? then x.samples else []
  {
    assert (run + [x])[..|run|] == run && (run + [x])[|run|] == x;
  }

  lemma DropAppend(run: seq<Input>, x: Input, n: nat)
    requires n <= |run|
    ensures (run + [x])[n..] == run[n..] + [x]
  {
  }

  lemma AppendTrimmed(c: Config, run: seq<Input>, x: Input)
    requires FirstSpeech(c, run) < |run| || IsSpeech(c, x)
    ensures Samples(Trim(c, run + [x])) == Samples(Trim(c, run)) + if x.Frame? then x.samples else []
  {
    AppendRun(c, run, x);
    DropAppend(run, x, Less(FirstSpeech(c, run), PRE_ROLL));
    AppendSamples(Trim(c, run), x);
  }

  lemma {:induction false} FramesFromFront(samples: seq<seq<int>>)
    requires samples != []
    ensures Samples(Frames(samples)) == samples[0] + Samples(Frames(samples[1..]))
  {
    var all, rest := Frames(samples), Frames(samples[1..]);
    var init := samples[..|samples| - 1];
    assert all[..|all| - 1] == Frames(init);
    if init == [] {
      assert rest == [] && Samples(Frames(init)) == [];
    } else {
      FramesFromFront(init);
      assert rest[..|rest| - 1] == Frames(init[1..]);
    }
  }

  lemma SpeechKeepsOpen(c: Config, inputs: seq<Input>, x: Input)
    requires c.silence > 0 && IsSpeech(c, x)
    ensures !EndsHere(c, inputs + [x]) && Open(c, inputs + [x]) == Open(c, inputs) + [x]
  {
    var more := inputs + [x];
    assert more[|more| - 1] == x && more[..|inputs|] == inputs;
  }

  /** A speech frame followed by fewer than `silence` quiet frames is in the open run. */
  lemma {:induction false} SpeechIsOpen(c: Config, inputs: seq<Input>, j: nat)
    requires j < |inputs| && IsSpeech(c, inputs[j]) && |inputs| - 1 - j < c.silence
    requires forall k :: j < k < |inputs| ==> IsQuiet(c, inputs[k])
    ensures !BoundaryHere(c, inputs)
    ensures FirstSpeech(c, Open(c, inputs)) < |Open(c, inputs)|
  {
    var init, last := inputs[..|inputs| - 1], inputs[|inputs| - 1];
    assert |inputs| - c.silence <= j;
    AppendRun(c, Open(c, init), last);
    if j < |inputs| - 1 {
      SpeechIsOpen(c, init, j);
    }
  }

  /** Silence after speech: the run goes on until exactly `silence` quiet frames have followed. */
  lemma QuietWhileSpeaking(c: Config, inputs: seq<Input>, silent: nat, x: Input)
    requires silent < c.silence && silent < |inputs| && IsQuiet(c, x)
    requires IsSpeech(c, inputs[|inputs| - 1 - silent])
    requires forall k :: |inputs| - silent <= k < |inputs| ==> IsQuiet(c, inputs[k])
    ensures var more := inputs + [x];
            && EndsHere(c, more) == (silent + 1 == c.silence)
            && ClosedRun(c, more) == Open(c, inputs) + [x]
            && Open(c, more) == if silent + 1 == c.silence then [] else Open(c, inputs) + [x]
  {
    var more := inputs + [x];
    assert more[..|inputs|] == inputs;
    var j := |inputs| - 1 - silent;
    assert more[j] == inputs[j] && more[|inputs|] == x;
    if silent + 1 < c.silence {
      SpeechIsOpen(c, more, j);
    } else {
      assert |more| - 1 - c.silence == j;
      assert forall k :: j < k < |inputs| ==> more[k] == inputs[k];
    }
  }

  /** Silence with no speech open ends nothing. */
  lemma QuietWhileIdle(c: Config, inputs: seq<Input>, x: Input)
    requires c.silence > 0 && IsQuiet(c, x) && FirstSpeech(c, Open(c, inputs)) == |Open(c, inputs)|
    ensures var more := inputs + [x];
            !EndsHere(c, more) && Open(c, more) == Open(c, inputs) + [x]
  {
    var more := inputs + [x];
    assert more[..|inputs|] == inputs && more[|inputs|] == x;
    if EndsHere(c, more) {
      var j := |more| - 1 - c.silence;
      assert IsSpeech(c, more[j]) && more[j] == inputs[j];
      forall k | j < k < |inputs| ensures IsQuiet(c, inputs[k]) {
        assert IsQuiet(c, more[k]);
      }
      SpeechIsOpen(c, inputs, j);
    }
  }

  /** The pre-roll and the buffer together are the run from its trimmed start. */
  lemma SpeechSoFar(c: Config, inputs: seq<Input>, f: Fields)
    requires Describes(c, inputs, f)
    ensures f.buffer + Samples(Frames(f.preRoll)) == Samples(Trim(c, Open(c, inputs)))
    ensures f.speaking ==> f.preRoll == []
  {
    var run := Open(c, inputs);
    if f.speaking {
      NoPreRoll(f.buffer);
    } else {
      assert Trim(c, run) == Frames(f.preRoll);
    }
  }

  lemma SpeechStep(c: Config, inputs: seq<Input>, f: Fields, frame: seq<int>)
    requires c.silence > 0 && Describes(c, inputs, f) && IsSpeech(c, Frame(frame))
    ensures Kept(c, inputs, f, frame) && (f.speaking ==> f.preRoll == [])
  {
    var run, x := Open(c, inputs), Frame(frame);
    SpeechKeepsOpen(c, inputs, x);
    AppendRun(c, run, x);
    AppendTrimmed(c, run, x);
    assert SilentFor(c, inputs + [x], 0);
    SpeechSoFar(c, inputs, f);
  }

  lemma NoPreRoll(buffer: seq<int>)
    ensures buffer + Samples(Frames([])) == buffer
  {
    assert Frames([]) == [];
  }

  /** A quiet frame that completes the silence. */
  lemma QuietEnds(c: Config, inputs: seq<Input>, f: Fields, frame: seq<int>)
    requires c.silence > 0 && Describes(c, inputs, f) && f.speaking && IsQuiet(c, Frame(frame))
    requires f.silent + 1 >= c.silence
    ensures Kept(c, inputs, f, frame)
  {
    QuietWhileSpeaking(c, inputs, f.silent, Frame(frame));
    StillSpeaking(c, Open(c, inputs), frame);
  }

  lemma StillSpeaking(c: Config, run: seq<Input>, frame: seq<int>)
    requires FirstSpeech(c, run) < |run| && IsQuiet(c, Frame(frame))
    ensures FirstSpeech(c, run + [Frame(frame)]) < |run| + 1
    ensures SpeechCount(c, run + [Frame(frame)]) == SpeechCount(c, run)
    ensures Samples(Trim(c, run + [Frame(frame)])) == Samples(Trim(c, run)) + frame
  {
    AppendRun(c, run, Frame(frame));
    AppendTrimmed(c, run, Frame(frame));
  }

  /** A quiet frame before that. */
  lemma QuietGoesOn(c: Config, inputs: seq<Input>, f: Fields, frame: seq<int>)
    requires Describes(c, inputs, f) && f.speaking && IsQuiet(c, Frame(frame)) && f.silent + 1 < c.silence
    ensures Kept(c, inputs, f, frame)
  {
    QuietWhileSpeaking(c, inputs, f.silent, Frame(frame));
    StillSpeaking(c, Open(c, inputs), frame);
    SilentForOneMore(c, inputs, f.silent, Frame(frame));
  }

  lemma SilentForOneMore(c: Config, inputs: seq<Input>, silent: nat, x: Input)
    requires SilentFor(c, inputs, silent) && IsQuiet(c, x)
    ensures SilentFor(c, inputs + [x], silent + 1)
  {
    var more := inputs + [x];
    assert forall k :: 0 <= k < |inputs| ==> more[k] == inputs[k];
  }

  lemma RollOn(run: seq<Input>, preRoll: seq<seq<int>>, frame: seq<int>)
    requires Frames(preRoll) == run[Less(|run|, PRE_ROLL)..]
    ensures |preRoll| <= PRE_ROLL
    ensures Frames((preRoll + [frame])[Less(|preRoll| + 1, PRE_ROLL)..]) == (run + [Frame(frame)])[Less(|run| + 1, PRE_ROLL)..]
  {
    assert |preRoll| == |Frames(preRoll)|;
  }

  /** Fields that describe an idle run describe its idle continuation. */
  lemma IdleDescribes(c: Config, more: seq<Input>, f: Fields)
    requires FirstSpeech(c, Open(c, more)) == |Open(c, more)| && SpeechCount(c, Open(c, more)) == f.speech
    requires !f.speaking && f.buffer == [] && f.silent == 0
    requires Frames(f.preRoll) == Open(c, more)[Less(|Open(c, more)|, PRE_ROLL)..]
    ensures Describes(c, more, f)
  {
  }

  lemma IdleStep(c: Config, inputs: seq<Input>, f: Fields, frame: seq<int>)
    requires c.silence > 0 && Describes(c, inputs, f) && !f.speaking && IsQuiet(c, Frame(frame))
    ensures Kept(c, inputs, f, frame) && |f.preRoll| <= PRE_ROLL
  {
    var run, x := Open(c, inputs), Frame(frame);
    QuietWhileIdle(c, inputs, x);
    AppendRun(c, run, x);
    RollOn(run, f.preRoll, frame);
    IdleDescribes(c, inputs + [x], Pushed(c, f, frame));
  }

  lemma PreRollIsShort(c: Config, inputs: seq<Input>, f: Fields)
    requires Describes(c, inputs, f)
    ensures |f.preRoll| <= PRE_ROLL && (f.speaking ==> f.preRoll == [])
  {
    if !f.speaking {
      assert |Frames(f.preRoll)| == |f.preRoll|;
    }
  }

  /** Every frame keeps the detector's fields in step with its inputs. */
  lemma FrameKeeps(c: Config, inputs: seq<Input>, f: Fields, frame: seq<int>)
    requires c.silence > 0 && Describes(c, inputs, f)
    ensures Kept(c, inputs, f, frame) && |f.preRoll| <= PRE_ROLL && (f.speaking ==> f.preRoll == [])
  {
    PreRollIsShort(c, inputs, f);
    if IsSpeech(c, Frame(frame)) {
      SpeechStep(c, inputs, f, frame);
    } else if !f.speaking {
      IdleStep(c, inputs, f, frame);
    } else if f.silent + 1 >= c.silence {
      QuietEnds(c, inputs, f, frame);
    } else {
      QuietGoesOn(c, inputs, f, frame);
    }
  }
}
