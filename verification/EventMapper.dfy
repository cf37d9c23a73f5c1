/**
 Provider events of a realtime call and the mapper that turns them into the
 events the SIP bridge uses. Provider JSON is read into `ProviderEvent`: a field
 that is absent or not a string is `None`.
 */
module EventMapper {
  import opened Common
  import opened QueuedAudio
  import opened Whitespace

  datatype Payload = Decoded(audio: seq<byte>) | Undecodable

  /** The token counts a provider reports for a response. */
  datatype Usage = Usage(inputText: nat, cachedInputText: nat, outputText: nat, inputAudio: nat, outputAudio: nat)

  datatype ProviderEvent =
    | ResponseCreated
    | OutputItemAdded(id: Option<string>)
    | InputDelta(delta: Option<string>)
    | InputUpdated(text: Option<string>)
    | InputCompleted(transcript: Option<string>)
    | OutputAudioDelta(payload: Option<Payload>, itemId: Option<string>)
    | OutputAudioDone
    | OutputTextDelta(delta: Option<string>)
    | OutputTextDone(transcript: Option<string>)
    | CallerSpeechStarted
    | ResponseFinished(usage: Option<Usage>)
    | ProviderError(errorType: Option<string>, code: Option<string>)
    | TranscriptionFailed
    | Unknown

  datatype BridgeEvent =
    | AudioDelta(audio: seq<byte>, itemId: Option<string>)
    | InputTranscript(text: string, final: bool)
    | OutputTranscript(text: string, final: bool)
    | SpeechStarted
    | ResponseDone(usage: Option<Usage>)
    | Error(errorType: Option<string>, code: Option<string>)

  const INVALID_AUDIO: BridgeEvent := Error(Some("invalid_audio"), None)
  const TRANSCRIPTION_FAILED: BridgeEvent := Error(Some("transcription_failed"), None)

  datatype Mapper = Mapper(xai: bool, inputPending: string, outputPending: string, responseActive: bool,
                           responseItemId: Option<string>) {

    /** The pending caller text as a final transcript, unless it is blank. */
    function FinalInput(): seq<BridgeEvent> {
      if IsBlankText(inputPending) then [] else [InputTranscript(inputPending, true)]
    }

    /** For xAI, output closes the caller's pending text. */
    function CloseInput(): (seq<BridgeEvent>, Mapper) {
      if xai then (FinalInput(), this.(inputPending := "")) else ([], this)
    }

    function Apply(event: ProviderEvent): (seq<BridgeEvent>, Mapper) {
      match event
      case ResponseCreated =>
        var (events, m) := CloseInput();
        (events, m.(responseActive := true, responseItemId := None))
      case OutputItemAdded(id) => ([], this.(responseItemId := id))
      case InputDelta(Some(delta)) =>
        ([InputTranscript(inputPending + delta, false)], this.(inputPending := inputPending + delta))
      case InputUpdated(Some(text)) => ([InputTranscript(text, false)], this.(inputPending := text))
      case InputCompleted(Some(text)) => ([InputTranscript(text, true)], this.(inputPending := ""))
      case InputCompleted(None) => ([], if xai then this.(inputPending := "") else this)
      case OutputAudioDelta(payload, itemId) =>
        var (events, m) := CloseInput();
        var audio :=
          match payload
          case None => []
          case Some(Undecodable) => [INVALID_AUDIO]
          case Some(Decoded(audio)) => [AudioDelta(audio, if itemId.Some? then itemId else responseItemId)];
        (events + audio, m.(responseActive := true))
      case OutputTextDelta(delta) =>
        var (events, m) := CloseInput();
        var active := m.(responseActive := true);
        if delta.None? then (events, active)
        else
          (events + [OutputTranscript(outputPending + delta.value, false)],
           active.(outputPending := outputPending + delta.value))
      case OutputTextDone(Some(text)) => ([OutputTranscript(text, true)], this.(outputPending := ""))
      case CallerSpeechStarted => ([SpeechStarted], this)
      case ResponseFinished(usage) =>
        (FinalInput() + (if outputPending == "" then [] else [OutputTranscript(outputPending, true)]) + [ResponseDone(usage)],
         this.(inputPending := "", outputPending := "", responseActive := false, responseItemId := None))
      case ProviderError(errorType, code) => ([Error(errorType, code)], this)
      case TranscriptionFailed => ([TRANSCRIPTION_FAILED], this)
      case _ => ([], this)
    }
  }

  /** The mapper object of a session. */
  class MapperObject {
    const xai: bool
    var inputPending: string
    var outputPending: string
    var responseActive: bool
    var responseItemId: Option<string>

    ghost function Value(): Mapper
      reads this
    {
      Mapper(xai, inputPending, outputPending, responseActive, responseItemId)
    }

    constructor (xai: bool)
      ensures Value() == Mapper(xai, "", "", false, None)
    {
      this.xai := xai;
      inputPending, outputPending, responseActive, responseItemId := "", "", false, None;
    }

    method FinalizeInput() returns (event: Option<BridgeEvent>)
      modifies this
      ensures Value() == old(Value()).(inputPending := "")
      ensures (if event.Some? then [event.value] else []) == old(Value()).FinalInput()
    {
      var text := inputPending;
      inputPending := "";
      event := if IsBlankText(text) then None else Some(InputTranscript(text, true));
    }

    method CloseInput() returns (mapped: seq<BridgeEvent>)
      modifies this
      ensures (mapped, Value()) == old(Value()).CloseInput()
    {
      mapped := [];
      if xai {
        var event := FinalizeInput();
        if event.Some? {
          mapped := [event.value];
        }
      }
    }

    method Map(event: ProviderEvent) returns (mapped: seq<BridgeEvent>)
      modifies this
      ensures (mapped, Value()) == old(Value()).Apply(event)
    {
      mapped := [];
      match event {
        case ResponseCreated =>
          responseActive := true;
          responseItemId := None;
          mapped := CloseInput();
        case OutputItemAdded(id) =>
          responseItemId := id;
        case InputDelta(delta) =>
          if delta.Some? {
            inputPending := inputPending + delta.value;
            mapped := [InputTranscript(inputPending, false)];
          }
        case InputUpdated(text) =>
          if text.Some? {
            inputPending := text.value;
            mapped := [InputTranscript(inputPending, false)];
          }
        case InputCompleted(transcript) =>
          if transcript.Some? {
            inputPending := "";
            mapped := [InputTranscript(transcript.value, true)];
          }
          if xai {
            inputPending := "";
          }
        case OutputAudioDelta(payload, itemId) =>
          responseActive := true;
          mapped := CloseInput();
          if payload.Some? {
            if payload.value.Decoded? {
              mapped := mapped + [AudioDelta(payload.value.audio, if itemId.Some? then itemId else responseItemId)];
            } else {
              mapped := mapped + [INVALID_AUDIO];
            }
          }
        case OutputTextDelta(delta) =>
          responseActive := true;
          mapped := CloseInput();
          if delta.Some? {
            outputPending := outputPending + delta.value;
            mapped := mapped + [OutputTranscript(outputPending, false)];
          }
        case OutputTextDone(transcript) =>
          if transcript.Some? {
            outputPending := "";
            mapped := [OutputTranscript(transcript.value, true)];
          }
        case CallerSpeechStarted =>
          mapped := [SpeechStarted];
        case ResponseFinished(usage) =>
          var final := FinalizeInput();
          if final.Some? {
            mapped := [final.value];
          }
          if outputPending != "" {
            mapped := mapped + [OutputTranscript(outputPending, true)];
            outputPending := "";
          }
          responseActive := false;
          responseItemId := None;
          mapped := mapped + [ResponseDone(usage)];
        case ProviderError(errorType, code) =>
          mapped := [Error(errorType, code)];
        case TranscriptionFailed =>
          mapped := [TRANSCRIPTION_FAILED];
        case OutputAudioDone =>
        case Unknown =>
      }
      assert mapped == old(Value()).Apply(event).0;
    }
  }
}
