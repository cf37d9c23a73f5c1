/**
 The event automaton that checks the backup policy numbers of a YAML
 configuration before it is deserialised, and what its verdict means on the
 document tree whose flattening the events are. Scalars are byte strings.
 */
module YamlPolicy {
  import opened Common
  import opened Numerals

  datatype Style = Plain | SingleQuoted | DoubleQuoted | Literal | Folded

  datatype Event =
    | StreamStart | StreamEnd | DocumentStart | DocumentEnd
    | MappingStart(tagged: bool) | MappingEnd
    | SequenceStart(tagged: bool) | SequenceEnd
    | Alias
    | Scalar(value: string, style: Style, tagged: bool)

  datatype Field = RetentionDays | MaxAgeHours

  datatype Error = InvalidStructure | UnsupportedAliasOrTag | InvalidPolicy(field: Field)

  datatype Role = Root | Backup | Other

  datatype Frame = Frame(mapping: bool, pending: Option<string>, role: Role)

  // -------------------------------------------------------------- the numbers

  /** The digits spell an unsigned 64-bit number. */
  predicate SpellsU64(digits: string)
    requires AllDigits(digits)
  {
    digits != [] && NumberOf(digits) < 0x1_0000_0000_0000_0000
  }

  function WithoutUnderscores(s: string): (r: string)
    ensures forall c :: c in r <==> c in s && c != '_'
  {
    if s == [] then []
    else
      assert s == [s[0]] + s[1..];
      (if s[0] == '_' then [] else [s[0]]) + WithoutUnderscores(s[1..])
  }

  /** A plain scalar the policy rejects: signed, or digits and underscores that are no u64. */
  predicate Offends(value: string) {
    || (value != [] && (value[0] == '+' || value[0] == '-'))
    || (&& value != [] && (forall c :: c in value ==> IsDigit(c) || c == '_')
        && var digits := WithoutUnderscores(value);
           assert forall i :: 0 <= i < |digits| ==> digits[i] in digits;
           !SpellsU64(digits))
  }

  function PolicyField(key: string): Option<Field> {
    if key == "retention_days" then Some(RetentionDays)
    else if key == "max_age_hours" then Some(MaxAgeHours)
    else None
  }

  // ------------------------------------------------------------ the automaton

  datatype State = State(frames: seq<Frame>, documents: nat, started: bool, finished: bool, policyError: Option<Field>)

  const INITIAL: State := State([], 0, false, false, None)

  function Top(frames: seq<Frame>): Frame
    requires frames != []
  {
    frames[|frames| - 1]
  }

  function WithTop(frames: seq<Frame>, top: Frame): seq<Frame>
    requires frames != []
  {
    frames[..|frames| - 1] + [top]
  }

  /** The role of a mapping met below `parent`. */
  function RoleBelow(parent: Frame): Role {
    if parent.mapping && parent.role == Root && parent.pending == Some("backup") then Backup else Other
  }

  /** What a scalar does to the mapping or sequence it is met in, and to the recorded error. */
  function TakeScalar(top: Frame, value: string, style: Style, error: Option<Field>): (Frame, Option<Field>) {
    if !top.mapping then (top, error)
    else
      match top.pending
      case None => (top.(pending := Some(value)), error)
      case Some(key) =>
        (top.(pending := None),
         if top.role == Backup && PolicyField(key).Some? && style == Plain && Offends(value)
         then PolicyField(key) else error)
  }

  function Step(s: State, event: Event): Result<State, Error> {
    match event
    case StreamStart => if s.started then Err(InvalidStructure) else Ok(s.(started := true))
    case StreamEnd =>
      if s.frames != [] || s.documents != 1 then Err(InvalidStructure) else Ok(s.(finished := true))
    case DocumentStart =>
      if s.documents + 1 != 1 then Err(InvalidStructure) else Ok(s.(documents := s.documents + 1))
    case DocumentEnd => if s.frames != [] then Err(InvalidStructure) else Ok(s)
    case Alias => Err(UnsupportedAliasOrTag)
    case MappingStart(tagged) =>
      if tagged then Err(UnsupportedAliasOrTag)
      else if s.frames == [] then
        Ok(s.(frames := s.frames + [Frame(true, None, if s.documents == 1 then Root else Other)]))
      else
        var parent := Top(s.frames);
        Ok(s.(frames := WithTop(s.frames, parent.(pending := None)) + [Frame(true, None, RoleBelow(parent))]))
    case SequenceStart(tagged) =>
      if tagged then Err(UnsupportedAliasOrTag)
      else if s.frames == [] then Ok(s.(frames := s.frames + [Frame(false, None, Other)]))
      else Ok(s.(frames := WithTop(s.frames, Top(s.frames).(pending := None)) + [Frame(false, None, Other)]))
    case MappingEnd => if s.frames == [] then Err(InvalidStructure) else Ok(s.(frames := s.frames[..|s.frames| - 1]))
    case SequenceEnd => if s.frames == [] then Err(InvalidStructure) else Ok(s.(frames := s.frames[..|s.frames| - 1]))
    case Scalar(value, style, tagged) =>
      if tagged then Err(UnsupportedAliasOrTag)
      else if s.frames == [] then Err(InvalidStructure)
      else
        var (top, error) := TakeScalar(Top(s.frames), value, style, s.policyError);
        Ok(s.(frames := WithTop(s.frames, top), policyError := error))
  }

  function Verdict(s: State): Result<(), Error> {
    if !s.finished then Err(InvalidStructure)
    else if s.policyError.Some? then Err(InvalidPolicy(s.policyError.value))
    else Ok(())
  }

  /** The verdict on the events still to come. */
  function Run(s: State, events: seq<Event>): Result<(), Error>
    decreases |events|
  {
    if events == [] then Verdict(s)
    else
      match Step(s, events[0])
      case Err(e) => Err(e)
      case Ok(next) => Run(next, events[1..])
  }

  /** The check, one event at a time over a stack of open collections. */
  method ValidateEvents(events: seq<Event>) returns (r: Result<(), Error>)
    ensures r == Run(INITIAL, events)
  {
    var frames: seq<Frame> := [];
    var documents: nat := 0;
    var started, finished := false, false;
    var policyError: Option<Field> := None;
    for i := 0 to |events|
      invariant Run(INITIAL, events) == Run(State(frames, documents, started, finished, policyError), events[i..])
    {
      ghost var before := State(frames, documents, started, finished, policyError);
      assert events[i..][0] == events[i] && events[i..][1..] == events[i + 1..];
      match events[i] {
        case StreamStart =>
          if started { return Err(InvalidStructure); }
          started := true;
        case StreamEnd =>
          if frames != [] || documents != 1 { return Err(InvalidStructure); }
          finished := true;
        case DocumentStart =>
          documents := documents + 1;
          if documents != 1 { return Err(InvalidStructure); }
        case DocumentEnd =>
          if frames != [] { return Err(InvalidStructure); }
        case Alias =>
          return Err(UnsupportedAliasOrTag);
        case MappingStart(tagged) =>
          if tagged { return Err(UnsupportedAliasOrTag); }
          var role := if documents == 1 then Root else Other;
          if frames != [] {
            var parent := frames[|frames| - 1];
            var key := parent.pending;
            frames := frames[..|frames| - 1] + [parent.(pending := None)];
            role := if parent.mapping && parent.role == Root && key == Some("backup") then Backup else Other;
          }
          frames := frames + [Frame(true, None, role)];
        case SequenceStart(tagged) =>
          if tagged { return Err(UnsupportedAliasOrTag); }
          if frames != [] {
            frames := frames[..|frames| - 1] + [frames[|frames| - 1].(pending := None)];
          }
          frames := frames + [Frame(false, None, Other)];
        case MappingEnd =>
          if frames == [] { return Err(InvalidStructure); }
          frames := frames[..|frames| - 1];
        case SequenceEnd =>
          if frames == [] { return Err(InvalidStructure); }
          frames := frames[..|frames| - 1];
        case Scalar(value, style, tagged) =>
          if tagged { return Err(UnsupportedAliasOrTag); }
          if frames == [] { return Err(InvalidStructure); }
          var frame := frames[|frames| - 1];
          if frame.mapping {
            if frame.pending.Some? {
              var key := frame.pending.value;
              frames := frames[..|frames| - 1] + [frame.(pending := None)];
              if frame.role == Backup && (key == "retention_days" || key == "max_age_hours") && style == Plain {
                if Offends(value) {
                  policyError := Some(if key == "retention_days" then RetentionDays else MaxAgeHours);
                }
              }
            } else {
              frames := frames[..|frames| - 1] + [frame.(pending := Some(value))];
            }
          } else {
            assert frames == frames[..|frames| - 1] + [frame];
          }
      }
      assert Step(before, events[i]) == Ok(State(frames, documents, started, finished, policyError));
    }
    if !finished {
      return Err(InvalidStructure);
    }
    return if policyError.Some? then Err(InvalidPolicy(policyError.value)) else Ok(());
  }
}
