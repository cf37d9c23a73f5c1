/**
 YAML documents as trees, the events they flatten to, and the meaning of the
 policy check on trees. The automaton's verdict on the events is that meaning.
 */
module YamlPolicyTree {
  import opened Common
  import opened YamlPolicy

  datatype Node =
    | AliasNode
    | ScalarNode(value: string, style: Style, tagged: bool)
    | SequenceNode(items: Nodes, tagged: bool)
    | MappingNode(entries: Entries, tagged: bool)

  datatype Nodes = NoNodes | MoreNodes(head: Node, tail: Nodes)

  datatype Entries = NoEntries | MoreEntries(key: Node, value: Node, rest: Entries)

  function Flatten(n: Node): seq<Event> {
    match n
    case AliasNode => [Alias]
    case ScalarNode(value, style, tagged) => [Scalar(value, style, tagged)]
    case SequenceNode(items, tagged) => [SequenceStart(tagged)] + FlattenNodes(items) + [SequenceEnd]
    case MappingNode(entries, tagged) => [MappingStart(tagged)] + FlattenEntries(entries) + [MappingEnd]
  }

  function FlattenNodes(ns: Nodes): seq<Event> {
    match ns
    case NoNodes => []
    case MoreNodes(head, tail) => Flatten(head) + FlattenNodes(tail)
  }

  function FlattenEntries(es: Entries): seq<Event> {
    match es
    case NoEntries => []
    case MoreEntries(key, value, rest) => Flatten(key) + (Flatten(value) + FlattenEntries(rest))
  }

  function StreamOf(document: Node): seq<Event> {
    [StreamStart, DocumentStart] + (Flatten(document) + [DocumentEnd, StreamEnd])
  }

  /** An alias or a tag occurs somewhere in the tree. */
  predicate Unsupported(n: Node) {
    match n
    case AliasNode => true
    case ScalarNode(_, _, tagged) => tagged
    case SequenceNode(items, tagged) => tagged || UnsupportedNodes(items)
    case MappingNode(entries, tagged) => tagged || UnsupportedEntries(entries)
  }

  predicate UnsupportedNodes(ns: Nodes) {
    match ns
    case NoNodes => false
    case MoreNodes(head, tail) => Unsupported(head) || UnsupportedNodes(tail)
  }

  predicate UnsupportedEntries(es: Entries) {
    match es
    case NoEntries => false
    case MoreEntries(key, value, rest) => Unsupported(key) || Unsupported(value) || UnsupportedEntries(rest)
  }

  // ------------------------------------------------------ what a document means

  /** The policy field set by an entry to a rejected plain scalar. */
  function EntryOffence(key: Node, value: Node): Option<Field> {
    if key.ScalarNode? && value.ScalarNode? && value.style == Plain && Offends(value.value)
    then PolicyField(key.value) else None
  }

  function Later(first: Option<Field>, second: Option<Field>): Option<Field> {
    if second.Some? then second else first
  }

  /** The last offence among the entries of a backup mapping. */
  function BackupOffence(es: Entries): Option<Field> {
    match es
    case NoEntries => None
    case MoreEntries(key, value, rest) => Later(EntryOffence(key, value), BackupOffence(rest))
  }

  /** The last offence in the backup mappings among the entries of the root mapping. */
  function RootOffence(es: Entries): Option<Field> {
    match es
    case NoEntries => None
    case MoreEntries(key, value, rest) =>
      Later(if key.ScalarNode? && key.value == "backup" && value.MappingNode? then BackupOffence(value.entries) else None,
            RootOffence(rest))
  }

  function Offence(document: Node): Option<Field> {
    if document.MappingNode? then RootOffence(document.entries) else None
  }

  // ------------------------------------- what the automaton does with a subtree

  /** The enclosing frame once the subtree has been read. */
  function FrameAfter(n: Node, top: Frame): Frame {
    if n.ScalarNode? then TakeScalar(top, n.value, n.style, None).0 else top.(pending := None)
  }

  /** The recorded error once the subtree has been read. */
  function ErrorAfter(n: Node, top: Frame, error: Option<Field>): Option<Field> {
    match n
    case AliasNode => error
    case ScalarNode(value, style, _) => TakeScalar(top, value, style, error).1
    case SequenceNode(items, _) => ErrorAfterNodes(items, Frame(false, None, Other), error)
    case MappingNode(entries, _) => ErrorAfterEntries(entries, Frame(true, None, RoleBelow(top)), error)
  }

  function FrameAfterNodes(ns: Nodes, top: Frame): Frame {
    match ns
    case NoNodes => top
    case MoreNodes(head, tail) => FrameAfterNodes(tail, FrameAfter(head, top))
  }

  function ErrorAfterNodes(ns: Nodes, top: Frame, error: Option<Field>): Option<Field> {
    match ns
    case NoNodes => error
    case MoreNodes(head, tail) => ErrorAfterNodes(tail, FrameAfter(head, top), ErrorAfter(head, top, error))
  }

  function FrameAfterEntries(es: Entries, top: Frame): Frame {
    match es
    case NoEntries => top
    case MoreEntries(key, value, rest) => FrameAfterEntries(rest, FrameAfter(value, FrameAfter(key, top)))
  }

  function ErrorAfterEntries(es: Entries, top: Frame, error: Option<Field>): Option<Field> {
    match es
    case NoEntries => error
    case MoreEntries(key, value, rest) =>
      var afterKey := FrameAfter(key, top);
      ErrorAfterEntries(rest, FrameAfter(value, afterKey), ErrorAfter(value, afterKey, ErrorAfter(key, top, error)))
  }

  /** A document being read, with `below` the frames under the current one. */
  function Reading(below: seq<Frame>, top: Frame, error: Option<Field>): State {
    State(below + [top], 1, true, false, error)
  }

  lemma RunConcat(s: State, a: Event, b: seq<Event>)
    ensures Run(s, [a] + b) == if Step(s, a).Err? then Err(Step(s, a).error) else Run(Step(s, a).value, b)
  {
    assert ([a] + b)[1..] == b;
  }

  /** The frame a collection is read in. */
  function Inner(start: Event, top: Frame): Frame {
    if start.MappingStart? then Frame(true, None, RoleBelow(top)) else Frame(false, None, Other)
  }

  lemma StepPush(below: seq<Frame>, top: Frame, error: Option<Field>, start: Event)
    requires start == SequenceStart(false) || start == MappingStart(false)
    ensures Step(Reading(below, top, error), start) == Ok(Reading(below + [top.(pending := None)], Inner(start, top), error))
  {
    assert (below + [top])[..|below|] == below;
  }

  lemma StepPop(below: seq<Frame>, parent: Frame, top: Frame, error: Option<Field>, end: Event)
    requires end == SequenceEnd || end == MappingEnd
    ensures Step(Reading(below + [parent], top, error), end) == Ok(Reading(below, parent, error))
  {
    assert (below + [parent] + [top])[..|below| + 1] == below + [parent];
  }

  lemma EnterCollection(below: seq<Frame>, top: Frame, error: Option<Field>, start: Event, events: seq<Event>)
    requires start.MappingStart? || start.SequenceStart?
    ensures Run(Reading(below, top, error), [start] + events)
         == if start.tagged then Err(UnsupportedAliasOrTag)
            else Run(Reading(below + [top.(pending := None)], Inner(start, top), error), events)
  {
    RunConcat(Reading(below, top, error), start, events);
    if !start.tagged {
      StepPush(below, top, error, start);
    }
  }

  lemma LeaveCollection(below: seq<Frame>, parent: Frame, top: Frame, error: Option<Field>, end: Event, rest: seq<Event>)
    requires end == SequenceEnd || end == MappingEnd
    ensures Run(Reading(below + [parent], top, error), [end] + rest) == Run(Reading(below, parent, error), rest)
  {
    RunConcat(Reading(below + [parent], top, error), end, rest);
    StepPop(below, parent, top, error, end);
  }

  lemma ReadScalar(n: Node, below: seq<Frame>, top: Frame, error: Option<Field>, rest: seq<Event>)
    requires n.ScalarNode?
    ensures Run(Reading(below, top, error), Flatten(n) + rest)
         == if Unsupported(n) then Err(UnsupportedAliasOrTag)
            else Run(Reading(below, FrameAfter(n, top), ErrorAfter(n, top, error)), rest)
  {
    RunConcat(Reading(below, top, error), Scalar(n.value, n.style, n.tagged), rest);
    assert (below + [top])[..|below|] == below;
  }

  /** Reading one subtree, with any frames below and any events after it. */
  lemma {:induction false} ReadNode(n: Node, below: seq<Frame>, top: Frame, error: Option<Field>, rest: seq<Event>)
    ensures Run(Reading(below, top, error), Flatten(n) + rest)
         == if Unsupported(n) then Err(UnsupportedAliasOrTag)
            else Run(Reading(below, FrameAfter(n, top), ErrorAfter(n, top, error)), rest)
    decreases n, 1
  {
    match n
    case AliasNode => RunConcat(Reading(below, top, error), Alias, rest);
    case ScalarNode(_, _, _) => ReadScalar(n, below, top, error, rest);
    case SequenceNode(_, _) => ReadSequence(n, below, top, error, rest);
    case MappingNode(_, _) => ReadMapping(n, below, top, error, rest);
  }

  lemma {:induction false} ReadSequence(n: Node, below: seq<Frame>, top: Frame, error: Option<Field>, rest: seq<Event>)
    requires n.SequenceNode?
    ensures Run(Reading(below, top, error), Flatten(n) + rest)
         == if Unsupported(n) then Err(UnsupportedAliasOrTag)
            else Run(Reading(below, FrameAfter(n, top), ErrorAfter(n, top, error)), rest)
    decreases n, 0
  {
    var start, frame, under := SequenceStart(n.tagged), Frame(false, None, Other), top.(pending := None);
    assert Flatten(n) + rest == [start] + (FlattenNodes(n.items) + ([SequenceEnd] + rest));
    EnterCollection(below, top, error, start, FlattenNodes(n.items) + ([SequenceEnd] + rest));
    ReadNodes(n.items, below + [under], frame, error, [SequenceEnd] + rest);
    LeaveCollection(below, under, FrameAfterNodes(n.items, frame), ErrorAfterNodes(n.items, frame, error), SequenceEnd, rest);
  }

  lemma {:induction false} ReadMapping(n: Node, below: seq<Frame>, top: Frame, error: Option<Field>, rest: seq<Event>)
    requires n.MappingNode?
    ensures Run(Reading(below, top, error), Flatten(n) + rest)
         == if Unsupported(n) then Err(UnsupportedAliasOrTag)
            else Run(Reading(below, FrameAfter(n, top), ErrorAfter(n, top, error)), rest)
    decreases n, 0
  {
    var start, under := MappingStart(n.tagged), top.(pending := None);
    var frame := Inner(start, top);
    assert Flatten(n) + rest == [start] + (FlattenEntries(n.entries) + ([MappingEnd] + rest));
    EnterCollection(below, top, error, start, FlattenEntries(n.entries) + ([MappingEnd] + rest));
    ReadEntries(n.entries, below + [under], frame, error, [MappingEnd] + rest);
    LeaveCollection(below, under, FrameAfterEntries(n.entries, frame), ErrorAfterEntries(n.entries, frame, error), MappingEnd, rest);
  }

  lemma {:induction false} ReadNodes(ns: Nodes, below: seq<Frame>, top: Frame, error: Option<Field>, rest: seq<Event>)
    ensures Run(Reading(below, top, error), FlattenNodes(ns) + rest)
         == if UnsupportedNodes(ns) then Err(UnsupportedAliasOrTag)
            else Run(Reading(below, FrameAfterNodes(ns, top), ErrorAfterNodes(ns, top, error)), rest)
    decreases ns, 0
  {
    match ns
    case NoNodes =>
      assert FlattenNodes(ns) + rest == rest;
    case MoreNodes(head, tail) =>
      assert FlattenNodes(ns) + rest == Flatten(head) + (FlattenNodes(tail) + rest);
      ReadNode(head, below, top, error, FlattenNodes(tail) + rest);
      ReadNodes(tail, below, FrameAfter(head, top), ErrorAfter(head, top, error), rest);
  }

  lemma {:induction false} ReadEntries(es: Entries, below: seq<Frame>, top: Frame, error: Option<Field>, rest: seq<Event>)
    ensures Run(Reading(below, top, error), FlattenEntries(es) + rest)
         == if UnsupportedEntries(es) then Err(UnsupportedAliasOrTag)
            else Run(Reading(below, FrameAfterEntries(es, top), ErrorAfterEntries(es, top, error)), rest)
    decreases es, 0
  {
    match es
    case NoEntries =>
      assert FlattenEntries(es) + rest == rest;
    case MoreEntries(key, value, more) =>
      var afterKey, errorKey := FrameAfter(key, top), ErrorAfter(key, top, error);
      var tail := FlattenEntries(more) + rest;
      assert FlattenEntries(es) + rest == Flatten(key) + (Flatten(value) + tail);
      ReadNode(key, below, top, error, Flatten(value) + tail);
      ReadNode(value, below, afterKey, errorKey, tail);
      ReadEntries(more, below, FrameAfter(value, afterKey), ErrorAfter(value, afterKey, errorKey), rest);
  }

  // ------------------------------------------------ from the automaton to meaning

  /** Below a frame that is neither the root mapping nor a backup mapping nothing is recorded. */
  lemma {:induction false} OthersAreInert(n: Node, top: Frame, error: Option<Field>)
    requires top.role == Other
    ensures ErrorAfter(n, top, error) == error && FrameAfter(n, top).role == Other
    decreases n
  {
    match n
    case AliasNode =>
    case ScalarNode(_, _, _) =>
    case SequenceNode(items, _) => OtherNodesAreInert(items, Frame(false, None, Other), error);
    case MappingNode(entries, _) => OtherEntriesAreInert(entries, Frame(true, None, Other), error);
  }

  lemma {:induction false} OtherNodesAreInert(ns: Nodes, top: Frame, error: Option<Field>)
    requires top.role == Other
    ensures ErrorAfterNodes(ns, top, error) == error
    decreases ns
  {
    if ns.MoreNodes? {
      OthersAreInert(ns.head, top, error);
      OtherNodesAreInert(ns.tail, FrameAfter(ns.head, top), error);
    }
  }

  lemma {:induction false} OtherEntriesAreInert(es: Entries, top: Frame, error: Option<Field>)
    requires top.role == Other
    ensures ErrorAfterEntries(es, top, error) == error
    decreases es
  {
    if es.MoreEntries? {
      OthersAreInert(es.key, top, error);
      OthersAreInert(es.value, FrameAfter(es.key, top), error);
      OtherEntriesAreInert(es.rest, FrameAfter(es.value, FrameAfter(es.key, top)), error);
    }
  }

  /** A collection below a backup mapping, or below the root under another key, records nothing. */
  lemma CollectionIsInert(n: Node, top: Frame, error: Option<Field>)
    requires n.SequenceNode? || n.MappingNode?
    requires n.MappingNode? ==> RoleBelow(top) == Other
    ensures ErrorAfter(n, top, error) == error
  {
    match n
    case SequenceNode(items, _) => OtherNodesAreInert(items, Frame(false, None, Other), error);
    case MappingNode(entries, _) => OtherEntriesAreInert(entries, Frame(true, None, Other), error);
  }

  /** What is recorded by the end of a document. */
  function Recorded(document: Node): Option<Field> {
    if document.MappingNode? then ErrorAfterEntries(document.entries, Frame(true, None, Root), None) else None
  }

  /** The verdict of the automaton on a one-document stream, for every document. */
  function Judgement(document: Node): Result<(), Error> {
    if Unsupported(document) then Err(UnsupportedAliasOrTag)
    else if document.ScalarNode? then Err(InvalidStructure)
    else
      if Recorded(document).Some? then Err(InvalidPolicy(Recorded(document).value)) else Ok(())
  }

  lemma OpenDocument(events: seq<Event>)
    ensures Run(INITIAL, [StreamStart, DocumentStart] + events) == Run(State([], 1, true, false, None), events)
  {
    RunConcat(INITIAL, StreamStart, [DocumentStart] + events);
    RunConcat(State([], 0, true, false, None), DocumentStart, events);
    assert [StreamStart, DocumentStart] + events == [StreamStart] + ([DocumentStart] + events);
  }

  lemma CloseDocument(error: Option<Field>)
    ensures Run(State([], 1, true, false, error), [DocumentEnd, StreamEnd])
         == if error.Some? then Err(InvalidPolicy(error.value)) else Ok(())
  {
    var s := State([], 1, true, false, error);
    RunConcat(s, DocumentEnd, [StreamEnd]);
    RunConcat(s, StreamEnd, []);
    assert [StreamEnd] + [] == [StreamEnd] && [DocumentEnd] + [StreamEnd] == [DocumentEnd, StreamEnd];
  }

  /** Reading a whole document, whatever follows it in the stream. */
  lemma ReadDocument(document: Node, rest: seq<Event>)
    ensures Run(State([], 1, true, false, None), Flatten(document) + rest)
         == if Unsupported(document) then Err(UnsupportedAliasOrTag)
            else if document.ScalarNode? then Err(InvalidStructure)
            else Run(State([], 1, true, false, Recorded(document)), rest)
  {
    match document
    case AliasNode => RunConcat(State([], 1, true, false, None), Alias, rest);
    case ScalarNode(value, style, tagged) => RunConcat(State([], 1, true, false, None), Scalar(value, style, tagged), rest);
    case SequenceNode(_, _) => ReadRootSequence(document, rest);
    case MappingNode(_, _) => ReadRootMapping(document, rest);
  }

  lemma ReadRootSequence(document: Node, rest: seq<Event>)
    requires document.SequenceNode?
    ensures Run(State([], 1, true, false, None), Flatten(document) + rest)
         == if Unsupported(document) then Err(UnsupportedAliasOrTag) else Run(State([], 1, true, false, None), rest)
  {
    var items, frame := document.items, Frame(false, None, Other);
    var inner := FlattenNodes(items) + ([SequenceEnd] + rest);
    assert Flatten(document) + rest == [SequenceStart(document.tagged)] + inner;
    RunConcat(State([], 1, true, false, None), SequenceStart(document.tagged), inner);
    ReadNodes(items, [], frame, None, [SequenceEnd] + rest);
    OtherNodesAreInert(items, frame, None);
    CloseRoot(FrameAfterNodes(items, frame), None, SequenceEnd, rest);
  }

  lemma ReadRootMapping(document: Node, rest: seq<Event>)
    requires document.MappingNode?
    ensures Run(State([], 1, true, false, None), Flatten(document) + rest)
         == if Unsupported(document) then Err(UnsupportedAliasOrTag)
            else Run(State([], 1, true, false, Recorded(document)), rest)
  {
    var entries, frame := document.entries, Frame(true, None, Root);
    var inner := FlattenEntries(entries) + ([MappingEnd] + rest);
    assert Flatten(document) + rest == [MappingStart(document.tagged)] + inner;
    RunConcat(State([], 1, true, false, None), MappingStart(document.tagged), inner);
    ReadEntries(entries, [], frame, None, [MappingEnd] + rest);
    CloseRoot(FrameAfterEntries(entries, frame), Recorded(document), MappingEnd, rest);
  }

  lemma CloseRoot(top: Frame, error: Option<Field>, end: Event, rest: seq<Event>)
    requires end == SequenceEnd || end == MappingEnd
    ensures Run(Reading([], top, error), [end] + rest) == Run(State([], 1, true, false, error), rest)
  {
    RunConcat(Reading([], top, error), end, rest);
    assert ([] + [top])[..0] == [];
  }

  lemma StreamJudgement(document: Node)
    ensures Run(INITIAL, StreamOf(document)) == Judgement(document)
  {
    OpenDocument(Flatten(document) + [DocumentEnd, StreamEnd]);
    ReadDocument(document, [DocumentEnd, StreamEnd]);
    CloseDocument(Recorded(document));
  }

  /** A stream of more than one document fails once its first is read, a stream of none at its end. */
  lemma OneDocumentOnly(first: Node, rest: seq<Event>)
    ensures Run(INITIAL, [StreamStart, DocumentStart] + (Flatten(first) + ([DocumentEnd, DocumentStart] + rest)))
         == Err(if Unsupported(first) then UnsupportedAliasOrTag else InvalidStructure)
    ensures Run(INITIAL, [StreamStart, StreamEnd]) == Err(InvalidStructure)
  {
    var more := [DocumentEnd, DocumentStart] + rest;
    OpenDocument(Flatten(first) + more);
    ReadDocument(first, more);
    var s := State([], 1, true, false, Recorded(first));
    assert more == [DocumentEnd] + ([DocumentStart] + rest);
    RunConcat(s, DocumentEnd, [DocumentStart] + rest);
    RunConcat(s, DocumentStart, rest);
    RunConcat(INITIAL, StreamStart, [StreamEnd]);
    RunConcat(State([], 0, true, false, None), StreamEnd, []);
    assert [StreamStart, StreamEnd] == [StreamStart] + [StreamEnd] && [StreamEnd] + [] == [StreamEnd];
  }
}
