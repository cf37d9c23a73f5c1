/**
 When the policy check is right. The automaton takes a mapping's scalars for keys
 and values in turn; a collection used as a key puts it out of step. Whether a
 document gets the verdict it deserves depends only on where its mappings have
 scalars, sequences and mappings.
 */
module YamlPolicyShape {
  import opened Common
  import opened YamlPolicy
  import opened YamlPolicyTree

  datatype Kind = AliasKind | ScalarKind | SequenceKind | MappingKind

  /** The kinds of the keys and values of a mapping. */
  datatype Shape = Empty | Entry(key: Kind, value: Kind, rest: Shape)

  function KindOf(n: Node): Kind {
    match n
    case AliasNode => AliasKind
    case ScalarNode(_, _, _) => ScalarKind
    case SequenceNode(_, _) => SequenceKind
    case MappingNode(_, _) => MappingKind
  }

  function ShapeOf(es: Entries): Shape {
    match es
    case NoEntries => Empty
    case MoreEntries(key, value, rest) => Entry(KindOf(key), KindOf(value), ShapeOf(rest))
  }

  predicate HasAlias(shape: Shape) {
    shape.Entry? && (shape.key == AliasKind || shape.value == AliasKind || HasAlias(shape.rest))
  }

  /** Out of step, a scalar waits as a key where the next key belongs: a collection as value clears
      it, a scalar after a collection as key sets it. */
  predicate OutAfter(out: bool, key: Kind, value: Kind) {
    value == ScalarKind && (out || key != ScalarKind)
  }

  /** A mapping met out of step has the wrong role: as a key it may pass for a backup mapping, as
      the value of a scalar key it never does. */
  predicate RootBad(shape: Shape, out: bool) {
    shape.Entry?
    && ((out && (shape.key == MappingKind || (shape.key == ScalarKind && shape.value == MappingKind)))
        || RootBad(shape.rest, OutAfter(out, shape.key, shape.value)))
  }

  /** A scalar key met out of step is taken for a value. */
  predicate BackupBad(shape: Shape, out: bool) {
    shape.Entry?
    && ((out && shape.key == ScalarKind) || BackupBad(shape.rest, OutAfter(out, shape.key, shape.value)))
  }

  /** No backup mapping among the root's entries has a bad shape. */
  predicate BackupsInStep(es: Entries) {
    match es
    case NoEntries => true
    case MoreEntries(key, value, rest) =>
      (key.ScalarNode? && key.value == "backup" && value.MappingNode? ==> !BackupBad(ShapeOf(value.entries), false))
      && BackupsInStep(rest)
  }

  predicate InStep(document: Node) {
    document.MappingNode? ==> !RootBad(ShapeOf(document.entries), false) && BackupsInStep(document.entries)
  }

  // ----------------------------------------------------- in step, the check is right

  lemma {:induction false} BackupMeaning(es: Entries, pending: Option<string>, error: Option<Field>)
    requires !BackupBad(ShapeOf(es), pending.Some?) && !UnsupportedEntries(es)
    ensures ErrorAfterEntries(es, Frame(true, pending, Backup), error) == Later(error, BackupOffence(es))
    decreases es
  {
    if es.MoreEntries? {
      var top := Frame(true, pending, Backup);
      var afterKey := FrameAfter(es.key, top);
      if !es.key.ScalarNode? {
        CollectionIsInert(es.key, top, error);
      }
      if !es.value.ScalarNode? {
        CollectionIsInert(es.value, afterKey, error);
      }
      BackupMeaning(es.rest, FrameAfter(es.value, afterKey).pending, Later(error, EntryOffence(es.key, es.value)));
    }
  }

  /** The key of an entry of the root, in step or not. */
  lemma RootKeyIsInert(key: Node, pending: Option<string>, error: Option<Field>)
    requires !Unsupported(key) && (pending.Some? ==> !key.MappingNode?)
    ensures ErrorAfter(key, Frame(true, pending, Root), error) == error
  {
    if !key.ScalarNode? {
      CollectionIsInert(key, Frame(true, pending, Root), error);
    }
  }

  lemma {:induction false} RootMeaning(es: Entries, pending: Option<string>, error: Option<Field>)
    requires !RootBad(ShapeOf(es), pending.Some?) && BackupsInStep(es) && !UnsupportedEntries(es)
    ensures ErrorAfterEntries(es, Frame(true, pending, Root), error) == Later(error, RootOffence(es))
    decreases es
  {
    if es.MoreEntries? {
      var top := Frame(true, pending, Root);
      var afterKey := FrameAfter(es.key, top);
      RootKeyIsInert(es.key, pending, error);
      var next := ErrorAfter(es.value, afterKey, error);
      if es.value.MappingNode? && es.key.ScalarNode? && es.key.value == "backup" {
        BackupMeaning(es.value.entries, None, error);
      } else if !es.value.ScalarNode? {
        CollectionIsInert(es.value, afterKey, error);
      }
      RootMeaning(es.rest, FrameAfter(es.value, afterKey).pending, next);
    }
  }

  /** The verdict a document deserves: aliases, tags and a scalar root fail on their own, then the
      last offending policy number; nesting and equal names elsewhere make no difference. */
  function Deserved(document: Node): Result<(), Error> {
    if Unsupported(document) then Err(UnsupportedAliasOrTag)
    else if document.ScalarNode? then Err(InvalidStructure)
    else if Offence(document).Some? then Err(InvalidPolicy(Offence(document).value))
    else Ok(())
  }

  predicate Right(document: Node) {
    Run(INITIAL, StreamOf(document)) == Deserved(document)
  }

  /** Every document whose root and backup mappings are in step gets the verdict it deserves. */
  lemma PolicyCheckMeaning(document: Node)
    requires InStep(document)
    ensures Run(INITIAL, StreamOf(document)) == Deserved(document)
  {
    StreamJudgement(document);
    if document.MappingNode? && !Unsupported(document) {
      RootMeaning(document.entries, None, None);
    }
  }

  // ------------------------------------------- out of step, some document is misjudged

  /** A node of a kind: the given text, or an empty collection. */
  function Plainest(kind: Kind, text: string): Node {
    match kind
    case AliasKind => AliasNode
    case ScalarKind => ScalarNode(text, Plain, false)
    case SequenceKind => SequenceNode(NoNodes, false)
    case MappingKind => MappingNode(NoEntries, false)
  }

  function Fill(shape: Shape, text: string): Entries {
    match shape
    case Empty => NoEntries
    case Entry(key, value, rest) => MoreEntries(Plainest(key, text), Plainest(value, text), Fill(rest, text))
  }

  lemma {:induction false} FillHasShape(shape: Shape, text: string)
    ensures ShapeOf(Fill(shape, text)) == shape
    ensures !HasAlias(shape) ==> !UnsupportedEntries(Fill(shape, text))
  {
    if shape.Entry? {
      FillHasShape(shape.rest, text);
    }
  }

  /** Where one plain entry leaves a frame whose pending scalar, if any, is that text. */
  lemma PlainestFrame(key: Kind, value: Kind, text: string, top: Frame)
    requires top.mapping && (top.pending.Some? ==> top.pending.value == text) && key != AliasKind && value != AliasKind
    ensures var after := FrameAfter(Plainest(value, text), FrameAfter(Plainest(key, text), top));
            && after.mapping && after.role == top.role
            && (after.pending.Some? <==> OutAfter(top.pending.Some?, key, value))
            && (after.pending.Some? ==> after.pending.value == text)
  {
  }

  lemma PlainestIsInert(kind: Kind, text: string, top: Frame, error: Option<Field>)
    requires !Offends(text)
    ensures ErrorAfter(Plainest(kind, text), top, error) == error
  {
  }

  /** An inert filling reports nothing. */
  lemma {:induction false} FillIsInert(shape: Shape, text: string, top: Frame, error: Option<Field>)
    requires !Offends(text)
    ensures ErrorAfterEntries(Fill(shape, text), top, error) == error
    decreases shape
  {
    if shape.Entry? {
      var afterKey := FrameAfter(Plainest(shape.key, text), top);
      PlainestIsInert(shape.key, text, top, error);
      PlainestIsInert(shape.value, text, afterKey, error);
      FillIsInert(shape.rest, text, FrameAfter(Plainest(shape.value, text), afterKey), error);
    }
  }

  lemma PlainestDeservesNothing(key: Kind, value: Kind, text: string)
    requires !Offends(text)
    ensures EntryOffence(Plainest(key, text), Plainest(value, text)) == None
  {
  }

  lemma NothingInside()
    ensures BackupOffence(NoEntries) == None && !BackupBad(ShapeOf(NoEntries), false)
  {
  }

  /** And it deserves nothing. */
  lemma {:induction false} FillDeservesNothing(shape: Shape, text: string)
    requires !Offends(text)
    ensures RootOffence(Fill(shape, text)) == None && BackupsInStep(Fill(shape, text))
    ensures BackupOffence(Fill(shape, text)) == None
  {
    if shape.Entry? {
      FillDeservesNothing(shape.rest, text);
      PlainestDeservesNothing(shape.key, shape.value, text);
      NothingInside();
    }
  }

  const OFFENDING: Node :=
    MappingNode(MoreEntries(ScalarNode("retention_days", Plain, false), ScalarNode("+5", Plain, false), NoEntries), false)

  /** A filling of a bad root: scalars named "backup", and an offence in the mapping met out of step. */
  function RootWitness(shape: Shape, out: bool): Entries
    requires RootBad(shape, out)
  {
    var next := OutAfter(out, shape.key, shape.value);
    if out && shape.key == MappingKind then
      MoreEntries(OFFENDING, Plainest(shape.value, "backup"), Fill(shape.rest, "backup"))
    else if out && shape.key == ScalarKind && shape.value == MappingKind then
      MoreEntries(Plainest(ScalarKind, "backup"), OFFENDING, Fill(shape.rest, "backup"))
    else MoreEntries(Plainest(shape.key, "backup"), Plainest(shape.value, "backup"), RootWitness(shape.rest, next))
  }

  lemma SignedNumber()
    ensures Offends("+5") && PolicyField("+5") == None
  {
    assert "+5"[0] == '+';
  }

  lemma OffendingDeserves()
    ensures BackupOffence(OFFENDING.entries) == Some(RetentionDays) && !Unsupported(OFFENDING)
    ensures !BackupBad(ShapeOf(OFFENDING.entries), false)
  {
    var es := OFFENDING.entries;
    SignedNumber();
    assert BackupOffence(es.rest) == None && ShapeOf(es.rest) == Empty;
  }

  /** What the automaton records in an offending mapping, by the role it gives it. */
  lemma OffendingRecorded(top: Frame, error: Option<Field>)
    ensures ErrorAfter(OFFENDING, top, error) == if RoleBelow(top) == Backup then Some(RetentionDays) else error
  {
    OffendingDeserves();
    if RoleBelow(top) == Backup {
      BackupMeaning(OFFENDING.entries, None, error);
    } else {
      CollectionIsInert(OFFENDING, top, error);
    }
  }

  lemma PlainText()
    ensures !Offends("backup") && !Offends("retention_days")
  {
    WordIsPlain("backup");
    WordIsPlain("retention_days");
  }

  lemma WordIsPlain(text: string)
    requires text != [] && 'a' <= text[0] <= 'z'
    ensures !Offends(text)
  {
    assert text[0] in text;
  }

  /** One entry of the witness that is not the misjudged one changes neither side. */
  lemma WitnessHead(key: Kind, value: Kind, rest: Entries, top: Frame)
    requires top.mapping && top.role == Root && (top.pending.Some? ==> top.pending.value == "backup")
    requires key != AliasKind && value != AliasKind
    ensures var k, v := Plainest(key, "backup"), Plainest(value, "backup");
            && ErrorAfterEntries(MoreEntries(k, v, rest), top, None)
               == ErrorAfterEntries(rest, FrameAfter(v, FrameAfter(k, top)), None)
            && RootOffence(MoreEntries(k, v, rest)) == RootOffence(rest)
            && (BackupsInStep(rest) ==> BackupsInStep(MoreEntries(k, v, rest)))
  {
    PlainText();
    PlainestIsInert(key, "backup", top, None);
    PlainestIsInert(value, "backup", FrameAfter(Plainest(key, "backup"), top), None);
    NothingInside();
  }

  /** A mapping key met out of step passes for a backup mapping. */
  lemma FalseOffence(value: Kind, text: string, rest: Shape, top: Frame)
    requires !Offends(text) && value != AliasKind && RoleBelow(top) == Backup
    ensures var es := MoreEntries(OFFENDING, Plainest(value, text), Fill(rest, text));
            ErrorAfterEntries(es, top, None) == Some(RetentionDays) && RootOffence(es) == None && BackupsInStep(es)
  {
    var afterKey := FrameAfter(OFFENDING, top);
    OffendingRecorded(top, None);
    PlainestIsInert(value, text, afterKey, Some(RetentionDays));
    FillIsInert(rest, text, FrameAfter(Plainest(value, text), afterKey), Some(RetentionDays));
    FillDeservesNothing(rest, text);
  }

  /** A backup mapping met out of step passes unread. */
  lemma MissedOffence(text: string, rest: Shape, top: Frame)
    requires !Offends(text) && text == "backup" && top.pending.Some?
    ensures var es := MoreEntries(Plainest(ScalarKind, text), OFFENDING, Fill(rest, text));
            ErrorAfterEntries(es, top, None) == None && RootOffence(es) == Some(RetentionDays) && BackupsInStep(es)
  {
    var afterKey := FrameAfter(Plainest(ScalarKind, text), top);
    OffendingDeserves();
    PlainestIsInert(ScalarKind, text, top, None);
    OffendingRecorded(afterKey, None);
    FillIsInert(rest, text, FrameAfter(OFFENDING, afterKey), None);
    FillDeservesNothing(rest, text);
  }

  lemma {:induction false} RootWitnessMisjudged(shape: Shape, top: Frame)
    requires top.mapping && top.role == Root && (top.pending.Some? ==> top.pending.value == "backup")
    requires RootBad(shape, top.pending.Some?) && !HasAlias(shape)
    ensures var es := RootWitness(shape, top.pending.Some?);
            ErrorAfterEntries(es, top, None) != RootOffence(es) && BackupsInStep(es)
    decreases shape
  {
    var out := top.pending.Some?;
    if out && shape.key == MappingKind {
      PlainText();
      FalseOffence(shape.value, "backup", shape.rest, top);
    } else if out && shape.key == ScalarKind && shape.value == MappingKind {
      PlainText();
      MissedOffence("backup", shape.rest, top);
    } else {
      var next := FrameAfter(Plainest(shape.value, "backup"), FrameAfter(Plainest(shape.key, "backup"), top));
      PlainestFrame(shape.key, shape.value, "backup", top);
      RootWitnessMisjudged(shape.rest, next);
      WitnessHead(shape.key, shape.value, RootWitness(shape.rest, next.pending.Some?), top);
    }
  }

  lemma {:induction false} RootWitnessHasShape(shape: Shape, out: bool)
    requires RootBad(shape, out) && !HasAlias(shape)
    ensures ShapeOf(RootWitness(shape, out)) == shape && !UnsupportedEntries(RootWitness(shape, out))
    decreases shape
  {
    OffendingDeserves();
    FillHasShape(shape.rest, "backup");
    if !(out && (shape.key == MappingKind || (shape.key == ScalarKind && shape.value == MappingKind))) {
      RootWitnessHasShape(shape.rest, OutAfter(out, shape.key, shape.value));
    }
  }

  /** A filling of a bad backup mapping: every scalar named "retention_days", but for a signed number
      as the key met out of step. */
  function BackupWitness(shape: Shape, out: bool): Entries
    requires BackupBad(shape, out)
  {
    var text := "retention_days";
    if out && shape.key == ScalarKind then
      MoreEntries(Plainest(ScalarKind, "+5"), Plainest(shape.value, text), Fill(shape.rest, text))
    else
      MoreEntries(Plainest(shape.key, text), Plainest(shape.value, text),
                  BackupWitness(shape.rest, OutAfter(out, shape.key, shape.value)))
  }

  lemma {:induction false} BackupWitnessHasShape(shape: Shape, out: bool)
    requires BackupBad(shape, out) && !HasAlias(shape)
    ensures ShapeOf(BackupWitness(shape, out)) == shape && !UnsupportedEntries(BackupWitness(shape, out))
    decreases shape
  {
    FillHasShape(shape.rest, "retention_days");
    if !(out && shape.key == ScalarKind) {
      BackupWitnessHasShape(shape.rest, OutAfter(out, shape.key, shape.value));
    }
  }

  lemma BackupHead(key: Kind, value: Kind, rest: Entries, top: Frame)
    ensures var k, v := Plainest(key, "retention_days"), Plainest(value, "retention_days");
            && ErrorAfterEntries(MoreEntries(k, v, rest), top, None)
               == ErrorAfterEntries(rest, FrameAfter(v, FrameAfter(k, top)), None)
            && BackupOffence(MoreEntries(k, v, rest)) == BackupOffence(rest)
  {
    PlainText();
    PlainestIsInert(key, "retention_days", top, None);
    PlainestIsInert(value, "retention_days", FrameAfter(Plainest(key, "retention_days"), top), None);
  }

  lemma KeyReported(number: string, top: Frame)
    requires Offends(number) && top == Frame(true, Some("retention_days"), Backup)
    ensures ErrorAfter(Plainest(ScalarKind, number), top, None) == Some(RetentionDays)
  {
  }

  /** A signed number used as a key out of step passes for the value of the scalar waiting. */
  lemma KeyTakenForValue(number: string, text: string, value: Kind, rest: Shape, top: Frame)
    requires Offends(number) && PolicyField(number) == None && !Offends(text)
    requires top == Frame(true, Some("retention_days"), Backup)
    ensures var es := MoreEntries(Plainest(ScalarKind, number), Plainest(value, text), Fill(rest, text));
            ErrorAfterEntries(es, top, None) == Some(RetentionDays) && BackupOffence(es) == None
  {
    var afterKey := FrameAfter(Plainest(ScalarKind, number), top);
    KeyReported(number, top);
    PlainestIsInert(value, text, afterKey, Some(RetentionDays));
    FillIsInert(rest, text, FrameAfter(Plainest(value, text), afterKey), Some(RetentionDays));
    FillDeservesNothing(rest, text);
  }

  lemma {:induction false} BackupWitnessMisjudged(shape: Shape, top: Frame)
    requires top.mapping && top.role == Backup && (top.pending.Some? ==> top.pending.value == "retention_days")
    requires BackupBad(shape, top.pending.Some?) && !HasAlias(shape)
    ensures var es := BackupWitness(shape, top.pending.Some?);
            ErrorAfterEntries(es, top, None) != BackupOffence(es)
    decreases shape
  {
    var text := "retention_days";
    if top.pending.Some? && shape.key == ScalarKind {
      SignedNumber();
      PlainText();
      KeyTakenForValue("+5", text, shape.value, shape.rest, top);
    } else {
      var next := FrameAfter(Plainest(shape.value, text), FrameAfter(Plainest(shape.key, text), top));
      PlainestFrame(shape.key, shape.value, text, top);
      BackupWitnessMisjudged(shape.rest, next);
      BackupHead(shape.key, shape.value, BackupWitness(shape.rest, next.pending.Some?), top);
    }
  }

  // ------------------------------------------------------------ the exact condition

  /** Every document with a root mapping of this shape, and backup mappings in step, is judged rightly. */
  ghost predicate RootAlwaysRight(shape: Shape) {
    forall document: Node :: document.MappingNode? && ShapeOf(document.entries) == shape && BackupsInStep(document.entries)
                       ==> Right(document)
  }

  /** The document with one backup mapping at its root. */
  function BackupDocument(es: Entries): Node {
    MappingNode(MoreEntries(ScalarNode("backup", Plain, false), MappingNode(es, false), NoEntries), false)
  }

  ghost predicate BackupAlwaysRight(shape: Shape) {
    forall es :: ShapeOf(es) == shape ==> Right(BackupDocument(es))
  }

  lemma {:induction false} AliasIsUnsupported(es: Entries)
    ensures HasAlias(ShapeOf(es)) ==> UnsupportedEntries(es)
  {
    if es.MoreEntries? {
      AliasIsUnsupported(es.rest);
    }
  }

  /** The check judges every document of a root shape rightly exactly when no mapping key, and no
      mapping under a scalar key, is met out of step. */
  lemma RootShapeDecides(shape: Shape)
    ensures RootAlwaysRight(shape) <==> HasAlias(shape) || !RootBad(shape, false)
  {
    if HasAlias(shape) || !RootBad(shape, false) {
      forall document: Node | document.MappingNode? && ShapeOf(document.entries) == shape && BackupsInStep(document.entries)
        ensures Right(document)
      {
        RightlyJudged(document);
      }
    } else {
      var es := RootWitness(shape, false);
      var document := MappingNode(es, false);
      RootWitnessHasShape(shape, false);
      RootWitnessMisjudged(shape, Frame(true, None, Root));
      StreamJudgement(document);
      assert !Right(document);
    }
  }

  lemma RightlyJudged(document: Node)
    requires document.MappingNode?
    requires HasAlias(ShapeOf(document.entries)) || InStep(document)
    ensures Right(document)
  {
    AliasIsUnsupported(document.entries);
    if InStep(document) {
      PolicyCheckMeaning(document);
    } else {
      StreamJudgement(document);
    }
  }

  lemma BackupDocumentRead(es: Entries)
    ensures var entries := BackupDocument(es).entries;
            && ErrorAfterEntries(entries, Frame(true, None, Root), None)
               == ErrorAfterEntries(es, Frame(true, None, Backup), None)
            && RootOffence(entries) == BackupOffence(es)
            && (UnsupportedEntries(entries) <==> UnsupportedEntries(es))
  {
    var entries, top := BackupDocument(es).entries, Frame(true, None, Root);
    var afterKey := FrameAfter(entries.key, top);
    assert afterKey == Frame(true, Some("backup"), Root) && ErrorAfter(entries.key, top, None) == None;
    assert ErrorAfter(entries.value, afterKey, None) == ErrorAfterEntries(es, Frame(true, None, Backup), None);
  }

  lemma BackupDocumentJudged(es: Entries)
    ensures Right(BackupDocument(es))
       <==> UnsupportedEntries(es) || ErrorAfterEntries(es, Frame(true, None, Backup), None) == BackupOffence(es)
  {
    BackupDocumentRead(es);
    StreamJudgement(BackupDocument(es));
  }

  /** The check judges every backup mapping of a shape rightly exactly when no scalar key is met out of step. */
  lemma BackupShapeDecides(shape: Shape)
    ensures BackupAlwaysRight(shape) <==> HasAlias(shape) || !BackupBad(shape, false)
  {
    if HasAlias(shape) || !BackupBad(shape, false) {
      forall es | ShapeOf(es) == shape ensures Right(BackupDocument(es)) {
        AliasIsUnsupported(es);
        BackupDocumentJudged(es);
        if !UnsupportedEntries(es) {
          BackupMeaning(es, None, None);
        }
      }
    } else {
      var es := BackupWitness(shape, false);
      BackupWitnessHasShape(shape, false);
      BackupWitnessMisjudged(shape, Frame(true, None, Backup));
      BackupDocumentJudged(es);
    }
  }

  // ----------------------------------------------------------------- two documents

  /** The document whose root begins with a sequence as a key and the scalar "backup" as its value. */
  function AfterSequenceKey(rest: Entries): Node {
    MappingNode(MoreEntries(Plainest(SequenceKind, "backup"), Plainest(ScalarKind, "backup"), rest), false)
  }

  /** Its other entries are read out of step. */
  lemma ReadOutOfStep(rest: Entries, recorded: Option<Field>)
    requires !UnsupportedEntries(rest)
    requires ErrorAfterEntries(rest, Frame(true, Some("backup"), Root), None) == recorded
    ensures Run(INITIAL, StreamOf(AfterSequenceKey(rest)))
         == if recorded.Some? then Err(InvalidPolicy(recorded.value)) else Ok(())
    ensures Offence(AfterSequenceKey(rest)) == RootOffence(rest) && !Unsupported(AfterSequenceKey(rest))
  {
    var root, text := Frame(true, None, Root), "backup";
    assert FrameAfter(Plainest(ScalarKind, text), FrameAfter(Plainest(SequenceKind, text), root)) == root.(pending := Some(text));
    WitnessHead(SequenceKind, ScalarKind, rest, root);
    var document := AfterSequenceKey(rest);
    assert ErrorAfterEntries(document.entries, root, None) == recorded;
    assert !UnsupportedEntries(document.entries);
    StreamJudgement(document);
  }

  /** After a sequence used as a key the automaton takes values for keys, and the signed number under
      `backup` passes. */
  lemma SequenceKeyHidesOffence()
    ensures var document := AfterSequenceKey(MoreEntries(Plainest(ScalarKind, "backup"), OFFENDING, Fill(Empty, "backup")));
            Offence(document) == Some(RetentionDays) && Run(INITIAL, StreamOf(document)) == Ok(())
  {
    var text := "backup";
    PlainText();
    OffendingDeserves();
    MissedOffence(text, Empty, Frame(true, Some(text), Root));
    ReadOutOfStep(MoreEntries(Plainest(ScalarKind, text), OFFENDING, Fill(Empty, text)), None);
  }

  lemma SupportedEntry(key: Node, value: Kind, text: string)
    requires !Unsupported(key) && value != AliasKind
    ensures !UnsupportedEntries(MoreEntries(key, Plainest(value, text), Fill(Empty, text)))
  {
  }

  /** And a mapping used as a key after one passes for the backup mapping: a false error. */
  lemma MappingKeyRaisesOffence()
    ensures var document := AfterSequenceKey(MoreEntries(OFFENDING, Plainest(ScalarKind, "backup"), Fill(Empty, "backup")));
            Offence(document) == None && Run(INITIAL, StreamOf(document)) == Err(InvalidPolicy(RetentionDays))
  {
    var text := "backup";
    PlainText();
    OffendingDeserves();
    FalseOffence(ScalarKind, text, Empty, Frame(true, Some(text), Root));
    var rest := MoreEntries(OFFENDING, Plainest(ScalarKind, text), Fill(Empty, text));
    SupportedEntry(OFFENDING, ScalarKind, text);
    ReadOutOfStep(rest, Some(RetentionDays));
  }
}
