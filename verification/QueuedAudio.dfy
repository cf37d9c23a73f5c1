/**
 The output queue of a realtime call: provider audio waits here for the 20 ms
 ticker, overflow drops the oldest frames, and a barge-in reports how much of the
 current item the caller has heard.
 */
module QueuedAudio {
  import opened Common

  const FRAME: nat := 160
  const MAX_QUEUED: nat := 160_000
  const SILENCE: byte := 0xFF
  const U64_MAX: nat := 0xFFFF_FFFF_FFFF_FFFF

  /** Saturating unsigned 64-bit arithmetic. */
  function Sat(x: nat): nat {
    if x <= U64_MAX then x else U64_MAX
  }

  function Min(x: nat, y: nat): nat {
    if x <= y then x else y
  }

  function Silence(n: nat): seq<byte> {
    seq(n, i => SILENCE)
  }

  /** The value of a queue. */
  datatype Queue = Queue(bytes: seq<byte>, itemId: Option<string>, generated: nat, flushed: nat, finished: bool) {

    function Push(item: Option<string>, audio: seq<byte>): Queue {
      var current := if item != itemId then this.(itemId := item, generated := 0, flushed := 0) else this;
      current.(generated := Sat(current.generated + |audio|), bytes := bytes + audio, finished := false)
    }

    /** Bytes the next overflow step drops: whole frames, enough to get back to the limit. */
    function Overflow(): (n: nat)
      ensures n <= |bytes|
    {
      var excess := Less(|bytes|, MAX_QUEUED);
      Min((excess + FRAME - 1) / FRAME * FRAME, |bytes|)
    }

    function DiscardOverflow(): Queue {
      this.(bytes := bytes[Overflow()..], flushed := Sat(flushed + Overflow()))
    }

    function Finish(): Queue {
      this.(finished := true)
    }

    /** Queued bytes the next tick plays: a whole frame, or the rest of finished audio. */
    function Playable(): (n: nat)
      ensures n <= |bytes| && n <= FRAME
    {
      if |bytes| >= FRAME then FRAME else if finished then |bytes| else 0
    }

    function NextFrame(): (Option<seq<byte>>, Queue) {
      var n := Playable();
      if n == 0 then (None, this)
      else (Some(bytes[..n] + Silence(FRAME - n)), this.(bytes := bytes[n..]))
    }

    function Unplayed(): nat {
      Sat(|bytes| + flushed)
    }

    /** Milliseconds of the current item heard, at eight bytes a millisecond. */
    function HeardMs(): nat {
      Less(generated, Unplayed()) / 8
    }

    function FlushForBargeIn(): Queue {
      this.(flushed := Unplayed(), bytes := [])
    }
  }

  const EMPTY: Queue := Queue([], None, 0, 0, false)

  /** The queue object of a session. */
  class AudioQueue {
    var bytes: seq<byte>
    var itemId: Option<string>
    var generatedBytes: nat
    var flushedBytes: nat
    var finished: bool

    ghost function Value(): Queue
      reads this
    {
      Queue(bytes, itemId, generatedBytes, flushedBytes, finished)
    }

    constructor ()
      ensures Value() == EMPTY
    {
      bytes, itemId, generatedBytes, flushedBytes, finished := [], None, 0, 0, false;
    }

    method Push(item: Option<string>, audio: seq<byte>)
      modifies this
      ensures Value() == old(Value()).Push(item, audio)
    {
      if item != itemId {
        itemId := item;
        generatedBytes := 0;
        flushedBytes := 0;
      }
      generatedBytes := Sat(generatedBytes + |audio|);
      bytes := bytes + audio;
      finished := false;
    }

    method DiscardOverflow() returns (dropped: nat)
      modifies this
      ensures dropped == old(Value()).Overflow()
      ensures Value() == old(Value()).DiscardOverflow()
    {
      var excess := Less(|bytes|, MAX_QUEUED);
      var frames := (excess + FRAME - 1) / FRAME;
      dropped := Min(frames * FRAME, |bytes|);
      bytes := bytes[dropped..];
      flushedBytes := Sat(flushedBytes + dropped);
    }

    method Finish()
      modifies this
      ensures Value() == old(Value()).Finish()
    {
      finished := true;
    }

    method NextFrame() returns (frame: Option<seq<byte>>)
      modifies this
      ensures (frame, Value()) == old(Value()).NextFrame()
    {
      if |bytes| < FRAME {
        if !finished || bytes == [] {
          return None;
        }
        ghost var content := bytes;
        bytes := bytes + Silence(FRAME - |bytes|);
        assert bytes[..FRAME] == content[..|content|] + Silence(FRAME - |content|);
        assert bytes[FRAME..] == content[|content|..];
      } else {
        assert bytes[..FRAME] == bytes[..FRAME] + Silence(0);
      }
      frame := Some(bytes[..FRAME]);
      bytes := bytes[FRAME..];
    }

    method FlushForBargeIn() returns (heardMs: nat)
      modifies this
      ensures heardMs == old(Value()).HeardMs()
      ensures Value() == old(Value()).FlushForBargeIn()
    {
      var unplayed := Sat(|bytes| + flushedBytes);
      var played := Less(generatedBytes, unplayed);
      flushedBytes := unplayed;
      bytes := [];
      heardMs := played / 8;
    }
  }

  // ------------------------------------------------------------- runs of a queue

  datatype Op = PushOp(item: Option<string>, audio: seq<byte>) | DiscardOp | FinishOp | TickOp | FlushOp

  /** What has left the queue, in order. */
  datatype Departure = Played(content: seq<byte>, padding: nat) | Dropped(content: seq<byte>)

  /** A queue and what an observer of the run has seen: all bytes pushed, how many have left,
      where the current item begins in the stream, how many of its bytes were played, and how
      many bytes were lost since it began, of any item and of older items. */
  datatype History = History(queue: Queue, pushed: seq<byte>, departed: seq<Departure>, gone: nat, itemStart: nat,
                             played: nat, lost: nat, olderLost: nat) {

    /** Bytes of older items among the next `n` to leave. */
    function OlderAmong(n: nat): nat {
      if itemStart <= gone then 0 else if gone + n <= itemStart then n else itemStart - gone
    }

    function Lose(n: nat): History
      requires n <= |queue.bytes|
    {
      this.(gone := gone + n, lost := lost + n, olderLost := olderLost + OlderAmong(n),
            departed := departed + [Dropped(queue.bytes[..n])])
    }
  }

  const START: History := History(EMPTY, [], [], 0, 0, 0, 0, 0)

  function Apply(h: History, op: Op): History {
    var q := h.queue;
    match op
    case PushOp(item, audio) =>
      var seen := h.(queue := q.Push(item, audio), pushed := h.pushed + audio);
      if item != q.itemId then seen.(itemStart := |h.pushed|, played := 0, lost := 0, olderLost := 0) else seen
    case DiscardOp => h.Lose(q.Overflow()).(queue := q.DiscardOverflow())
    case FinishOp => h.(queue := q.Finish())
    case TickOp =>
      var n := q.Playable();
      if n == 0 then h
      else h.(queue := q.NextFrame().1, gone := h.gone + n, played := h.played + Less(n, h.OlderAmong(n)),
              departed := h.departed + [Played(q.bytes[..n], FRAME - n)])
    case FlushOp => h.Lose(|q.bytes|).(queue := q.FlushForBargeIn())
  }

  function Run(ops: seq<Op>): History {
    if ops == [] then START else Apply(Run(ops[..|ops| - 1]), ops[|ops| - 1])
  }

  function Contents(ds: seq<Departure>): seq<byte> {
    if ds == [] then [] else Contents(ds[..|ds| - 1]) + ds[|ds| - 1].content
  }

  /** The queue is the pushed stream minus what left, in order. */
  ghost predicate InOrder(h: History) {
    && h.gone <= |h.pushed|
    && h.queue.bytes == h.pushed[h.gone..]
    && Contents(h.departed) == h.pushed[..h.gone]
  }

  /** Bytes of older items still queued. */
  function OlderQueued(h: History): nat {
    Less(h.itemStart, h.gone)
  }

  /** Every byte of the current item was played, is queued or was lost. */
  ghost predicate Accounted(h: History) {
    && h.itemStart <= |h.pushed| && h.olderLost <= h.lost <= h.gone <= |h.pushed|
    && |h.pushed| - h.itemStart + OlderQueued(h) + h.olderLost == h.played + |h.queue.bytes| + h.lost
    && h.queue.generated == Sat(|h.pushed| - h.itemStart)
    && h.queue.flushed == Sat(h.lost)
  }

  lemma DepartureContents(ds: seq<Departure>, d: Departure)
    ensures Contents(ds + [d]) == Contents(ds) + d.content
  {
    assert (ds + [d])[..|ds|] == ds;
  }

  lemma LeaveInOrder(h: History, n: nat, d: Departure, after: History)
    requires InOrder(h) && n <= |h.queue.bytes| && d.content == h.queue.bytes[..n]
    requires after.pushed == h.pushed && after.gone == h.gone + n && after.departed == h.departed + [d]
    requires after.queue.bytes == h.queue.bytes[n..]
    ensures InOrder(after)
  {
    DepartureContents(h.departed, d);
    assert h.pushed[..h.gone] + h.pushed[h.gone..][..n] == h.pushed[..h.gone + n];
  }

  lemma ApplyKeepsOrder(h: History, op: Op)
    requires InOrder(h)
    ensures InOrder(Apply(h, op))
  {
    var q := h.queue;
    match op
    case PushOp(_, audio) =>
      assert (h.pushed + audio)[h.gone..] == h.pushed[h.gone..] + audio;
      assert (h.pushed + audio)[..h.gone] == h.pushed[..h.gone];
    case DiscardOp => LeaveInOrder(h, q.Overflow(), Dropped(q.bytes[..q.Overflow()]), Apply(h, op));
    case FinishOp =>
    case TickOp =>
      if q.Playable() != 0 {
        LeaveInOrder(h, q.Playable(), Played(q.bytes[..q.Playable()], FRAME - q.Playable()), Apply(h, op));
      }
    case FlushOp => LeaveInOrder(h, |q.bytes|, Dropped(q.bytes[..|q.bytes|]), Apply(h, op));
  }

  lemma PushKeepsAccount(h: History, item: Option<string>, audio: seq<byte>)
    requires InOrder(h) && Accounted(h)
    ensures Accounted(Apply(h, PushOp(item, audio)))
  {
  }

  lemma TickKeepsAccount(h: History)
    requires InOrder(h) && Accounted(h)
    ensures Accounted(Apply(h, TickOp))
  {
  }

  /** Losing bytes from the front keeps the account. */
  lemma LossKeepsAccount(h: History, n: nat, after: History)
    requires InOrder(h) && Accounted(h) && n <= |h.queue.bytes|
    requires after.queue.bytes == h.queue.bytes[n..] && after.queue.generated == h.queue.generated
    requires after.queue.flushed == Sat(h.queue.flushed + n)
    requires after == h.Lose(n).(queue := after.queue)
    ensures Accounted(after)
  {
  }

  lemma ApplyKeepsAccount(h: History, op: Op)
    requires InOrder(h) && Accounted(h)
    ensures Accounted(Apply(h, op))
  {
    match op
    case PushOp(item, audio) => PushKeepsAccount(h, item, audio);
    case DiscardOp => LossKeepsAccount(h, h.queue.Overflow(), Apply(h, op));
    case FinishOp =>
    case TickOp => TickKeepsAccount(h);
    case FlushOp => LossKeepsAccount(h, |h.queue.bytes|, Apply(h, op));
  }

  /** In every run the queue is a suffix of the pushed stream, what left it came out in order
      without a gap, and the bytes of the current item are accounted for. */
  lemma {:induction false} EveryRun(ops: seq<Op>)
    ensures InOrder(Run(ops)) && Accounted(Run(ops))
  {
    if ops != [] {
      var before := ops[..|ops| - 1];
      EveryRun(before);
      ApplyKeepsOrder(Run(before), ops[|ops| - 1]);
      ApplyKeepsAccount(Run(before), ops[|ops| - 1]);
    }
  }

  /** Generated bytes never exceed those played, queued and flushed; they are equal when the
      counters have not saturated and no byte of an older item is queued or was lost since. */
  lemma GeneratedBound(ops: seq<Op>)
    ensures var h := Run(ops);
            && h.queue.generated <= h.played + |h.queue.bytes| + h.queue.flushed
            && (|h.pushed| <= U64_MAX && OlderQueued(h) == 0 && h.olderLost == 0 ==>
                  h.queue.generated == h.played + |h.queue.bytes| + h.queue.flushed)
  {
    EveryRun(ops);
  }

  /** Saturation only ever makes the difference smaller. */
  lemma SaturatedDifference(generated: nat, queued: nat, lost: nat, played: nat, older: nat)
    requires generated + older == played + queued + lost
    ensures Less(Sat(generated), Sat(queued + Sat(lost))) <= played
    ensures generated <= U64_MAX && queued + lost <= U64_MAX ==>
              Less(Sat(generated), Sat(queued + Sat(lost))) == Less(played, older)
  {
  }

  /** The barge-in position never exceeds the audio of the current item really played, and is
      that amount less the older audio that was still queued or lost since the item began. */
  ghost predicate HeardPlayed(h: History) {
    && h.queue.HeardMs() <= h.played / 8
    && (|h.pushed| <= U64_MAX ==> h.queue.HeardMs() == Less(h.played, OlderQueued(h) + h.olderLost) / 8)
  }

  lemma HeardIsPlayed(h: History)
    requires InOrder(h) && Accounted(h)
    ensures HeardPlayed(h)
  {
    SaturatedDifference(|h.pushed| - h.itemStart, |h.queue.bytes|, h.lost, h.played, OlderQueued(h) + h.olderLost);
  }

  lemma BargeInPosition(ops: seq<Op>)
    ensures HeardPlayed(Run(ops))
  {
    EveryRun(ops);
    HeardIsPlayed(Run(ops));
  }

  // ------------------------------------------------ the current item, by the pushes

  function Pushes(ops: seq<Op>): seq<byte> {
    if ops == [] then []
    else Pushes(ops[..|ops| - 1]) + if ops[|ops| - 1].PushOp? then ops[|ops| - 1].audio else []
  }

  /** The item of the last push. */
  function LastItem(ops: seq<Op>): Option<string> {
    if ops == [] then None
    else if ops[|ops| - 1].PushOp? then ops[|ops| - 1].item
    else LastItem(ops[..|ops| - 1])
  }

  /** How much was pushed before the pushes began to name that item. */
  function ItemBegins(ops: seq<Op>): nat {
    if ops == [] then 0
    else
      var init, last := ops[..|ops| - 1], ops[|ops| - 1];
      if last.PushOp? && last.item != LastItem(init) then |Pushes(init)| else ItemBegins(init)
  }

  /** The queue's item is that of the last push, and its bytes are counted from where that item begins. */
  lemma {:induction false} ItemMeans(ops: seq<Op>)
    ensures var h := Run(ops);
            h.queue.itemId == LastItem(ops) && h.pushed == Pushes(ops) && h.itemStart == ItemBegins(ops)
  {
    if ops != [] {
      ItemMeans(ops[..|ops| - 1]);
    }
  }

  /** A frame is 160 bytes: the next bytes of the stream, completed with silence only when the
      audio is finished and less than a frame is left. */
  lemma FramesAreWhole(h: History)
    requires InOrder(h)
    ensures var frame := h.queue.NextFrame().0;
            frame.Some? ==>
              var n := h.queue.Playable();
              && |frame.value| == FRAME && n > 0 && h.gone + n <= |h.pushed|
              && frame.value == h.pushed[h.gone..h.gone + n] + Silence(FRAME - n)
              && (n < FRAME ==> h.queue.finished && |h.queue.bytes| == n)
    ensures h.queue.NextFrame().0.None? <==> |h.queue.bytes| < FRAME && (!h.queue.finished || h.queue.bytes == [])
  {
    var n := h.queue.Playable();
    assert h.pushed[h.gone..][..n] == h.pushed[h.gone..h.gone + n];
  }

  /** An overflow step drops whole frames, no more than needed, and leaves at most the limit. */
  lemma OverflowDropsFrames(q: Queue)
    ensures q.Overflow() % FRAME == 0
    ensures |q.DiscardOverflow().bytes| <= MAX_QUEUED
    ensures q.Overflow() < Less(|q.bytes|, MAX_QUEUED) + FRAME
  {
    var excess := Less(|q.bytes|, MAX_QUEUED);
    var frames := (excess + FRAME - 1) / FRAME;
    assert excess <= frames * FRAME < excess + FRAME;
    assert frames * FRAME <= |q.bytes|;
  }

  /** The operation at `i` is a finish and no push follows it. */
  predicate FinishedAt(ops: seq<Op>, i: int) {
    0 <= i < |ops| && ops[i].FinishOp? && forall j :: i < j < |ops| ==> !ops[j].PushOp?
  }

  lemma FinishedStep(before: seq<Op>, last: Op, i: int)
    ensures FinishedAt(before + [last], i) <==> (if i == |before| then last.FinishOp? else FinishedAt(before, i) && !last.PushOp?)
  {
    var ops := before + [last];
    assert ops[|before|] == last && forall j :: 0 <= j < |before| ==> ops[j] == before[j];
  }

  /** Finished is exactly "a finish came after the last push", so padding never precedes it. */
  lemma {:induction false} FinishedMeans(ops: seq<Op>)
    ensures Run(ops).queue.finished <==> exists i :: FinishedAt(ops, i)
  {
    if ops != [] {
      var before, last := ops[..|ops| - 1], ops[|ops| - 1];
      assert ops == before + [last];
      FinishedMeans(before);
      forall i ensures FinishedAt(ops, i) <==> (if i == |before| then last.FinishOp? else FinishedAt(before, i) && !last.PushOp?) {
        FinishedStep(before, last, i);
      }
      if last.FinishOp? {
        assert FinishedAt(ops, |before|);
      } else if !last.PushOp? {
        FinishedKept(Run(before), last);
        assert forall i :: FinishedAt(ops, i) <==> FinishedAt(before, i);
      }
    }
  }

  lemma FinishedKept(h: History, op: Op)
    requires !op.PushOp? && !op.FinishOp?
    ensures Apply(h, op).queue.finished == h.queue.finished
  {
  }
}
