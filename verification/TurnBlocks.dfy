/**
 Utterances by position: which stretches of the caller's frames the turn detector
 emits, said without its state.
 */
module TurnBlocks {
  import opened Common
  import opened TurnDetector

  /** Nothing before input `b` belongs to a later utterance: the start, a suppressed input, or
      the end of a stretch of speech followed by `silence` quiet frames. */
  predicate BoundaryAt(c: Config, inputs: seq<Input>, b: nat) {
    b <= |inputs| && BoundaryHere(c, inputs[..b])
  }

  predicate EndsAt(c: Config, inputs: seq<Input>, e: nat) {
    e <= |inputs| && EndsHere(c, inputs[..e])
  }

  /** From boundary `p`, quiet frames up to the first speech frame `f`, then speech and shorter
      silences, up to `e`, with no boundary on the way. */
  ghost predicate Stretch(c: Config, inputs: seq<Input>, p: nat, f: nat, e: nat) {
    && p <= f < e <= |inputs| && BoundaryAt(c, inputs, p)
    && (forall k: nat :: p < k < e ==> !BoundaryAt(c, inputs, k))
    && (forall k :: p <= k < f ==> !IsSpeech(c, inputs[k]))
    && IsSpeech(c, inputs[f])
  }

  function StartOf(p: nat, f: nat): nat {
    if p + PRE_ROLL <= f then f - PRE_ROLL else p
  }

  /** An utterance `[s, e)`: a stretch that ends in exactly `silence` quiet frames, with at most
      thirteen frames before its first speech frame and enough speech. */
  ghost predicate IsUtterance(c: Config, inputs: seq<Input>, s: nat, e: nat) {
    exists p: nat, f: nat :: UtteranceFrom(c, inputs, p, f, e) && s == StartOf(p, f)
  }

  ghost predicate UtteranceFrom(c: Config, inputs: seq<Input>, p: nat, f: nat, e: nat) {
    Stretch(c, inputs, p, f, e) && EndsAt(c, inputs, e) && SpeechCount(c, inputs[p..e]) >= c.minimum
  }

  /** The positions the detector emits, in order. */
  function Blocks(c: Config, inputs: seq<Input>): seq<(nat, nat)> {
    if inputs == [] then []
    else
      Blocks(c, inputs[..|inputs| - 1])
      + if UtteranceEnds(c, inputs) then [(Less(|inputs|, |Trim(c, ClosedRun(c, inputs))|), |inputs|)] else []
  }

  lemma BoundaryOfPrefix(c: Config, inputs: seq<Input>, n: nat, k: nat)
    requires k <= n <= |inputs|
    ensures BoundaryAt(c, inputs[..n], k) <==> BoundaryAt(c, inputs, k)
  {
    assert inputs[..n][..k] == inputs[..k];
  }

  lemma {:induction false} OpenFrom(c: Config, inputs: seq<Input>) returns (p: nat)
    ensures p <= |inputs| && Open(c, inputs) == inputs[p..] && BoundaryAt(c, inputs, p)
    ensures forall k: nat :: p < k <= |inputs| ==> !BoundaryAt(c, inputs, k)
  {
    assert inputs[..|inputs|] == inputs;
    if BoundaryHere(c, inputs) {
      p := |inputs|;
    } else {
      var init := inputs[..|inputs| - 1];
      p := OpenFrom(c, init);
      forall k: nat | k <= |init| ensures BoundaryAt(c, init, k) <==> BoundaryAt(c, inputs, k) {
        BoundaryOfPrefix(c, inputs, |init|, k);
      }
    }
  }

  lemma {:induction false} FirstSpeechIs(c: Config, run: seq<Input>)
    ensures var f := FirstSpeech(c, run);
            (forall k :: 0 <= k < f ==> !IsSpeech(c, run[k])) && (f < |run| ==> IsSpeech(c, run[f]))
  {
    if run != [] {
      FirstSpeechIs(c, run[..|run| - 1]);
    }
  }

  lemma FirstSpeechAt(c: Config, run: seq<Input>, f: nat)
    requires f < |run| && IsSpeech(c, run[f]) && forall k :: 0 <= k < f ==> !IsSpeech(c, run[k])
    ensures FirstSpeech(c, run) == f
  {
    FirstSpeechIs(c, run);
  }

  /** The run closed at `e` goes back to the boundary before it. */
  lemma ClosedFrom(c: Config, inputs: seq<Input>, e: nat) returns (p: nat)
    requires 0 < e <= |inputs|
    ensures p < e && ClosedRun(c, inputs[..e]) == inputs[p..e] && BoundaryAt(c, inputs, p)
    ensures forall k: nat :: p < k < e ==> !BoundaryAt(c, inputs, k)
  {
    assert inputs[..e][..e - 1] == inputs[..e - 1];
    p := OpenFrom(c, inputs[..e - 1]);
    forall k: nat | k <= e - 1 ensures BoundaryAt(c, inputs[..e - 1], k) <==> BoundaryAt(c, inputs, k) {
      BoundaryOfPrefix(c, inputs, e - 1, k);
    }
    assert inputs[..e - 1][p..] + [inputs[e - 1]] == inputs[p..e];
  }

  lemma TrimmedRun(c: Config, inputs: seq<Input>, p: nat, f: nat, e: nat)
    requires p <= f < e <= |inputs| && FirstSpeech(c, inputs[p..e]) == f - p
    ensures Trim(c, inputs[p..e]) == inputs[StartOf(p, f)..e]
  {
  }

  /** A run that ends in silence after speech has speech in it. */
  lemma ClosedRunHasSpeech(c: Config, inputs: seq<Input>, p: nat, e: nat)
    requires c.silence > 0 && p < e && EndsAt(c, inputs, e) && BoundaryAt(c, inputs, p)
    requires forall k: nat :: p < k < e ==> !BoundaryAt(c, inputs, k)
    ensures FirstSpeech(c, inputs[p..e]) < e - p
  {
    var j := e - 1 - c.silence;
    assert inputs[..e][j] == inputs[j];
    FirstSpeechIs(c, inputs[p..e]);
    if p <= j {
      assert inputs[p..e][j - p] == inputs[j];
    } else {
      SpeechNotCutOff(c, inputs, p, e);
    }
  }

  /** No boundary falls between the last speech frame and the end of its silence. */
  lemma SpeechNotCutOff(c: Config, inputs: seq<Input>, p: nat, e: nat)
    requires c.silence > 0 && EndsAt(c, inputs, e) && e - 1 - c.silence < p < e
    ensures !BoundaryAt(c, inputs, p)
  {
    var j := e - 1 - c.silence;
    var upTo := inputs[..p];
    assert forall k :: 0 <= k < p ==> upTo[k] == inputs[..e][k];
    SpeechIsOpen(c, upTo, j);
  }

  lemma EmittedFrom(c: Config, inputs: seq<Input>, e: nat) returns (p: nat, f: nat)
    requires c.silence > 0 && 0 < e <= |inputs| && UtteranceEnds(c, inputs[..e])
    ensures UtteranceFrom(c, inputs, p, f, e) && Trim(c, ClosedRun(c, inputs[..e])) == inputs[StartOf(p, f)..e]
  {
    p, f := ClosedStretch(c, inputs, e);
    TrimmedRun(c, inputs, p, f, e);
  }

  lemma ClosedStretch(c: Config, inputs: seq<Input>, e: nat) returns (p: nat, f: nat)
    requires c.silence > 0 && 0 < e <= |inputs| && EndsHere(c, inputs[..e])
    ensures Stretch(c, inputs, p, f, e) && FirstSpeech(c, inputs[p..e]) == f - p
    ensures ClosedRun(c, inputs[..e]) == inputs[p..e]
  {
    p := ClosedFrom(c, inputs, e);
    ClosedRunHasSpeech(c, inputs, p, e);
    f := p + FirstSpeech(c, inputs[p..e]);
    ClosedIsStretch(c, inputs, p, e);
  }

  lemma ClosedIsStretch(c: Config, inputs: seq<Input>, p: nat, e: nat)
    requires p < e <= |inputs| && BoundaryAt(c, inputs, p) && FirstSpeech(c, inputs[p..e]) < e - p
    requires forall k: nat :: p < k < e ==> !BoundaryAt(c, inputs, k)
    ensures Stretch(c, inputs, p, p + FirstSpeech(c, inputs[p..e]), e)
  {
    var run := inputs[p..e];
    FirstSpeechIs(c, run);
    assert forall k :: p <= k < e ==> inputs[k] == run[k - p];
  }

  /** What the detector emits at `e` is an utterance. */
  lemma EmittedIsUtterance(c: Config, inputs: seq<Input>, e: nat)
    requires c.silence > 0 && 0 < e <= |inputs| && UtteranceEnds(c, inputs[..e])
    ensures var s := Less(e, |Trim(c, ClosedRun(c, inputs[..e]))|);
            IsUtterance(c, inputs, s, e) && Trim(c, ClosedRun(c, inputs[..e])) == inputs[s..e]
  {
    var p, f := EmittedFrom(c, inputs, e);
  }

  lemma StretchStarts(c: Config, inputs: seq<Input>, p: nat, f: nat, e: nat, q: nat)
    requires Stretch(c, inputs, p, f, e) && BoundaryAt(c, inputs, q) && q < e
    requires forall k: nat :: q < k < e ==> !BoundaryAt(c, inputs, k)
    ensures p == q
  {
  }

  /** Every utterance is emitted at its end. */
  lemma UtteranceIsEmitted(c: Config, inputs: seq<Input>, p: nat, f: nat, e: nat)
    requires UtteranceFrom(c, inputs, p, f, e)
    ensures 0 < e <= |inputs| && UtteranceEnds(c, inputs[..e])
    ensures StartOf(p, f) == Less(e, |Trim(c, ClosedRun(c, inputs[..e]))|)
  {
    var q := ClosedFrom(c, inputs, e);
    StretchStarts(c, inputs, p, f, e, q);
    FirstSpeechOfStretch(c, inputs, p, f, e);
    TrimmedRun(c, inputs, p, f, e);
  }

  lemma FirstSpeechOfStretch(c: Config, inputs: seq<Input>, p: nat, f: nat, e: nat)
    requires Stretch(c, inputs, p, f, e)
    ensures FirstSpeech(c, inputs[p..e]) == f - p
  {
    var run := inputs[p..e];
    assert forall k :: 0 <= k < |run| ==> run[k] == inputs[p + k];
    FirstSpeechAt(c, run, f - p);
  }

  lemma {:induction false} BlockAt(c: Config, inputs: seq<Input>, n: nat, b: (nat, nat))
    requires n <= |inputs|
    ensures b in Blocks(c, inputs[..n])
       <==> && 0 < b.1 <= n && UtteranceEnds(c, inputs[..b.1])
            && b.0 == Less(b.1, |Trim(c, ClosedRun(c, inputs[..b.1]))|)
  {
    if n > 0 {
      BlockAt(c, inputs, n - 1, b);
      assert inputs[..n][..n - 1] == inputs[..n - 1];
    }
  }

  /** The detector emits exactly the utterances. */
  lemma EmitsExactlyUtterances(c: Config, inputs: seq<Input>, s: nat, e: nat)
    requires c.silence > 0
    ensures (s, e) in Blocks(c, inputs) <==> IsUtterance(c, inputs, s, e)
  {
    assert inputs[..|inputs|] == inputs;
    BlockAt(c, inputs, |inputs|, (s, e));
    if (s, e) in Blocks(c, inputs) {
      EmittedIsUtterance(c, inputs, e);
    }
    if IsUtterance(c, inputs, s, e) {
      var p: nat, f: nat :| UtteranceFrom(c, inputs, p, f, e) && s == StartOf(p, f);
      UtteranceIsEmitted(c, inputs, p, f, e);
    }
  }

  ghost predicate InOrder(blocks: seq<(nat, nat)>) {
    && (forall i :: 0 <= i < |blocks| ==> blocks[i].0 < blocks[i].1)
    && (forall i, j :: 0 <= i < j < |blocks| ==> blocks[i].1 <= blocks[j].0)
  }

  lemma LaterUtterance(c: Config, inputs: seq<Input>, s: nat, e: nat, d: nat)
    requires IsUtterance(c, inputs, s, e) && BoundaryAt(c, inputs, d) && d < e
    ensures d <= s < e
  {
    var p: nat, f: nat :| UtteranceFrom(c, inputs, p, f, e) && s == StartOf(p, f);
  }

  lemma UtteranceEndsAtBoundary(c: Config, inputs: seq<Input>, s: nat, e: nat)
    requires IsUtterance(c, inputs, s, e)
    ensures BoundaryAt(c, inputs, e)
  {
  }

  lemma {:induction false} BlocksEndEarlier(c: Config, inputs: seq<Input>)
    ensures forall b :: b in Blocks(c, inputs) ==> b.1 <= |inputs|
    ensures forall i, j :: 0 <= i < j < |Blocks(c, inputs)| ==> Blocks(c, inputs)[i].1 < Blocks(c, inputs)[j].1
  {
    if inputs != [] {
      var init := inputs[..|inputs| - 1];
      BlocksEndEarlier(c, init);
      forall i | 0 <= i < |Blocks(c, init)| ensures Blocks(c, init)[i].1 < |inputs| {
        assert Blocks(c, init)[i] in Blocks(c, init);
      }
    }
  }

  lemma BlocksApart(c: Config, inputs: seq<Input>, a: (nat, nat), b: (nat, nat))
    requires IsUtterance(c, inputs, a.0, a.1) && IsUtterance(c, inputs, b.0, b.1) && a.1 < b.1
    ensures a.1 <= b.0
  {
    UtteranceEndsAtBoundary(c, inputs, a.0, a.1);
    LaterUtterance(c, inputs, b.0, b.1, a.1);
  }

  /** Emitted utterances are non-empty, ordered and disjoint stretches of the input. */
  lemma BlocksInOrder(c: Config, inputs: seq<Input>)
    requires c.silence > 0
    ensures InOrder(Blocks(c, inputs))
  {
    var blocks := Blocks(c, inputs);
    BlocksEndEarlier(c, inputs);
    forall i | 0 <= i < |blocks| ensures blocks[i].0 < blocks[i].1 {
      UtteranceHere(c, inputs, i);
      assert BoundaryAt(c, inputs, 0);
      LaterUtterance(c, inputs, blocks[i].0, blocks[i].1, 0);
    }
    forall i, j | 0 <= i < j < |blocks| ensures blocks[i].1 <= blocks[j].0 {
      UtteranceHere(c, inputs, i);
      UtteranceHere(c, inputs, j);
      BlocksApart(c, inputs, blocks[i], blocks[j]);
    }
  }

  lemma UtteranceHere(c: Config, inputs: seq<Input>, i: nat)
    requires c.silence > 0 && i < |Blocks(c, inputs)|
    ensures IsUtterance(c, inputs, Blocks(c, inputs)[i].0, Blocks(c, inputs)[i].1)
  {
    var b := Blocks(c, inputs)[i];
    assert b in Blocks(c, inputs);
    EmitsExactlyUtterances(c, inputs, b.0, b.1);
  }

  /** Every block lies within the first `n` inputs. */
  ghost predicate Within(blocks: seq<(nat, nat)>, n: nat) {
    forall b :: b in blocks ==> b.0 <= b.1 <= n
  }

  ghost function Slices(inputs: seq<Input>, blocks: seq<(nat, nat)>): seq<seq<Input>>
    requires Within(blocks, |inputs|)
  {
    seq(|blocks|, i requires 0 <= i < |blocks| => inputs[blocks[i].0..blocks[i].1])
  }

  lemma SlicesOfPrefix(inputs: seq<Input>, n: nat, blocks: seq<(nat, nat)>)
    requires n <= |inputs| && Within(blocks, n)
    ensures Slices(inputs[..n], blocks) == Slices(inputs, blocks)
  {
    forall i | 0 <= i < |blocks|
      ensures inputs[..n][blocks[i].0..blocks[i].1] == inputs[blocks[i].0..blocks[i].1]
    {
      assert blocks[i] in blocks;
    }
  }

  lemma EmittedSlice(inputs: seq<Input>, run: seq<Input>, from: nat)
    requires from <= |run| <= |inputs| && run == inputs[|inputs| - |run|..]
    ensures run[from..] == inputs[|inputs| - |run[from..]|..|inputs|]
  {
  }

  lemma ClosedIsTail(c: Config, inputs: seq<Input>)
    requires inputs != []
    ensures var run := ClosedRun(c, inputs); |run| <= |inputs| && run == inputs[|inputs| - |run|..]
  {
    var p := ClosedFrom(c, inputs, |inputs|);
    assert inputs[..|inputs|] == inputs && inputs[p..|inputs|] == inputs[p..];
  }

  lemma SlicesAppend(inputs: seq<Input>, blocks: seq<(nat, nat)>, b: (nat, nat))
    requires Within(blocks, |inputs|) && b.0 <= b.1 <= |inputs|
    ensures Slices(inputs, blocks + [b]) == Slices(inputs, blocks) + [inputs[b.0..b.1]]
  {
  }

  lemma {:induction false} BlocksWithin(c: Config, inputs: seq<Input>)
    ensures Within(Blocks(c, inputs), |inputs|)
  {
    if inputs != [] {
      BlocksWithin(c, inputs[..|inputs| - 1]);
    }
  }

  lemma LastSlice(c: Config, inputs: seq<Input>, s: nat)
    requires inputs != [] && s == Less(|inputs|, |Trim(c, ClosedRun(c, inputs))|)
    ensures s <= |inputs| && Trim(c, ClosedRun(c, inputs)) == inputs[s..|inputs|]
  {
    ClosedIsTail(c, inputs);
    EmittedSlice(inputs, ClosedRun(c, inputs), Less(FirstSpeech(c, ClosedRun(c, inputs)), PRE_ROLL));
  }

  lemma SlicesNext(c: Config, inputs: seq<Input>, init: seq<Input>, before: seq<(nat, nat)>)
    requires inputs != [] && init == inputs[..|inputs| - 1] && before == Blocks(c, init) && Within(before, |init|)
    requires Utterances(c, init) == Slices(inputs, before) && Within(Blocks(c, inputs), |inputs|)
    ensures Utterances(c, inputs) == Slices(inputs, Blocks(c, inputs))
  {
    if UtteranceEnds(c, inputs) {
      var s := Less(|inputs|, |Trim(c, ClosedRun(c, inputs))|);
      LastSlice(c, inputs, s);
      SlicesAppend(inputs, before, (s, |inputs|));
    } else {
      assert Blocks(c, inputs) == before + [];
    }
  }

  /** The audio emitted is the input at those positions. */
  lemma {:induction false} UtterancesAreSlices(c: Config, inputs: seq<Input>)
    ensures Within(Blocks(c, inputs), |inputs|) && Utterances(c, inputs) == Slices(inputs, Blocks(c, inputs))
  {
    BlocksWithin(c, inputs);
    if inputs != [] {
      var init := inputs[..|inputs| - 1];
      UtterancesAreSlices(c, init);
      SlicesOfPrefix(inputs, |init|, Blocks(c, init));
      SlicesNext(c, inputs, init, Blocks(c, init));
    }
  }

  /** The stretch still open at the end of the stream. */
  ghost predicate OpenStretch(c: Config, inputs: seq<Input>, p: nat, f: nat) {
    Stretch(c, inputs, p, f, |inputs|) && !BoundaryAt(c, inputs, |inputs|) && SpeechCount(c, inputs[p..]) >= c.minimum
  }

  lemma OpenStretchIsLast(c: Config, inputs: seq<Input>, p: nat, f: nat)
    requires OpenStretch(c, inputs, p, f)
    ensures LastUtterance(c, inputs) == [inputs[StartOf(p, f)..]]
  {
    OpenStretchIsOpen(c, inputs, p, f);
    FirstSpeechOfStretch(c, inputs, p, f, |inputs|);
    WholeTail(inputs, p);
    WholeTail(inputs, StartOf(p, f));
    TrimmedRun(c, inputs, p, f, |inputs|);
  }

  lemma WholeTail(inputs: seq<Input>, p: nat)
    requires p <= |inputs|
    ensures inputs[p..|inputs|] == inputs[p..]
  {
  }

  lemma OpenStretchIsOpen(c: Config, inputs: seq<Input>, p: nat, f: nat)
    requires OpenStretch(c, inputs, p, f)
    ensures Open(c, inputs) == inputs[p..]
  {
    var q := OpenFrom(c, inputs);
    assert q < |inputs|;
    StretchStarts(c, inputs, p, f, |inputs|, q);
  }

  /** At the end of the stream the open stretch is emitted exactly when it has enough speech. */
  lemma LastUtteranceIsOpen(c: Config, inputs: seq<Input>)
    ensures forall p: nat, f: nat :: OpenStretch(c, inputs, p, f) ==> LastUtterance(c, inputs) == [inputs[StartOf(p, f)..]]
    ensures LastUtterance(c, inputs) != [] ==> exists p: nat, f: nat :: OpenStretch(c, inputs, p, f)
  {
    forall p: nat, f: nat | OpenStretch(c, inputs, p, f)
      ensures LastUtterance(c, inputs) == [inputs[StartOf(p, f)..]]
    {
      OpenStretchIsLast(c, inputs, p, f);
    }
    if LastUtterance(c, inputs) != [] {
      LastIsOpenStretch(c, inputs);
    }
  }

  lemma LastIsOpenStretch(c: Config, inputs: seq<Input>)
    requires LastUtterance(c, inputs) != []
    ensures exists p: nat, f: nat :: OpenStretch(c, inputs, p, f)
  {
    var p := OpenFrom(c, inputs);
    var run := inputs[p..];
    FirstSpeechIs(c, run);
    assert forall k :: p <= k < |inputs| ==> inputs[k] == run[k - p];
    assert OpenStretch(c, inputs, p, p + FirstSpeech(c, run));
  }
}
