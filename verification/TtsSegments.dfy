/** How long the segments are, and where sentences end in them. */
module TtsSegments {
  import opened Common
  import opened Whitespace
  import opened TtsText

  lemma {:induction false} BytesAppend(a: string, b: string)
    ensures Bytes(a + b) == Bytes(a) + Bytes(b)
    decreases |b|
  {
    if b == [] {
      assert a + b == a;
    } else {
      assert (a + b)[..|a + b| - 1] == a + b[..|b| - 1];
      BytesAppend(a, b[..|b| - 1]);
    }
  }

  lemma {:induction false} BytesAtLeast(s: string)
    ensures Bytes(s) >= |s|
    decreases |s|
  {
    if s != [] {
      BytesAtLeast(s[..|s| - 1]);
    }
  }

  function Power2(n: nat): nat {
    if n == 0 then 1 else 2 * Power2(n - 1)
  }

  lemma {:induction false} Power2Adds(a: nat, b: nat)
    ensures Power2(a + b) == Power2(a) * Power2(b)
    decreases b
  {
    if b > 0 {
      Power2Adds(a, b - 1);
      assert Power2(a + b) == 2 * Power2(a + (b - 1));
    }
  }

  /** Bits that UTF-8 carries in w bytes: all but one of a single byte, otherwise 7 - w in the first and six in each other. */
  function Carried(w: nat): nat
    requires 1 <= w <= 4
  {
    if w == 1 then 7 else 7 - w + 6 * (w - 1)
  }

  /** A character takes the fewest bytes that carry it. */
  lemma WidthIsLeast(c: char)
    ensures c as int < Power2(Carried(Width(c)))
    ensures Width(c) > 1 ==> c as int >= Power2(Carried(Width(c) - 1))
  {
    assert Power2(5) == 32 && Power2(6) == 64 && Power2(7) == 128;
    Power2Adds(6, 5);
    Power2Adds(11, 5);
    Power2Adds(16, 5);
  }

  lemma BytesCut(s: string, n: nat)
    requires n <= |s|
    ensures Bytes(s) == Bytes(s[..n]) + Bytes(s[n..])
  {
    assert s == s[..n] + s[n..];
    BytesAppend(s[..n], s[n..]);
  }

  lemma BytesOfPart(s: string, a: nat, b: nat)
    requires a <= b <= |s|
    ensures Bytes(s[a..b]) + a + (|s| - b) <= Bytes(s)
  {
    BytesCut(s, b);
    BytesCut(s[..b], a);
    assert s[..b][a..] == s[a..b];
    BytesAtLeast(s[..b][..a]);
    BytesAtLeast(s[b..]);
  }

  predicate NoSpace(s: string) {
    forall i :: 0 <= i < |s| ==> s[i] != ' '
  }

  /** Within a number of bytes, or a single word. */
  predicate Within(s: string, limit: nat) {
    Bytes(s) <= limit || NoSpace(s)
  }

  predicate AllWithin(segments: seq<string>, limit: nat) {
    forall i :: 0 <= i < |segments| ==> Within(segments[i], limit)
  }

  lemma PartWithin(s: string, a: nat, b: nat, limit: nat)
    requires a <= b <= |s| && Within(s, limit)
    ensures Within(s[a..b], limit)
  {
    BytesOfPart(s, a, b);
  }

  lemma EmitWithin(segments: seq<string>, piece: string, limit: nat)
    requires AllWithin(segments, limit) && Within(piece, limit)
    ensures AllWithin(Emit(segments, piece), limit)
  {
    var a, b := TrimParts(piece);
    PartWithin(piece, a, b, limit);
  }

  /** What the current text is held to between characters, for characters of at most w bytes. */
  ghost predicate Held(k: Cutter, w: nat) {
    && AllWithin(k.segments, MAX_SEGMENT - 1 + w)
    && Within(k.current, MAX_SEGMENT - 2 + w)
    && (k.breakAt.Some? ==> Bytes(k.current) < MAX_SEGMENT && 0 < k.breakAt.value <= |k.current|)
  }

  lemma CutHeld(k: Cutter, current: string, at: nat, w: nat)
    requires AllWithin(k.segments, MAX_SEGMENT - 1 + w) && at <= |current|
    requires Within(current[..at], MAX_SEGMENT - 1 + w) && Within(TrimStart(current[at..]), MAX_SEGMENT - 2 + w)
    ensures Held(CutAt(k, current, at), w)
  {
    EmitWithin(k.segments, current[..at], MAX_SEGMENT - 1 + w);
  }

  lemma TrimStartWithin(s: string, limit: nat)
    requires Within(s, limit)
    ensures Within(TrimStart(s), limit)
  {
    var n := TrimStartParts(s);
    PartWithin(s, n, |s|, limit);
    assert s[n..|s|] == s[n..];
  }

  /** A mark or a comma is one byte, and is no space. */
  lemma PushedWithin(current: string, c: char, w: nat)
    requires w >= 1 && Within(current, MAX_SEGMENT - 2 + w) && (IsSentenceMark(c) || c == ',')
    ensures Within(current + [c], MAX_SEGMENT - 1 + w)
  {
    BytesPushed(current, c);
  }

  lemma BytesPushed(current: string, c: char)
    ensures Bytes(current + [c]) == Bytes(current) + Width(c)
  {
    assert (current + [c])[..|current|] == current;
  }

  lemma BytesOfCut(s: string, at: nat)
    requires at <= |s|
    ensures Bytes(s[..at]) <= Bytes(s) && Bytes(s[at..]) + at <= Bytes(s)
  {
    BytesCut(s, at);
    BytesAtLeast(s[..at]);
  }

  /** A break seen earlier: what is cut off and what stays. */
  lemma CutAtBreak(k: Cutter, c: char, w: nat)
    requires 1 <= w && Held(k, w) && Width(c) <= w && k.breakAt.Some?
    ensures Held(CutAt(k, k.current + [c], k.breakAt.value), w)
  {
    var current, at := k.current + [c], k.breakAt.value;
    BytesPushed(k.current, c);
    BytesOfCut(current, at);
    TrimStartWithin(current[at..], MAX_SEGMENT - 2 + w);
    CutHeld(k, current, at, w);
  }

  lemma {:induction false} LastSpaceIsLast(s: string)
    ensures NoSpace(s[AfterLastSpace(s)..])
    decreases |s|
  {
    if s != [] && s[|s| - 1] != ' ' {
      var init := s[..|s| - 1];
      LastSpaceIsLast(init);
      assert s[AfterLastSpace(s)..] == init[AfterLastSpace(init)..] + [s[|s| - 1]];
    }
  }

  lemma CutAtSpace(k: Cutter, c: char, w: nat)
    requires 1 <= w && Held(k, w) && AfterLastSpace(k.current + [c]) > 0
    ensures Held(CutAt(k, k.current + [c], AfterLastSpace(k.current + [c]) - 1), w)
  {
    var current := k.current + [c];
    var at := AfterLastSpace(current) - 1;
    PartWithin(k.current, 0, at, MAX_SEGMENT - 2 + w);
    assert current[..at] == k.current[0..at];
    LastSpaceIsLast(current);
    var tail := current[at..];
    assert tail[1..] == current[at + 1..] && IsWhitespace(tail[0]);
    TrimStartWithin(tail[1..], MAX_SEGMENT - 2 + w);
    CutHeld(k, current, at, w);
  }

  lemma StepHeld(k: Cutter, c: char, w: nat)
    requires 1 <= w && Held(k, w) && Width(c) <= w
    ensures Held(Step(k, c), w)
  {
    var current := k.current + [c];
    assert current[..|k.current|] == k.current;
    if IsSentenceMark(c) && Bytes(current) >= MIN_SENTENCE {
      PushedWithin(k.current, c, w);
      EmitWithin(k.segments, current, MAX_SEGMENT - 1 + w);
    } else if Bytes(current) >= MAX_SEGMENT {
      if MayBreak(current, c) {
        PushedWithin(k.current, c, w);
        assert current[..|current|] == current && current[|current|..] == "";
        CutHeld(k, current, |current|, w);
      } else if k.breakAt.Some? {
        CutAtBreak(k, c, w);
      } else if AfterLastSpace(current) > 0 {
        CutAtSpace(k, c, w);
      } else {
        LastSpaceIsLast(current);
        assert current[0..] == current;
      }
    }
  }

  predicate Narrow(s: string, w: nat) {
    forall i :: 0 <= i < |s| ==> Width(s[i]) <= w
  }

  lemma {:induction false} RunHeld(text: string, w: nat)
    requires 1 <= w && Narrow(text, w)
    ensures Held(Run(text), w)
    decreases |text|
  {
    if text != [] {
      RunHeld(text[..|text| - 1], w);
      StepHeld(Run(text[..|text| - 1]), text[|text| - 1], w);
    }
  }

  lemma {:induction false} VisibleMembers(s: string, c: char)
    ensures c in Visible(s) <==> c in s && !IsWhitespace(c)
    decreases |s|
  {
    if s != [] {
      VisibleMembers(s[..|s| - 1], c);
      assert s == s[..|s| - 1] + [s[|s| - 1]];
    }
  }

  lemma NormalizeNarrow(text: string, w: nat)
    requires 1 <= w && Narrow(text, w)
    ensures Narrow(Normalize(text), w)
  {
    var normal := Normalize(text);
    NormalText(text);
    forall i | 0 <= i < |normal| ensures Width(normal[i]) <= w {
      if !IsWhitespace(normal[i]) {
        VisibleMembers(normal, normal[i]);
        VisibleMembers(text, normal[i]);
      }
    }
  }

  /** Text of characters up to w bytes is spoken in segments of at most 71 + w bytes (72 for ASCII), or single words. */
  lemma SegmentsFit(text: string, w: nat)
    requires 1 <= w && Narrow(text, w)
    ensures AllWithin(SplitTtsText(text, true), MAX_SEGMENT - 1 + w)
  {
    var normal := Normalize(text);
    NormalText(text);
    if normal != "" {
      NormalizeNarrow(text, w);
      RunHeld(normal, w);
      EmitWithin(Run(normal).segments, Run(normal).current, MAX_SEGMENT - 1 + w);
      SegmentsCoverText(text);
      SomethingEmitted(text);
    }
  }

  lemma SomethingEmitted(text: string)
    requires Normalize(text) != ""
    ensures SplitTtsText(text, true) == Emit(Run(Normalize(text)).segments, Run(Normalize(text)).current)
  {
    NormalText(text);
    var normal := Normalize(text);
    var k := Run(normal);
    var done := RunAccounts(normal);
    EmitSpaced(k.segments, done, k.current);
    assert Spaced(Emit(k.segments, k.current), normal) && !IsWhitespace(normal[0]);
  }

  // ---------------------------------------------------------- sentence ends

  /** No sentence mark among the first n characters reaches the length at which a sentence is cut. */
  predicate Early(s: string, n: nat)
    requires n <= |s|
  {
    forall j :: 0 <= j < n && IsSentenceMark(s[j]) ==> Bytes(s[..j + 1]) < MIN_SENTENCE
  }

  lemma PartEarly(s: string, n: nat, a: nat, b: nat, m: nat)
    requires n <= |s| && a <= b <= |s| && m <= b - a && a + m <= n && Early(s, n)
    ensures Early(s[a..b], m)
  {
    var t := s[a..b];
    forall j | 0 <= j < m && IsSentenceMark(t[j]) ensures Bytes(t[..j + 1]) < MIN_SENTENCE {
      assert t[j] == s[a + j];
      var head := s[..a + j + 1];
      BytesOfPart(head, a, a + j + 1);
      assert t[..j + 1] == head[a..a + j + 1];
    }
  }

  /** A sentence mark past the threshold can only be a segment's last character. */
  predicate MarksEndSegments(segments: seq<string>) {
    forall i :: 0 <= i < |segments| && segments[i] != "" ==> Early(segments[i], |segments[i]| - 1)
  }

  lemma EmitEarly(segments: seq<string>, piece: string)
    requires MarksEndSegments(segments) && (piece != "" ==> Early(piece, |piece| - 1))
    ensures MarksEndSegments(Emit(segments, piece))
  {
    var a, b := TrimParts(piece);
    if Trim(piece) != "" {
      PartEarly(piece, |piece| - 1, a, b, b - a - 1);
    }
  }

  ghost predicate Prompt(k: Cutter) {
    MarksEndSegments(k.segments) && Early(k.current, |k.current|)
  }

  lemma HeadEarly(s: string, at: nat)
    requires Early(s, |s|) && 0 < at <= |s|
    ensures Early(s[..at], at - 1)
  {
    PartEarly(s, |s|, 0, at, at - 1);
    assert s[0..at] == s[..at];
  }

  lemma TailEarly(s: string, at: nat)
    requires Early(s, |s|) && at <= |s|
    ensures Early(TrimStart(s[at..]), |TrimStart(s[at..])|)
  {
    var tail := s[at..];
    var n := TrimStartParts(tail);
    PartEarly(s, |s|, at + n, |s|, |s| - at - n);
    assert s[at + n..|s|] == tail[n..];
  }

  lemma CutPrompt(k: Cutter, current: string, at: nat)
    requires MarksEndSegments(k.segments) && Early(current, |current|) && at <= |current|
    ensures Prompt(CutAt(k, current, at))
  {
    if at > 0 {
      HeadEarly(current, at);
    }
    EmitEarly(k.segments, current[..at]);
    TailEarly(current, at);
  }

  lemma PushEarly(current: string, c: char)
    requires Early(current, |current|)
    ensures Early(current + [c], |current|)
    ensures !IsSentenceMark(c) || Bytes(current + [c]) < MIN_SENTENCE ==> Early(current + [c], |current| + 1)
  {
    var all := current + [c];
    assert all[..|all|] == all;
    forall j | 0 <= j < |current| ensures all[j] == current[j] && all[..j + 1] == current[..j + 1] {
    }
  }

  lemma StepPrompt(k: Cutter, c: char)
    requires Prompt(k) && (k.breakAt.Some? ==> k.breakAt.value <= |k.current|)
    ensures Prompt(Step(k, c))
  {
    var current := k.current + [c];
    PushEarly(k.current, c);
    if IsSentenceMark(c) && Bytes(current) >= MIN_SENTENCE {
      EmitEarly(k.segments, current);
    } else if Bytes(current) >= MAX_SEGMENT {
      if MayBreak(current, c) {
        CutPrompt(k, current, |current|);
      } else if k.breakAt.Some? {
        CutPrompt(k, current, k.breakAt.value);
      } else if AfterLastSpace(current) > 0 {
        CutPrompt(k, current, AfterLastSpace(current) - 1);
      }
    }
  }

  lemma {:induction false} RunPrompt(text: string)
    ensures Prompt(Run(text))
    decreases |text|
  {
    if text != [] {
      RunPrompt(text[..|text| - 1]);
      StepPrompt(Run(text[..|text| - 1]), text[|text| - 1]);
    }
  }

  /** No segment runs on past the end of a sentence of 24 bytes or more. */
  lemma SentencesEndSegments(text: string)
    ensures MarksEndSegments(SplitTtsText(text, true))
  {
    var normal := Normalize(text);
    if normal != "" {
      var k := Run(normal);
      RunPrompt(normal);
      SomethingEmitted(text);
      EmitEarly(k.segments, k.current);
    }
  }
}
