/**
 Where the local speech engine's segments end, said of the text itself: a reference that searches the text for
 the next end and cuts there, which the character loop computes.
 */
module TtsCuts {
  import opened Common
  import opened TtsText
  import opened TtsSegments

  // ------------------------------------------------------------------ the reference

  predicate EndsSentence(p: string) {
    p != [] && p[|p| - 1] in ".!?;:"
  }

  /** A long text may be cut after a sentence mark, and after a comma from 48 bytes on. */
  predicate Breaks(p: string) {
    EndsSentence(p) || (p != [] && p[|p| - 1] == ',' && Bytes(p) >= 48)
  }

  /** The last place to cut, or 0. */
  function LastBreak(p: string): (n: nat)
    ensures n <= |p|
  {
    if p == [] then 0 else if Breaks(p) then |p| else LastBreak(p[..|p| - 1])
  }

  /** A sentence of 24 bytes ends here, or 72 bytes are reached and there is a place to cut. */
  predicate EndsHere(p: string) {
    || (EndsSentence(p) && Bytes(p) >= 24)
    || (Bytes(p) >= 72 && (LastBreak(p) > 0 || AfterLastSpace(p) > 0))
  }

  /** A sentence is cut at its end, a long text at its last place to cut, or else before its last space. */
  function CutPoint(p: string): (at: nat)
    requires EndsHere(p)
    ensures at <= |p|
  {
    if EndsSentence(p) then |p| else if LastBreak(p) > 0 then LastBreak(p) else AfterLastSpace(p) - 1
  }

  /** The first end past a position, or 0. */
  function NextEnd(t: string, from: nat): (end: nat)
    requires from <= |t|
    ensures end > 0 ==> from < end <= |t| && EndsHere(t[..end])
    decreases |t| - from
  {
    if from == |t| then 0 else if EndsHere(t[..from + 1]) then from + 1 else NextEnd(t, from + 1)
  }

  function Tidied(piece: string): seq<string> {
    if Trim(piece) == "" then [] else [Trim(piece)]
  }

  /** The pieces of a text whose first `from` characters were already carried past an end. */
  function Pieces(t: string, from: nat): seq<string>
    requires from <= |t|
    decreases |t| - from
  {
    var end := NextEnd(t, from);
    if end == 0 then Tidied(t)
    else
      var at := CutPoint(t[..end]);
      var carried := TrimStart(t[at..end]);
      Tidied(t[..at]) + Pieces(carried + t[end..], |carried|)
  }

  // --------------------------------------------------------- the loop computes it

  lemma MarksAgree(p: string, c: char)
    ensures EndsSentence(p + [c]) == IsSentenceMark(c)
    ensures Breaks(p + [c]) == MayBreak(p + [c], c)
  {
    assert (p + [c])[|p|] == c;
  }

  lemma {:induction false} LastBreakIsLast(p: string, j: nat)
    requires LastBreak(p) < j <= |p|
    ensures !Breaks(p[..j])
    decreases |p|
  {
    if j == |p| {
      assert p[..j] == p;
    } else {
      var init := p[..|p| - 1];
      LastBreakIsLast(init, j);
      assert init[..j] == p[..j];
    }
  }

  /** What broke nowhere in a text breaks nowhere in its end, where fewer bytes come before. */
  lemma {:induction false} NoBreakInTail(p: string, a: nat, b: nat)
    requires LastBreak(p) <= a <= b <= |p|
    ensures LastBreak(p[a..b]) == 0
    decreases b
  {
    var s := p[a..b];
    if s != [] {
      NoBreakInTail(p, a, b - 1);
      assert s[..|s| - 1] == p[a..b - 1];
      LastBreakIsLast(p, b);
      var head := p[..b];
      BytesOfPart(head, a, b);
      assert head[a..b] == s && head[|head| - 1] == s[|s| - 1];
    }
  }

  /** After a cut nothing that is carried on is a place to cut. */
  lemma CarriedHasNoBreak(p: string)
    requires EndsHere(p)
    ensures LastBreak(TrimStart(p[CutPoint(p)..])) == 0
  {
    var at := CutPoint(p);
    var tail := p[at..];
    var n := TrimStartParts(tail);
    NoBreakInTail(p, at + n, |p|);
    assert tail[n..] == p[at + n..|p|];
  }

  /** The remembered place to cut is the last one. */
  predicate Remembers(k: Cutter) {
    k.breakAt == if LastBreak(k.current) > 0 then Some(LastBreak(k.current)) else None
  }

  lemma RemembersNext(k: Cutter, c: char)
    requires Remembers(k)
    ensures var p := k.current + [c];
            (if MayBreak(p, c) then Some(|p|) else k.breakAt) == if LastBreak(p) > 0 then Some(LastBreak(p)) else None
  {
    MarksAgree(k.current, c);
    assert (k.current + [c])[..|k.current|] == k.current;
  }

  lemma EmitIsTidied(segments: seq<string>, piece: string)
    ensures Emit(segments, piece) == segments + Tidied(piece)
  {
  }

  /** One character: the text goes on, or it ends here and is cut. */
  lemma StepMeans(k: Cutter, c: char)
    requires Remembers(k)
    ensures var p := k.current + [c];
            && Remembers(Step(k, c))
            && (if EndsHere(p) then
                  Step(k, c) == Cutter(k.segments + Tidied(p[..CutPoint(p)]), TrimStart(p[CutPoint(p)..]), None)
                else Step(k, c).segments == k.segments && Step(k, c).current == p)
  {
    var p := k.current + [c];
    MarksAgree(k.current, c);
    RemembersNext(k, c);
    assert p[..|p|] == p && p[|p|..] == [] && TrimStart([]) == [];
    if EndsHere(p) {
      CarriedHasNoBreak(p);
      EmitIsTidied(k.segments, p[..CutPoint(p)]);
    }
  }

  lemma RemembersStep(k: Cutter, c: char)
    requires Remembers(k)
    ensures Remembers(Step(k, c))
  {
    StepMeans(k, c);
  }

  lemma PiecesGoOn(p: string, rest: string)
    requires p != [] && !EndsHere(p)
    ensures Pieces(p + rest, |p| - 1) == Pieces(p + rest, |p|)
  {
    assert (p + rest)[..|p|] == p;
  }

  lemma PiecesCut(p: string, rest: string)
    requires p != [] && EndsHere(p)
    ensures var carried := TrimStart(p[CutPoint(p)..]);
            Pieces(p + rest, |p| - 1) == Tidied(p[..CutPoint(p)]) + Pieces(carried + rest, |carried|)
  {
    var t, at := p + rest, CutPoint(p);
    assert t[..|p|] == p && t[|p|..] == rest && t[at..|p|] == p[at..] && t[..at] == p[..at];
  }

  function Finished(k: Cutter): seq<string> {
    Emit(k.segments, k.current)
  }

  /** What is emitted and the pieces of what is left. */
  function Due(k: Cutter, rest: string): seq<string> {
    k.segments + Pieces(k.current + rest, |k.current|)
  }

  lemma DueNext(k: Cutter, c: char, rest: string)
    requires Remembers(k)
    ensures Due(Step(k, c), rest) == Due(k, [c] + rest)
  {
    var p, next := k.current + [c], Step(k, c);
    StepMeans(k, c);
    assert k.current + ([c] + rest) == p + rest;
    if EndsHere(p) {
      PiecesCut(p, rest);
      Joins(k.segments, Tidied(p[..CutPoint(p)]), Pieces(next.current + rest, |next.current|));
    } else {
      PiecesGoOn(p, rest);
    }
  }

  lemma DueAtEnd(k: Cutter)
    ensures Due(k, "") == Finished(k)
  {
    assert k.current + "" == k.current;
    EmitIsTidied(k.segments, k.current);
  }

  /** What is emitted and the pieces of what is left are the pieces of the text. */
  predicate OnCourse(k: Cutter, text: string, i: nat)
    requires i <= |text|
  {
    Remembers(k) && Due(k, text[i..]) == Pieces(text, 0)
  }

  lemma CourseKept(before: Cutter, after: Cutter, text: string, i: nat)
    requires i < |text| && OnCourse(before, text, i) && after == Step(before, text[i])
    ensures OnCourse(after, text, i + 1)
  {
    RemembersStep(before, text[i]);
    DueNext(before, text[i], text[i + 1..]);
    assert [text[i]] + text[i + 1..] == text[i..];
  }

  lemma CourseBegins(text: string)
    ensures OnCourse(Run(text[..0]), text, 0)
  {
    assert text[..0] == "" && text[0..] == text && "" + text == text;
  }

  lemma {:induction false} RunKeepsCourse(text: string, i: nat)
    requires i <= |text|
    ensures OnCourse(Run(text[..i]), text, i)
    decreases i
  {
    if i == 0 {
      CourseBegins(text);
    } else {
      RunKeepsCourse(text, i - 1);
      RunOneMore(text, i - 1);
      CourseKept(Run(text[..i - 1]), Run(text[..i]), text, i - 1);
    }
  }

  lemma Joins(a: seq<string>, b: seq<string>, c: seq<string>)
    ensures a + b + c == a + (b + c)
  {
  }

  /** A reply is spoken as the pieces of its normalised text; other engines get that text whole. */
  lemma SplitIsPieces(text: string)
    requires Visible(text) != ""
    ensures SplitTtsText(text, true) == Pieces(Normalize(text), 0)
    ensures SplitTtsText(text, false) == [Normalize(text)]
  {
    NormalText(text);
    var normal := Normalize(text);
    SomethingEmitted(text);
    RunKeepsCourse(normal, |normal|);
    assert normal[..|normal|] == normal && normal[|normal|..] == "";
    DueAtEnd(Run(normal));
  }
}
