/**
 Splitting a reply for the local speech engine: sentence ends, then commas, then
 words. Lengths are in UTF-8 bytes; positions are in characters.
 */
module TtsText {
  import opened Common
  import opened Text
  import opened Whitespace
  import opened WordList

  const MIN_SENTENCE: nat := 24
  const MIN_CLAUSE: nat := 48
  const MAX_SEGMENT: nat := 72

  /** Bytes of one character in UTF-8. */
  function Width(c: char): (w: nat)
    ensures 1 <= w <= 4
  {
    var u := c as int;
    if u < 0x80 then 1 else if u < 0x800 then 2 else if u < 0x1_0000 then 3 else 4
  }

  function Bytes(s: string): nat {
    if s == [] then 0 else Bytes(s[..|s| - 1]) + Width(s[|s| - 1])
  }

  predicate IsSentenceMark(c: char) {
    c == '.' || c == '!' || c == '?' || c == ';' || c == ':'
  }

  // ------------------------------------------------------------ white space

  /** Words of any white space, joined by single spaces. */
  function Normalize(text: string): string {
    Squeeze(IsWhitespace, text)
  }

  function TrimStart(s: string): (t: string)
    ensures |t| <= |s|
  {
    if s != [] && IsWhitespace(s[0]) then TrimStart(s[1..]) else s
  }

  function TrimEnd(s: string): (t: string)
    ensures |t| <= |s|
  {
    if s != [] && IsWhitespace(s[|s| - 1]) then TrimEnd(s[..|s| - 1]) else s
  }

  function Trim(s: string): string {
    TrimEnd(TrimStart(s))
  }

  // -------------------------------------------------------------- splitting

  datatype Cutter = Cutter(segments: seq<string>, current: string, breakAt: Option<nat>)

  function Emit(segments: seq<string>, piece: string): seq<string> {
    if Trim(piece) == "" then segments else segments + [Trim(piece)]
  }

  /** One past the last space before a position, or 0. */
  function AfterLastSpace(s: string): (n: nat)
    ensures n <= |s| && (n > 0 ==> s[n - 1] == ' ')
  {
    if s == [] then 0 else if s[|s| - 1] == ' ' then |s| else AfterLastSpace(s[..|s| - 1])
  }

  function CutAt(k: Cutter, current: string, at: nat): Cutter
    requires at <= |current|
  {
    Cutter(Emit(k.segments, current[..at]), TrimStart(current[at..]), None)
  }

  predicate MayBreak(current: string, c: char) {
    IsSentenceMark(c) || (c == ',' && Bytes(current) >= MIN_CLAUSE)
  }

  function Step(k: Cutter, c: char): Cutter
    requires k.breakAt.Some? ==> k.breakAt.value <= |k.current|
  {
    var current := k.current + [c];
    var breakAt := if MayBreak(current, c) then Some(|current|) else k.breakAt;
    if IsSentenceMark(c) && Bytes(current) >= MIN_SENTENCE then Cutter(Emit(k.segments, current), "", None)
    else if Bytes(current) < MAX_SEGMENT then Cutter(k.segments, current, breakAt)
    else if breakAt.Some? then CutAt(k, current, breakAt.value)
    else if AfterLastSpace(current) > 0 then CutAt(k, current, AfterLastSpace(current) - 1)
    else Cutter(k.segments, current, None)
  }

  /** The cutter after a text. */
  function Run(text: string): (k: Cutter)
    ensures k.breakAt.Some? ==> 0 < k.breakAt.value <= |k.current|
  {
    if text == [] then Cutter([], "", None) else Step(Run(text[..|text| - 1]), text[|text| - 1])
  }

  function Segments(normalized: string): seq<string> {
    var k := Run(normalized);
    var segments := Emit(k.segments, k.current);
    if segments == [] then [normalized] else segments
  }

  function SplitTtsText(text: string, local: bool): seq<string> {
    if Normalize(text) == "" then [""] else if !local then [Normalize(text)] else Segments(Normalize(text))
  }

  lemma RunOneMore(text: string, i: nat)
    requires i < |text|
    ensures Run(text[..i + 1]) == Step(Run(text[..i]), text[i])
  {
    assert text[..i + 1][..i] == text[..i];
  }

  method SplitForSpeech(text: string, local: bool) returns (r: seq<string>)
    ensures r == SplitTtsText(text, local)
  {
    var normalized := Normalize(text);
    if normalized == "" {
      return [""];
    }
    if !local {
      return [normalized];
    }
    var segments: seq<string>, current, lastBreak: Option<nat> := [], "", None;
    for i := 0 to |normalized|
      invariant Cutter(segments, current, lastBreak) == Run(normalized[..i])
    {
      RunOneMore(normalized, i);
      segments, current, lastBreak := Push(segments, current, lastBreak, normalized[i]);
    }
    assert normalized[..|normalized|] == normalized;
    if Trim(current) != "" {
      segments := segments + [Trim(current)];
    }
    return if segments == [] then [normalized] else segments;
  }

  /** One turn of the loop. */
  method Push(before: seq<string>, begun: string, brk: Option<nat>, c: char)
      returns (segments: seq<string>, current: string, lastBreak: Option<nat>)
    requires brk.Some? ==> brk.value <= |begun|
    ensures Cutter(segments, current, lastBreak) == Step(Cutter(before, begun, brk), c)
  {
    segments, current, lastBreak := before, begun + [c], brk;
    if IsSentenceMark(c) || (c == ',' && Bytes(current) >= MIN_CLAUSE) {
      lastBreak := Some(|current|);
    }
    if Bytes(current) >= MIN_SENTENCE && IsSentenceMark(c) {
      if Trim(current) != "" {
        segments := segments + [Trim(current)];
      }
      return segments, "", None;
    }
    if Bytes(current) >= MAX_SEGMENT {
      var at := if lastBreak.Some? then lastBreak.value else AfterLastSpace(current) - 1;
      if at >= 0 {
        if Trim(current[..at]) != "" {
          segments := segments + [Trim(current[..at])];
        }
        current := TrimStart(current[at..]);
      }
      lastBreak := None;
    }
  }

  // ------------------------------------------------------ what trimming takes

  lemma {:induction false} TrimStartParts(s: string) returns (n: nat)
    ensures n <= |s| && IsBlankText(s[..n]) && TrimStart(s) == s[n..]
    ensures n < |s| ==> !IsWhitespace(s[n])
    decreases |s|
  {
    n := 0;
    if s != [] && IsWhitespace(s[0]) {
      var m := TrimStartParts(s[1..]);
      n := m + 1;
      assert s[1..][m..] == s[n..];
      assert s[..n] == [s[0]] + s[1..][..m];
      BlankParts([s[0]], s[1..][..m]);
    }
  }

  lemma {:induction false} TrimEndParts(s: string) returns (n: nat)
    ensures n <= |s| && IsBlankText(s[n..]) && TrimEnd(s) == s[..n]
    ensures n > 0 ==> !IsWhitespace(s[n - 1])
    decreases |s|
  {
    n := |s|;
    if s != [] && IsWhitespace(s[|s| - 1]) {
      var init := s[..|s| - 1];
      n := TrimEndParts(init);
      assert init[..n] == s[..n] && s[n..] == init[n..] + [s[|s| - 1]];
      BlankParts(init[n..], [s[|s| - 1]]);
    }
  }

  /** Neither empty nor with white space at an edge. */
  predicate Tidy(s: string) {
    s != [] && !IsWhitespace(s[0]) && !IsWhitespace(s[|s| - 1])
  }

  /** Trimming takes white space off both edges, and everything only from blank text. */
  lemma TrimParts(s: string) returns (a: nat, b: nat)
    ensures a <= b <= |s| && Trim(s) == s[a..b] && IsBlankText(s[..a]) && IsBlankText(s[b..])
    ensures Trim(s) == "" || Tidy(Trim(s))
  {
    a := TrimStartParts(s);
    var n := TrimEndParts(s[a..]);
    b := a + n;
    assert s[a..][..n] == s[a..b] && s[a..][n..] == s[b..];
  }

  lemma BlankParts(a: string, b: string)
    ensures IsBlankText(a + b) <==> IsBlankText(a) && IsBlankText(b)
  {
    assert forall i :: 0 <= i < |a| ==> (a + b)[i] == a[i];
    assert forall i :: 0 <= i < |b| ==> (a + b)[|a| + i] == b[i];
  }

  // -------------------------------------------------- nothing lost or reordered

  predicate EndsClause(s: string) {
    s != [] && (IsSentenceMark(s[|s| - 1]) || s[|s| - 1] == ',')
  }

  /** A segment ends where white space follows, or with a sentence mark or a comma. */
  predicate SeamAllowed(segment: string, rest: string) {
    rest == [] || IsWhitespace(rest[0]) || EndsClause(segment)
  }

  /** The text is these segments in this order, with white space alone before, between and after
      them, and no word cut apart except after punctuation. */
  predicate Spaced(segments: seq<string>, text: string)
    decreases |segments|
  {
    if segments == [] then IsBlankText(text)
    else
      var x, t := segments[0], TrimStart(text);
      x <= t && SeamAllowed(x, t[|x|..]) && Spaced(segments[1..], t[|x|..])
  }

  /** Another segment may begin right after the text. */
  predicate MayFollow(segments: seq<string>, text: string) {
    segments == [] || EndsBlank(IsWhitespace, text) || EndsClause(segments[|segments| - 1])
  }

  lemma {:induction false} TrimStartOfBlank(w: string, s: string)
    requires IsBlankText(w)
    ensures TrimStart(w + s) == TrimStart(s)
    decreases |w|
  {
    if w == [] {
      assert w + s == s;
    } else {
      assert (w + s)[0] == w[0] && (w + s)[1..] == w[1..] + s;
      TrimStartOfBlank(w[1..], s);
    }
  }

  lemma {:induction false} TrimStartAhead(s: string, rest: string)
    requires TrimStart(s) != ""
    ensures TrimStart(s + rest) == TrimStart(s) + rest
    decreases |s|
  {
    assert (s + rest)[0] == s[0];
    if IsWhitespace(s[0]) {
      assert (s + rest)[1..] == s[1..] + rest;
      TrimStartAhead(s[1..], rest);
    }
  }

  lemma SpacedFirst(segments: seq<string>, text: string)
    requires segments != [] && Spaced(segments, text) && segments[0] != ""
    ensures var t := TrimStart(text);
            && t != "" && t == segments[0] + t[|segments[0]|..]
            && SeamAllowed(segments[0], t[|segments[0]|..]) && Spaced(segments[1..], t[|segments[0]|..])
  {
  }

  predicate AllTidy(segments: seq<string>) {
    forall i :: 0 <= i < |segments| ==> Tidy(segments[i])
  }

  lemma TidyStarts(x: string, rest: string)
    requires Tidy(x)
    ensures TrimStart(x + rest) == x + rest
  {
    assert (x + rest)[0] == x[0];
  }

  lemma SpacedCons(x: string, segments: seq<string>, text: string, rest: string)
    requires TrimStart(text) == x + rest && SeamAllowed(x, rest) && Spaced(segments, rest)
    ensures Spaced([x] + segments, text)
  {
    assert (x + rest)[|x|..] == rest && ([x] + segments)[1..] == segments;
  }

  lemma SeamWidens(x: string, rest: string, w: string)
    requires SeamAllowed(x, rest) && IsBlankText(w)
    ensures SeamAllowed(x, rest + w)
  {
    if rest + w != "" {
      assert (rest + w)[0] == if rest != "" then rest[0] else w[0];
    }
  }

  /** More white space, or one more segment, at the end. */
  lemma {:induction false} SpacedBlank(segments: seq<string>, text: string, w: string)
    requires AllTidy(segments) && Spaced(segments, text) && IsBlankText(w)
    ensures Spaced(segments, text + w)
    decreases |segments|
  {
    if segments == [] {
      BlankParts(text, w);
    } else {
      SpacedFirst(segments, text);
      var t, x := TrimStart(text), segments[0];
      TrimStartAhead(text, w);
      SpacedBlank(segments[1..], t[|x|..], w);
      SeamWidens(x, t[|x|..], w);
      assert t + w == x + (t[|x|..] + w);
      SpacedCons(x, segments[1..], text + w, t[|x|..] + w);
      assert [x] + segments[1..] == segments;
    }
  }

  lemma EndOfTrimmed(text: string)
    requires TrimStart(text) != ""
    ensures EndsBlank(IsWhitespace, TrimStart(text)) == EndsBlank(IsWhitespace, text)
  {
    var n := TrimStartParts(text);
  }

  /** A seam stays allowed when what follows the text is, or when something separates them. */
  lemma SeamBefore(y: string, rest: string, segments: seq<string>, text: string, x: string)
    requires Tidy(y) && Spaced(segments, rest) && AllTidy(segments) && SeamAllowed(y, rest)
    requires TrimStart(text) == y + rest && MayFollow([y] + segments, text)
    ensures SeamAllowed(y, rest + x) && MayFollow(segments, rest)
  {
    EndOfTrimmed(text);
    if rest == "" {
      assert y + rest == y;
      if segments != [] {
        SpacedFirst(segments, rest);
        assert false;
      }
    } else {
      assert (rest + x)[0] == rest[0] && (y + rest)[|y + rest| - 1] == rest[|rest| - 1];
    }
  }

  lemma SnocFirst(y: string, segments: seq<string>, text: string, rest: string, x: string)
    requires TrimStart(text) == y + rest && TrimStart(text) != ""
    requires SeamAllowed(y, rest + x) && Spaced(segments + [x], rest + x)
    ensures Spaced([y] + segments + [x], text + x)
  {
    TrimStartAhead(text, x);
    assert y + rest + x == y + (rest + x);
    SpacedCons(y, segments + [x], text + x, rest + x);
    assert [y] + segments + [x] == [y] + (segments + [x]);
  }

  lemma {:induction false} SpacedSnoc(segments: seq<string>, text: string, x: string)
    requires AllTidy(segments) && Spaced(segments, text) && Tidy(x) && MayFollow(segments, text)
    ensures Spaced(segments + [x], text + x)
    decreases |segments|
  {
    if segments == [] {
      TrimStartOfBlank(text, x);
      TidyStarts(x, "");
      assert x + "" == x;
      SpacedCons(x, [], text + x, "");
    } else {
      SpacedFirst(segments, text);
      var t, y := TrimStart(text), segments[0];
      var rest := t[|y|..];
      assert [y] + segments[1..] == segments;
      SeamBefore(y, rest, segments[1..], text, x);
      SpacedSnoc(segments[1..], rest, x);
      SnocFirst(y, segments[1..], text, rest, x);
    }
  }

  lemma FollowBlank(segments: seq<string>, text: string, w: string)
    requires IsBlankText(w) && (MayFollow(segments, text) || w != "")
    ensures MayFollow(segments, text + w)
  {
    if w == "" {
      assert text + w == text;
    }
  }

  lemma SegmentSpaced(segments: seq<string>, text: string, left: string, x: string, right: string)
    requires AllTidy(segments) && Spaced(segments, text) && MayFollow(segments, text)
    requires Tidy(x) && IsBlankText(left) && IsBlankText(right)
    ensures Spaced(segments + [x], text + left + x + right)
  {
    SpacedBlank(segments, text, left);
    FollowBlank(segments, text, left);
    SpacedSnoc(segments, text + left, x);
    SpacedBlank(segments + [x], text + left + x, right);
  }

  /** Emitting a piece accounts for all of it. */
  lemma EmitSpaced(segments: seq<string>, text: string, piece: string)
    requires AllTidy(segments) && Spaced(segments, text) && MayFollow(segments, text)
    ensures AllTidy(Emit(segments, piece)) && Spaced(Emit(segments, piece), text + piece)
  {
    var a, b := TrimParts(piece);
    if Trim(piece) == "" {
      BlankParts(piece[..a], piece[b..]);
      assert piece == piece[..a] + piece[b..];
      SpacedBlank(segments, text, piece);
    } else {
      SegmentSpaced(segments, text, piece[..a], piece[a..b], piece[b..]);
      Regroup(text, piece, a, b);
    }
  }

  /** After a piece that ends a clause the next segment may begin at once. */
  lemma EmitClause(segments: seq<string>, piece: string, text: string)
    requires EndsClause(piece)
    ensures MayFollow(Emit(segments, piece), text)
  {
    var a, b := TrimParts(piece);
    BlankEnd(piece, b);
    if Trim(piece) == "" {
      assert piece[..a] == piece;
      BlankEnd(piece, 0);
    }
  }

  lemma BlankEnd(s: string, b: nat)
    requires b <= |s| && IsBlankText(s[b..])
    ensures b < |s| ==> IsWhitespace(s[|s| - 1])
  {
    if b < |s| {
      assert s[b..][|s| - 1 - b] == s[|s| - 1];
    }
  }

  lemma Regroup(text: string, piece: string, a: nat, b: nat)
    requires a <= b <= |piece|
    ensures text + piece[..a] + piece[a..b] + piece[b..] == text + piece
  {
  }

  /** The state of the cutter after a text: what is emitted covers all but the current end of it. */
  ghost predicate Accounts(k: Cutter, done: string, text: string) {
    && AllTidy(k.segments) && Spaced(k.segments, done) && MayFollow(k.segments, done)
    && done + k.current == text
    && (k.breakAt.Some? ==> k.breakAt.value <= |k.current| && EndsClause(k.current[..k.breakAt.value]))
  }

  lemma DropSpaced(segments: seq<string>, done: string, tail: string) returns (now: string)
    requires AllTidy(segments) && Spaced(segments, done)
    requires MayFollow(segments, done) || (tail != "" && IsWhitespace(tail[0]))
    ensures Spaced(segments, now) && MayFollow(segments, now) && now + TrimStart(tail) == done + tail
  {
    var n := TrimStartParts(tail);
    SpacedBlank(segments, done, tail[..n]);
    FollowBlank(segments, done, tail[..n]);
    now := done + tail[..n];
  }

  lemma CutAccounts(k: Cutter, done: string, current: string, at: nat) returns (now: string)
    requires AllTidy(k.segments) && Spaced(k.segments, done) && MayFollow(k.segments, done) && at <= |current|
    requires EndsClause(current[..at]) || (at < |current| && current[at] == ' ')
    ensures Accounts(CutAt(k, current, at), now, done + current)
  {
    var head, tail := current[..at], current[at..];
    EmitSpaced(k.segments, done, head);
    if EndsClause(head) {
      EmitClause(k.segments, head, done + head);
    }
    Rejoin(done, current, at);
    now := DropSpaced(Emit(k.segments, head), done + head, tail);
  }

  lemma Rejoin(done: string, current: string, at: nat)
    requires at <= |current|
    ensures done + current[..at] + current[at..] == done + current
  {
  }

  /** Where the text may be cut once it has one more character. */
  lemma BreakEndsClause(k: Cutter, c: char, done: string, text: string)
    requires Accounts(k, done, text)
    ensures var current := k.current + [c];
            var breakAt := if MayBreak(current, c) then Some(|current|) else k.breakAt;
            breakAt.Some? ==> breakAt.value <= |current| && EndsClause(current[..breakAt.value])
  {
    var current := k.current + [c];
    assert current[..|current|] == current;
    if k.breakAt.Some? {
      assert current[..k.breakAt.value] == k.current[..k.breakAt.value];
    }
  }

  lemma StepAccounts(k: Cutter, c: char, done: string, text: string) returns (now: string)
    requires Accounts(k, done, text)
    ensures Accounts(Step(k, c), now, text + [c])
  {
    var current := k.current + [c];
    assert done + current == text + [c];
    BreakEndsClause(k, c, done, text);
    if IsSentenceMark(c) && Bytes(current) >= MIN_SENTENCE {
      EmitSpaced(k.segments, done, current);
      EmitClause(k.segments, current, done + current);
      now := done + current;
    } else if Bytes(current) >= MAX_SEGMENT && (MayBreak(current, c) || k.breakAt.Some? || AfterLastSpace(current) > 0) {
      var breakAt := if MayBreak(current, c) then Some(|current|) else k.breakAt;
      now := CutAccounts(k, done, current, if breakAt.Some? then breakAt.value else AfterLastSpace(current) - 1);
    } else {
      now := done;
    }
  }

  lemma LastAccounts(text: string, before: string) returns (done: string)
    requires text != [] && Accounts(Run(text[..|text| - 1]), before, text[..|text| - 1])
    ensures Accounts(Run(text), done, text)
  {
    var init, c := text[..|text| - 1], text[|text| - 1];
    assert init + [c] == text;
    assert Run(text) == Step(Run(init), c);
    done := StepAccounts(Run(init), c, before, init);
  }

  lemma {:induction false} RunAccounts(text: string) returns (done: string)
    ensures Accounts(Run(text), done, text)
    decreases |text|
  {
    done := "";
    if text != [] {
      var before := RunAccounts(text[..|text| - 1]);
      done := LastAccounts(text, before);
    }
  }

  // ------------------------------------------------------ the normalised text

  /** Everything that is not white space. */
  function Visible(s: string): string {
    if s == [] then []
    else if IsWhitespace(s[|s| - 1]) then Visible(s[..|s| - 1])
    else Visible(s[..|s| - 1]) + [s[|s| - 1]]
  }

  lemma {:induction false} VisibleAppend(a: string, b: string)
    ensures Visible(a + b) == Visible(a) + Visible(b)
    decreases |b|
  {
    if b == [] {
      assert a + b == a;
    } else {
      assert (a + b)[..|a + b| - 1] == a + b[..|b| - 1];
      VisibleAppend(a, b[..|b| - 1]);
    }
  }

  lemma {:induction false} VisibleOfBlank(s: string)
    requires IsBlankText(s)
    ensures Visible(s) == ""
    decreases |s|
  {
    if s != [] {
      VisibleOfBlank(s[..|s| - 1]);
    }
  }

  lemma LongerWord(ws: seq<string>, c: char)
    requires ws != []
    ensures Flat(ws[..|ws| - 1] + [ws[|ws| - 1] + [c]]) == Flat(ws) + [c]
  {
    FlatAppend(ws[..|ws| - 1], ws[|ws| - 1] + [c]);
  }

  lemma {:induction false} WordsKeepVisible(s: string)
    ensures Flat(Words(IsWhitespace, s)) == Visible(s)
    decreases |s|
  {
    if s != [] {
      var init, c := s[..|s| - 1], s[|s| - 1];
      WordsKeepVisible(init);
      if !IsWhitespace(c) {
        if EndsBlank(IsWhitespace, init) {
          FlatAppend(Words(IsWhitespace, init), [c]);
        } else {
          LongerWord(Words(IsWhitespace, init), c);
        }
      }
    }
  }

  lemma {:induction false} VisibleOfWord(w: string)
    requires forall i :: 0 <= i < |w| ==> !IsWhitespace(w[i])
    ensures Visible(w) == w
    decreases |w|
  {
    if w != [] {
      VisibleOfWord(w[..|w| - 1]);
    }
  }

  lemma FlatOne(s: string)
    ensures Flat([s]) == s
  {
    FlatAppend([], s);
    assert [] + [s] == [s] && "" + s == s;
  }

  lemma {:induction false} JoinedKeepsVisible(ws: seq<string>)
    requires AreWords(IsWhitespace, ws)
    ensures Visible(Joined(ws)) == Flat(ws)
    decreases |ws|
  {
    if |ws| == 1 {
      VisibleOfWord(ws[0]);
      FlatOne(ws[0]);
    } else if |ws| > 1 {
      var init, last := ws[..|ws| - 1], ws[|ws| - 1];
      JoinedKeepsVisible(init);
      VisibleOfWord(last);
      VisibleAppend(Joined(init), [' ']);
      VisibleAppend(Joined(init) + [' '], last);
    }
  }

  /** The only white space is the plain space. */
  predicate OnlySpaces(s: string) {
    forall i :: 0 <= i < |s| && IsWhitespace(s[i]) ==> s[i] == ' '
  }

  lemma {:induction false} JoinedIsTidy(ws: seq<string>)
    requires ws != [] && AreWords(IsWhitespace, ws)
    ensures Tidy(Joined(ws)) && OnlySpaces(Joined(ws))
    decreases |ws|
  {
    if |ws| > 1 {
      JoinedIsTidy(ws[..|ws| - 1]);
      TidyExtended(Joined(ws[..|ws| - 1]), ws[|ws| - 1]);
    }
  }

  lemma TidyExtended(front: string, w: string)
    requires Tidy(front) && OnlySpaces(front) && IsWord(IsWhitespace, w)
    ensures Tidy(front + [' '] + w) && OnlySpaces(front + [' '] + w)
  {
    var all := front + [' '] + w;
    assert all[0] == front[0] && all[|all| - 1] == w[|w| - 1];
    assert forall j :: 0 <= j < |w| ==> all[|front| + 1 + j] == w[j];
    forall i | 0 <= i < |all| && IsWhitespace(all[i]) ensures all[i] == ' ' {
      if i < |front| {
        assert all[i] == front[i];
      }
    }
  }

  lemma NormalText(text: string)
    ensures Visible(Normalize(text)) == Visible(text)
    ensures Normalize(text) != "" ==> Tidy(Normalize(text)) && OnlySpaces(Normalize(text))
    ensures Normalize(text) == "" <==> Visible(text) == ""
  {
    var ws := Words(IsWhitespace, text);
    WordsAreWords(IsWhitespace, text);
    WordsKeepVisible(text);
    JoinedKeepsVisible(ws);
    if ws != [] {
      JoinedIsTidy(ws);
      FlatFromFront(ws);
    }
  }

  // ------------------------------------------------------------- main results

  /** Segments are the normalised text cut at white space or between characters: nothing lost, doubled or reordered. */
  lemma SegmentsCoverText(text: string)
    requires Visible(text) != ""
    ensures var segments := SplitTtsText(text, true);
            segments != [] && AllTidy(segments) && Spaced(segments, Normalize(text))
  {
    NormalText(text);
    var normal := Normalize(text);
    var done := RunAccounts(normal);
    EmitSpaced(Run(normal).segments, done, Run(normal).current);
    var segments := Emit(Run(normal).segments, Run(normal).current);
    assert Spaced(segments, normal) && !IsWhitespace(normal[0]);
  }

  lemma TrimStartKeepsVisible(s: string)
    ensures Visible(TrimStart(s)) == Visible(s)
  {
    var n := TrimStartParts(s);
    VisibleAppend(s[..n], s[n..]);
    VisibleOfBlank(s[..n]);
    assert s[..n] + s[n..] == s;
  }

  lemma {:induction false} SpacedKeepsVisible(segments: seq<string>, text: string)
    requires Spaced(segments, text)
    ensures Visible(Flat(segments)) == Visible(text)
    decreases |segments|
  {
    TrimStartKeepsVisible(text);
    if segments == [] {
      VisibleOfBlank(text);
    } else {
      var t, x := TrimStart(text), segments[0];
      SpacedKeepsVisible(segments[1..], t[|x|..]);
      FlatFromFront(segments);
      VisibleAppend(x, Flat(segments[1..]));
      VisibleAppend(x, t[|x|..]);
      assert x + t[|x|..] == t;
    }
  }

  /** For every text and engine, the visible characters spoken are those of the text, in order. */
  lemma NothingLost(text: string, local: bool)
    ensures Visible(Flat(SplitTtsText(text, local))) == Visible(text)
  {
    NormalText(text);
    FlatOne(Normalize(text));
    if local && Normalize(text) != "" {
      SegmentsCoverText(text);
      SpacedKeepsVisible(SplitTtsText(text, true), Normalize(text));
    }
  }
}
