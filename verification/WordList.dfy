/** Words of a text, for any notion of a blank, and texts squeezed to single spaces. */
module WordList {

  predicate EndsBlank(blank: char -> bool, s: string) {
    s == [] || blank(s[|s| - 1])
  }

  /** The maximal runs without blanks. */
  function Words(blank: char -> bool, s: string): (ws: seq<string>)
    ensures !EndsBlank(blank, s) ==> ws != []
    decreases |s|
  {
    if s == [] then []
    else
      var init, c := s[..|s| - 1], s[|s| - 1];
      var ws := Words(blank, init);
      if blank(c) then ws
      else if EndsBlank(blank, init) then ws + [[c]]
      else ws[..|ws| - 1] + [ws[|ws| - 1] + [c]]
  }

  /** Words separated by single spaces. */
  function Joined(ws: seq<string>): string {
    if ws == [] then ""
    else if |ws| == 1 then ws[0]
    else Joined(ws[..|ws| - 1]) + [' '] + ws[|ws| - 1]
  }

  function Squeeze(blank: char -> bool, s: string): string {
    Joined(Words(blank, s))
  }

  predicate IsWord(blank: char -> bool, w: string) {
    w != [] && forall i :: 0 <= i < |w| ==> !blank(w[i])
  }

  predicate AreWords(blank: char -> bool, ws: seq<string>) {
    forall i :: 0 <= i < |ws| ==> IsWord(blank, ws[i])
  }

  lemma {:induction false} WordsAreWords(blank: char -> bool, s: string)
    ensures AreWords(blank, Words(blank, s))
    decreases |s|
  {
    if s != [] {
      WordsAreWords(blank, s[..|s| - 1]);
    }
  }

  lemma {:induction false} JoinedIsEmpty(blank: char -> bool, ws: seq<string>)
    requires AreWords(blank, ws)
    ensures Joined(ws) == "" <==> ws == []
    ensures ws != [] ==> !EndsBlank(blank, Joined(ws))
  {
    if ws != [] {
      assert IsWord(blank, ws[|ws| - 1]);
    }
  }

  /** A further non-blank starts a word after a blank and extends the last word otherwise. */
  lemma SqueezeStep(blank: char -> bool, s: string, c: char)
    ensures blank(c) ==> Squeeze(blank, s + [c]) == Squeeze(blank, s)
    ensures !blank(c) ==>
              Squeeze(blank, s + [c])
              == Squeeze(blank, s) + (if EndsBlank(blank, s) && Squeeze(blank, s) != "" then [' ', c] else [c])
  {
    var t := s + [c];
    assert t[..|t| - 1] == s;
    var ws := Words(blank, s);
    WordsAreWords(blank, s);
    JoinedIsEmpty(blank, ws);
    if !blank(c) {
      var after := Words(blank, t);
      assert after != [] && |after| > 0;
      if EndsBlank(blank, s) {
        assert after[..|after| - 1] == ws;
      } else {
        assert after[..|after| - 1] == ws[..|ws| - 1];
      }
    }
  }

  lemma {:induction false} WordAppended(blank: char -> bool, s: string, w: string)
    requires EndsBlank(blank, s) && IsWord(blank, w)
    ensures Words(blank, s + w) == Words(blank, s) + [w]
    decreases |w|
  {
    var init := w[..|w| - 1];
    assert (s + w)[..|s + w| - 1] == s + init;
    if init == [] {
      assert s + init == s;
      assert w == [w[0]];
    } else {
      WordAppended(blank, s, init);
      assert !EndsBlank(blank, s + init);
      assert w == init + [w[|w| - 1]];
    }
  }

  lemma SpaceAppended(blank: char -> bool, s: string)
    requires blank(' ')
    ensures Words(blank, s + [' ']) == Words(blank, s)
  {
    assert (s + [' '])[..|s|] == s;
  }

  lemma NextWord(blank: char -> bool, front: string, w: string)
    requires blank(' ') && IsWord(blank, w)
    ensures Words(blank, front + [' '] + w) == Words(blank, front) + [w]
  {
    SpaceAppended(blank, front);
    WordAppended(blank, front + [' '], w);
  }

  lemma {:induction false} WordsOfJoined(blank: char -> bool, ws: seq<string>)
    requires blank(' ') && AreWords(blank, ws)
    ensures Words(blank, Joined(ws)) == ws
    decreases |ws|
  {
    if ws != [] {
      var init, last := ws[..|ws| - 1], ws[|ws| - 1];
      assert ws == init + [last];
      if init == [] {
        assert "" + last == last && Joined(ws) == last;
        WordAppended(blank, "", last);
      } else {
        WordsOfJoined(blank, init);
        NextWord(blank, Joined(init), last);
      }
    }
  }

  /** Texts squeeze alike exactly when they have the same words; squeezing twice is squeezing once. */
  lemma SqueezeNormalForm(blank: char -> bool, a: string, b: string)
    requires blank(' ')
    ensures Squeeze(blank, a) == Squeeze(blank, b) <==> Words(blank, a) == Words(blank, b)
    ensures Words(blank, Squeeze(blank, a)) == Words(blank, a) && Squeeze(blank, Squeeze(blank, a)) == Squeeze(blank, a)
  {
    WordsAreWords(blank, a);
    WordsAreWords(blank, b);
    WordsOfJoined(blank, Words(blank, a));
    WordsOfJoined(blank, Words(blank, b));
  }
}
