/** The canonical query string: names and values normalised, pairs sorted. */
module SigV4Query {
  import opened Common
  import opened Sorting
  import opened Text
  import opened SigV4Encoding

  function EncodePair(pair: string): (string, string) {
    var (name, value) := SplitOnce(pair, '=');
    (PercentEncode(name, false, true), PercentEncode(value, false, true))
  }

  function FormatPair(pair: (string, string)): string {
    pair.0 + ['='] + pair.1
  }

  function SortedPairs(raw: string): seq<(string, string)> {
    Sort(Map(EncodePair, Split(raw, '&')), PairLeq)
  }

  function CanonicalQuery(raw: string): string {
    if raw == "" then "" else Join(Map(FormatPair, SortedPairs(raw)), '&')
  }

  // ------------------------------------------------------------------ meaning

  function DecodePair(pair: (string, string)): (string, string) {
    (Decode(pair.0), Decode(pair.1))
  }

  function SplitPair(piece: string): (string, string) {
    SplitOnce(piece, '=')
  }

  /** The decoded name and value of one piece of a query. */
  function PairMeaning(piece: string): (string, string) {
    DecodePair(SplitPair(piece))
  }

  /** The name-value pairs a query carries, in no order; an empty query carries none. */
  function QueryMeaning(raw: string): multiset<(string, string)> {
    if raw == "" then multiset{} else multiset(Map(PairMeaning, Split(raw, '&')))
  }

  // ------------------------------------------------------------------- proofs

  lemma {:induction false} SplitIsBytes(s: string, c: char)
    requires IsBytes(s)
    ensures forall p :: p in Split(s, c) ==> IsBytes(p)
  {
    if s != [] {
      SplitIsBytes(s[1..], c);
      var rest := Split(s[1..], c);
      assert rest[0] in rest;
    }
  }

  lemma {:induction false} SplitOnceIsBytes(s: string, c: char)
    requires IsBytes(s)
    ensures IsBytes(SplitOnce(s, c).0) && IsBytes(SplitOnce(s, c).1)
  {
    if s != [] && s[0] != c {
      SplitOnceIsBytes(s[1..], c);
    }
  }

  /** Without slashes to keep, normalising is encoding the decoded bytes afresh. */
  lemma {:induction false} EncodeDecoded(s: string)
    ensures PercentEncode(s, false, true) == PercentEncode(Decode(s), false, false)
    decreases |s|
  {
    if s != [] {
      var tail := if StartsWithEscape(s) then s[3..] else s[1..];
      EncodeDecoded(tail);
      assert Decode(s)[1..] == Decode(tail);
    }
  }

  function EncodeDecodedPair(pair: (string, string)): (string, string) {
    (PercentEncode(pair.0, false, false), PercentEncode(pair.1, false, false))
  }

  /** Canonical query text: unreserved bytes, escapes, `=` and `&`. */
  predicate IsQueryText(s: string) {
    forall i :: 0 <= i < |s| ==> IsOutputByte(s[i], false) || s[i] == '=' || s[i] == '&'
  }

  lemma EncodedPairIsFree(piece: string)
    ensures Free(EncodePair(piece).0, '=') && Free(EncodePair(piece).1, '=')
    ensures Free(FormatPair(EncodePair(piece)), '&')
    ensures IsQueryText(FormatPair(EncodePair(piece)))
    ensures SplitOnce(FormatPair(EncodePair(piece)), '=') == EncodePair(piece)
  {
    var (name, value) := SplitOnce(piece, '=');
    OutputBytes(name, false, true);
    OutputBytes(value, false, true);
    assert AllOutput(EncodePair(piece).0, false) && AllOutput(EncodePair(piece).1, false);
    SplitOnceAt(EncodePair(piece).0, EncodePair(piece).1, '=');
  }

  lemma SortedPairsAreEncoded(raw: string)
    ensures forall p :: p in SortedPairs(raw) ==>
              && Free(FormatPair(p), '&') && IsQueryText(FormatPair(p))
              && SplitOnce(FormatPair(p), '=') == p
  {
    var pairs := Map(EncodePair, Split(raw, '&'));
    forall p | p in SortedPairs(raw)
      ensures Free(FormatPair(p), '&') && IsQueryText(FormatPair(p)) && SplitOnce(FormatPair(p), '=') == p
    {
      assert p in multiset(SortedPairs(raw));
      var i :| 0 <= i < |pairs| && pairs[i] == p;
      EncodedPairIsFree(Split(raw, '&')[i]);
    }
  }

  /** The canonical query lists the encoded pairs of the query in (name, value) order. */
  lemma CanonicalQueryIsSorted(raw: string)
    requires raw != ""
    ensures Split(CanonicalQuery(raw), '&') == Map(FormatPair, SortedPairs(raw))
    ensures SortedBy(SortedPairs(raw), PairLeq)
    ensures multiset(SortedPairs(raw)) == multiset(Map(EncodePair, Split(raw, '&')))
    ensures CanonicalQuery(raw) != ""
  {
    PairOrder();
    SortSorts(Map(EncodePair, Split(raw, '&')), PairLeq);
    SortedPairsAreEncoded(raw);
    var lines := Map(FormatPair, SortedPairs(raw));
    forall l | l in lines ensures Free(l, '&') {
      var i :| 0 <= i < |lines| && lines[i] == l;
      assert SortedPairs(raw)[i] in SortedPairs(raw);
    }
    SplitJoin(lines, '&');
    assert |lines[0]| > 0;
    if CanonicalQuery(raw) == "" {
      SplitFree("", '&');
    }
  }

  lemma PairMeaningKept(piece: string)
    requires IsBytes(piece)
    ensures DecodePair(EncodePair(piece)) == PairMeaning(piece)
    ensures EncodeDecodedPair(PairMeaning(piece)) == EncodePair(piece)
  {
    SplitOnceIsBytes(piece, '=');
    var (name, value) := SplitOnce(piece, '=');
    DecodePreserved(name, false);
    DecodePreserved(value, false);
    EncodeDecoded(name);
    EncodeDecoded(value);
  }

  /** The encoded pairs determine the meaning and are determined by it. */
  lemma PairsAndMeaning(raw: string)
    requires IsBytes(raw)
    ensures var pieces := Split(raw, '&');
            && Map(DecodePair, Map(EncodePair, pieces)) == Map(PairMeaning, pieces)
            && Map(EncodeDecodedPair, Map(PairMeaning, pieces)) == Map(EncodePair, pieces)
  {
    var pieces := Split(raw, '&');
    SplitIsBytes(raw, '&');
    forall i | 0 <= i < |pieces|
      ensures DecodePair(EncodePair(pieces[i])) == PairMeaning(pieces[i])
      ensures EncodeDecodedPair(PairMeaning(pieces[i])) == EncodePair(pieces[i])
    {
      assert pieces[i] in pieces;
      PairMeaningKept(pieces[i]);
    }
    MapAgree(EncodePair, DecodePair, PairMeaning, pieces);
    MapAgree(PairMeaning, EncodeDecodedPair, EncodePair, pieces);
  }

  /** Reading the canonical query back gives its sorted pairs. */
  lemma ReadBack(raw: string)
    requires raw != ""
    ensures Map(SplitPair, Split(CanonicalQuery(raw), '&')) == SortedPairs(raw)
  {
    CanonicalQueryIsSorted(raw);
    SortedPairsAreEncoded(raw);
    var pairs := SortedPairs(raw);
    forall i | 0 <= i < |pairs| ensures SplitPair(FormatPair(pairs[i])) == pairs[i] {
      assert pairs[i] in pairs;
    }
    assert Map(SplitPair, Map(FormatPair, pairs)) == pairs;
  }

  lemma QueriesWithPairs(a: string, b: string)
    requires IsBytes(a) && IsBytes(b) && a != "" && b != ""
    ensures CanonicalQuery(a) == CanonicalQuery(b) <==> SortedPairs(a) == SortedPairs(b)
    ensures SortedPairs(a) == SortedPairs(b) <==> QueryMeaning(a) == QueryMeaning(b)
  {
    ReadBack(a);
    ReadBack(b);
    PairsAndMeaning(a);
    PairsAndMeaning(b);
    var pa, pb := Map(EncodePair, Split(a, '&')), Map(EncodePair, Split(b, '&'));
    if SortedPairs(a) == SortedPairs(b) {
      assert multiset(pa) == multiset(pb);
      MapPermuted(DecodePair, pa, pb);
    }
    if QueryMeaning(a) == QueryMeaning(b) {
      MapPermuted(EncodeDecodedPair, Map(PairMeaning, Split(a, '&')), Map(PairMeaning, Split(b, '&')));
      CanonicalQueryIsSorted(a);
      CanonicalQueryIsSorted(b);
      PairOrder();
      SortedIsUnique(SortedPairs(a), SortedPairs(b), PairLeq);
    }
  }

  /** Two queries are canonically equal exactly when they carry the same pairs. */
  lemma QueryNormalForm(a: string, b: string)
    requires IsBytes(a) && IsBytes(b)
    ensures CanonicalQuery(a) == CanonicalQuery(b) <==> QueryMeaning(a) == QueryMeaning(b)
  {
    if a != "" {
      CanonicalQueryIsSorted(a);
      assert |QueryMeaning(a)| == |Split(a, '&')|;
    }
    if b != "" {
      CanonicalQueryIsSorted(b);
      assert |QueryMeaning(b)| == |Split(b, '&')|;
    }
    if a != "" && b != "" {
      QueriesWithPairs(a, b);
    }
  }

  lemma CanonicalQueryText(raw: string)
    ensures IsQueryText(CanonicalQuery(raw))
  {
    if raw != "" {
      SortedPairsAreEncoded(raw);
      var lines := Map(FormatPair, SortedPairs(raw));
      forall l | l in lines ensures IsQueryText(l) {
        var i :| 0 <= i < |lines| && lines[i] == l;
        assert SortedPairs(raw)[i] in SortedPairs(raw);
      }
      JoinedQueryText(lines);
    }
  }

  lemma {:induction false} JoinedQueryText(lines: seq<string>)
    requires forall l :: l in lines ==> IsQueryText(l)
    ensures IsQueryText(Join(lines, '&'))
  {
    if |lines| > 1 {
      JoinedQueryText(lines[1..]);
      assert IsQueryText(lines[0]) && IsQueryText(Join(lines[1..], '&'));
    }
  }

  lemma CanonicalQueryMeaning(raw: string)
    requires IsBytes(raw) && raw != ""
    ensures QueryMeaning(CanonicalQuery(raw)) == QueryMeaning(raw)
  {
    CanonicalQueryIsSorted(raw);
    ReadBack(raw);
    PairsAndMeaning(raw);
    MapAgree(SplitPair, DecodePair, PairMeaning, Split(CanonicalQuery(raw), '&'));
    MapPermuted(DecodePair, SortedPairs(raw), Map(EncodePair, Split(raw, '&')));
  }

  /** Canonicalising a canonical query changes nothing. */
  lemma CanonicalQueryIdempotent(raw: string)
    requires IsBytes(raw)
    ensures CanonicalQuery(CanonicalQuery(raw)) == CanonicalQuery(raw)
  {
    if raw != "" {
      CanonicalQueryMeaning(raw);
      CanonicalQueryText(raw);
      QueryNormalForm(CanonicalQuery(raw), raw);
    }
  }

  /** Reordering the pieces of a query leaves its canonical form unchanged. */
  lemma CanonicalQueryIgnoresOrder(a: string, b: string)
    requires IsBytes(a) && IsBytes(b) && multiset(Split(a, '&')) == multiset(Split(b, '&'))
    ensures CanonicalQuery(a) == CanonicalQuery(b)
  {
    JoinSplit(a, '&');
    JoinSplit(b, '&');
    assert |Split(a, '&')| == |multiset(Split(a, '&'))| == |Split(b, '&')|;
    if a == "" || b == "" {
      assert Split(a, '&')[0] in multiset(Split(b, '&'));
    } else {
      MapPermuted(PairMeaning, Split(a, '&'), Split(b, '&'));
      QueryNormalForm(a, b);
    }
  }
}
