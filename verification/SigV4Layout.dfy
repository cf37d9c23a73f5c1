/** The lines of the canonical request text, and exactly which requests have one. */
module SigV4Layout {
  import opened Common
  import opened Sorting
  import opened Text
  import opened WordList
  import opened SigV4Encoding
  import opened SigV4Query
  import opened SigV4Headers
  import opened SigV4Request

  // ------------------------------------------------------------------ the lines

  function NameOf(h: Header): string {
    h.0
  }

  /** A header as its line shows it. */
  function Shown(h: Header): string {
    h.0 + [':'] + h.1
  }

  /** The lines of a canonical text. */
  function Lines(httpMethod: string, path: string, query: string, hs: seq<Header>, payload: string): seq<string> {
    [httpMethod, path, query] + Map(Shown, hs) + ["", Join(Map(NameOf, hs), ';'), payload]
  }

  lemma {:induction false} NamesJoined(hs: seq<Header>)
    ensures SignedNames(hs) == Join(Map(NameOf, hs), ';')
  {
    if hs != [] {
      var init, last := hs[..|hs| - 1], hs[|hs| - 1];
      NamesJoined(init);
      assert hs == init + [last];
      NextHeader(init, last);
      MapConcat(NameOf, init, [last]);
      MapOne(NameOf, last);
      JoinLast(Map(NameOf, init), last.0, ';');
    }
  }

  lemma ShownLine(h: Header, rest: string)
    requires Printable(h)
    ensures Split(HeaderLine(h) + rest, '\n') == [Shown(h)] + Split(rest, '\n')
  {
    var shown := Shown(h);
    forall i | 0 <= i < |shown| ensures shown[i] != '\n' {
      assert shown[i] == if i < |h.0| then h.0[i] else if i == |h.0| then ':' else h.1[i - |h.0| - 1];
    }
    assert HeaderLine(h) + rest == shown + ['\n'] + rest;
    SplitFirst(shown, rest, '\n');
  }

  lemma ShownFirst(hs: seq<Header>, end: seq<string>)
    requires hs != []
    ensures [Shown(hs[0])] + (Map(Shown, hs[1..]) + end) == Map(Shown, hs) + end
  {
    assert Map(Shown, hs) == [Shown(hs[0])] + Map(Shown, hs[1..]);
  }

  lemma LinesFirst(hs: seq<Header>, rest: string)
    requires hs != []
    ensures HeaderLines(hs) + rest == HeaderLine(hs[0]) + (HeaderLines(hs[1..]) + rest)
  {
    LinesFromFront(hs);
  }

  lemma {:induction false} HeaderLinesSplit(hs: seq<Header>, rest: string, end: seq<string>)
    requires forall i :: 0 <= i < |hs| ==> Printable(hs[i])
    requires Split(rest, '\n') == end
    ensures Split(HeaderLines(hs) + rest, '\n') == Map(Shown, hs) + end
    decreases |hs|
  {
    if hs == [] {
      assert HeaderLines(hs) + rest == rest && Map(Shown, hs) + end == end;
    } else {
      HeaderLinesSplit(hs[1..], rest, end);
      LinesFirst(hs, rest);
      ShownLine(hs[0], HeaderLines(hs[1..]) + rest);
      ShownFirst(hs, end);
    }
  }

  /** The end of the text: an empty line, the signed names and the payload hash. */
  lemma EndSplit(names: string, payload: string)
    requires Free(names, '\n') && Free(payload, '\n')
    ensures Split(['\n'] + (names + (['\n'] + payload)), '\n') == ["", names, payload]
  {
    assert ['\n'] + (names + (['\n'] + payload)) == "" + ['\n'] + (names + ['\n'] + payload);
    SplitFirst("", names + ['\n'] + payload, '\n');
    SplitFirst(names, payload, '\n');
    SplitFree(payload, '\n');
  }

  lemma {:induction false} NamesFree(hs: seq<Header>)
    requires forall i :: 0 <= i < |hs| ==> Printable(hs[i])
    ensures Free(SignedNames(hs), '\n')
  {
    if hs != [] {
      NamesFree(hs[..|hs| - 1]);
    }
  }

  lemma LinesOfText(m: string, p: string, q: string, hs: seq<Header>, payload: string)
    requires Free(m, '\n') && Free(p, '\n') && Free(q, '\n') && Free(payload, '\n')
    requires forall i :: 0 <= i < |hs| ==> Printable(hs[i])
    ensures Split(CanonicalText(m, p, q, hs, payload), '\n') == Lines(m, p, q, hs, payload)
  {
    var end := ['\n'] + (SignedNames(hs) + (['\n'] + payload));
    var lines := HeaderLines(hs) + end;
    NamesJoined(hs);
    NamesFree(hs);
    EndSplit(SignedNames(hs), payload);
    HeaderLinesSplit(hs, end, ["", SignedNames(hs), payload]);
    SplitFirst(q, lines, '\n');
    SplitFirst(p, q + ['\n'] + lines, '\n');
    SplitFirst(m, p + ['\n'] + (q + ['\n'] + lines), '\n');
    assert [m] + ([p] + ([q] + (Map(Shown, hs) + ["", SignedNames(hs), payload]))) == Lines(m, p, q, hs, payload);
  }

  lemma HashIsFree(payload: string)
    requires IsPayloadHash(payload)
    ensures Free(payload, '\n')
  {
    forall i | 0 <= i < |payload| ensures payload[i] != '\n' {
      assert IsLowerHex(payload[i]);
    }
  }

  /** An accepted request's text: its method; its path, `/` when it has none, and its query, both
      canonical; each normalised header as `name:value`; an empty line; the names in the same order,
      joined by semicolons; and the payload hash. */
  lemma TextLines(r: Request)
    requires Canonicalize(r).Ok?
    ensures var (before, query) := SplitOnce(r.uri, '?');
            Split(Canonicalize(r).value, '\n')
            == Lines(r.httpMethod, PercentEncode(if before == "" then "/" else before, true, true), CanonicalQuery(query),
                     CanonicalHeaders(r.headers, r.payload).value, r.payload)
  {
    AcceptedHeadersPrint(r);
    CanonicalPartsAreLines(r.uri);
    TokenIsFree(r.httpMethod);
    HashIsFree(r.payload);
    LinesOfText(r.httpMethod, PercentEncode(RawPath(r.uri), true, true), CanonicalQuery(RawQuery(r.uri)),
                CanonicalHeaders(r.headers, r.payload).value, r.payload);
  }

  // ------------------------------------------------------ which requests are accepted

  predicate Distinct(names: seq<string>) {
    forall i, j :: 0 <= i < j < |names| ==> names[i] != names[j]
  }

  lemma {:induction false} DistinctCounts(names: seq<string>)
    ensures Distinct(names) <==> forall x :: multiset(names)[x] <= 1
  {
    if names != [] {
      var init, last := names[..|names| - 1], names[|names| - 1];
      assert names == init + [last];
      DistinctCounts(init);
      if Distinct(names) {
        assert Distinct(init) by {
          forall i, j | 0 <= i < j < |init| ensures init[i] != init[j] {
            assert names[i] != names[j];
          }
        }
        assert last !in init;
      } else {
        RepeatedCounts(names);
      }
    }
  }

  lemma RepeatedCounts(names: seq<string>)
    requires !Distinct(names)
    ensures exists x :: multiset(names)[x] > 1
  {
    var i, j :| 0 <= i < j < |names| && names[i] == names[j];
    assert names == names[..i] + [names[i]] + names[i + 1..j] + [names[j]] + names[j + 1..];
    assert multiset(names)[names[i]] > 1;
  }

  predicate NamesDiffer(hs: seq<Header>) {
    forall i, j :: 0 <= i < j < |hs| ==> hs[i].0 != hs[j].0
  }

  lemma NamesMapped(hs: seq<Header>)
    ensures NamesDiffer(hs) <==> Distinct(Map(NameOf, hs))
  {
    var names := Map(NameOf, hs);
    assert forall i :: 0 <= i < |hs| ==> names[i] == NameOf(hs[i]);
    if NamesDiffer(hs) {
      forall i, j | 0 <= i < j < |names| ensures names[i] != names[j] {
        assert hs[i].0 != hs[j].0;
      }
    } else {
      var i, j :| 0 <= i < j < |hs| && hs[i].0 == hs[j].0;
      assert names[i] == names[j];
    }
  }

  lemma DistinctPermuted(a: seq<Header>, b: seq<Header>)
    requires multiset(a) == multiset(b)
    ensures NamesDiffer(a) <==> NamesDiffer(b)
  {
    MapPermuted(NameOf, a, b);
    DistinctCounts(Map(NameOf, a));
    DistinctCounts(Map(NameOf, b));
    NamesMapped(a);
    NamesMapped(b);
  }

  /** In a sorted list equal names stand next to each other. */
  lemma SortedDistinct(hs: seq<Header>)
    requires SortedBy(hs, PairLeq)
    ensures AdjacentNamesDiffer(hs) <==> NamesDiffer(hs)
  {
    if AdjacentNamesDiffer(hs) {
      forall i, j | 0 <= i < j < |hs| ensures hs[i].0 != hs[j].0 {
        if j > i + 1 {
          NamesBetween(hs, i, j);
        }
      }
    } else {
      var i :| 0 <= i < |hs| - 1 && hs[i].0 == hs[i + 1].0;
    }
  }

  lemma NamesBetween(hs: seq<Header>, i: nat, j: nat)
    requires SortedBy(hs, PairLeq) && i + 1 < j < |hs| && hs[i].0 != hs[i + 1].0
    ensures hs[i].0 != hs[j].0
  {
    assert PairLeq(hs[i], hs[i + 1]) && PairLeq(hs[i + 1], hs[j]);
    LexTotal(hs[i].0, hs[i + 1].0);
  }

  lemma {:induction false} LookupFinds(hs: seq<Header>, name: string, value: string)
    requires NamesDiffer(hs)
    ensures Lookup(hs, name) == Some(value) <==> (name, value) in hs
    decreases |hs|
  {
    if hs != [] {
      assert hs == [hs[0]] + hs[1..];
      LookupFinds(hs[1..], name, value);
      assert forall i :: 0 < i < |hs| ==> hs[i].0 != hs[0].0;
    }
  }

  /** A header of this name, in any case, has a value that squeezes to this. */
  ghost predicate Says(headers: seq<Header>, name: string, value: string) {
    exists i :: 0 <= i < |headers| && Lower(headers[i].0) == name && Squeeze(IsBlank, headers[i].1) == value
  }

  lemma SaysNormalized(headers: seq<Header>, name: string, value: string)
    ensures Says(headers, name, value) <==> (name, value) in Map(NormalizeHeader, headers)
  {
    var normalized := Map(NormalizeHeader, headers);
    assert forall i :: 0 <= i < |headers| ==> normalized[i] == NormalizeHeader(headers[i]);
    if Says(headers, name, value) {
      var i :| 0 <= i < |headers| && Lower(headers[i].0) == name && Squeeze(IsBlank, headers[i].1) == value;
      assert normalized[i] == (name, value);
    }
    if (name, value) in normalized {
      var i :| 0 <= i < |normalized| && normalized[i] == (name, value);
      assert NormalizeHeader(headers[i]) == (name, value);
    }
  }

  /** Headers that can be signed: token names, none `authorization`, no two alike but for case, values
      without control characters, and a host, the payload's hash and a real date among them. */
  ghost predicate Signable(headers: seq<Header>, payload: string) {
    && (forall h :: h in headers ==> IsToken(h.0) && Lower(h.0) != "authorization" && !HasControl(h.1))
    && (forall i, j :: 0 <= i < j < |headers| ==> Lower(headers[i].0) != Lower(headers[j].0))
    && (exists host :: host != "" && Says(headers, "host", host))
    && Says(headers, "x-amz-content-sha256", payload)
    && (exists date :: IsTimestamp(date) && Says(headers, "x-amz-date", date))
  }

  lemma NamesFolded(headers: seq<Header>)
    ensures NamesDiffer(Map(NormalizeHeader, headers))
       <==> forall i, j :: 0 <= i < j < |headers| ==> Lower(headers[i].0) != Lower(headers[j].0)
  {
    var normalized := Map(NormalizeHeader, headers);
    assert forall i :: 0 <= i < |headers| ==> normalized[i] == NormalizeHeader(headers[i]);
    if NamesDiffer(normalized) {
      forall i, j | 0 <= i < j < |headers| ensures Lower(headers[i].0) != Lower(headers[j].0) {
        assert normalized[i].0 != normalized[j].0;
      }
    }
  }

  /** In the sorted list a name is looked up to the value its header has. */
  lemma SortedSays(headers: seq<Header>, name: string, value: string)
    requires NamesDiffer(Sort(Map(NormalizeHeader, headers), PairLeq))
    ensures Lookup(Sort(Map(NormalizeHeader, headers), PairLeq), name) == Some(value) <==> Says(headers, name, value)
  {
    var normalized := Map(NormalizeHeader, headers);
    var sorted := Sort(normalized, PairLeq);
    LookupFinds(sorted, name, value);
    SaysNormalized(headers, name, value);
    InMultiset(sorted, (name, value));
    InMultiset(normalized, (name, value));
  }

  /** What the checks ask of the sorted list. */
  ghost predicate Checked(headers: seq<Header>, payload: string, sorted: seq<Header>) {
    && NamesDiffer(sorted)
    && (exists host :: host != "" && Lookup(sorted, "host") == Some(host))
    && Lookup(sorted, "x-amz-content-sha256") == Some(payload)
    && (exists date :: IsTimestamp(date) && Lookup(sorted, "x-amz-date") == Some(date))
  }

  lemma ChecksPass(headers: seq<Header>, payload: string, sorted: seq<Header>)
    requires SortedBy(sorted, PairLeq)
    ensures CheckHeaders(sorted, payload).Ok? <==> Checked(headers, payload, sorted)
  {
    SortedDistinct(sorted);
  }

  lemma CheckedMeans(headers: seq<Header>, payload: string)
    ensures var sorted := Sort(Map(NormalizeHeader, headers), PairLeq);
            Checked(headers, payload, sorted)
            <==> && (forall i, j :: 0 <= i < j < |headers| ==> Lower(headers[i].0) != Lower(headers[j].0))
                 && (exists host :: host != "" && Says(headers, "host", host))
                 && Says(headers, "x-amz-content-sha256", payload)
                 && (exists date :: IsTimestamp(date) && Says(headers, "x-amz-date", date))
  {
    var normalized := Map(NormalizeHeader, headers);
    var sorted := Sort(normalized, PairLeq);
    DistinctPermuted(sorted, normalized);
    NamesFolded(headers);
    if NamesDiffer(sorted) {
      forall value ensures Lookup(sorted, "host") == Some(value) <==> Says(headers, "host", value) {
        SortedSays(headers, "host", value);
      }
      forall value ensures Lookup(sorted, "x-amz-date") == Some(value) <==> Says(headers, "x-amz-date", value) {
        SortedSays(headers, "x-amz-date", value);
      }
      SortedSays(headers, "x-amz-content-sha256", payload);
    }
  }

  lemma HeadersAcceptedExactly(headers: seq<Header>, payload: string)
    ensures CanonicalHeaders(headers, payload).Ok? <==> Signable(headers, payload)
  {
    NoneInvalid(headers);
    var normalized := Map(NormalizeHeader, headers);
    PairOrder();
    SortSorts(normalized, PairLeq);
    ChecksPass(headers, payload, Sort(normalized, PairLeq));
    CheckedMeans(headers, payload);
  }

  /** 64 lower-case hexadecimal digits. */
  predicate GoodHash(payload: string) {
    |payload| == 64 && forall i :: 0 <= i < 64 ==> payload[i] in "0123456789abcdef"
  }

  /** A token of at most 64 characters. */
  predicate GoodMethod(httpMethod: string) {
    0 < |httpMethod| <= 64 && forall i :: 0 <= i < |httpMethod| ==> IsTokenByte(httpMethod[i])
  }

  /** No control character, no fragment, and a path that is empty or starts with a slash. */
  predicate GoodUri(uri: string) {
    !HasControl(uri) && '\t' !in uri && '#' !in uri && (uri == "" || uri[0] == '?' || uri[0] == '/')
  }

  /** A request has a canonical text exactly when its hash, method and URI are good and its headers can
      be signed; the first of these to fail gives the error. */
  lemma AcceptedExactly(r: Request)
    ensures Canonicalize(r).Ok?
       <==> GoodHash(r.payload) && GoodMethod(r.httpMethod) && GoodUri(r.uri) && Signable(r.headers, r.payload)
    ensures !GoodHash(r.payload) ==> Canonicalize(r) == Err(PayloadHashMismatch)
    ensures GoodHash(r.payload) && !GoodMethod(r.httpMethod) ==> Canonicalize(r) == Err(InvalidMethod)
    ensures GoodHash(r.payload) && GoodMethod(r.httpMethod) && !GoodUri(r.uri) ==> Canonicalize(r) == Err(InvalidUri)
  {
    HashDigits(r.payload);
    UriStart(r.uri);
    assert GoodMethod(r.httpMethod) <==> IsMethod(r.httpMethod);
    HeadersAcceptedExactly(r.headers, r.payload);
  }

  lemma UriStart(uri: string)
    ensures GoodUri(uri) <==> IsUri(uri)
  {
    assert uri != "" ==> SplitOnce(uri, '?').0 == "" || SplitOnce(uri, '?').0[0] == uri[0];
  }

  ghost predicate Named(headers: seq<Header>, name: string) {
    exists value :: Says(headers, name, value)
  }

  /** Why headers that are valid one by one are refused: the first of these that applies. */
  lemma HeadersRefusedFor(headers: seq<Header>, payload: string)
    requires FirstInvalid(headers).None? && !Signable(headers, payload)
    ensures CanonicalHeaders(headers, payload)
         == Err(if exists i, j :: 0 <= i < j < |headers| && Lower(headers[i].0) == Lower(headers[j].0) then DuplicateHeader
                else if !Named(headers, "host") then MissingRequiredHeader
                else if Says(headers, "host", "") then InvalidHeader
                else if !Named(headers, "x-amz-content-sha256") then MissingRequiredHeader
                else if !Says(headers, "x-amz-content-sha256", payload) then PayloadHashMismatch
                else if !Named(headers, "x-amz-date") then MissingRequiredHeader
                else InvalidTimestamp)
  {
    var normalized := Map(NormalizeHeader, headers);
    var sorted := Sort(normalized, PairLeq);
    PairOrder();
    SortSorts(normalized, PairLeq);
    SortedDistinct(sorted);
    DistinctPermuted(sorted, normalized);
    NamesFolded(headers);
    HeadersAcceptedExactly(headers, payload);
    if NamesDiffer(sorted) {
      NamedIsFound(headers, "host");
      NamedIsFound(headers, "x-amz-content-sha256");
      NamedIsFound(headers, "x-amz-date");
      SortedSays(headers, "host", "");
      SortedSays(headers, "x-amz-content-sha256", payload);
    }
  }

  lemma NamedIsFound(headers: seq<Header>, name: string)
    requires NamesDiffer(Sort(Map(NormalizeHeader, headers), PairLeq))
    ensures Lookup(Sort(Map(NormalizeHeader, headers), PairLeq), name).Some? <==> Named(headers, name)
  {
    var found := Lookup(Sort(Map(NormalizeHeader, headers), PairLeq), name);
    if found.Some? {
      SortedSays(headers, name, found.value);
    }
    if Named(headers, name) {
      var value :| Says(headers, name, value);
      SortedSays(headers, name, value);
    }
  }

  lemma {:induction false} FirstInvalidAt(headers: seq<Header>, i: nat)
    requires i < |headers| && !ValidHeader(headers[i]) && forall j :: 0 <= j < i ==> ValidHeader(headers[j])
    ensures FirstInvalid(headers) == Some(HeaderError(headers[i]))
  {
    if i > 0 {
      FirstInvalidAt(headers[1..], i - 1);
    }
  }

  /** A header that cannot be signed alone: the first one gives the error. */
  lemma FirstBadHeader(headers: seq<Header>, payload: string, i: nat)
    requires i < |headers| && !ValidHeader(headers[i]) && forall j :: 0 <= j < i ==> ValidHeader(headers[j])
    ensures CanonicalHeaders(headers, payload)
         == Err(if IsToken(headers[i].0) && Lower(headers[i].0) == "authorization" then UnsupportedHeader else InvalidHeader)
  {
    FirstInvalidAt(headers, i);
  }

  /** The same character, or the same ASCII letter in the other case. */
  predicate SameLetter(x: char, y: char) {
    || x == y
    || ('A' <= x <= 'Z' && x as int + 32 == y as int)
    || ('a' <= x <= 'z' && x as int - 32 == y as int)
  }

  predicate SameButCase(a: string, b: string) {
    |a| == |b| && forall i :: 0 <= i < |a| ==> SameLetter(a[i], b[i])
  }

  lemma FoldsLetter(x: char, y: char)
    ensures LowerByte(x) == LowerByte(y) <==> SameLetter(x, y)
  {
  }

  lemma FoldsAt(a: string, b: string, i: nat)
    requires |a| == |b| && i < |a|
    ensures Lower(a)[i] == Lower(b)[i] <==> SameLetter(a[i], b[i])
  {
    FoldsLetter(a[i], b[i]);
  }

  /** Names fold alike exactly when they differ in case alone. */
  lemma FoldsCase(a: string, b: string)
    ensures Lower(a) == Lower(b) <==> SameButCase(a, b)
  {
    assert |Lower(a)| == |a| && |Lower(b)| == |b|;
    if |a| == |b| {
      forall i | 0 <= i < |a|
        ensures Lower(a)[i] == Lower(b)[i] <==> SameLetter(a[i], b[i])
      {
        FoldsAt(a, b, i);
      }
    }
  }

  lemma HashDigits(payload: string)
    ensures IsPayloadHash(payload) <==> GoodHash(payload)
  {
    if |payload| == 64 {
      forall i | 0 <= i < 64 ensures IsLowerHex(payload[i]) <==> payload[i] in "0123456789abcdef" {
        HashDigit(payload[i]);
      }
    }
  }

  lemma HashDigit(c: char)
    ensures IsLowerHex(c) <==> c in "0123456789abcdef"
  {
    if '0' <= c <= '9' {
      assert "0123456789abcdef"[c as int - '0' as int] == c;
    } else if 'a' <= c <= 'f' {
      assert "0123456789abcdef"[c as int - 'a' as int + 10] == c;
    }
  }
}
