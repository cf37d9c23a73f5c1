/** The canonical request text, and what two requests with the same text have in common. */
module SigV4Request {
  import opened Common
  import opened Sorting
  import opened Text
  import opened SigV4Encoding
  import opened SigV4Query
  import opened SigV4Headers

  datatype Request = Request(httpMethod: string, uri: string, headers: seq<Header>, payload: string)

  predicate IsLowerHex(c: char) {
    '0' <= c <= '9' || 'a' <= c <= 'f'
  }

  predicate IsPayloadHash(s: string) {
    |s| == 64 && forall i :: 0 <= i < |s| ==> IsLowerHex(s[i])
  }

  predicate IsMethod(s: string) {
    IsToken(s) && |s| <= 64
  }

  function RawPath(uri: string): string {
    if SplitOnce(uri, '?').0 == "" then "/" else SplitOnce(uri, '?').0
  }

  function RawQuery(uri: string): string {
    SplitOnce(uri, '?').1
  }

  predicate StartsWithSlash(s: string) {
    s != "" && s[0] == '/'
  }

  predicate IsUri(uri: string) {
    !HasControl(uri) && '\t' !in uri && '#' !in uri && StartsWithSlash(RawPath(uri))
  }

  function CanonicalUriAndQuery(uri: string): Result<(string, string), ErrorKind> {
    if IsUri(uri) then Ok((PercentEncode(RawPath(uri), true, true), CanonicalQuery(RawQuery(uri))))
    else Err(InvalidUri)
  }

  function HeaderLine(h: Header): string {
    h.0 + [':'] + (h.1 + ['\n'])
  }

  function HeaderLines(hs: seq<Header>): string {
    Flat(Map(HeaderLine, hs))
  }

  /** The name of header `i` with the separator before it. */
  function SignedName(hs: seq<Header>, i: nat): string
    requires i < |hs|
  {
    (if i != 0 then [';'] else []) + hs[i].0
  }

  function SignedNames(hs: seq<Header>): string {
    if hs == [] then "" else SignedNames(hs[..|hs| - 1]) + SignedName(hs, |hs| - 1)
  }

  function CanonicalText(httpMethod: string, path: string, query: string, hs: seq<Header>, payload: string): string {
    httpMethod + ['\n'] + (path + ['\n'] + (query + ['\n'] + (HeaderLines(hs) + (['\n'] + (SignedNames(hs) + (['\n'] + payload))))))
  }

  function Canonicalize(r: Request): Result<string, ErrorKind> {
    if !IsPayloadHash(r.payload) then Err(PayloadHashMismatch)
    else if !IsMethod(r.httpMethod) then Err(InvalidMethod)
    else if !IsUri(r.uri) then Err(InvalidUri)
    else
      var hs := CanonicalHeaders(r.headers, r.payload);
      if hs.Err? then Err(hs.error)
      else
        Ok(CanonicalText(r.httpMethod, PercentEncode(RawPath(r.uri), true, true), CanonicalQuery(RawQuery(r.uri)),
                         hs.value, r.payload))
  }

  lemma NextHeader(hs: seq<Header>, h: Header)
    ensures HeaderLines(hs + [h]) == HeaderLines(hs) + HeaderLine(h)
    ensures SignedNames(hs + [h]) == (if hs == [] then SignedNames(hs) else SignedNames(hs) + [';']) + h.0
  {
    MapConcat(HeaderLine, hs, [h]);
    MapOne(HeaderLine, h);
    FlatAppend(Map(HeaderLine, hs), HeaderLine(h));
    assert (hs + [h])[..|hs|] == hs;
  }

  /** Builds the text, growing the header lines and the list of signed names together. */
  method CanonicalizeRequest(r: Request) returns (text: Result<string, ErrorKind>)
    ensures text == Canonicalize(r)
  {
    if !IsPayloadHash(r.payload) {
      return Err(PayloadHashMismatch);
    }
    if !IsMethod(r.httpMethod) {
      return Err(InvalidMethod);
    }
    var uri := CanonicalUriAndQuery(r.uri);
    if uri.Err? {
      return Err(uri.error);
    }
    var normalized := NormalizeHeaders(r.headers, r.payload);
    if normalized.Err? {
      return Err(normalized.error);
    }
    var lines, signed := WriteHeaders(normalized.value);
    var body := lines + (['\n'] + (signed + (['\n'] + r.payload)));
    return Ok(r.httpMethod + ['\n'] + (uri.value.0 + ['\n'] + (uri.value.1 + ['\n'] + body)));
  }

  method WriteHeaders(headers: seq<Header>) returns (lines: string, signed: string)
    ensures lines == HeaderLines(headers) && signed == SignedNames(headers)
  {
    lines, signed := "", "";
    for index := 0 to |headers|
      invariant lines == HeaderLines(headers[..index])
      invariant signed == SignedNames(headers[..index])
    {
      NextHeader(headers[..index], headers[index]);
      assert headers[..index + 1] == headers[..index] + [headers[index]];
      if index != 0 {
        signed := signed + [';'];
      }
      signed := signed + headers[index].0;
      lines := lines + HeaderLine(headers[index]);
    }
    assert headers[..|headers|] == headers;
  }

  // -------------------------------------------------- the text determines its parts

  predicate Printable(h: Header) {
    h.0 != "" && Free(h.0, ':') && Free(h.0, '\n') && Free(h.1, '\n')
  }

  lemma LinesFromFront(hs: seq<Header>)
    requires hs != []
    ensures HeaderLines(hs) == HeaderLine(hs[0]) + HeaderLines(hs[1..])
  {
    FlatFromFront(Map(HeaderLine, hs));
    assert Map(HeaderLine, hs)[1..] == Map(HeaderLine, hs[1..]);
  }

  lemma FirstLineIsReadable(h: Header, g: Header, x: string, y: string)
    requires Printable(h) && Printable(g) && HeaderLine(h) + x == HeaderLine(g) + y
    ensures h == g && x == y
  {
    assert HeaderLine(h) + x == h.0 + [':'] + (h.1 + ['\n'] + x);
    assert HeaderLine(g) + y == g.0 + [':'] + (g.1 + ['\n'] + y);
    CutIsUnique(h.0, h.1 + ['\n'] + x, g.0, g.1 + ['\n'] + y, ':');
    CutIsUnique(h.1, x, g.1, y, '\n');
  }

  lemma LineIsNotEmpty(hs: seq<Header>, x: string, y: string)
    requires hs != [] && Printable(hs[0])
    ensures HeaderLines(hs) + (['\n'] + x) != ['\n'] + y
  {
    LinesFromFront(hs);
    assert (HeaderLines(hs) + (['\n'] + x))[0] == hs[0].0[0];
  }

  lemma FirstHeaderIsReadable(a: seq<Header>, b: seq<Header>, x: string, y: string)
    requires a != [] && b != [] && Printable(a[0]) && Printable(b[0])
    requires HeaderLines(a) + (['\n'] + x) == HeaderLines(b) + (['\n'] + y)
    ensures a[0] == b[0] && HeaderLines(a[1..]) + (['\n'] + x) == HeaderLines(b[1..]) + (['\n'] + y)
  {
    LinesFromFront(a);
    LinesFromFront(b);
    var ra, rb := HeaderLines(a[1..]) + (['\n'] + x), HeaderLines(b[1..]) + (['\n'] + y);
    assert HeaderLines(a) + (['\n'] + x) == HeaderLine(a[0]) + ra;
    assert HeaderLines(b) + (['\n'] + y) == HeaderLine(b[0]) + rb;
    FirstLineIsReadable(a[0], b[0], ra, rb);
  }

  /** Header lines followed by an empty line are read back without ambiguity. */
  lemma {:induction false} LinesAreReadable(a: seq<Header>, b: seq<Header>, x: string, y: string)
    requires forall i :: 0 <= i < |a| ==> Printable(a[i])
    requires forall i :: 0 <= i < |b| ==> Printable(b[i])
    requires HeaderLines(a) + (['\n'] + x) == HeaderLines(b) + (['\n'] + y)
    ensures a == b && x == y
    decreases |a| + |b|
  {
    if a == [] && b == [] {
      assert "" + (['\n'] + x) == ['\n'] + x && "" + (['\n'] + y) == ['\n'] + y;
      assert x == (['\n'] + x)[1..] == (['\n'] + y)[1..] == y;
    } else if a == [] {
      assert "" + (['\n'] + x) == ['\n'] + x;
      LineIsNotEmpty(b, y, x);
    } else if b == [] {
      assert "" + (['\n'] + y) == ['\n'] + y;
      LineIsNotEmpty(a, x, y);
    } else {
      FirstHeaderIsReadable(a, b, x, y);
      LinesAreReadable(a[1..], b[1..], x, y);
      assert a == [a[0]] + a[1..] && b == [b[0]] + b[1..];
    }
  }

  lemma TextIsReadable(m: string, p: string, q: string, hs: seq<Header>, payload: string,
                       n: string, r: string, s: string, gs: seq<Header>, other: string)
    requires Free(m, '\n') && Free(p, '\n') && Free(q, '\n') && forall h :: h in hs ==> Printable(h)
    requires Free(n, '\n') && Free(r, '\n') && Free(s, '\n') && forall h :: h in gs ==> Printable(h)
    requires CanonicalText(m, p, q, hs, payload) == CanonicalText(n, r, s, gs, other)
    ensures m == n && p == r && q == s && hs == gs && payload == other
  {
    var endA, endB := SignedNames(hs) + (['\n'] + payload), SignedNames(gs) + (['\n'] + other);
    var linesA, linesB := HeaderLines(hs) + (['\n'] + endA), HeaderLines(gs) + (['\n'] + endB);
    CutIsUnique(m, p + ['\n'] + (q + ['\n'] + linesA), n, r + ['\n'] + (s + ['\n'] + linesB), '\n');
    CutIsUnique(p, q + ['\n'] + linesA, r, s + ['\n'] + linesB, '\n');
    CutIsUnique(q, linesA, s, linesB, '\n');
    LinesAreReadable(hs, gs, endA, endB);
    assert payload == endA[|SignedNames(hs)| + 1..] == endB[|SignedNames(gs)| + 1..] == other;
  }

  lemma TokenIsFree(s: string)
    requires IsToken(s)
    ensures Free(s, '\n') && Free(Lower(s), '\n') && Free(Lower(s), ':') && Lower(s) != ""
  {
    var low := Lower(s);
    assert |low| == |s|;
    forall i | 0 <= i < |s| ensures s[i] != '\n' && low[i] != '\n' && low[i] != ':' {
      assert IsTokenByte(s[i]) && low[i] == LowerByte(s[i]);
    }
  }

  lemma ValidHeaderPrints(h: Header)
    requires ValidHeader(h)
    ensures Printable(NormalizeHeader(h))
  {
    TokenIsFree(h.0);
    SqueezeAddsNoNewline(h.1);
  }

  lemma AcceptedHeadersPrint(r: Request)
    requires CanonicalHeaders(r.headers, r.payload).Ok?
    ensures forall h :: h in CanonicalHeaders(r.headers, r.payload).value ==> Printable(h)
  {
    AcceptedIsSorted(r.headers, r.payload);
    NoneInvalid(r.headers);
    var normalized := Map(NormalizeHeader, r.headers);
    forall h | h in Sort(normalized, PairLeq) ensures Printable(h) {
      assert h in multiset(Sort(normalized, PairLeq));
      var i :| 0 <= i < |normalized| && normalized[i] == h;
      assert r.headers[i] in r.headers;
      ValidHeaderPrints(r.headers[i]);
    }
  }

  lemma CanonicalPartsAreLines(uri: string)
    ensures Free(PercentEncode(RawPath(uri), true, true), '\n')
    ensures Free(CanonicalQuery(RawQuery(uri)), '\n')
  {
    OutputBytes(RawPath(uri), true, true);
    CanonicalQueryText(RawQuery(uri));
  }

  /** Accepted requests have the same text exactly when they have the same method, canonical
      path, canonical query, canonical headers and payload hash. */
  lemma TextAgreesOnParts(a: Request, b: Request)
    requires Canonicalize(a).Ok? && Canonicalize(b).Ok?
    ensures Canonicalize(a) == Canonicalize(b)
       <==> && a.httpMethod == b.httpMethod && a.payload == b.payload
            && CanonicalUriAndQuery(a.uri) == CanonicalUriAndQuery(b.uri)
            && CanonicalHeaders(a.headers, a.payload).value == CanonicalHeaders(b.headers, b.payload).value
  {
    if Canonicalize(a) == Canonicalize(b) {
      AcceptedHeadersPrint(a);
      AcceptedHeadersPrint(b);
      CanonicalPartsAreLines(a.uri);
      CanonicalPartsAreLines(b.uri);
      TokenIsFree(a.httpMethod);
      TokenIsFree(b.httpMethod);
      TextIsReadable(
        a.httpMethod, PercentEncode(RawPath(a.uri), true, true), CanonicalQuery(RawQuery(a.uri)),
        CanonicalHeaders(a.headers, a.payload).value, a.payload,
        b.httpMethod, PercentEncode(RawPath(b.uri), true, true), CanonicalQuery(RawQuery(b.uri)),
        CanonicalHeaders(b.headers, b.payload).value, b.payload);
    }
  }

  /** Requests that differ at most in what signing must ignore: how bytes of the path and the
      query are escaped, the order of query pairs, the order and case of headers, blanks in values. */
  ghost predicate SameRequest(a: Request, b: Request) {
    && a.httpMethod == b.httpMethod && a.payload == b.payload
    && Meaning(RawPath(a.uri), true) == Meaning(RawPath(b.uri), true)
    && QueryMeaning(RawQuery(a.uri)) == QueryMeaning(RawQuery(b.uri))
    && multiset(Map(HeaderMeaning, a.headers)) == multiset(Map(HeaderMeaning, b.headers))
  }

  /** The canonical text identifies accepted requests exactly up to those differences. */
  lemma TextIsMeaning(a: Request, b: Request)
    requires Canonicalize(a).Ok? && Canonicalize(b).Ok? && IsBytes(a.uri) && IsBytes(b.uri)
    ensures Canonicalize(a) == Canonicalize(b) <==> SameRequest(a, b)
  {
    TextAgreesOnParts(a, b);
    SplitOnceIsBytes(a.uri, '?');
    SplitOnceIsBytes(b.uri, '?');
    NormalFormIsMeaning(RawPath(a.uri), RawPath(b.uri), true);
    QueryNormalForm(RawQuery(a.uri), RawQuery(b.uri));
    HeaderNormalForm(a.headers, b.headers, a.payload, b.payload);
  }

  /** Headers reordered, with names in any case: still accepted, with the same text. */
  lemma HeaderOrderAndCase(r: Request, headers: seq<Header>)
    requires Canonicalize(r).Ok? && multiset(Map(FoldName, headers)) == multiset(Map(FoldName, r.headers))
    ensures Canonicalize(r.(headers := headers)) == Canonicalize(r)
  {
    HeadersIgnoreOrderAndCase(r.headers, headers, r.payload);
  }

  lemma SlashStaysFirst(path: string)
    requires StartsWithSlash(path)
    ensures StartsWithSlash(PercentEncode(path, true, true))
  {
    assert !StartsWithEscape(path);
  }

  lemma OutputIsUri(path: string, query: string)
    requires AllOutput(path, true) && IsQueryText(query) && StartsWithSlash(path)
    ensures IsUri(path + ['?'] + query)
    ensures RawPath(path + ['?'] + query) == path && RawQuery(path + ['?'] + query) == query
  {
    SplitOnceAt(path, query, '?');
    var whole := path + ['?'] + query;
    forall i | 0 <= i < |whole|
      ensures whole[i] as int >= 32 && whole[i] as int < 127 && whole[i] != '#'
    {
    }
  }

  /** A canonical path and query, put back together, canonicalise to themselves. */
  lemma CanonicalUriIdempotent(uri: string)
    requires IsUri(uri) && IsBytes(uri)
    ensures var (path, query) := CanonicalUriAndQuery(uri).value;
            CanonicalUriAndQuery(path + ['?'] + query) == Ok((path, query))
  {
    SplitOnceIsBytes(uri, '?');
    OutputBytes(RawPath(uri), true, true);
    CanonicalQueryText(RawQuery(uri));
    SlashStaysFirst(RawPath(uri));
    OutputIsUri(PercentEncode(RawPath(uri), true, true), CanonicalQuery(RawQuery(uri)));
    EncodeIdempotent(RawPath(uri), true);
    CanonicalQueryIdempotent(RawQuery(uri));
  }
}
