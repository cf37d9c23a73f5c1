/** Canonical headers: names folded, values squeezed, sorted, required ones present. */
module SigV4Headers {
  import opened Common
  import opened Sorting
  import opened Text
  import opened WordList

  datatype ErrorKind =
    | InvalidMethod | InvalidUri | InvalidTimestamp | InvalidHeader | DuplicateHeader
    | MissingRequiredHeader | PayloadHashMismatch | UnsupportedHeader

  predicate IsAlphanumeric(c: char) {
    IsDigit(c) || 'a' <= c <= 'z' || 'A' <= c <= 'Z'
  }

  predicate IsTokenByte(c: char) {
    IsAlphanumeric(c) || c in "!#$%&'*+-.^_`|~"
  }

  predicate IsToken(s: string) {
    s != [] && forall i :: 0 <= i < |s| ==> IsTokenByte(s[i])
  }

  function LowerByte(c: char): char {
    if 'A' <= c <= 'Z' then (c as int + 32) as char else c
  }

  function Lower(s: string): string {
    Map(LowerByte, s)
  }

  // ------------------------------------------------------------ header values

  predicate IsBlank(c: char) {
    c == ' ' || c == '\t'
  }

  /** A control character other than a tab, in UTF-8: C0, delete, or C1 (two bytes from C2 80). */
  predicate HasControl(s: string) {
    exists i :: 0 <= i < |s| &&
      (|| (s[i] as int < 32 && s[i] != '\t') || s[i] as int == 127
       || (s[i] as int == 0xC2 && i + 1 < |s| && 0x80 <= s[i + 1] as int <= 0x9F))
  }

  method NormalizeHeaderValue(value: string) returns (r: Result<string, ErrorKind>)
    ensures r == if HasControl(value) then Err(InvalidHeader) else Ok(Squeeze(IsBlank, value))
  {
    if HasControl(value) {
      return Err(InvalidHeader);
    }
    var normalized := "";
    var pendingSpace := false;
    for i := 0 to |value|
      invariant normalized == Squeeze(IsBlank, value[..i])
      invariant pendingSpace <==> EndsBlank(IsBlank, value[..i]) && normalized != ""
    {
      assert value[..i + 1] == value[..i] + [value[i]];
      SqueezeStep(IsBlank, value[..i], value[i]);
      var character := value[i];
      if IsBlank(character) {
        if normalized != "" {
          pendingSpace := true;
        }
      } else {
        if pendingSpace {
          normalized := normalized + [' '];
          pendingSpace := false;
        }
        normalized := normalized + [character];
      }
    }
    assert value[..|value|] == value;
    return Ok(normalized);
  }

  lemma {:induction false} SqueezeAddsNoNewline(s: string)
    requires Free(s, '\n')
    ensures Free(Squeeze(IsBlank, s), '\n')
  {
    if s == [] {
      assert Squeeze(IsBlank, s) == "";
    } else {
      var init, c := s[..|s| - 1], s[|s| - 1];
      SqueezeAddsNoNewline(init);
      SqueezeStep(IsBlank, init, c);
      assert s == init + [c];
    }
  }

  // ------------------------------------------------------------------ headers

  type Header = (string, string)

  predicate ValidHeader(h: Header) {
    IsToken(h.0) && Lower(h.0) != "authorization" && !HasControl(h.1)
  }

  function NormalizeHeader(h: Header): Header {
    (Lower(h.0), Squeeze(IsBlank, h.1))
  }

  /** The error of the first header that cannot be signed. */
  function HeaderError(h: Header): ErrorKind {
    if IsToken(h.0) && Lower(h.0) == "authorization" then UnsupportedHeader else InvalidHeader
  }

  function Lookup(hs: seq<Header>, name: string): Option<string> {
    if hs == [] then None
    else if hs[0].0 == name then Some(hs[0].1)
    else Lookup(hs[1..], name)
  }

  predicate AdjacentNamesDiffer(hs: seq<Header>) {
    forall i :: 0 <= i < |hs| - 1 ==> hs[i].0 != hs[i + 1].0
  }

  function DaysInMonth(year: nat, month: nat): nat {
    if month == 2 then (if year % 400 == 0 || (year % 4 == 0 && year % 100 != 0) then 29 else 28)
    else if month == 4 || month == 6 || month == 9 || month == 11 then 30 else 31
  }

  function DigitAt(s: string, i: nat): nat
    requires i < |s| && IsDigit(s[i])
  {
    s[i] as int - '0' as int
  }

  /** `YYYYMMDDTHHMMSSZ` naming a real date and time of day. */
  predicate IsTimestamp(s: string) {
    && |s| == 16 && s[8] == 'T' && s[15] == 'Z'
    && (forall i :: 0 <= i < 8 ==> IsDigit(s[i])) && (forall i :: 9 <= i < 15 ==> IsDigit(s[i]))
    && var year := DigitAt(s, 0) * 1000 + DigitAt(s, 1) * 100 + DigitAt(s, 2) * 10 + DigitAt(s, 3);
       var month := DigitAt(s, 4) * 10 + DigitAt(s, 5);
       var day := DigitAt(s, 6) * 10 + DigitAt(s, 7);
       && DigitAt(s, 9) * 10 + DigitAt(s, 10) <= 23
       && DigitAt(s, 11) * 10 + DigitAt(s, 12) <= 59
       && DigitAt(s, 13) * 10 + DigitAt(s, 14) <= 59
       && 1 <= month <= 12 && 1 <= day <= DaysInMonth(year, month)
  }

  /** The checks on the normalised, sorted headers. */
  function CheckHeaders(hs: seq<Header>, payload: string): Result<seq<Header>, ErrorKind> {
    if !AdjacentNamesDiffer(hs) then Err(DuplicateHeader)
    else if Lookup(hs, "host").None? then Err(MissingRequiredHeader)
    else if Lookup(hs, "host") == Some("") then Err(InvalidHeader)
    else if Lookup(hs, "x-amz-content-sha256").None? then Err(MissingRequiredHeader)
    else if Lookup(hs, "x-amz-content-sha256") != Some(payload) then Err(PayloadHashMismatch)
    else if Lookup(hs, "x-amz-date").None? then Err(MissingRequiredHeader)
    else if !IsTimestamp(Lookup(hs, "x-amz-date").value) then Err(InvalidTimestamp)
    else Ok(hs)
  }

  function FirstInvalid(headers: seq<Header>): Option<ErrorKind> {
    if headers == [] then None
    else if !ValidHeader(headers[0]) then Some(HeaderError(headers[0]))
    else FirstInvalid(headers[1..])
  }

  function CanonicalHeaders(headers: seq<Header>, payload: string): Result<seq<Header>, ErrorKind> {
    if FirstInvalid(headers).Some? then Err(FirstInvalid(headers).value)
    else CheckHeaders(Sort(Map(NormalizeHeader, headers), PairLeq), payload)
  }

  /** Normalises in order and stops at the first bad header, then sorts and checks. */
  method NormalizeHeaders(headers: seq<Header>, payload: string) returns (r: Result<seq<Header>, ErrorKind>)
    ensures r == CanonicalHeaders(headers, payload)
  {
    var normalized: seq<Header> := [];
    for i := 0 to |headers|
      invariant FirstInvalid(headers) == FirstInvalid(headers[i..])
      invariant normalized == Map(NormalizeHeader, headers[..i])
    {
      var (name, value) := headers[i];
      assert headers[i..][0] == headers[i] && headers[i..][1..] == headers[i + 1..];
      if !IsToken(name) {
        return Err(InvalidHeader);
      }
      if Lower(name) == "authorization" {
        return Err(UnsupportedHeader);
      }
      var text := NormalizeHeaderValue(value);
      if text.Err? {
        return Err(text.error);
      }
      normalized := normalized + [(Lower(name), text.value)];
      assert headers[..i + 1] == headers[..i] + [headers[i]];
      MapConcat(NormalizeHeader, headers[..i], [headers[i]]);
      MapOne(NormalizeHeader, headers[i]);
    }
    assert headers[..|headers|] == headers;
    return CheckHeaders(Sort(normalized, PairLeq), payload);
  }

  // ------------------------------------------------------------------ meaning

  /** What a header says: its name without case and its value's words. */
  function HeaderMeaning(h: Header): (string, seq<string>) {
    (Lower(h.0), Words(IsBlank, h.1))
  }

  function PrintMeaning(m: (string, seq<string>)): Header {
    (m.0, Joined(m.1))
  }

  function ReadMeaning(h: Header): (string, seq<string>) {
    (h.0, Words(IsBlank, h.1))
  }

  function FoldName(h: Header): Header {
    (Lower(h.0), h.1)
  }

  lemma FoldKeepsHeader(h: Header)
    ensures Lower(Lower(h.0)) == Lower(h.0)
    ensures NormalizeHeader(FoldName(h)) == NormalizeHeader(h)
    ensures ValidHeader(FoldName(h)) <==> ValidHeader(h)
  {
    var low := Lower(h.0);
    forall i | 0 <= i < |h.0|
      ensures LowerByte(low[i]) == low[i] && (IsTokenByte(low[i]) <==> IsTokenByte(h.0[i]))
    {
      assert low[i] == LowerByte(h.0[i]);
    }
    assert Lower(low) == low;
    if IsToken(low) {
      forall i | 0 <= i < |h.0| ensures IsTokenByte(h.0[i]) {
        assert IsTokenByte(low[i]);
      }
    }
  }

  lemma {:induction false} NoneInvalid(headers: seq<Header>)
    ensures FirstInvalid(headers).None? <==> forall h :: h in headers ==> ValidHeader(h)
  {
    if headers != [] {
      NoneInvalid(headers[1..]);
      assert headers == [headers[0]] + headers[1..];
    }
  }

  /** Folding names does not change which headers are accepted or what they normalise to. */
  lemma FoldedHeaders(headers: seq<Header>)
    ensures (forall h :: h in headers ==> ValidHeader(h))
       <==> (forall h :: h in Map(FoldName, headers) ==> ValidHeader(h))
    ensures Map(NormalizeHeader, Map(FoldName, headers)) == Map(NormalizeHeader, headers)
  {
    var folded := Map(FoldName, headers);
    forall i | 0 <= i < |headers|
      ensures folded[i] == FoldName(headers[i])
      ensures NormalizeHeader(FoldName(headers[i])) == NormalizeHeader(headers[i])
      ensures ValidHeader(folded[i]) <==> ValidHeader(headers[i])
      ensures headers[i] in headers && folded[i] in folded
    {
      FoldKeepsHeader(headers[i]);
    }
    MapAgree(FoldName, NormalizeHeader, NormalizeHeader, headers);
  }

  /** Reordering headers and changing the case of their names changes nothing once all are valid. */
  lemma HeadersIgnoreOrderAndCase(a: seq<Header>, b: seq<Header>, payload: string)
    requires multiset(Map(FoldName, a)) == multiset(Map(FoldName, b))
    requires FirstInvalid(a).None?
    ensures CanonicalHeaders(b, payload) == CanonicalHeaders(a, payload)
  {
    FoldedHeaders(a);
    FoldedHeaders(b);
    NoneInvalid(a);
    NoneInvalid(b);
    var fa, fb := Map(FoldName, a), Map(FoldName, b);
    forall h | h in fb ensures ValidHeader(h) {
      assert h in multiset(fa);
    }
    MapPermuted(NormalizeHeader, fa, fb);
    SameSort(Map(NormalizeHeader, a), Map(NormalizeHeader, b));
  }

  lemma SameSort(a: seq<Header>, b: seq<Header>)
    requires multiset(a) == multiset(b)
    ensures Sort(a, PairLeq) == Sort(b, PairLeq)
  {
    PairOrder();
    SortSorts(a, PairLeq);
    SortSorts(b, PairLeq);
    SortedIsUnique(Sort(a, PairLeq), Sort(b, PairLeq), PairLeq);
  }

  lemma NormalizedMeaning(headers: seq<Header>)
    ensures Map(ReadMeaning, Map(NormalizeHeader, headers)) == Map(HeaderMeaning, headers)
    ensures Map(PrintMeaning, Map(HeaderMeaning, headers)) == Map(NormalizeHeader, headers)
  {
    forall i | 0 <= i < |headers|
      ensures ReadMeaning(NormalizeHeader(headers[i])) == HeaderMeaning(headers[i])
    {
      SqueezeNormalForm(IsBlank, headers[i].1, "");
    }
    MapAgree(NormalizeHeader, ReadMeaning, HeaderMeaning, headers);
    MapAgree(HeaderMeaning, PrintMeaning, NormalizeHeader, headers);
  }

  lemma AcceptedIsSorted(headers: seq<Header>, payload: string)
    requires CanonicalHeaders(headers, payload).Ok?
    ensures CanonicalHeaders(headers, payload).value == Sort(Map(NormalizeHeader, headers), PairLeq)
  {
  }

  lemma SortedSame(a: seq<Header>, b: seq<Header>)
    requires Sort(a, PairLeq) == Sort(b, PairLeq)
    ensures multiset(a) == multiset(b)
  {
  }

  /** Accepted header lists are canonically equal exactly when they say the same. */
  lemma HeaderNormalForm(a: seq<Header>, b: seq<Header>, pa: string, pb: string)
    requires CanonicalHeaders(a, pa).Ok? && CanonicalHeaders(b, pb).Ok?
    ensures CanonicalHeaders(a, pa).value == CanonicalHeaders(b, pb).value
       <==> multiset(Map(HeaderMeaning, a)) == multiset(Map(HeaderMeaning, b))
  {
    var na, nb := Map(NormalizeHeader, a), Map(NormalizeHeader, b);
    AcceptedIsSorted(a, pa);
    AcceptedIsSorted(b, pb);
    NormalizedMeaning(a);
    NormalizedMeaning(b);
    if Sort(na, PairLeq) == Sort(nb, PairLeq) {
      SortedSame(na, nb);
      MapPermuted(ReadMeaning, na, nb);
    }
    if multiset(Map(HeaderMeaning, a)) == multiset(Map(HeaderMeaning, b)) {
      MapPermuted(PrintMeaning, Map(HeaderMeaning, a), Map(HeaderMeaning, b));
      SameSort(na, nb);
    }
  }
}
