/**
 HMAC authentication of internal requests. The hash and the MAC are parameters;
 text is a string of bytes, and a header that is not UTF-8 is `None`.
 */
module RequestAuth {
  import opened Common
  import opened Text
  import opened Numerals
  import opened ReplayGuard

  /** SHA-256 and HMAC-SHA-256, of which only the 32-byte length of the tag is used. */
  datatype Crypto = Crypto(sha256: string -> string, hmac: (string, string) -> string)

  ghost predicate Sized(c: Crypto) {
    forall key, text :: |c.hmac(key, text)| == 32 && IsBytes(c.hmac(key, text))
  }

  datatype AuthError =
    | EmptySecret | NonUtf8Header(header: string) | InvalidTimestamp | TimestampOutsideAllowedSkew
    | InvalidNonce | InvalidSignatureEncoding | InvalidSignature | NonceReplay

  const MAX_SKEW: int := 60

  // ---------------------------------------------------------------- hexadecimal

  function HexChar(v: nat): (c: char)
    requires v < 16
  {
    if v < 10 then ('0' as int + v) as char else ('a' as int + v - 10) as char
  }

  function HexDigit(c: char): (v: Option<nat>)
    ensures v.Some? ==> v.value < 16
  {
    if '0' <= c <= '9' then Some(c as int - '0' as int)
    else if 'a' <= c <= 'f' then Some(c as int - 'a' as int + 10)
    else None
  }

  function ByteOf(high: nat, low: nat): (c: char)
    requires high < 16 && low < 16
    ensures c as int == 16 * high + low
  {
    (16 * high + low) as char
  }

  function LowerHex(bytes: string): string {
    if bytes == [] then ""
    else LowerHex(bytes[..|bytes| - 1])
         + [HexChar(bytes[|bytes| - 1] as int / 16 % 16), HexChar(bytes[|bytes| - 1] as int % 16)]
  }

  method EncodeHex(bytes: string) returns (text: string)
    ensures text == LowerHex(bytes)
  {
    text := "";
    for i := 0 to |bytes|
      invariant text == LowerHex(bytes[..i])
    {
      assert bytes[..i + 1][..i] == bytes[..i];
      text := text + [HexChar(bytes[i] as int / 16 % 16), HexChar(bytes[i] as int % 16)];
    }
    assert bytes[..|bytes|] == bytes;
  }

  function DecodeHex(text: string): Option<string> {
    if |text| % 2 != 0 then None
    else if text == [] then Some("")
    else
      var front := DecodeHex(text[..|text| - 2]);
      var high, low := HexDigit(text[|text| - 2]), HexDigit(text[|text| - 1]);
      if front.None? || high.None? || low.None? then None
      else Some(front.value + [ByteOf(high.value, low.value)])
  }

  method ReadHex(text: string) returns (decoded: Option<string>)
    ensures decoded == DecodeHex(text)
  {
    if |text| % 2 != 0 {
      return None;
    }
    var bytes := "";
    for i := 0 to |text| / 2
      invariant DecodeHex(text[..2 * i]) == Some(bytes)
    {
      assert text[..2 * i + 2][..2 * i] == text[..2 * i];
      var high := HexDigit(text[2 * i]);
      var low := HexDigit(text[2 * i + 1]);
      if high.None? || low.None? {
        PrefixDecodes(text, i + 1);
        return None;
      }
      bytes := bytes + [ByteOf(high.value, low.value)];
    }
    assert text[..2 * (|text| / 2)] == text;
    return Some(bytes);
  }

  /** A pair that is not hexadecimal spoils the whole. */
  lemma {:induction false} PrefixDecodes(text: string, i: nat)
    requires |text| % 2 == 0 && 2 * i <= |text| && DecodeHex(text[..2 * i]).None?
    ensures DecodeHex(text).None?
    decreases |text|
  {
    if 2 * i == |text| {
      assert text[..2 * i] == text;
    } else {
      var front := text[..|text| - 2];
      assert front[..2 * i] == text[..2 * i];
      PrefixDecodes(front, i);
    }
  }

  lemma HexPair(b: int)
    requires 0 <= b < 256
    ensures HexDigit(HexChar(b / 16 % 16)) == Some(b / 16) && HexDigit(HexChar(b % 16)) == Some(b % 16)
    ensures 16 * (b / 16) + b % 16 == b
  {
  }

  lemma DecodePair(front: string, high: char, low: char)
    requires DecodeHex(front).Some? && HexDigit(high).Some? && HexDigit(low).Some?
    ensures DecodeHex(front + [high, low])
         == Some(DecodeHex(front).value + [ByteOf(HexDigit(high).value, HexDigit(low).value)])
  {
    assert (front + [high, low])[..|front|] == front;
  }

  /** Decoding undoes encoding. */
  lemma {:induction false} HexRoundTrip(bytes: string)
    requires IsBytes(bytes)
    ensures DecodeHex(LowerHex(bytes)) == Some(bytes)
    ensures |LowerHex(bytes)| == 2 * |bytes|
  {
    if bytes != [] {
      var front, last := bytes[..|bytes| - 1], bytes[|bytes| - 1];
      HexRoundTrip(front);
      HexPair(last as int);
      DecodePair(LowerHex(front), HexChar(last as int / 16 % 16), HexChar(last as int % 16));
      assert bytes == front + [last];
    }
  }

  /** Two characters for each byte, the high half first, as the digit tables of both directions say. */
  lemma {:induction false} HexDigitsOf(bytes: string, i: nat)
    requires IsBytes(bytes) && i < |bytes|
    ensures |LowerHex(bytes)| == 2 * |bytes|
    ensures LowerHex(bytes)[2 * i] == "0123456789abcdef"[bytes[i] as int / 16]
    ensures LowerHex(bytes)[2 * i + 1] == "0123456789abcdef"[bytes[i] as int % 16]
  {
    var front := bytes[..|bytes| - 1];
    HexRoundTrip(front);
    if i < |front| {
      HexDigitsOf(front, i);
    } else {
      HexTable(bytes[i] as int);
    }
  }

  lemma HexTable(b: nat)
    requires b < 256
    ensures HexChar(b / 16 % 16) == "0123456789abcdef"[b / 16] && HexChar(b % 16) == "0123456789abcdef"[b % 16]
  {
    HexDigit16(b / 16);
    HexDigit16(b % 16);
  }

  lemma HexDigit16(v: nat)
    requires v < 16
    ensures HexChar(v) == "0123456789abcdef"[v]
  {
  }

  lemma HexPairBack(high: char, low: char)
    requires HexDigit(high).Some? && HexDigit(low).Some?
    ensures var b := 16 * HexDigit(high).value + HexDigit(low).value;
            0 <= b < 256 && HexChar(b / 16 % 16) == high && HexChar(b % 16) == low
  {
  }

  /** Only the lower-case encoding of a byte string decodes to it. */
  lemma {:induction false} HexIsCanonical(text: string)
    requires DecodeHex(text).Some?
    ensures LowerHex(DecodeHex(text).value) == text
    decreases |text|
  {
    if text != [] {
      var front := text[..|text| - 2];
      HexIsCanonical(front);
      HexPairBack(text[|text| - 2], text[|text| - 1]);
      var bytes := DecodeHex(text).value;
      assert bytes[..|bytes| - 1] == DecodeHex(front).value;
      assert text == front + [text[|text| - 2], text[|text| - 1]];
    }
  }

  // -------------------------------------------------------------------- numbers

  function Decimal(t: int): string {
    if t < 0 then ['-'] + DigitsOf(-t) else DigitsOf(t)
  }

  /** A signed 64-bit integer with an optional sign. */
  function ParseTime(s: string): Option<Time> {
    var negative := s != [] && s[0] == '-';
    var digits := if s != [] && (s[0] == '-' || s[0] == '+') then s[1..] else s;
    if digits == [] || !AllDigits(digits) then None
    else
      var value: int := if negative then 0 - NumberOf(digits) else NumberOf(digits);
      if I64_MIN <= value <= I64_MAX then Some(value) else None
  }

  /** A printed time parses to itself. */
  lemma TimeRoundTrip(t: Time)
    ensures ParseTime(Decimal(t)) == Some(t)
    ensures Free(Decimal(t), '\n')
  {
    var magnitude: int := if t < 0 then 0 - t else t;
    var digits := DigitsOf(magnitude);
    DigitsRoundTrip(magnitude);
    assert IsDigit(digits[0]);
    if t < 0 {
      assert (['-'] + digits)[1..] == digits;
    }
    assert forall i :: 0 <= i < |digits| ==> IsDigit(digits[i]) && digits[i] != '\n';
  }

  datatype Sign = Bare | Plus | Minus

  /** A sign, k zeros and the digits of n. */
  function SignedText(sign: Sign, k: nat, n: nat): string {
    match sign
    case Bare => Numeral(k, n)
    case Plus => ['+'] + Numeral(k, n)
    case Minus => ['-'] + Numeral(k, n)
  }

  function SignedValue(sign: Sign, n: nat): int {
    if sign == Minus then 0 - n else n
  }

  /** The texts that parse to a time: an optional sign, any zeros, and the digits of its magnitude. */
  ghost predicate Spells(s: string, t: Time) {
    exists sign: Sign, k: nat, n: nat :: s == SignedText(sign, k, n) && t == SignedValue(sign, n)
  }

  function SignOf(s: string): Sign {
    if s != [] && s[0] == '-' then Minus else if s != [] && s[0] == '+' then Plus else Bare
  }

  function Unsigned(s: string): string {
    if SignOf(s) == Bare then s else s[1..]
  }

  lemma SignReads(sign: Sign, k: nat, n: nat)
    ensures SignOf(SignedText(sign, k, n)) == sign && Unsigned(SignedText(sign, k, n)) == Numeral(k, n)
  {
    NumeralReads(k, n);
    assert IsDigit(Numeral(k, n)[0]);
  }

  lemma ParsesAs(s: string)
    ensures var digits := Unsigned(s);
            ParseTime(s) == if digits == [] || !AllDigits(digits) then None
                            else
                              var value := SignedValue(SignOf(s), NumberOf(digits));
                              if I64_MIN <= value <= I64_MAX then Some(value) else None
  {
  }

  lemma SpelledParses(sign: Sign, k: nat, n: nat, t: Time)
    requires t == SignedValue(sign, n)
    ensures ParseTime(SignedText(sign, k, n)) == Some(t)
  {
    SignReads(sign, k, n);
    NumeralReads(k, n);
    ParsesAs(SignedText(sign, k, n));
  }

  lemma ParsedIsSpelled(s: string, t: Time)
    requires ParseTime(s) == Some(t)
    ensures Spells(s, t)
  {
    ParsesAs(s);
    var k := EveryNumeral(Unsigned(s));
    assert s == SignedText(SignOf(s), k, NumberOf(Unsigned(s)));
  }

  /** Exactly those texts parse, to that time. */
  lemma TimeParsesExactly(s: string, t: Time)
    ensures ParseTime(s) == Some(t) <==> Spells(s, t)
  {
    if ParseTime(s) == Some(t) {
      ParsedIsSpelled(s, t);
    }
    if Spells(s, t) {
      var sign: Sign, k: nat, n: nat :| s == SignedText(sign, k, n) && t == SignedValue(sign, n);
      SpelledParses(sign, k, n, t);
    }
  }

  // ------------------------------------------------------------------- requests

  predicate IsNonce(s: string) {
    16 <= |s| <= 128
    && forall i :: 0 <= i < |s| ==> IsDigit(s[i]) || 'a' <= s[i] <= 'z' || 'A' <= s[i] <= 'Z' || s[i] == '_' || s[i] == '-'
  }

  function UpperByte(c: char): char {
    if 'a' <= c <= 'z' then (c as int - 32) as char else c
  }

  function Upper(s: string): string {
    Map(UpperByte, s)
  }

  /** Upper case, character by character. */
  lemma UpperMeans(s: string, i: nat)
    requires i < |s|
    ensures |Upper(s)| == |s|
    ensures Upper(s)[i] == if 'a' <= s[i] <= 'z' then "ABCDEFGHIJKLMNOPQRSTUVWXYZ"[s[i] as int - 'a' as int] else s[i]
  {
    assert Upper(s)[i] == UpperByte(s[i]);
    if 'a' <= s[i] <= 'z' {
      CapitalLetter(s[i] as int - 'a' as int);
    }
  }

  lemma CapitalLetter(n: nat)
    requires n < 26
    ensures "ABCDEFGHIJKLMNOPQRSTUVWXYZ"[n] as int == 'A' as int + n
  {
  }

  function CanonicalText(c: Crypto, httpMethod: string, path: string, at: Time, nonce: string, body: string): string {
    Upper(httpMethod) + ['\n'] + (path + ['\n'] + (Decimal(at) + ['\n'] + (nonce + ['\n'] + LowerHex(c.sha256(body)))))
  }

  /** The text that is signed: five lines. */
  lemma TextOfLines(c: Crypto, httpMethod: string, path: string, at: Time, nonce: string, body: string)
    ensures CanonicalText(c, httpMethod, path, at, nonce, body)
         == Join([Upper(httpMethod), path, Decimal(at), nonce, LowerHex(c.sha256(body))], '\n')
  {
    var hash := LowerHex(c.sha256(body));
    JoinFirst(nonce, [hash], '\n');
    JoinFirst(Decimal(at), [nonce, hash], '\n');
    JoinFirst(path, [Decimal(at), nonce, hash], '\n');
    JoinFirst(Upper(httpMethod), [path, Decimal(at), nonce, hash], '\n');
  }

  function SignRequest(c: Crypto, secret: string, httpMethod: string, path: string, at: Time, nonce: string, body: string)
    : Result<string, AuthError>
  {
    if secret == "" then Err(EmptySecret)
    else if !IsNonce(nonce) then Err(InvalidNonce)
    else Ok(LowerHex(c.hmac(secret, CanonicalText(c, httpMethod, path, at, nonce, body))))
  }

  datatype Signed = Signed(httpMethod: string, path: string, timestamp: Option<string>, nonce: Option<string>,
                           signature: Option<string>, body: string)

  /** The request is signed for time `at`, over its five lines. */
  ghost predicate SignedFor(c: Crypto, secret: string, r: Signed, at: Time) {
    && r.timestamp.Some? && Spells(r.timestamp.value, at)
    && r.nonce.Some?
    && r.signature == Some(SignatureOf(c, secret, r.httpMethod, r.path, at, r.nonce.value, r.body))
  }

  /** 16 to 128 letters, digits, underscores or hyphens. */
  predicate GoodNonce(nonce: string) {
    && 16 <= |nonce| <= 128
    && forall i :: 0 <= i < |nonce| ==>
         var x := nonce[i];
         'a' <= x <= 'z' || 'A' <= x <= 'Z' || '0' <= x <= '9' || x == '_' || x == '-'
  }

  /** A request with a good nonce, whose time is within a minute of the clock, signed with the secret. */
  ghost predicate Authentic(c: Crypto, secret: string, r: Signed, now: Time) {
    && secret != "" && r.nonce.Some? && GoodNonce(r.nonce.value)
    && exists at: Time :: SignedFor(c, secret, r, at) && -60 <= at - now <= 60
  }

  /** The lower-case text of 32 bytes. */
  ghost predicate IsTagText(text: string) {
    exists tag :: IsBytes(tag) && |tag| == 32 && text == LowerHex(tag)
  }

  /** The header values a request lacks, by the name of the first. */
  function MissingHeader(r: Signed): Option<string> {
    if r.timestamp.None? then Some("X-AV-Timestamp")
    else if r.nonce.None? then Some("X-AV-Nonce")
    else if r.signature.None? then Some("X-AV-Signature")
    else None
  }

  function SignatureOf(c: Crypto, secret: string, httpMethod: string, path: string, at: Time, nonce: string, body: string): string {
    LowerHex(c.hmac(secret, Join([Upper(httpMethod), path, Decimal(at), nonce, LowerHex(c.sha256(body))], '\n')))
  }

  predicate WithinSkew(at: Time, now: Time) {
    -MAX_SKEW <= at - now <= MAX_SKEW
  }

  /** The error found before the replay guard is asked, if any. */
  function Rejects(c: Crypto, secret: string, r: Signed, now: Time): Option<AuthError> {
    if secret == "" then Some(EmptySecret)
    else if r.timestamp.None? then Some(NonUtf8Header("X-AV-Timestamp"))
    else if r.nonce.None? then Some(NonUtf8Header("X-AV-Nonce"))
    else if r.signature.None? then Some(NonUtf8Header("X-AV-Signature"))
    else if ParseTime(r.timestamp.value).None? then Some(InvalidTimestamp)
    else if !WithinSkew(ParseTime(r.timestamp.value).value, now) then Some(TimestampOutsideAllowedSkew)
    else if !IsNonce(r.nonce.value) then Some(InvalidNonce)
    else if DecodeHex(r.signature.value).None? || |DecodeHex(r.signature.value).value| != 32 then Some(InvalidSignatureEncoding)
    else if c.hmac(secret, CanonicalText(c, r.httpMethod, r.path, ParseTime(r.timestamp.value).value, r.nonce.value, r.body))
            != DecodeHex(r.signature.value).value then Some(InvalidSignature)
    else None
  }

  function Verify(c: Crypto, secret: string, r: Signed, now: Time, g: Guard): (Result<(), AuthError>, Guard) {
    var rejected := Rejects(c, secret, r, now);
    if rejected.Some? then (Err(rejected.value), g)
    else
      var (admitted, after) := g.Check(r.nonce.value, now);
      (if admitted then Ok(()) else Err(NonceReplay), after)
  }

  /** A signature decodes to the tag exactly when it is the tag's lower-case text. */
  lemma SignatureDecodes(signature: string, tag: string)
    requires IsBytes(tag) && |tag| == 32
    ensures DecodeHex(signature) == Some(tag) <==> signature == LowerHex(tag)
  {
    HexRoundTrip(tag);
    if DecodeHex(signature).Some? {
      HexIsCanonical(signature);
    }
  }

  /** For one time, the last two checks ask for its signature. */
  lemma SignatureChecked(c: Crypto, secret: string, r: Signed, at: Time)
    requires Sized(c) && r.timestamp.Some? && r.nonce.Some? && r.signature.Some? && ParseTime(r.timestamp.value) == Some(at)
    ensures var decoded := DecodeHex(r.signature.value);
            SignedFor(c, secret, r, at)
            <==> decoded.Some? && |decoded.value| == 32
                 && c.hmac(secret, CanonicalText(c, r.httpMethod, r.path, at, r.nonce.value, r.body)) == decoded.value
  {
    TimeParsesExactly(r.timestamp.value, at);
    TextOfLines(c, r.httpMethod, r.path, at, r.nonce.value, r.body);
    var text := CanonicalText(c, r.httpMethod, r.path, at, r.nonce.value, r.body);
    SignatureDecodes(r.signature.value, c.hmac(secret, text));
  }

  lemma SignedTimeParses(c: Crypto, secret: string, r: Signed, at: Time)
    requires SignedFor(c, secret, r, at)
    ensures ParseTime(r.timestamp.value) == Some(at)
  {
    TimeParsesExactly(r.timestamp.value, at);
  }

  lemma NotRejectedIsAuthentic(c: Crypto, secret: string, r: Signed, now: Time)
    requires Sized(c) && Rejects(c, secret, r, now).None?
    ensures Authentic(c, secret, r, now)
  {
    SignatureChecked(c, secret, r, ParseTime(r.timestamp.value).value);
  }

  lemma AuthenticIsNotRejected(c: Crypto, secret: string, r: Signed, now: Time)
    requires Sized(c) && Authentic(c, secret, r, now)
    ensures Rejects(c, secret, r, now).None?
  {
    var at: Time :| SignedFor(c, secret, r, at) && -60 <= at - now <= 60;
    SignedTimeParses(c, secret, r, at);
    SignatureChecked(c, secret, r, at);
  }

  /** The guard is asked exactly about authentic requests, so exactly those it admits are accepted. */
  lemma AcceptedExactly(c: Crypto, secret: string, r: Signed, now: Time, g: Guard)
    requires Sized(c)
    ensures Rejects(c, secret, r, now).None? <==> Authentic(c, secret, r, now)
    ensures Verify(c, secret, r, now, g).0.Ok? <==> Authentic(c, secret, r, now) && g.Admits(r.nonce.value, now)
    ensures !Authentic(c, secret, r, now) ==> Verify(c, secret, r, now, g).1 == g
  {
    if Rejects(c, secret, r, now).None? {
      NotRejectedIsAuthentic(c, secret, r, now);
    } else if Authentic(c, secret, r, now) {
      AuthenticIsNotRejected(c, secret, r, now);
    }
  }

  lemma {:induction false} DecodedIsBytes(text: string)
    requires DecodeHex(text).Some?
    ensures IsBytes(DecodeHex(text).value)
    decreases |text|
  {
    if text != [] {
      DecodedIsBytes(text[..|text| - 2]);
    }
  }

  lemma TagTextDecodes(text: string)
    ensures IsTagText(text) <==> DecodeHex(text).Some? && |DecodeHex(text).value| == 32
  {
    if IsTagText(text) {
      var tag :| IsBytes(tag) && |tag| == 32 && text == LowerHex(tag);
      HexRoundTrip(tag);
    }
    if DecodeHex(text).Some? {
      HexIsCanonical(text);
      DecodedIsBytes(text);
    }
  }

  /** Why a request with a time `at` is refused before the guard: the first of these that applies. */
  lemma RefusedFor(c: Crypto, secret: string, r: Signed, now: Time, at: Time)
    requires Sized(c) && secret != "" && MissingHeader(r).None? && Spells(r.timestamp.value, at)
    ensures Rejects(c, secret, r, now)
         == if at < now - 60 || at > now + 60 then Some(TimestampOutsideAllowedSkew)
            else if !GoodNonce(r.nonce.value) then Some(InvalidNonce)
            else if !IsTagText(r.signature.value) then Some(InvalidSignatureEncoding)
            else if !SignedFor(c, secret, r, at) then Some(InvalidSignature)
            else None
  {
    TimeParsesExactly(r.timestamp.value, at);
    TagTextDecodes(r.signature.value);
    SignatureChecked(c, secret, r, at);
  }

  /** And without one. */
  lemma RefusedUnread(c: Crypto, secret: string, r: Signed, now: Time)
    requires secret == "" || MissingHeader(r).Some? || forall at: Time :: !Spells(r.timestamp.value, at)
    ensures Rejects(c, secret, r, now)
         == if secret == "" then Some(EmptySecret)
            else if MissingHeader(r).Some? then Some(NonUtf8Header(MissingHeader(r).value))
            else Some(InvalidTimestamp)
  {
    if MissingHeader(r).None? && ParseTime(r.timestamp.value).Some? {
      TimeParsesExactly(r.timestamp.value, ParseTime(r.timestamp.value).value);
    }
  }

  /** Checks the request, and consumes its nonce only once the signature holds. */
  method VerifyRequest(c: Crypto, secret: string, r: Signed, now: Time, guard: InMemoryReplayGuard)
    returns (outcome: Result<(), AuthError>)
    modifies guard
    ensures (outcome, guard.Value()) == Verify(c, secret, r, now, old(guard.Value()))
    ensures Sized(c) ==> (outcome.Ok? <==> Authentic(c, secret, r, now) && old(guard.Value()).Admits(r.nonce.value, now))
    ensures Sized(c) && !Authentic(c, secret, r, now) ==> guard.Value() == old(guard.Value())
  {
    if Sized(c) {
      AcceptedExactly(c, secret, r, now, guard.Value());
    }
    if secret == "" {
      return Err(EmptySecret);
    }
    if r.timestamp.None? {
      return Err(NonUtf8Header("X-AV-Timestamp"));
    }
    if r.nonce.None? {
      return Err(NonUtf8Header("X-AV-Nonce"));
    }
    if r.signature.None? {
      return Err(NonUtf8Header("X-AV-Signature"));
    }
    var at := ParseTime(r.timestamp.value);
    if at.None? {
      return Err(InvalidTimestamp);
    }
    if !WithinSkew(at.value, now) {
      return Err(TimestampOutsideAllowedSkew);
    }
    if !IsNonce(r.nonce.value) {
      return Err(InvalidNonce);
    }
    var signature := ReadHex(r.signature.value);
    if signature.None? || |signature.value| != 32 {
      return Err(InvalidSignatureEncoding);
    }
    var canonical := CanonicalText(c, r.httpMethod, r.path, at.value, r.nonce.value, r.body);
    if c.hmac(secret, canonical) != signature.value {
      return Err(InvalidSignature);
    }
    var admitted := guard.CheckAndRecord(r.nonce.value, now);
    return if admitted then Ok(()) else Err(NonceReplay);
  }

  /** The request a signer sends. */
  function Send(httpMethod: string, path: string, at: Time, nonce: string, body: string, signature: string): Signed {
    Signed(httpMethod, path, Some(Decimal(at)), Some(nonce), Some(signature), body)
  }

  /** A signed request is accepted exactly when its time is within the skew and the guard admits
      its nonce; otherwise the reason is that one of the two. */
  lemma SignedIsVerified(c: Crypto, secret: string, httpMethod: string, path: string, at: Time, nonce: string,
                         body: string, now: Time, g: Guard)
    requires Sized(c) && secret != "" && IsNonce(nonce)
    ensures var signature := SignRequest(c, secret, httpMethod, path, at, nonce, body);
            signature.Ok? &&
            Verify(c, secret, Send(httpMethod, path, at, nonce, body, signature.value), now, g).0
              == if !WithinSkew(at, now) then Err(TimestampOutsideAllowedSkew)
                 else if !g.Admits(nonce, now) then Err(NonceReplay)
                 else Ok(())
  {
    TimeRoundTrip(at);
    HexRoundTrip(c.hmac(secret, CanonicalText(c, httpMethod, path, at, nonce, body)));
  }

  lemma NonceIsLine(nonce: string)
    requires IsNonce(nonce)
    ensures Free(nonce, '\n')
  {
  }

  lemma UpperIsLine(httpMethod: string)
    requires Free(httpMethod, '\n')
    ensures Free(Upper(httpMethod), '\n')
  {
    var up := Upper(httpMethod);
    forall i | 0 <= i < |up| ensures up[i] != '\n' {
      assert up[i] == UpperByte(httpMethod[i]);
    }
  }

  /** Requests whose method and path are single lines have the same canonical text only when
      method (without case), path, time, nonce and body hash agree. */
  lemma CanonicalTextIsInjective(c: Crypto, m: string, p: string, t: Time, n: string, b: string,
                                 m': string, p': string, t': Time, n': string, b': string)
    requires Free(m, '\n') && Free(p, '\n') && Free(m', '\n') && Free(p', '\n') && IsNonce(n) && IsNonce(n')
    requires IsBytes(c.sha256(b)) && IsBytes(c.sha256(b'))
    requires CanonicalText(c, m, p, t, n, b) == CanonicalText(c, m', p', t', n', b')
    ensures Upper(m) == Upper(m') && p == p' && t == t' && n == n' && c.sha256(b) == c.sha256(b')
  {
    UpperIsLine(m);
    UpperIsLine(m');
    TimeRoundTrip(t);
    TimeRoundTrip(t');
    NonceIsLine(n);
    NonceIsLine(n');
    var h, h' := LowerHex(c.sha256(b)), LowerHex(c.sha256(b'));
    CutIsUnique(Upper(m), p + ['\n'] + (Decimal(t) + ['\n'] + (n + ['\n'] + h)),
                Upper(m'), p' + ['\n'] + (Decimal(t') + ['\n'] + (n' + ['\n'] + h')), '\n');
    CutIsUnique(p, Decimal(t) + ['\n'] + (n + ['\n'] + h), p', Decimal(t') + ['\n'] + (n' + ['\n'] + h'), '\n');
    CutIsUnique(Decimal(t), n + ['\n'] + h, Decimal(t'), n' + ['\n'] + h', '\n');
    CutIsUnique(n, h, n', h', '\n');
    HexRoundTrip(c.sha256(b));
    HexRoundTrip(c.sha256(b'));
  }

  // ------------------------------------------------------------------ histories

  /** Requests as they arrive, each with the clock reading. */
  datatype Arrival = Arrival(request: Signed, now: Time)

  function RunVerify(c: Crypto, secret: string, g: Guard, arrivals: seq<Arrival>): Guard
    decreases |arrivals|
  {
    if arrivals == [] then g
    else RunVerify(c, secret, Verify(c, secret, arrivals[0].request, arrivals[0].now, g).1, arrivals[1..])
  }

  predicate IsAccepted(c: Crypto, secret: string, g: Guard, arrivals: seq<Arrival>, i: nat)
    requires i < |arrivals|
  {
    Verify(c, secret, arrivals[i].request, arrivals[i].now, RunVerify(c, secret, g, arrivals[..i])).0.Ok?
  }

  /** The request passes every check but the guard's. */
  predicate Reaches(c: Crypto, secret: string, a: Arrival) {
    Rejects(c, secret, a.request, a.now).None?
  }

  function AttemptOf(c: Crypto, secret: string, a: Arrival): seq<Attempt> {
    if Reaches(c, secret, a) then [Attempt(a.request.nonce.value, a.now)] else []
  }

  /** The arrivals that reach the guard, as attempts on it. */
  function Attempts(c: Crypto, secret: string, arrivals: seq<Arrival>): seq<Attempt> {
    if arrivals == [] then []
    else Attempts(c, secret, arrivals[..|arrivals| - 1]) + AttemptOf(c, secret, arrivals[|arrivals| - 1])
  }

  lemma {:induction false} RunVerifySnoc(c: Crypto, secret: string, g: Guard, arrivals: seq<Arrival>)
    requires arrivals != []
    ensures RunVerify(c, secret, g, arrivals)
         == Verify(c, secret, arrivals[|arrivals| - 1].request, arrivals[|arrivals| - 1].now,
                   RunVerify(c, secret, g, arrivals[..|arrivals| - 1])).1
    decreases |arrivals|
  {
    if |arrivals| > 1 {
      RunVerifySnoc(c, secret, Verify(c, secret, arrivals[0].request, arrivals[0].now, g).1, arrivals[1..]);
      assert arrivals[1..][..|arrivals| - 2] == arrivals[..|arrivals| - 1][1..];
    }
  }

  /** A request refused before the guard leaves it as it was, so the guard sees only the attempts. */
  lemma {:induction false} GuardSeesAttempts(c: Crypto, secret: string, g: Guard, arrivals: seq<Arrival>)
    ensures RunVerify(c, secret, g, arrivals) == Run(g, Attempts(c, secret, arrivals))
  {
    if arrivals != [] {
      var init, a := arrivals[..|arrivals| - 1], arrivals[|arrivals| - 1];
      GuardSeesAttempts(c, secret, g, init);
      RunVerifySnoc(c, secret, g, arrivals);
      var before := Attempts(c, secret, init);
      if Reaches(c, secret, a) {
        var attempt := Attempt(a.request.nonce.value, a.now);
        RunSplit(g, before, [attempt]);
        assert [attempt][1..] == [];
      } else {
        assert before + [] == before;
      }
    }
  }

  lemma {:induction false} AttemptsSplit(c: Crypto, secret: string, a: seq<Arrival>, b: seq<Arrival>)
    ensures Attempts(c, secret, a + b) == Attempts(c, secret, a) + Attempts(c, secret, b)
    decreases |b|
  {
    if b == [] {
      assert a + b == a;
    } else {
      assert (a + b)[..|a + b| - 1] == a + b[..|b| - 1];
      AttemptsSplit(c, secret, a, b[..|b| - 1]);
    }
  }

  lemma AttemptsOfOne(c: Crypto, secret: string, a: Arrival)
    ensures Attempts(c, secret, [a]) == AttemptOf(c, secret, a)
  {
    assert [a][..0] == [];
  }

  /** The attempts of a history, cut around one that reaches the guard. */
  lemma AttemptsAround(c: Crypto, secret: string, arrivals: seq<Arrival>, i: nat)
    requires i < |arrivals| && Reaches(c, secret, arrivals[i])
    ensures Attempts(c, secret, arrivals)
         == Attempts(c, secret, arrivals[..i]) + AttemptOf(c, secret, arrivals[i]) + Attempts(c, secret, arrivals[i + 1..])
  {
    assert arrivals == arrivals[..i] + [arrivals[i]] + arrivals[i + 1..];
    AttemptsSplit(c, secret, arrivals[..i] + [arrivals[i]], arrivals[i + 1..]);
    AttemptsSplit(c, secret, arrivals[..i], [arrivals[i]]);
    AttemptsOfOne(c, secret, arrivals[i]);
  }

  lemma AttemptsPrefix(c: Crypto, secret: string, arrivals: seq<Arrival>, j: nat)
    requires j <= |arrivals|
    ensures var before, attempts := Attempts(c, secret, arrivals[..j]), Attempts(c, secret, arrivals);
            |before| <= |attempts| && attempts[..|before|] == before
  {
    assert arrivals == arrivals[..j] + arrivals[j..];
    AttemptsSplit(c, secret, arrivals[..j], arrivals[j..]);
  }

  lemma SliceBetween<T>(s: seq<T>, front: seq<T>, p: nat)
    requires p < |front| <= |s| && s[..|front|] == front
    ensures s[p + 1..|front|] == front[p + 1..]
  {
  }

  /** The guard as an arrival finds it has seen the attempts before. */
  lemma GuardAt(c: Crypto, secret: string, g: Guard, arrivals: seq<Arrival>, j: nat)
    requires j <= |arrivals|
    ensures var before := Attempts(c, secret, arrivals[..j]);
            |before| <= |Attempts(c, secret, arrivals)|
            && RunVerify(c, secret, g, arrivals[..j]) == Run(g, Attempts(c, secret, arrivals)[..|before|])
  {
    AttemptsPrefix(c, secret, arrivals, j);
    GuardSeesAttempts(c, secret, g, arrivals[..j]);
  }

  /** An arrival is accepted exactly when it reaches the guard and its attempt is accepted there. */
  lemma AcceptedByGuard(c: Crypto, secret: string, g: Guard, arrivals: seq<Arrival>, i: nat)
    requires i < |arrivals| && Reaches(c, secret, arrivals[i])
    ensures var attempts, p := Attempts(c, secret, arrivals), |Attempts(c, secret, arrivals[..i])|;
            && p < |attempts| && [attempts[p]] == AttemptOf(c, secret, arrivals[i])
            && (IsAccepted(c, secret, g, arrivals, i) <==> Accepted(g, attempts, p))
  {
    AttemptsAround(c, secret, arrivals, i);
    GuardAt(c, secret, g, arrivals, i);
  }

  lemma AttemptsAfter(c: Crypto, secret: string, arrivals: seq<Arrival>, i: nat)
    requires i < |arrivals| && Reaches(c, secret, arrivals[i])
    ensures var attempts, p := Attempts(c, secret, arrivals), |Attempts(c, secret, arrivals[..i])|;
            p < |attempts| && attempts[p + 1..] == Attempts(c, secret, arrivals[i + 1..])
  {
    AttemptsAround(c, secret, arrivals, i);
  }

  /** Where two arrivals are among the attempts, and what lies between them. */
  lemma AttemptsBetween(c: Crypto, secret: string, arrivals: seq<Arrival>, i: nat, j: nat)
    requires i < j < |arrivals| && Reaches(c, secret, arrivals[i])
    ensures var attempts := Attempts(c, secret, arrivals);
            var p, q := |Attempts(c, secret, arrivals[..i])|, |Attempts(c, secret, arrivals[..j])|;
            p < q <= |attempts| && attempts[p + 1..q] == Attempts(c, secret, arrivals[i + 1..j])
  {
    var front := arrivals[..j];
    assert front[..i] == arrivals[..i] && front[i + 1..] == arrivals[i + 1..j];
    AttemptsAfter(c, secret, front, i);
    AttemptsPrefix(c, secret, arrivals, j);
    SliceBetween(Attempts(c, secret, arrivals), Attempts(c, secret, front), |Attempts(c, secret, arrivals[..i])|);
  }

  /** A nonce accepted once and next presented in a valid request is accepted again exactly when the
      guard has meanwhile read a clock at or past its expiry, and then has room. */
  lemma ReplayedExactly(c: Crypto, secret: string, g: Guard, arrivals: seq<Arrival>, i: nat, j: nat)
    requires i < j < |arrivals| && arrivals[i].request.nonce == arrivals[j].request.nonce
    requires IsAccepted(c, secret, g, arrivals, i) && Reaches(c, secret, arrivals[j])
    requires Absent(Attempts(c, secret, arrivals[i + 1..j]), arrivals[i].request.nonce.value)
    ensures IsAccepted(c, secret, g, arrivals, j)
       <==> !(Before(Attempts(c, secret, arrivals[i + 1..j]), arrivals[i].now) && arrivals[j].now < Expiry(arrivals[i].now))
            && |RunVerify(c, secret, g, arrivals[..j]).Evict(arrivals[j].now).accepted| < g.capacity
  {
    var attempts := Attempts(c, secret, arrivals);
    var p, q := |Attempts(c, secret, arrivals[..i])|, |Attempts(c, secret, arrivals[..j])|;
    AttemptsBetween(c, secret, arrivals, i, j);
    AcceptedByGuard(c, secret, g, arrivals, i);
    AcceptedByGuard(c, secret, g, arrivals, j);
    AcceptedAgainExactly(g, attempts, p, q);
    BeforeNext(attempts, p + 1, q, arrivals[i].now);
    GuardAt(c, secret, g, arrivals, j);
  }

  /** A nonce is refused as long as the guard has read no clock at or past its expiry, however often
      it is presented. */
  lemma ReplayRefused(c: Crypto, secret: string, g: Guard, arrivals: seq<Arrival>, i: nat, j: nat)
    requires i < j < |arrivals| && arrivals[i].request.nonce == arrivals[j].request.nonce
    requires IsAccepted(c, secret, g, arrivals, i)
    requires Before(Attempts(c, secret, arrivals[i + 1..j]), arrivals[i].now) && arrivals[j].now < Expiry(arrivals[i].now)
    ensures !IsAccepted(c, secret, g, arrivals, j)
  {
    if Reaches(c, secret, arrivals[j]) {
      var attempts := Attempts(c, secret, arrivals);
      var p, q := |Attempts(c, secret, arrivals[..i])|, |Attempts(c, secret, arrivals[..j])|;
      AttemptsBetween(c, secret, arrivals, i, j);
      AcceptedByGuard(c, secret, g, arrivals, i);
      AcceptedByGuard(c, secret, g, arrivals, j);
      BeforeNext(attempts, p + 1, q, arrivals[i].now);
      if Accepted(g, attempts, q) {
        AcceptancesFarApart(g, attempts, p, q);
      }
    }
  }

  /** A (timestamp, nonce) pair is accepted at most once as long as the guard reads no clock at or
      past the nonce's expiry in between, and the clock stays below the last instant: its two
      acceptances would lie within 120 seconds, and a nonce is held for 300. */
  lemma AcceptedOnce(c: Crypto, secret: string, g: Guard, arrivals: seq<Arrival>, i: nat, j: nat)
    requires i < j < |arrivals| && arrivals[j].now < I64_MAX
    requires arrivals[i].request.timestamp.Some? && arrivals[j].request.timestamp.Some?
    requires ParseTime(arrivals[i].request.timestamp.value) == ParseTime(arrivals[j].request.timestamp.value)
    requires arrivals[i].request.nonce == arrivals[j].request.nonce
    requires Before(Attempts(c, secret, arrivals[i + 1..j]), arrivals[i].now)
    requires IsAccepted(c, secret, g, arrivals, i)
    ensures !IsAccepted(c, secret, g, arrivals, j)
  {
    if Reaches(c, secret, arrivals[j]) {
      ReplayRefused(c, secret, g, arrivals, i, j);
    }
  }

  predicate TimeAdvances(arrivals: seq<Arrival>) {
    forall i, j :: 0 <= i < j < |arrivals| ==> arrivals[i].now <= arrivals[j].now
  }

  lemma {:induction false} AttemptsUpTo(c: Crypto, secret: string, arrivals: seq<Arrival>, limit: Time)
    requires forall k :: 0 <= k < |arrivals| ==> arrivals[k].now <= limit
    ensures forall k :: 0 <= k < |Attempts(c, secret, arrivals)| ==> Attempts(c, secret, arrivals)[k].now <= limit
    decreases |arrivals|
  {
    if arrivals != [] {
      AttemptsUpTo(c, secret, arrivals[..|arrivals| - 1], limit);
    }
  }

  /** Over any history with a clock that does not go back and stays below the last instant, a
      (timestamp, nonce) pair is accepted at most once ever. */
  lemma AcceptedOnceEver(c: Crypto, secret: string, g: Guard, arrivals: seq<Arrival>, i: nat, j: nat)
    requires i < j < |arrivals| && TimeAdvances(arrivals) && arrivals[j].now < I64_MAX
    requires arrivals[i].request.timestamp.Some? && arrivals[j].request.timestamp.Some?
    requires ParseTime(arrivals[i].request.timestamp.value) == ParseTime(arrivals[j].request.timestamp.value)
    requires arrivals[i].request.nonce == arrivals[j].request.nonce
    requires IsAccepted(c, secret, g, arrivals, i)
    ensures !IsAccepted(c, secret, g, arrivals, j)
  {
    if Reaches(c, secret, arrivals[j]) {
      AttemptsUpTo(c, secret, arrivals[i + 1..j], arrivals[j].now);
      AcceptedOnce(c, secret, g, arrivals, i, j);
    }
  }
}
