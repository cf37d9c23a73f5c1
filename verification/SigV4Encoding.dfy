/**
 Percent normalisation of URI text (RFC 3986 sections 2.3 and 6.2.2). Text is a
 string of bytes.
 */
module SigV4Encoding {
  import opened Common

  predicate IsUnreserved(c: char) {
    'a' <= c <= 'z' || 'A' <= c <= 'Z' || '0' <= c <= '9' || c == '-' || c == '.' || c == '_' || c == '~'
  }

  predicate IsHex(c: char) {
    '0' <= c <= '9' || 'a' <= c <= 'f' || 'A' <= c <= 'F'
  }

  function HexValue(c: char): (v: nat)
    requires IsHex(c)
    ensures v < 16
  {
    if '0' <= c <= '9' then c as int - '0' as int
    else if 'a' <= c <= 'f' then c as int - 'a' as int + 10
    else c as int - 'A' as int + 10
  }

  function HexDigit(v: nat): (c: char)
    requires v < 16
    ensures IsHex(c) && HexValue(c) == v && !('a' <= c <= 'f')
  {
    if v < 10 then ('0' as int + v) as char else ('A' as int + v - 10) as char
  }

  /** The upper-case escape of a byte. */
  function Escape(c: char): (s: string)
    ensures |s| == 3 && s[0] == '%'
  {
    ['%', HexDigit(c as int / 16 % 16), HexDigit(c as int % 16)]
  }

  /** An escape is a percent sign and the two digits of the byte in base 16, written in upper case. */
  lemma EscapeOf(c: char)
    requires c as int < 256
    ensures var high, low := c as int / 16, c as int % 16;
            high < 16 && Escape(c) == ['%', "0123456789ABCDEF"[high], "0123456789ABCDEF"[low]]
            && c as int == 16 * HexValue("0123456789ABCDEF"[high]) + HexValue("0123456789ABCDEF"[low])
  {
    HexTable(c as int / 16);
    HexTable(c as int % 16);
  }

  lemma HexTable(v: nat)
    requires v < 16
    ensures HexDigit(v) == "0123456789ABCDEF"[v]
    ensures IsHex("0123456789abcdef"[v]) && HexValue("0123456789abcdef"[v]) == v
  {
  }

  predicate StartsWithEscape(s: string) {
    |s| >= 3 && s[0] == '%' && IsHex(s[1]) && IsHex(s[2])
  }

  function EscapedByte(s: string): (c: char)
    requires StartsWithEscape(s)
    ensures c as int < 256
  {
    (16 * HexValue(s[1]) + HexValue(s[2])) as char
  }

  function EncodeByte(c: char, preserveSlash: bool): string {
    if IsUnreserved(c) || (preserveSlash && c == '/') then [c] else Escape(c)
  }

  function PercentEncode(s: string, preserveSlash: bool, preserveEscapes: bool): string {
    if s == [] then ""
    else if preserveEscapes && StartsWithEscape(s) then
      var c := EscapedByte(s);
      (if IsUnreserved(c) then [c] else Escape(c)) + PercentEncode(s[3..], preserveSlash, preserveEscapes)
    else
      EncodeByte(s[0], preserveSlash) + PercentEncode(s[1..], preserveSlash, preserveEscapes)
  }

  method PercentEncodeText(value: string, preserveSlash: bool, preserveEscapes: bool) returns (encoded: string)
    ensures encoded == PercentEncode(value, preserveSlash, preserveEscapes)
  {
    encoded := "";
    var index := 0;
    while index < |value|
      invariant 0 <= index <= |value|
      invariant PercentEncode(value, preserveSlash, preserveEscapes)
             == encoded + PercentEncode(value[index..], preserveSlash, preserveEscapes)
    {
      ghost var before, rest := encoded, value[index..];
      var byte := value[index];
      if preserveEscapes && byte == '%' && index + 2 < |value| && IsHex(value[index + 1]) && IsHex(value[index + 2]) {
        var decoded := (16 * HexValue(value[index + 1]) + HexValue(value[index + 2])) as char;
        encoded := encoded + if IsUnreserved(decoded) then [decoded] else Escape(decoded);
        index := index + 3;
        assert StartsWithEscape(rest) && rest[3..] == value[index..] && decoded == EscapedByte(rest);
      } else {
        encoded := encoded + if IsUnreserved(byte) || (preserveSlash && byte == '/') then [byte] else Escape(byte);
        index := index + 1;
        assert !(preserveEscapes && StartsWithEscape(rest)) && rest[1..] == value[index..];
      }
      EncodeTurn(before, rest, encoded, value[index..], preserveSlash, preserveEscapes);
    }
  }

  lemma EncodeTurn(before: string, rest: string, encoded: string, tail: string, slash: bool, escapes: bool)
    requires rest != []
    requires if escapes && StartsWithEscape(rest)
             then tail == rest[3..]
                  && encoded == before + if IsUnreserved(EscapedByte(rest)) then [EscapedByte(rest)] else Escape(EscapedByte(rest))
             else tail == rest[1..] && encoded == before + EncodeByte(rest[0], slash)
    ensures before + PercentEncode(rest, slash, escapes) == encoded + PercentEncode(tail, slash, escapes)
  {
    var piece :=
      if escapes && StartsWithEscape(rest) then
        if IsUnreserved(EscapedByte(rest)) then [EscapedByte(rest)] else Escape(EscapedByte(rest))
      else EncodeByte(rest[0], slash);
    Regroup(before, piece, PercentEncode(tail, slash, escapes));
  }

  lemma Regroup(a: string, b: string, c: string)
    ensures a + (b + c) == a + b + c
  {
  }

  // ------------------------------------------------------------------ meaning

  /** One byte of URI data, or a path separator, which is not the byte `/` as data. */
  datatype Token = Data(byte: char) | Separator

  function TokenOf(c: char, slash: bool): Token {
    if slash && c == '/' then Separator else Data(c)
  }

  /** What URI text says: escapes decoded, a malformed `%` read literally, and, in a path,
      a literal slash kept apart from an escaped one. */
  function Meaning(s: string, slash: bool): seq<Token> {
    if s == [] then []
    else if StartsWithEscape(s) then [Data(EscapedByte(s))] + Meaning(s[3..], slash)
    else [TokenOf(s[0], slash)] + Meaning(s[1..], slash)
  }

  /** RFC 3986 percent decoding, a malformed `%` read literally. */
  function Decode(s: string): string {
    if s == [] then ""
    else if StartsWithEscape(s) then [EscapedByte(s)] + Decode(s[3..])
    else [s[0]] + Decode(s[1..])
  }

  function Print(ts: seq<Token>): string {
    if ts == [] then ""
    else
      (match ts[0]
       case Separator => "/"
       case Data(c) => if IsUnreserved(c) then [c] else Escape(c))
      + Print(ts[1..])
  }

  predicate ByteTokens(ts: seq<Token>, slash: bool) {
    forall i :: 0 <= i < |ts| ==> if ts[i].Data? then ts[i].byte as int < 256 else slash
  }

  lemma {:induction false} MeaningIsBytes(s: string, slash: bool)
    requires IsBytes(s)
    ensures ByteTokens(Meaning(s, slash), slash)
    decreases |s|
  {
    if s != [] {
      MeaningIsBytes(if StartsWithEscape(s) then s[3..] else s[1..], slash);
    }
  }

  /** Normalising prints the meaning. */
  lemma {:induction false} EncodePrintsMeaning(s: string, slash: bool)
    ensures PercentEncode(s, slash, true) == Print(Meaning(s, slash))
    decreases |s|
  {
    if s != [] {
      var tail := if StartsWithEscape(s) then s[3..] else s[1..];
      EncodePrintsMeaning(tail, slash);
      var ts := Meaning(s, slash);
      assert ts[1..] == Meaning(tail, slash);
    }
  }

  lemma EscapeReadsBack(c: char, rest: string)
    requires c as int < 256
    ensures StartsWithEscape(Escape(c) + rest) && EscapedByte(Escape(c) + rest) == c
    ensures (Escape(c) + rest)[3..] == rest
  {
  }

  /** Printed tokens read back as themselves. */
  lemma {:induction false} PrintReadsBack(ts: seq<Token>, slash: bool)
    requires ByteTokens(ts, slash)
    ensures Meaning(Print(ts), slash) == ts
  {
    if ts != [] {
      PrintReadsBack(ts[1..], slash);
      var rest := Print(ts[1..]);
      match ts[0] {
        case Separator =>
          assert ("/" + rest)[1..] == rest;
        case Data(c) =>
          if IsUnreserved(c) {
            assert ([c] + rest)[1..] == rest;
          } else {
            EscapeReadsBack(c, rest);
          }
      }
    }
  }

  /** Normalisation keeps the meaning of URI text. */
  lemma MeaningPreserved(s: string, slash: bool)
    requires IsBytes(s)
    ensures Meaning(PercentEncode(s, slash, true), slash) == Meaning(s, slash)
  {
    EncodePrintsMeaning(s, slash);
    MeaningIsBytes(s, slash);
    PrintReadsBack(Meaning(s, slash), slash);
  }

  /** Normalising twice is normalising once. */
  lemma EncodeIdempotent(s: string, slash: bool)
    requires IsBytes(s)
    ensures PercentEncode(PercentEncode(s, slash, true), slash, true) == PercentEncode(s, slash, true)
  {
    MeaningPreserved(s, slash);
    EncodePrintsMeaning(s, slash);
    EncodePrintsMeaning(PercentEncode(s, slash, true), slash);
  }

  /** Two texts normalise alike exactly when they mean the same. */
  lemma NormalFormIsMeaning(a: string, b: string, slash: bool)
    requires IsBytes(a) && IsBytes(b)
    ensures PercentEncode(a, slash, true) == PercentEncode(b, slash, true) <==> Meaning(a, slash) == Meaning(b, slash)
  {
    EncodePrintsMeaning(a, slash);
    EncodePrintsMeaning(b, slash);
    MeaningPreserved(a, slash);
    MeaningPreserved(b, slash);
  }

  function Bytes(ts: seq<Token>): string {
    if ts == [] then "" else [if ts[0].Data? then ts[0].byte else '/'] + Bytes(ts[1..])
  }

  lemma {:induction false} DecodeIsMeaning(s: string, slash: bool)
    ensures Decode(s) == Bytes(Meaning(s, slash))
    decreases |s|
  {
    if s != [] {
      var tail := if StartsWithEscape(s) then s[3..] else s[1..];
      DecodeIsMeaning(tail, slash);
      assert Meaning(s, slash)[1..] == Meaning(tail, slash);
    }
  }

  /** Percent decoding the output gives what decoding the input gives. */
  lemma DecodePreserved(s: string, slash: bool)
    requires IsBytes(s)
    ensures Decode(PercentEncode(s, slash, true)) == Decode(s)
  {
    MeaningPreserved(s, slash);
    DecodeIsMeaning(s, slash);
    DecodeIsMeaning(PercentEncode(s, slash, true), slash);
  }

  /** Only unreserved bytes, the kept slash, and upper-case escapes of other bytes. */
  predicate IsNormal(s: string, slash: bool) {
    s == []
    || ((IsUnreserved(s[0]) || (slash && s[0] == '/')) && IsNormal(s[1..], slash))
    || (StartsWithEscape(s) && !IsUnreserved(EscapedByte(s)) && s[..3] == Escape(EscapedByte(s)) && IsNormal(s[3..], slash))
  }

  lemma {:induction false} OutputIsNormal(s: string, slash: bool, escapes: bool)
    requires IsBytes(s)
    ensures IsNormal(PercentEncode(s, slash, escapes), slash)
    decreases |s|
  {
    if s != [] {
      var escape := escapes && StartsWithEscape(s);
      var c := if escape then EscapedByte(s) else s[0];
      var tail := if escape then s[3..] else s[1..];
      OutputIsNormal(tail, slash, escapes);
      var rest := PercentEncode(tail, slash, escapes);
      EscapeReadsBack(c, rest);
      assert ([c] + rest)[1..] == rest && (Escape(c) + rest)[..3] == Escape(c);
    }
  }

  /** Without escape preservation the output decodes to the input itself. */
  lemma {:induction false} EncodeRawDecodes(s: string, slash: bool)
    requires IsBytes(s)
    ensures Decode(PercentEncode(s, slash, false)) == s
    decreases |s|
  {
    if s != [] {
      EncodeRawDecodes(s[1..], slash);
      var rest := PercentEncode(s[1..], slash, false);
      EscapeReadsBack(s[0], rest);
      assert ([s[0]] + rest)[1..] == rest && s == [s[0]] + s[1..];
    }
  }

  predicate IsOutputByte(c: char, slash: bool) {
    IsUnreserved(c) || c == '%' || (slash && c == '/')
  }

  predicate AllOutput(s: string, slash: bool) {
    forall i :: 0 <= i < |s| ==> IsOutputByte(s[i], slash)
  }

  lemma {:induction false} OutputBytes(s: string, slash: bool, escapes: bool)
    ensures AllOutput(PercentEncode(s, slash, escapes), slash)
    decreases |s|
  {
    if s != [] {
      OutputBytes(if escapes && StartsWithEscape(s) then s[3..] else s[1..], slash, escapes);
    }
  }
}
