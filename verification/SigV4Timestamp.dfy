/** Which timestamps a signed request may carry: the basic ISO 8601 text of a real date and time of day. */
module SigV4Timestamp {
  import opened Common
  import opened SigV4Headers

  function Digit(n: nat): string
    requires n < 10
  {
    ["0123456789"[n]]
  }

  function TwoDigits(n: nat): string
    requires n < 100
  {
    Digit(n / 10) + Digit(n % 10)
  }

  function FourDigits(n: nat): string
    requires n < 10_000
  {
    TwoDigits(n / 100) + TwoDigits(n % 100)
  }

  predicate IsLeap(year: nat) {
    year % 4 == 0 && (year % 100 == 0 ==> year % 400 == 0)
  }

  /** The day of the year before each month of a common year. */
  const DAYS_BEFORE: seq<nat> := [0, 31, 59, 90, 120, 151, 181, 212, 243, 273, 304, 334, 365]

  datatype Moment = Moment(year: nat, month: nat, day: nat, hour: nat, minute: nat, second: nat)

  /** A day of a month of the Gregorian calendar, and a time of that day without leap seconds. */
  predicate Exists(m: Moment) {
    && m.year < 10_000 && 1 <= m.month <= 12 && 1 <= m.day && m.hour < 24 && m.minute < 60 && m.second < 60
    && m.day <= DAYS_BEFORE[m.month] - DAYS_BEFORE[m.month - 1] + if m.month == 2 && IsLeap(m.year) then 1 else 0
  }

  function Basic(m: Moment): string
    requires Exists(m)
  {
    FourDigits(m.year) + TwoDigits(m.month) + TwoDigits(m.day) + "T"
    + TwoDigits(m.hour) + TwoDigits(m.minute) + TwoDigits(m.second) + "Z"
  }

  lemma MonthLength(year: nat, month: nat)
    requires 1 <= month <= 12
    ensures DaysInMonth(year, month)
         == DAYS_BEFORE[month] - DAYS_BEFORE[month - 1] + if month == 2 && IsLeap(year) then 1 else 0
    ensures DaysInMonth(year, month) < 100
  {
    if year % 400 == 0 {
      assert year % 100 == 0 && year % 4 == 0;
    }
  }

  predicate PairAt(s: string, i: nat, n: nat)
    requires i + 2 <= |s|
  {
    IsDigit(s[i]) && IsDigit(s[i + 1]) && DigitAt(s, i) * 10 + DigitAt(s, i + 1) == n
  }

  predicate QuadAt(s: string, n: nat)
    requires 4 <= |s|
  {
    (forall i :: 0 <= i < 4 ==> IsDigit(s[i]))
    && DigitAt(s, 0) * 1000 + DigitAt(s, 1) * 100 + DigitAt(s, 2) * 10 + DigitAt(s, 3) == n
  }

  lemma DigitsAt(s: string, i: nat, n: nat)
    requires i + 2 <= |s| && n < 100
    ensures s[i..i + 2] == TwoDigits(n) <==> PairAt(s, i, n)
  {
    var high, low := n / 10, n % 10;
    assert "0123456789"[high] as int == '0' as int + high && "0123456789"[low] as int == '0' as int + low;
    assert s[i..i + 2] == [s[i], s[i + 1]];
  }

  lemma YearAt(s: string, n: nat)
    requires 4 <= |s| && n < 10_000
    ensures s[..4] == FourDigits(n) <==> QuadAt(s, n)
  {
    DigitsAt(s, 0, n / 100);
    DigitsAt(s, 2, n % 100);
    assert s[..4] == s[0..2] + s[2..4];
    assert |TwoDigits(n / 100)| == 2;
    assert FourDigits(n)[..2] == TwoDigits(n / 100) && FourDigits(n)[2..] == TwoDigits(n % 100);
  }

  /** The text falls into these parts. */
  predicate Reads(s: string, m: Moment)
    requires Exists(m)
  {
    && |s| == 16 && s[..4] == FourDigits(m.year) && s[4..6] == TwoDigits(m.month) && s[6..8] == TwoDigits(m.day)
    && s[8] == 'T' && s[9..11] == TwoDigits(m.hour) && s[11..13] == TwoDigits(m.minute)
    && s[13..15] == TwoDigits(m.second) && s[15] == 'Z'
  }

  lemma BasicParts(m: Moment, b: string)
    requires Exists(m) && b == Basic(m)
    ensures Reads(b, m)
  {
    assert |b| == 16;
    assert b[..4] == FourDigits(m.year) && b[4..6] == TwoDigits(m.month) && b[6..8] == TwoDigits(m.day);
    assert b[9..11] == TwoDigits(m.hour) && b[11..13] == TwoDigits(m.minute) && b[13..15] == TwoDigits(m.second);
  }

  lemma BasicReads(s: string, m: Moment)
    requires Exists(m)
    ensures s == Basic(m) <==> Reads(s, m)
  {
    var b := Basic(m);
    BasicParts(m, b);
    if Reads(s, m) {
      Parts(s);
      Parts(b);
    }
  }

  lemma Parts(s: string)
    requires |s| == 16
    ensures s == s[..4] + s[4..6] + s[6..8] + [s[8]] + s[9..11] + s[11..13] + s[13..15] + [s[15]]
  {
  }

  /** The same, digit by digit. */
  predicate Spells(s: string, m: Moment) {
    && |s| == 16 && QuadAt(s, m.year) && PairAt(s, 4, m.month) && PairAt(s, 6, m.day)
    && s[8] == 'T' && PairAt(s, 9, m.hour) && PairAt(s, 11, m.minute) && PairAt(s, 13, m.second) && s[15] == 'Z'
  }

  lemma DayFits(m: Moment)
    requires Exists(m)
    ensures m.day < 100
  {
    MonthLength(m.year, m.month);
  }

  lemma ReadsIsSpells(s: string, m: Moment)
    requires Exists(m)
    ensures Reads(s, m) <==> Spells(s, m)
  {
    DayFits(m);
    if |s| == 16 {
      YearAt(s, m.year);
      DigitsAt(s, 4, m.month);
      DigitsAt(s, 6, m.day);
      DigitsAt(s, 9, m.hour);
      DigitsAt(s, 11, m.minute);
      DigitsAt(s, 13, m.second);
    }
  }

  lemma SpelledIsTimestamp(s: string, m: Moment)
    requires Exists(m) && Spells(s, m)
    ensures IsTimestamp(s)
  {
    MonthLength(m.year, m.month);
  }

  lemma TimestampIsSpelled(s: string) returns (m: Moment)
    requires IsTimestamp(s)
    ensures Exists(m) && Spells(s, m)
  {
    var year := DigitAt(s, 0) * 1000 + DigitAt(s, 1) * 100 + DigitAt(s, 2) * 10 + DigitAt(s, 3);
    var month, day := DigitAt(s, 4) * 10 + DigitAt(s, 5), DigitAt(s, 6) * 10 + DigitAt(s, 7);
    var hour, minute := DigitAt(s, 9) * 10 + DigitAt(s, 10), DigitAt(s, 11) * 10 + DigitAt(s, 12);
    MonthLength(year, month);
    m := Moment(year, month, day, hour, minute, DigitAt(s, 13) * 10 + DigitAt(s, 14));
  }

  /** A text is accepted as a timestamp exactly when it is the text of a moment that exists. */
  lemma TimestampsExactly(s: string)
    ensures IsTimestamp(s) <==> exists m :: Exists(m) && s == Basic(m)
  {
    if IsTimestamp(s) {
      var m := TimestampIsSpelled(s);
      ReadsIsSpells(s, m);
      BasicReads(s, m);
    }
    if m :| Exists(m) && s == Basic(m) {
      BasicReads(s, m);
      ReadsIsSpells(s, m);
      SpelledIsTimestamp(s, m);
    }
  }
}
