/** Decimal numerals: printing, reading, and what every text of digits is. */
module Numerals {
  import opened Common

  function DigitsOf(n: nat): string {
    if n < 10 then [('0' as int + n) as char] else DigitsOf(n / 10) + [('0' as int + n % 10) as char]
  }

  predicate AllDigits(s: string) {
    forall i :: 0 <= i < |s| ==> IsDigit(s[i])
  }

  function NumberOf(s: string): nat
    requires AllDigits(s)
  {
    if s == [] then 0 else 10 * NumberOf(s[..|s| - 1]) + (s[|s| - 1] as int - '0' as int)
  }

  function Zeros(k: nat): (z: string)
    ensures |z| == k
  {
    if k == 0 then "" else Zeros(k - 1) + ['0']
  }

  lemma {:induction false} DigitsRoundTrip(n: nat)
    ensures DigitsOf(n) != [] && AllDigits(DigitsOf(n)) && NumberOf(DigitsOf(n)) == n
  {
    if n >= 10 {
      DigitsRoundTrip(n / 10);
      var s := DigitsOf(n);
      assert s[..|s| - 1] == DigitsOf(n / 10);
    }
  }

  lemma {:induction false} ZerosAreNothing(k: nat)
    ensures AllDigits(Zeros(k)) && NumberOf(Zeros(k)) == 0
  {
    if k > 0 {
      ZerosAreNothing(k - 1);
      assert Zeros(k)[..k - 1] == Zeros(k - 1);
    }
  }

  /** Leading zeros do not change a number. */
  lemma {:induction false} ZerosLead(k: nat, s: string)
    requires AllDigits(s)
    ensures AllDigits(Zeros(k) + s) && NumberOf(Zeros(k) + s) == NumberOf(s)
    decreases |s|
  {
    ZerosAreNothing(k);
    if s == [] {
      assert Zeros(k) + s == Zeros(k);
    } else {
      ZerosLead(k, s[..|s| - 1]);
      assert (Zeros(k) + s)[..|Zeros(k) + s| - 1] == Zeros(k) + s[..|s| - 1];
    }
  }

  /** The numeral of n with k leading zeros. */
  function Numeral(k: nat, n: nat): string {
    Zeros(k) + DigitsOf(n)
  }

  lemma NumeralReads(k: nat, n: nat)
    ensures Numeral(k, n) != "" && AllDigits(Numeral(k, n)) && NumberOf(Numeral(k, n)) == n
  {
    DigitsRoundTrip(n);
    ZerosLead(k, DigitsOf(n));
  }

  /** Every text of digits is such a numeral, of the number it reads as. */
  lemma {:induction false} EveryNumeral(s: string) returns (k: nat)
    requires s != "" && AllDigits(s)
    ensures s == Numeral(k, NumberOf(s))
    decreases |s|
  {
    var front, last := s[..|s| - 1], s[|s| - 1];
    var digit: nat := last as int - '0' as int;
    assert s == front + [last];
    if front == "" {
      k := 0;
    } else {
      var j := EveryNumeral(front);
      var m := NumberOf(front);
      if m == 0 {
        assert front == Zeros(j) + ['0'];
        k := j + 1;
        assert s == Zeros(j) + ['0'] + [last];
      } else {
        k := j;
        AnotherDigit(m, digit);
        assert Zeros(j) + DigitsOf(m) + [last] == Zeros(j) + (DigitsOf(m) + [last]);
      }
    }
  }

  lemma AnotherDigit(m: nat, digit: nat)
    requires m > 0 && digit < 10
    ensures DigitsOf(10 * m + digit) == DigitsOf(m) + [('0' as int + digit) as char]
  {
    assert (10 * m + digit) / 10 == m && (10 * m + digit) % 10 == digit;
  }
}
