/** Which plain scalars the policy check refuses, and for which keys. */
module YamlNumbers {
  import opened Common
  import opened Numerals
  import opened YamlPolicy
  import opened YamlPolicyTree
  import opened YamlPolicyShape

  /** `value` is `digits` with underscores put in anywhere. */
  predicate Underscored(value: string, digits: string)
    decreases |value|
  {
    if value == "" then digits == ""
    else if value[0] == '_' then Underscored(value[1..], digits)
    else digits != "" && value[0] == digits[0] && Underscored(value[1..], digits[1..])
  }

  /** The refused scalars: signed ones, underscores without a digit, and numbers from 2^64 on. */
  ghost predicate Refused(value: string) {
    || (value != "" && value[0] in "+-")
    || (value != "" && Underscored(value, ""))
    || exists k: nat, n: nat :: n >= 18_446_744_073_709_551_616 && Underscored(value, Numeral(k, n))
  }

  lemma {:induction false} UnderscoredIs(value: string, digits: string)
    requires '_' !in digits
    ensures Underscored(value, digits) <==> WithoutUnderscores(value) == digits
    decreases |value|
  {
    if value != "" {
      if value[0] == '_' {
        UnderscoredIs(value[1..], digits);
      } else if digits != "" {
        UnderscoredIs(value[1..], digits[1..]);
        assert digits == [digits[0]] + digits[1..];
      }
    }
  }

  predicate DigitsAndUnderscores(value: string) {
    forall c :: c in value ==> IsDigit(c) || c == '_'
  }

  lemma WithoutIsDigits(value: string)
    ensures DigitsAndUnderscores(value) <==> AllDigits(WithoutUnderscores(value))
  {
    var digits := WithoutUnderscores(value);
    assert forall i :: 0 <= i < |digits| ==> digits[i] in digits;
    if AllDigits(digits) {
      forall c | c in value ensures IsDigit(c) || c == '_' {
        if c != '_' {
          assert c in digits;
        }
      }
    }
  }

  lemma NumeralHasNoUnderscore(k: nat, n: nat)
    ensures '_' !in Numeral(k, n) && Numeral(k, n) != ""
  {
    NumeralReads(k, n);
  }

  lemma Unsigned(value: string)
    requires value != "" && value[0] in "+-"
    ensures !DigitsAndUnderscores(value)
  {
    assert value[0] in value;
  }

  /** The number an unsigned text of digits spells, with its zeros. */
  lemma SpelledNumber(value: string) returns (k: nat, n: nat)
    requires DigitsAndUnderscores(value) && WithoutUnderscores(value) != ""
    ensures AllDigits(WithoutUnderscores(value)) && n == NumberOf(WithoutUnderscores(value))
    ensures Underscored(value, Numeral(k, n))
  {
    WithoutIsDigits(value);
    n := NumberOf(WithoutUnderscores(value));
    k := EveryNumeral(WithoutUnderscores(value));
    NumeralHasNoUnderscore(k, n);
    UnderscoredIs(value, Numeral(k, n));
  }

  /** A text that spells a number spells no other. */
  lemma NumberSpelled(value: string, k: nat, n: nat)
    requires Underscored(value, Numeral(k, n))
    ensures DigitsAndUnderscores(value) && value != ""
    ensures AllDigits(WithoutUnderscores(value)) && NumberOf(WithoutUnderscores(value)) == n && WithoutUnderscores(value) != ""
  {
    NumeralHasNoUnderscore(k, n);
    UnderscoredIs(value, Numeral(k, n));
    NumeralReads(k, n);
    WithoutIsDigits(value);
  }

  lemma OffendsMeans(value: string)
    ensures Offends(value)
       <==> || (value != "" && value[0] in "+-")
            || (value != "" && AllDigits(WithoutUnderscores(value))
                && (WithoutUnderscores(value) == "" || NumberOf(WithoutUnderscores(value)) >= 0x1_0000_0000_0000_0000))
  {
    WithoutIsDigits(value);
  }

  lemma RefusedOffends(value: string)
    requires Refused(value)
    ensures Offends(value)
  {
    OffendsMeans(value);
    if value[0] !in "+-" {
      if Underscored(value, "") {
        UnderscoredIs(value, "");
      } else {
        var k: nat, n: nat :| n >= 18_446_744_073_709_551_616 && Underscored(value, Numeral(k, n));
        NumberSpelled(value, k, n);
      }
    }
  }

  lemma OffendsRefused(value: string)
    requires Offends(value)
    ensures Refused(value)
  {
    OffendsMeans(value);
    WithoutIsDigits(value);
    if value[0] !in "+-" {
      if WithoutUnderscores(value) == "" {
        UnderscoredIs(value, "");
      } else {
        var k, n := SpelledNumber(value);
      }
    }
  }

  /** What the check refuses, for every text. */
  lemma OffendsExactly(value: string)
    ensures Offends(value) <==> Refused(value)
  {
    if Refused(value) {
      RefusedOffends(value);
    } else if Offends(value) {
      OffendsRefused(value);
    }
  }

  /** A number, with any zeros and underscores, is refused exactly from 2^64 on. */
  lemma NumbersRefused(value: string, k: nat, n: nat)
    requires Underscored(value, Numeral(k, n))
    ensures Offends(value) <==> n >= 18_446_744_073_709_551_616
  {
    NumberSpelled(value, k, n);
    if value[0] in "+-" {
      Unsigned(value);
    }
    OffendsMeans(value);
  }

  /** A text with a character that is no digit or underscore is refused only for a leading sign. */
  lemma WordsPass(value: string)
    requires !DigitsAndUnderscores(value) || value == ""
    ensures Offends(value) <==> value != "" && value[0] in "+-"
  {
    OffendsMeans(value);
    WithoutIsDigits(value);
  }

  /** The document with one plain number of a backup policy. */
  function NumberDocument(name: string, value: string): Node {
    BackupDocument(MoreEntries(ScalarNode(name, Plain, false), ScalarNode(value, Plain, false), NoEntries))
  }

  function NameOf(field: Field): string {
    match field
    case RetentionDays => "retention_days"
    case MaxAgeHours => "max_age_hours"
  }

  lemma FieldNamed(field: Field)
    ensures PolicyField(NameOf(field)) == Some(field)
  {
    assert |"retention_days"| != |"max_age_hours"|;
  }

  lemma OneEntry(name: string, value: string)
    ensures BackupOffence(MoreEntries(ScalarNode(name, Plain, false), ScalarNode(value, Plain, false), NoEntries))
         == if Offends(value) then PolicyField(name) else None
  {
    assert BackupOffence(NoEntries) == None;
  }

  lemma OneEntryInStep(name: string, value: string)
    ensures InStep(NumberDocument(name, value)) && !Unsupported(NumberDocument(name, value))
    ensures Offence(NumberDocument(name, value)) == if Offends(value) then PolicyField(name) else None
  {
    var es := MoreEntries(ScalarNode(name, Plain, false), ScalarNode(value, Plain, false), NoEntries);
    OneEntry(name, value);
    BackupDocumentRead(es);
    assert ShapeOf(es) == Entry(ScalarKind, ScalarKind, Empty);
    assert !BackupBad(Entry(ScalarKind, ScalarKind, Empty), false);
  }

  /** A plain number of a backup policy is reported under its name exactly when it is refused. */
  lemma NumberChecked(field: Field, value: string)
    ensures Run(INITIAL, StreamOf(NumberDocument(NameOf(field), value)))
         == if Refused(value) then Err(InvalidPolicy(field)) else Ok(())
  {
    OneEntryInStep(NameOf(field), value);
    FieldNamed(field);
    OffendsExactly(value);
    PolicyCheckMeaning(NumberDocument(NameOf(field), value));
  }
}
