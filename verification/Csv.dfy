/** The accounting CSV writer, read back under RFC 4180 section 2 with LF as record end. */
module Csv {
  import opened Common
  import opened Text

  predicate NeedsQuotes(value: string) {
    exists i :: 0 <= i < |value| && (value[i] == ',' || value[i] == '"' || value[i] == '\n')
  }

  function DoubledQuote(c: char): string {
    if c == '"' then ['"', '"'] else [c]
  }

  function DoubleQuotes(value: string): string {
    if value == [] then ""
    else DoubleQuotes(value[..|value| - 1]) + DoubledQuote(value[|value| - 1])
  }

  function EscapeField(value: string): string {
    if NeedsQuotes(value) then ['"'] + DoubleQuotes(value) + ['"'] else value
  }

  function JoinFields(columns: seq<string>): string {
    if columns == [] then ""
    else if |columns| == 1 then EscapeField(columns[0])
    else JoinFields(columns[..|columns| - 1]) + ([','] + EscapeField(columns[|columns| - 1]))
  }

  function CsvRow(columns: seq<string>): string {
    JoinFields(columns) + ['\n']
  }

  function CsvFile(rows: seq<seq<string>>): string {
    if rows == [] then "" else CsvFile(rows[..|rows| - 1]) + CsvRow(rows[|rows| - 1])
  }

  // ---------------------------------------------------------------- the reader

  /** Where the reader is: before a field, in a bare field, in a quoted one, or after a quote in one. */
  datatype Mode = FieldStart | Bare | Quoted | AfterQuote

  datatype Reader = Reader(mode: Mode, field: string, record: seq<string>, rows: seq<seq<string>>) {

    function EndField(): Reader {
      Reader(FieldStart, "", record + [field], rows)
    }

    function EndRecord(): Reader {
      Reader(FieldStart, "", [], rows + [record + [field]])
    }

    function Take(c: char, next: Mode): Reader {
      this.(mode := next, field := field + [c])
    }

    function Read(c: char): Option<Reader> {
      match mode
      case FieldStart =>
        if c == '"' then Some(this.(mode := Quoted))
        else if c == ',' then Some(EndField())
        else if c == '\n' then Some(EndRecord())
        else Some(Take(c, Bare))
      case Bare =>
        if c == '"' then None
        else if c == ',' then Some(EndField())
        else if c == '\n' then Some(EndRecord())
        else Some(Take(c, Bare))
      case Quoted => Some(if c == '"' then this.(mode := AfterQuote) else Take(c, Quoted))
      case AfterQuote =>
        if c == '"' then Some(Take(c, Quoted))
        else if c == ',' then Some(EndField())
        else if c == '\n' then Some(EndRecord())
        else None
    }

    /** The rows at the end of the text; the last record may lack its line end. */
    function Finish(): Option<seq<seq<string>>> {
      if mode == Quoted then None
      else if mode == FieldStart && record == [] then Some(rows)
      else Some(EndRecord().rows)
    }
  }

  function ReadAll(r: Reader, text: string): Option<Reader> {
    if text == [] then Some(r)
    else
      var before := ReadAll(r, text[..|text| - 1]);
      if before.None? then None else before.value.Read(text[|text| - 1])
  }

  const BEGIN: Reader := Reader(FieldStart, "", [], [])

  function Parse(text: string): Option<seq<seq<string>>> {
    var r := ReadAll(BEGIN, text);
    if r.None? then None else r.value.Finish()
  }

  // ----------------------------------------------------------------- round trip

  lemma ReadOne(r: Reader, text: string, c: char)
    ensures ReadAll(r, text + [c]) == if ReadAll(r, text).None? then None else ReadAll(r, text).value.Read(c)
  {
    assert (text + [c])[..|text|] == text;
  }

  /** Reading one text and then another is reading them together. */
  lemma {:induction false} ReadOn(r: Reader, a: string, b: string)
    requires ReadAll(r, a).Some?
    ensures ReadAll(r, a + b) == ReadAll(ReadAll(r, a).value, b)
  {
    if b == [] {
      assert a + b == a;
    } else {
      var init, last := b[..|b| - 1], b[|b| - 1];
      ReadOn(r, a, init);
      ReadOne(r, a + init, last);
      assert a + b == a + init + [last];
    }
  }

  lemma ReadChar(r: Reader, c: char)
    ensures ReadAll(r, [c]) == r.Read(c)
  {
    ReadOne(r, [], c);
    assert [] + [c] == [c];
  }

  lemma {:induction false} ReadBare(r: Reader, value: string)
    requires r.mode == FieldStart && r.field == "" && !NeedsQuotes(value)
    ensures ReadAll(r, value) == Some(if value == "" then r else r.(mode := Bare, field := value))
  {
    if value != "" {
      var init, last := value[..|value| - 1], value[|value| - 1];
      assert forall i :: 0 <= i < |init| ==> init[i] == value[i];
      ReadBare(r, init);
      assert value == init + [last];
      assert !(last == ',' || last == '"' || last == '\n');
    }
  }

  lemma {:induction false} ReadQuoted(r: Reader, value: string)
    requires r.mode == Quoted && r.field == ""
    ensures ReadAll(r, DoubleQuotes(value)) == Some(r.(field := value))
  {
    if value != "" {
      var init, last := value[..|value| - 1], value[|value| - 1];
      ReadQuoted(r, init);
      assert value == init + [last];
      ReadQuotedNext(r, init, last);
    }
  }

  lemma ReadQuotedNext(r: Reader, value: string, c: char)
    requires r.mode == Quoted && ReadAll(r, DoubleQuotes(value)) == Some(r.(field := value))
    ensures ReadAll(r, DoubleQuotes(value + [c])) == Some(r.(field := value + [c]))
  {
    assert (value + [c])[..|value|] == value;
    ReadOn(r, DoubleQuotes(value), DoubledQuote(c));
    ReadDoubled(r.(field := value), c);
  }

  lemma ReadDoubled(r: Reader, c: char)
    requires r.mode == Quoted
    ensures ReadAll(r, DoubledQuote(c)) == Some(r.Take(c, Quoted))
  {
    ReadChar(r, c);
    if c == '"' {
      ReadOne(r, ['"'], '"');
      assert ['"'] + ['"'] == ['"', '"'];
    }
  }

  /** An escaped field leaves the reader at its end with its value. */
  predicate HoldsField(r: Reader, value: string) {
    r.field == value && (r.mode == Bare || r.mode == AfterQuote || (r.mode == FieldStart && value == ""))
  }

  lemma ReadField(r: Reader, value: string) returns (after: Reader)
    requires r.mode == FieldStart && r.field == ""
    ensures ReadAll(r, EscapeField(value)) == Some(after) && HoldsField(after, value)
    ensures after.record == r.record && after.rows == r.rows
  {
    if NeedsQuotes(value) {
      var inside := r.(mode := Quoted);
      ReadChar(r, '"');
      ReadQuoted(inside, value);
      ReadOn(r, ['"'], DoubleQuotes(value));
      ReadOne(r, ['"'] + DoubleQuotes(value), '"');
      after := inside.(field := value, mode := AfterQuote);
    } else {
      ReadBare(r, value);
      after := if value == "" then r else r.(mode := Bare, field := value);
    }
  }

  /** Fields joined by commas leave the reader at the end of the last. */
  lemma {:induction false} ReadFields(rows: seq<seq<string>>, columns: seq<string>) returns (after: Reader)
    requires columns != []
    ensures ReadAll(Reader(FieldStart, "", [], rows), JoinFields(columns)) == Some(after)
    ensures HoldsField(after, columns[|columns| - 1]) && after.record == columns[..|columns| - 1] && after.rows == rows
  {
    var r := Reader(FieldStart, "", [], rows);
    if |columns| == 1 {
      after := ReadField(r, columns[0]);
    } else {
      var init, last := columns[..|columns| - 1], columns[|columns| - 1];
      var before := ReadFields(rows, init);
      var next := Reader(FieldStart, "", init, rows);
      assert before.record + [before.field] == init;
      ReadChar(before, ',');
      after := ReadField(next, last);
      ReadOn(before, [','], EscapeField(last));
      ReadOn(r, JoinFields(init), [','] + EscapeField(last));
    }
  }

  /** What a row reads back as: a row without fields is one empty field. */
  function Shown(row: seq<string>): seq<string> {
    if row == [] then [""] else row
  }

  lemma ReadRow(rows: seq<seq<string>>, columns: seq<string>)
    ensures ReadAll(Reader(FieldStart, "", [], rows), CsvRow(columns))
         == Some(Reader(FieldStart, "", [], rows + [Shown(columns)]))
  {
    var r := Reader(FieldStart, "", [], rows);
    if columns == [] {
      ReadChar(r, '\n');
      assert CsvRow(columns) == ['\n'] && [] + [""] == [""];
    } else {
      var after := ReadFields(rows, columns);
      ReadOne(r, JoinFields(columns), '\n');
      assert after.record + [after.field] == columns;
    }
  }

  function ShownRows(rows: seq<seq<string>>): (r: seq<seq<string>>)
    ensures |r| == |rows|
  {
    if rows == [] then [] else ShownRows(rows[..|rows| - 1]) + [Shown(rows[|rows| - 1])]
  }

  lemma {:induction false} ReadRows(rows: seq<seq<string>>)
    ensures ReadAll(BEGIN, CsvFile(rows)) == Some(Reader(FieldStart, "", [], ShownRows(rows)))
  {
    if rows != [] {
      var init := rows[..|rows| - 1];
      ReadRows(init);
      ReadRow(ShownRows(init), rows[|rows| - 1]);
      ReadOn(BEGIN, CsvFile(init), CsvRow(rows[|rows| - 1]));
    }
  }

  lemma {:induction false} ShownAsIs(rows: seq<seq<string>>)
    ensures ShownRows(rows) == rows <==> forall i :: 0 <= i < |rows| ==> rows[i] != []
  {
    if rows != [] {
      var init, last := rows[..|rows| - 1], rows[|rows| - 1];
      ShownAsIs(init);
      assert rows == init + [last];
      assert ShownRows(rows)[..|init|] == ShownRows(init) && ShownRows(rows)[|init|] == Shown(last);
    }
  }

  /** Any rows, of any strings, read back, and as themselves exactly when none is empty. */
  lemma CsvRoundTrip(rows: seq<seq<string>>)
    ensures Parse(CsvFile(rows)) == Some(ShownRows(rows))
    ensures Parse(CsvFile(rows)) == Some(rows) <==> forall i :: 0 <= i < |rows| ==> rows[i] != []
  {
    ReadRows(rows);
    ShownAsIs(rows);
  }

  /** So two files are equal only when their rows are. */
  lemma CsvIsInjective(a: seq<seq<string>>, b: seq<seq<string>>)
    requires forall i :: 0 <= i < |a| ==> a[i] != []
    requires forall i :: 0 <= i < |b| ==> b[i] != []
    requires CsvFile(a) == CsvFile(b)
    ensures a == b
  {
    CsvRoundTrip(a);
    CsvRoundTrip(b);
  }

  // ---------------------------------------------------------------- the text of a row

  predicate Plain(value: string) {
    forall i :: 0 <= i < |value| ==> value[i] != ',' && value[i] != '"' && value[i] != '\n'
  }

  lemma PlainStays(value: string)
    requires Plain(value)
    ensures EscapeField(value) == value
  {
  }

  lemma {:induction false} FieldsAreJoined(columns: seq<string>)
    ensures JoinFields(columns) == Join(Map(EscapeField, columns), ',')
  {
    if |columns| > 1 {
      var init, last := columns[..|columns| - 1], columns[|columns| - 1];
      FieldsAreJoined(init);
      JoinLast(Map(EscapeField, init), EscapeField(last), ',');
      assert Map(EscapeField, columns) == Map(EscapeField, init) + [EscapeField(last)];
    }
  }

  /** A row is its fields between commas and a line end; only fields with a comma, a quote or a line end are quoted. */
  lemma RowIsJoined(columns: seq<string>) returns (fields: seq<string>)
    ensures CsvRow(columns) == Join(fields, ',') + ['\n'] && |fields| == |columns|
    ensures forall i :: 0 <= i < |columns| && Plain(columns[i]) ==> fields[i] == columns[i]
  {
    fields := Map(EscapeField, columns);
    FieldsAreJoined(columns);
    forall i | 0 <= i < |columns| && Plain(columns[i]) ensures fields[i] == columns[i] {
      PlainStays(columns[i]);
    }
  }
}
