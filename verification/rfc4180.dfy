/** The CSV field quoting of the export, and a reference reader for the text it writes.
    The quoting follows section 2 of RFC 4180 (items 6 and 7): a field holding a comma,
    a double quote or a line break is enclosed in double quotes, and a double quote
    inside such a field is written twice. Records are separated by a line feed. */
module Rfc4180 {

  const Quote: char := '"'
  const Comma: char := ','
  const LineFeed: char := '\n'

  /** Whether a field must be enclosed in quotes. A carriage return on its own does not
      count: only the line feed is looked for. */
  predicate NeedsQuoting(s: string) {
    Comma in s || Quote in s || LineFeed in s
  }

  /** Writes every double quote twice. */
  function DoubleQuotes(s: string): (r: string)
    ensures |r| >= |s|
    ensures forall c :: c in r <==> c in s
  {
    if s == [] then []
    else
      assert s == [s[0]] + s[1..];
      (if s[0] == Quote then [Quote, Quote] else [s[0]]) + DoubleQuotes(s[1..])
  }

  /** Reads two double quotes in a row as one. */
  function UndoubleQuotes(s: string): string {
    if s == [] then []
    else if s[0] == Quote && |s| > 1 && s[1] == Quote then [Quote] + UndoubleQuotes(s[2..])
    else [s[0]] + UndoubleQuotes(s[1..])
  }

  lemma {:induction false} UndoubleDoubleQuotes(s: string)
    ensures UndoubleQuotes(DoubleQuotes(s)) == s
  {
    if s != [] {
      UndoubleDoubleQuotes(s[1..]);
      var d := DoubleQuotes(s);
      if s[0] == Quote {
        assert d[2..] == DoubleQuotes(s[1..]);
      } else {
        assert d[1..] == DoubleQuotes(s[1..]);
      }
    }
  }

  /** `escapeCSV`: a field that needs quoting is enclosed in quotes with its quotes
      doubled; any other field is written as it is. */
  function EscapeCsv(s: string): (r: string)
    ensures !NeedsQuoting(s) ==> r == s
    ensures NeedsQuoting(s) ==>
      && |r| >= 2 && r[0] == Quote && r[|r| - 1] == Quote
      && UndoubleQuotes(r[1..|r| - 1]) == s
  {
    if NeedsQuoting(s) then
      var r := [Quote] + DoubleQuotes(s) + [Quote];
      assert r[1..|r| - 1] == DoubleQuotes(s);
      UndoubleDoubleQuotes(s);
      r
    else s
  }

  /** Joins the parts with a separator between neighbours: `Array.prototype.join`. */
  function Join(parts: seq<string>, sep: char): string {
    if |parts| == 0 then []
    else if |parts| == 1 then parts[0]
    else parts[0] + [sep] + Join(parts[1..], sep)
  }

  function EscapeAll(fields: seq<string>): (r: seq<string>)
    ensures |r| == |fields|
    ensures forall k :: 0 <= k < |r| ==> r[k] == EscapeCsv(fields[k])
  {
    if fields == [] then [] else [EscapeCsv(fields[0])] + EscapeAll(fields[1..])
  }

  /** One record: its fields escaped and joined by commas. */
  function Line(fields: seq<string>): string {
    Join(EscapeAll(fields), Comma)
  }

  function Lines(rows: seq<seq<string>>): (r: seq<string>)
    ensures |r| == |rows|
  {
    if rows == [] then [] else [Line(rows[0])] + Lines(rows[1..])
  }

  /** A whole document: its records joined by line feeds, with no final line feed. */
  function Document(rows: seq<seq<string>>): string {
    Join(Lines(rows), LineFeed)
  }

  // A reader for such documents.

  /** An unquoted field runs up to the next comma or line feed. Returns the field and
      what follows it. */
  function ReadBare(s: string): (r: (string, string))
    ensures |r.1| <= |s|
  {
    if s == [] || s[0] == Comma || s[0] == LineFeed then ([], s)
    else
      var (f, rest) := ReadBare(s[1..]);
      ([s[0]] + f, rest)
  }

  /** The inside of a quoted field, after its opening quote: two quotes stand for one,
      a single quote closes the field. An unclosed field runs to the end of the text. */
  function ReadQuoted(s: string): (r: (string, string))
    ensures |r.1| <= |s|
  {
    if s == [] then ([], [])
    else if s[0] == Quote then
      if |s| > 1 && s[1] == Quote then
        var (f, rest) := ReadQuoted(s[2..]);
        ([Quote] + f, rest)
      else ([], s[1..])
    else
      var (f, rest) := ReadQuoted(s[1..]);
      ([s[0]] + f, rest)
  }

  function ReadField(s: string): (r: (string, string))
    ensures |r.1| <= |s|
  {
    if s != [] && s[0] == Quote then ReadQuoted(s[1..]) else ReadBare(s)
  }

  /** The fields of one record, and what follows the record. */
  function ReadFields(s: string): (r: (seq<string>, string))
    ensures |r.1| <= |s|
    decreases |s|
  {
    var (f, rest) := ReadField(s);
    if rest != [] && rest[0] == Comma then
      var (fs, rest') := ReadFields(rest[1..]);
      ([f] + fs, rest')
    else ([f], rest)
  }

  /** All records of a text. */
  function ReadDocument(s: string): seq<seq<string>>
    decreases |s|
  {
    if s == [] then []
    else
      var (fs, rest) := ReadFields(s);
      [fs] + (if rest == [] then [] else ReadDocument(rest[1..]))
  }

  // Reading back what was written.

  /** What may follow a field: the end of the text, a comma or a line feed. */
  predicate FieldEnd(rest: string) {
    rest == [] || rest[0] == Comma || rest[0] == LineFeed
  }

  lemma {:induction false} ReadBareRoundTrip(f: string, rest: string)
    requires !NeedsQuoting(f)
    requires FieldEnd(rest)
    ensures ReadBare(f + rest) == (f, rest)
  {
    if f != [] {
      var s := f + rest;
      assert s[0] == f[0] && f[0] in f;
      assert s[1..] == f[1..] + rest;
      assert !NeedsQuoting(f[1..]) by {
        assert forall c :: c in f[1..] ==> c in f;
      }
      ReadBareRoundTrip(f[1..], rest);
      assert s[0] != Comma && s[0] != LineFeed;
      assert ReadBare(s) == ([f[0]] + f[1..], rest);
      assert f == [f[0]] + f[1..];
    } else {
      assert f + rest == rest;
    }
  }

  lemma {:induction false} ReadQuotedRoundTrip(f: string, rest: string)
    requires rest == [] || rest[0] != Quote
    ensures ReadQuoted(DoubleQuotes(f) + [Quote] + rest) == (f, rest)
  {
    var s := DoubleQuotes(f) + [Quote] + rest;
    if f == [] {
      assert s == [Quote] + rest;
      assert s[1..] == rest;
    } else {
      ReadQuotedRoundTrip(f[1..], rest);
      var tail := DoubleQuotes(f[1..]) + [Quote] + rest;
      if f[0] == Quote {
        assert DoubleQuotes(f) == [Quote, Quote] + DoubleQuotes(f[1..]);
        assert s == [Quote, Quote] + tail;
        assert s[2..] == tail;
        assert ReadQuoted(s) == ([Quote] + f[1..], rest);
      } else {
        assert DoubleQuotes(f) == [f[0]] + DoubleQuotes(f[1..]);
        assert s == [f[0]] + tail;
        assert s[1..] == tail;
        assert ReadQuoted(s) == ([f[0]] + f[1..], rest);
      }
      assert f == [f[0]] + f[1..];
    }
  }

  lemma QuotedFieldRoundTrip(f: string, rest: string)
    requires NeedsQuoting(f)
    requires FieldEnd(rest)
    ensures ReadField(EscapeCsv(f) + rest) == (f, rest)
  {
    var d := DoubleQuotes(f);
    var inner := d + [Quote] + rest;
    assert EscapeCsv(f) == [Quote] + d + [Quote];
    Shift(d, rest);
    ReadQuotedRoundTrip(f, rest);
  }

  lemma Shift(d: string, rest: string)
    ensures ([Quote] + d + [Quote] + rest)[0] == Quote
    ensures ([Quote] + d + [Quote] + rest)[1..] == d + [Quote] + rest
  {
  }

  lemma BareFieldRoundTrip(f: string, rest: string)
    requires !NeedsQuoting(f)
    requires FieldEnd(rest)
    ensures ReadField(EscapeCsv(f) + rest) == (f, rest)
  {
    ReadBareRoundTrip(f, rest);
    if f != [] {
      assert f[0] in f;
      assert (f + rest)[0] == f[0];
    } else {
      assert f + rest == rest;
    }
  }

  /** An escaped field reads back as itself. */
  lemma FieldRoundTrip(f: string, rest: string)
    requires FieldEnd(rest)
    ensures ReadField(EscapeCsv(f) + rest) == (f, rest)
  {
    if NeedsQuoting(f) {
      QuotedFieldRoundTrip(f, rest);
    } else {
      BareFieldRoundTrip(f, rest);
    }
  }

  /** A record reads back as its fields, up to the line feed or end that follows it. */
  lemma {:induction false} FieldsRoundTrip(fields: seq<string>, rest: string)
    requires |fields| >= 1
    requires rest == [] || rest[0] == LineFeed
    ensures ReadFields(Line(fields) + rest) == (fields, rest)
  {
    var e := EscapeAll(fields);
    if |fields| == 1 {
      assert e == [EscapeCsv(fields[0])];
      assert Line(fields) == EscapeCsv(fields[0]);
      FieldRoundTrip(fields[0], rest);
      assert fields == [fields[0]];
    } else {
      var more := Line(fields[1..]) + rest;
      assert EscapeAll(fields[1..]) == e[1..];
      assert Line(fields) + rest == EscapeCsv(fields[0]) + ([Comma] + more);
      FieldRoundTrip(fields[0], [Comma] + more);
      assert ([Comma] + more)[1..] == more;
      FieldsRoundTrip(fields[1..], rest);
      assert fields == [fields[0]] + fields[1..];
    }
  }

  /** A record that does not read as an empty line. */
  predicate NonBlank(row: seq<string>) {
    |row| > 1 || (|row| == 1 && row[0] != [])
  }

  lemma NonBlankLine(row: seq<string>)
    requires NonBlank(row)
    ensures Line(row) != []
  {
    var e := EscapeAll(row);
    if |row| == 1 {
      if NeedsQuoting(row[0]) {
        assert |e[0]| >= 2;
      }
    } else {
      assert |Line(row)| >= |e[0] + [Comma]|;
    }
  }

  /** Round trip: reading a written document gives back its records, in order. */
  lemma {:induction false} DocumentRoundTrip(rows: seq<seq<string>>)
    requires forall k :: 0 <= k < |rows| ==> NonBlank(rows[k])
    ensures ReadDocument(Document(rows)) == rows
  {
    if |rows| == 1 {
      NonBlankLine(rows[0]);
      FieldsRoundTrip(rows[0], []);
      assert Document(rows) == Line(rows[0]) + [];
    } else if |rows| > 1 {
      var more := Document(rows[1..]);
      assert Lines(rows[1..]) == Lines(rows)[1..];
      assert Document(rows) == Line(rows[0]) + ([LineFeed] + more);
      assert |rows[0]| >= 1;
      FieldsRoundTrip(rows[0], [LineFeed] + more);
      assert ([LineFeed] + more)[1..] == more;
      DocumentRoundTrip(rows[1..]);
      assert rows == [rows[0]] + rows[1..];
    }
  }
}
