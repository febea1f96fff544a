/** The part of Python's `csv.writer` (default dialect: `,` delimiter, `"`
    quote character, minimal quoting, `\r\n` line terminator) that the log
    export goes through, together with a reader for the same dialect that
    serves as its reference: reading back what was written gives the rows. */
module CsvWriter {
  import opened Wrappers
  import opened Text

  /** Characters that force a field into quotes under minimal quoting. */
  predicate Special(c: char)
  {
    c == ',' || c == '"' || c == '\r' || c == '\n'
  }

  /** Some character of the field is special. */
  predicate NeedsQuoting(f: string)
  {
    f != [] && (Special(f[0]) || NeedsQuoting(f[1..]))
  }

  /** Each quote character written twice. */
  function DoubleQuotes(f: string): string
  {
    if f == [] then []
    else (if f[0] == '"' then "\"\"" else [f[0]]) + DoubleQuotes(f[1..])
  }

  function Quoted(f: string): string
  {
    "\"" + DoubleQuotes(f) + "\""
  }

  function FormatField(f: string): string
  {
    if NeedsQuoting(f) then Quoted(f) else f
  }

  function JoinFields(fields: seq<string>): string
    requires fields != []
  {
    if |fields| == 1 then FormatField(fields[0])
    else FormatField(fields[0]) + "," + JoinFields(fields[1..])
  }

  /** `writer.writerow(fields)`: a record made of a single empty field is
      written as `""` so that it does not read back as a blank line. */
  function FormatRecord(fields: seq<string>): string
  {
    (if fields == [] then "" else if fields == [""] then Quoted("") else JoinFields(fields)) + "\r\n"
  }

  /** Everything written by a sequence of `writerow` calls. */
  function Document(rows: seq<seq<string>>): string
  {
    if rows == [] then "" else Document(rows[..|rows| - 1]) + FormatRecord(rows[|rows| - 1])
  }

  // ---------------------------------------------------------------------------
  // The reader
  // ---------------------------------------------------------------------------

  /** The rest of a quoted field after its opening quote: a doubled quote stands
      for one quote, a single quote closes the field. */
  function ReadQuoted(s: string): (r: Option<(string, string)>)
    ensures r.Some? ==> |r.value.1| < |s|
  {
    if s == [] then None
    else if s[0] == '"' then
      if |s| >= 2 && s[1] == '"' then
        match ReadQuoted(s[2..])
        case None => None
        case Some((f, rest)) => Some(("\"" + f, rest))
      else Some(("", s[1..]))
    else
      match ReadQuoted(s[1..])
      case None => None
      case Some((f, rest)) => Some(([s[0]] + f, rest))
  }

  /** An unquoted field runs up to the next delimiter or line break. */
  function ReadBare(s: string): (r: (string, string))
    ensures |r.1| <= |s|
  {
    if s == [] || s[0] == ',' || s[0] == '\r' || s[0] == '\n' then ("", s)
    else
      var (f, rest) := ReadBare(s[1..]);
      ([s[0]] + f, rest)
  }

  function ReadField(s: string): (r: Option<(string, string)>)
    ensures r.Some? ==> |r.value.1| <= |s|
  {
    if s != [] && s[0] == '"' then ReadQuoted(s[1..]) else Some(ReadBare(s))
  }

  /** Fields separated by delimiters, up to whatever follows the last one. */
  function ReadFields(s: string): (r: Option<(seq<string>, string)>)
    ensures r.Some? ==> r.value.0 != [] && |r.value.1| <= |s|
    decreases |s|
  {
    match ReadField(s)
    case None => None
    case Some((f, rest)) =>
      if rest != [] && rest[0] == ',' then
        match ReadFields(rest[1..])
        case None => None
        case Some((fs, rest')) => Some(([f] + fs, rest'))
      else Some(([f], rest))
  }

  /** One record and its line terminator. */
  function ReadRecord(s: string): (r: Option<(seq<string>, string)>)
    ensures r.Some? ==> |r.value.1| < |s|
  {
    match ReadFields(s)
    case None => None
    case Some((fs, rest)) =>
      if |rest| >= 2 && rest[..2] == "\r\n" then Some((fs, rest[2..])) else None
  }

  function ReadDocument(s: string): Option<seq<seq<string>>>
    decreases |s|
  {
    if s == [] then Some([])
    else
      match ReadRecord(s)
      case None => None
      case Some((fs, rest)) =>
        match ReadDocument(rest)
        case None => None
        case Some(rows) => Some([fs] + rows)
  }

  // ---------------------------------------------------------------------------
  // Round trips
  // ---------------------------------------------------------------------------

  /** What may follow a field: another field, the line break, or nothing. */
  predicate FieldEnd(t: string)
  {
    t == [] || t[0] == ',' || t[0] == '\r'
  }

  lemma {:induction false} ReadQuotedRoundTrip(f: string, t: string)
    requires t == [] || t[0] != '"'
    ensures ReadQuoted(DoubleQuotes(f) + "\"" + t) == Some((f, t))
  {
    if f == [] {
      assert DoubleQuotes(f) + "\"" + t == "\"" + t;
      assert ("\"" + t)[1..] == t;
    } else {
      ReadQuotedRoundTrip(f[1..], t);
      ReadQuotedStep(f, t);
    }
  }

  /** One more character in front of a quoted field that reads back. */
  lemma ReadQuotedStep(f: string, t: string)
    requires f != [] && ReadQuoted(DoubleQuotes(f[1..]) + "\"" + t) == Some((f[1..], t))
    ensures ReadQuoted(DoubleQuotes(f) + "\"" + t) == Some((f, t))
  {
    var q, d := if f[0] == '"' then "\"\"" else [f[0]], DoubleQuotes(f[1..]);
    var rest := d + "\"" + t;
    assert DoubleQuotes(f) == q + d;
    Associative(q, d, "\"");
    Associative(q, d + "\"", t);
    if f[0] == '"' {
      ReadDoubledQuote(rest);
      assert "\"" + f[1..] == f;
    } else {
      ReadQuotedChar(f[0], rest);
      assert [f[0]] + f[1..] == f;
    }
  }


  /** Inside quotes, a doubled quote reads as one quote. */
  lemma ReadDoubledQuote(s: string)
    ensures ReadQuoted("\"\"" + s) == match ReadQuoted(s)
                                      case None => None
                                      case Some((f, rest)) => Some(("\"" + f, rest))
  {
    assert ("\"\"" + s)[2..] == s;
  }

  /** Inside quotes, any other character reads as itself. */
  lemma ReadQuotedChar(c: char, s: string)
    requires c != '"'
    ensures ReadQuoted([c] + s) == match ReadQuoted(s)
                                   case None => None
                                   case Some((f, rest)) => Some(([c] + f, rest))
  {
    assert ([c] + s)[1..] == s;
  }

  lemma {:induction false} ReadBareRoundTrip(f: string, t: string)
    requires !NeedsQuoting(f) && FieldEnd(t)
    ensures ReadBare(f + t) == (f, t)
  {
    if f == [] {
      assert f + t == t;
    } else {
      ReadBareRoundTrip(f[1..], t);
      assert (f + t)[1..] == f[1..] + t;
      assert [f[0]] + f[1..] == f;
    }
  }

  /** A formatted field reads back as itself, leaving what followed it. */
  lemma ReadFieldRoundTrip(f: string, t: string)
    requires FieldEnd(t)
    ensures ReadField(FormatField(f) + t) == Some((f, t))
  {
    if NeedsQuoting(f) {
      ReadQuotedRoundTrip(f, t);
      assert FormatField(f) + t == "\"" + (DoubleQuotes(f) + "\"" + t);
    } else {
      ReadBareRoundTrip(f, t);
      if f != [] {
        assert !Special(f[0]);
      }
    }
  }

  lemma {:induction false} ReadFieldsRoundTrip(fields: seq<string>, t: string)
    requires fields != [] && (t == [] || t[0] == '\r')
    ensures ReadFields(JoinFields(fields) + t) == Some((fields, t))
    decreases |fields|
  {
    if |fields| == 1 {
      ReadFieldRoundTrip(fields[0], t);
      ReadLastField(JoinFields(fields) + t, fields[0], t);
      assert [fields[0]] == fields;
    } else {
      ReadFieldsRoundTrip(fields[1..], t);
      ReadFieldsStep(fields[0], fields[1..], t);
      assert [fields[0]] + fields[1..] == fields;
    }
  }

  /** One more field in front of fields that read back. */
  lemma ReadFieldsStep(f: string, fs: seq<string>, t: string)
    requires fs != [] && (t == [] || t[0] == '\r')
    requires ReadFields(JoinFields(fs) + t) == Some((fs, t))
    ensures ReadFields(JoinFields([f] + fs) + t) == Some(([f] + fs, t))
  {
    var tail := JoinFields(fs) + t;
    ReadFieldRoundTrip(f, "," + tail);
    var a, j := FormatField(f), JoinFields(fs);
    assert ([f] + fs)[0] == f && ([f] + fs)[1..] == fs;
    assert JoinFields([f] + fs) == (a + ",") + j;
    Associative(a + ",", j, t);
    Associative(a, ",", tail);
    ReadNextField(JoinFields([f] + fs) + t, f, tail, fs, t);
  }

  /** A field followed by something other than a delimiter is the last one. */
  lemma ReadLastField(s: string, f: string, t: string)
    requires ReadField(s) == Some((f, t)) && (t == [] || t[0] != ',')
    ensures ReadFields(s) == Some(([f], t))
  {
  }

  /** A field followed by a delimiter is joined to the fields after it. */
  lemma ReadNextField(s: string, f: string, tail: string, fs: seq<string>, t: string)
    requires ReadField(s) == Some((f, "," + tail))
    requires ReadFields(tail) == Some((fs, t))
    ensures ReadFields(s) == Some(([f] + fs, t))
  {
    assert ("," + tail)[1..] == tail;
  }

  /** A written record reads back as its fields, leaving what followed it. */
  lemma ReadRecordRoundTrip(fields: seq<string>, t: string)
    requires fields != []
    ensures ReadRecord(FormatRecord(fields) + t) == Some((fields, t))
  {
    var rest := "\r\n" + t;
    if fields == [""] {
      ReadLoneEmptyField(rest);
      assert FormatRecord(fields) + t == Quoted("") + rest;
    } else {
      ReadFieldsRoundTrip(fields, rest);
      assert FormatRecord(fields) + t == JoinFields(fields) + rest;
    }
    ReadRecordAfterFields(FormatRecord(fields) + t, fields, t);
  }

  /** The record written for a single empty field, `""`, reads as that field. */
  lemma ReadLoneEmptyField(rest: string)
    requires rest != [] && rest[0] == '\r'
    ensures ReadFields(Quoted("") + rest) == Some(([""], rest))
  {
    var s := Quoted("") + rest;
    assert s == "\"" + ("\"" + rest);
    assert ("\"" + rest)[1..] == rest;
    assert ReadQuoted("\"" + rest) == Some(("", rest));
    assert ReadField(s) == Some(("", rest));
  }

  /** Fields followed by a line break make a record. */
  lemma ReadRecordAfterFields(s: string, fields: seq<string>, t: string)
    requires ReadFields(s) == Some((fields, "\r\n" + t))
    ensures ReadRecord(s) == Some((fields, t))
  {
    var rest := "\r\n" + t;
    assert rest[..2] == "\r\n" && rest[2..] == t;
  }

  /** Reading back everything written gives the rows written, provided none of
      them is empty (an empty row is a bare line break, which a reader skips). */
  lemma {:induction false} ReadDocumentRoundTrip(rows: seq<seq<string>>)
    requires forall i :: 0 <= i < |rows| ==> rows[i] != []
    ensures ReadDocument(Document(rows)) == Some(rows)
  {
    ReadDocumentRoundTripFrom(rows, 0);
    DocumentSplit(rows, 0);
    assert rows[..0] == [] && rows[0..] == rows;
    assert Document(rows) == DocumentFrom(rows, 0);
  }

  /** `Document` built from the back equals the records from `k` on written one
      after another from the front. */
  function DocumentFrom(rows: seq<seq<string>>, k: nat): string
    requires k <= |rows|
    decreases |rows| - k
  {
    if k == |rows| then "" else FormatRecord(rows[k]) + DocumentFrom(rows, k + 1)
  }

  lemma {:induction false} DocumentSplit(rows: seq<seq<string>>, k: nat)
    requires k <= |rows|
    ensures Document(rows) == Document(rows[..k]) + DocumentFrom(rows, k)
    decreases |rows| - k
  {
    if k == |rows| {
      assert rows[..k] == rows;
      RightUnit(Document(rows));
    } else {
      DocumentSplit(rows, k + 1);
      DocumentSnoc(rows, k);
      var a, r, b := Document(rows[..k]), FormatRecord(rows[k]), DocumentFrom(rows, k + 1);
      assert DocumentFrom(rows, k) == r + b;
      Associative(a, r, b);
    }
  }



  lemma DocumentSnoc(rows: seq<seq<string>>, k: nat)
    requires k < |rows|
    ensures Document(rows[..k + 1]) == Document(rows[..k]) + FormatRecord(rows[k])
  {
    assert rows[..k + 1][..k] == rows[..k];
  }

  lemma {:induction false} ReadDocumentRoundTripFrom(rows: seq<seq<string>>, k: nat)
    requires k <= |rows|
    requires forall i :: 0 <= i < |rows| ==> rows[i] != []
    ensures ReadDocument(DocumentFrom(rows, k)) == Some(rows[k..])
    decreases |rows| - k
  {
    if k < |rows| {
      ReadDocumentRoundTripFrom(rows, k + 1);
      ReadRecordRoundTrip(rows[k], DocumentFrom(rows, k + 1));
      assert [rows[k]] + rows[k + 1..] == rows[k..];
    }
  }
}
