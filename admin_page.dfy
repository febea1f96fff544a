/** The state and the non-DOM logic of the administrator page script: the
    loaded logbook, the filter inputs, the rows on display (newest first), the
    selected roster year and the URL it requests, and the quoting of a student
    into the inline `editStudent(...)` call of the roster table. */
module AdminPage {
  import opened Wrappers
  import opened Models
  import opened Text
  import opened LogFilter
  import opened UriComponent

  // ---------------------------------------------------------------------------
  // Ordering of the logs table
  // ---------------------------------------------------------------------------

  /** Highest id first: the order `sort((a, b) => b.id - a.id)` leaves. */
  ghost predicate DescendingById(s: seq<LogEntry>)
  {
    forall p, q :: 0 <= p < q < |s| ==> s[p].id >= s[q].id
  }

  /** `logs.sort((a, b) => b.id - a.id)`, in place (an insertion sort; the
      comparator only orders by id). */
  method SortByIdDesc(a: array<LogEntry>)
    modifies a
    ensures DescendingById(a[..])
    ensures multiset(a[..]) == multiset(old(a[..]))
  {
    for i := 0 to a.Length
      invariant DescendingById(a[..i])
      invariant multiset(a[..]) == multiset(old(a[..]))
    {
      InsertAt(a, i);
    }
    assert a[..a.Length] == a[..];
  }

  /** Moves `a[i]` left past every smaller id, so that `a[..i + 1]` is sorted. */
  method InsertAt(a: array<LogEntry>, i: nat)
    requires i < a.Length && DescendingById(a[..i])
    modifies a
    ensures DescendingById(a[..i + 1])
    ensures multiset(a[..]) == multiset(old(a[..]))
  {
    var j := i;
    while j > 0 && a[j - 1].id < a[j].id
      invariant 0 <= j <= i
      invariant forall p, q :: 0 <= p < q <= i && p != j && q != j ==> a[p].id >= a[q].id
      invariant forall q :: j < q <= i ==> a[j].id >= a[q].id
      invariant multiset(a[..]) == multiset(old(a[..]))
    {
      Swap(a, j - 1);
      j := j - 1;
    }
  }

  /** Exchanges `a[k]` and `a[k + 1]`. */
  method Swap(a: array<LogEntry>, k: nat)
    requires k + 1 < a.Length
    modifies a
    ensures a[..] == old(a[..])[k := old(a[k + 1])][k + 1 := old(a[k])]
    ensures multiset(a[..]) == multiset(old(a[..]))
  {
    a[k], a[k + 1] := a[k + 1], a[k];
  }

  /** After sorting, the first row shown is the session with the highest id. */
  lemma NewestFirst(sorted: seq<LogEntry>, logs: seq<LogEntry>)
    requires DescendingById(sorted) && multiset(sorted) == multiset(logs)
    ensures forall e :: e in logs ==> sorted[0].id >= e.id
  {
    forall e | e in logs ensures sorted[0].id >= e.id {
      assert e in multiset(sorted);
      var k :| 0 <= k < |sorted| && sorted[k] == e;
      if k > 0 {
        assert sorted[0].id >= sorted[k].id;
      }
    }
  }

  // ---------------------------------------------------------------------------
  // The roster URL
  // ---------------------------------------------------------------------------

  /** `loadStudents(year)`: the year passed, or the current one when none is
      passed (an absent argument is written ""); the `year` query parameter only
      for a real year, not for "All". */
  function StudentsUrl(year: string, current: string): string
  {
    var target := if year != "" then year else current;
    if target != "" && target != "All" then "/api/students/?year=" + Encode(target) else "/api/students/"
  }

  /** The URL asks for one year's students exactly when the target year is
      given and is not "All"; the value it carries is URL-safe and decodes to
      the year's UTF-8 bytes. */
  lemma StudentsUrlQuery(year: string, current: string)
    ensures var target := if year != "" then year else current;
            var url := StudentsUrl(year, current);
            && (target == "" || target == "All" ==> url == "/api/students/")
            && (target != "" && target != "All" ==>
                  exists v :: url == "/api/students/?year=" + v && AllUrlSafe(v) && Decode(v) == Utf8Bytes(target))
  {
    var target := if year != "" then year else current;
    EncodeIsUrlSafe(target);
    DecodeEncode(target);
  }

  /** The first tab's year travels as `1st%20Year`. */
  lemma FirstYearUrl()
    ensures StudentsUrl("", "1st Year") == "/api/students/?year=1st%20Year"
  {
    assert StudentsUrl("", "1st Year") == "/api/students/?year=" + Encode("1st Year");
    EncodeYearLabel();
  }

  lemma EncodeYearLabel()
    ensures Encode("1st Year") == "1st%20Year"
  {
    assert EncodeChar(' ') == "%20" by {
      assert Utf8(' ') == [32];
    }
  }

  // ---------------------------------------------------------------------------
  // Quoting a student into the edit button's handler
  // ---------------------------------------------------------------------------

  /** How the browser reads a single-quoted JavaScript string literal, from just
      after the opening quote: up to the first unescaped quote. A raw line break
      is a syntax error; the escapes covered are `\\`, `\'`, `\"`, `\n` and `\r`
      (others are outside this model and read as failures). */
  function ReadJsString(s: string): (r: Option<(string, string)>)
    ensures r.Some? ==> |r.value.1| < |s|
  {
    if s == [] || s[0] == '\n' || s[0] == '\r' then None
    else if s[0] == '\'' then Some(("", s[1..]))
    else if s[0] == '\\' then
      if |s| < 2 then None
      else
        var e := s[1];
        var c := if e == 'n' then '\n' else if e == 'r' then '\r' else e;
        if e == '\\' || e == '\'' || e == '"' || e == 'n' || e == 'r' then
          match ReadJsString(s[2..])
          case None => None
          case Some((v, rest)) => Some(([c] + v, rest))
        else None
    else
      match ReadJsString(s[1..])
      case None => None
      case Some((v, rest)) => Some(([s[0]] + v, rest))
  }

  /** `s.replace(/'/g, "\\'")`, as the roster table writes names and years. */
  function EscapeQuotes(s: string): string
  {
    if s == [] then []
    else (if s[0] == '\'' then "\\'" else [s[0]]) + EscapeQuotes(s[1..])
  }

  /** The quote escaping is enough for text without backslashes or line
      breaks: the literal reads back as the text. */
  lemma {:induction false} EscapeQuotesRoundTrip(s: string, t: string)
    requires '\\' !in s && '\n' !in s && '\r' !in s
    ensures ReadJsString(EscapeQuotes(s) + "'" + t) == Some((s, t))
  {
    if s == [] {
      assert EscapeQuotes(s) + "'" + t == "'" + t;
    } else {
      EscapeQuotesRoundTrip(s[1..], t);
      EscapeQuotesStep(s, t);
    }
  }

  /** One more character in front of an escaped text that reads back. */
  lemma EscapeQuotesStep(s: string, t: string)
    requires s != [] && s[0] != '\\' && s[0] != '\n' && s[0] != '\r'
    requires ReadJsString(EscapeQuotes(s[1..]) + "'" + t) == Some((s[1..], t))
    ensures ReadJsString(EscapeQuotes(s) + "'" + t) == Some((s, t))
  {
    var e, d := if s[0] == '\'' then "\\'" else [s[0]], EscapeQuotes(s[1..]);
    var rest := d + "'" + t;
    assert EscapeQuotes(s) == e + d;
    Associative(e, d, "'");
    Associative(e, d + "'", t);
    if s[0] == '\'' {
      assert (e + rest)[2..] == rest;
    } else {
      ReadPlainChar(s[0], rest);
    }
    assert [s[0]] + s[1..] == s;
  }



  /** A name ending in a backslash: the backslash escapes the closing quote,
      so the literal swallows the separator and ends at the next argument's
      opening quote. For the name `O\` the handler's first literal reads as
      `O', ` rather than the name. */
  lemma EscapeQuotesBreaksOnBackslash(p: string, t: string)
    requires '\'' !in p && '\\' !in p && '\n' !in p && '\r' !in p
    ensures ReadJsString(EscapeQuotes(p + "\\") + "', '" + t) == Some((p + "', ", t))
    ensures p + "', " != p + "\\"
  {
    EscapeQuotesConcat(p, "\\");
    EscapeQuotesPlain(p);
    assert EscapeQuotes("\\") == "\\" by {
      assert "\\"[1..] == [];
    }
    var escaped := "\\'" + ", '" + t;
    SwallowedSeparator(t);
    ReadPlainText(p, escaped);
    assert EscapeQuotes(p + "\\") + "', '" + t == p + escaped;
    assert |p + "', "| != |p + "\\"|;
  }

  /** The escaped quote and the separator that follows read as text, and the
      literal only ends at the next opening quote. */
  lemma SwallowedSeparator(t: string)
    ensures ReadJsString("\\'" + ", '" + t) == Some(("', ", t))
  {
    var close := "'" + t;
    assert close[1..] == t;
    assert ReadJsString(close) == Some(("", t));
    ReadPlainChar(' ', close);
    assert ReadJsString(" " + close) == Some((" ", t)) by {
      assert [' '] + close == " " + close && [' '] + "" == " ";
    }
    ReadPlainChar(',', " " + close);
    var after := ", " + close;
    assert ReadJsString(after) == Some((", ", t)) by {
      assert [','] + (" " + close) == after && [','] + " " == ", ";
    }
    var escaped := "\\'" + after;
    assert escaped == "\\'" + ", '" + t;
    assert escaped[2..] == after;
    assert ReadJsString(escaped) == Some(("', ", t)) by {
      assert ['\''] + ", " == "', ";
    }
  }

  /** The quote escaping leaves text without quotes alone. */
  lemma {:induction false} EscapeQuotesPlain(s: string)
    requires '\'' !in s
    ensures EscapeQuotes(s) == s
  {
    if s != [] {
      EscapeQuotesPlain(s[1..]);
      assert [s[0]] + s[1..] == s;
    }
  }

  /** The quote escaping works character by character. */
  lemma {:induction false} EscapeQuotesConcat(a: string, b: string)
    ensures EscapeQuotes(a + b) == EscapeQuotes(a) + EscapeQuotes(b)
  {
    if a != [] {
      EscapeQuotesConcat(a[1..], b);
      assert (a + b)[1..] == a[1..] + b;
    } else {
      assert a + b == b;
    }
  }

  /** Text without quotes, backslashes or line breaks reads as itself. */
  lemma {:induction false} ReadPlainText(p: string, s: string)
    requires '\'' !in p && '\\' !in p && '\n' !in p && '\r' !in p
    ensures ReadJsString(p + s) == match ReadJsString(s)
                                   case None => None
                                   case Some((v, rest)) => Some((p + v, rest))
  {
    if p != [] {
      ReadPlainText(p[1..], s);
      ReadPlainChar(p[0], p[1..] + s);
      assert [p[0]] + (p[1..] + s) == p + s;
      match ReadJsString(s)
      case None =>
      case Some((v, rest)) =>
        assert [p[0]] + (p[1..] + v) == p + v;
    } else {
      assert p + s == s;
      match ReadJsString(s)
      case None =>
      case Some((v, rest)) =>
        assert p + v == v;
    }
  }

  /** A character that is neither a quote, a backslash nor a line break reads
      as itself. */
  lemma ReadPlainChar(c: char, s: string)
    requires c != '\'' && c != '\\' && c != '\n' && c != '\r'
    ensures ReadJsString([c] + s) == match ReadJsString(s)
                                     case None => None
                                     case Some((v, rest)) => Some(([c] + v, rest))
  {
    assert ([c] + s)[1..] == s;
  }

  /** The escaping the handler needs: backslashes and quotes are escaped, and
      line breaks are written as `\n` and `\r`. */
  function EscapeJsString(s: string): string
  {
    if s == [] then [] else EscapeJsChar(s[0]) + EscapeJsString(s[1..])
  }

  /** One character of the corrected escaping. */
  function EscapeJsChar(c: char): string
  {
    if c == '\\' then "\\\\" else if c == '\'' then "\\'" else if c == '\n' then "\\n"
    else if c == '\r' then "\\r" else [c]
  }

  /** Every text survives the corrected escaping: the literal reads back as
      the text, and reading stops right after it. */
  lemma {:induction false} EscapeJsStringRoundTrip(s: string, t: string)
    ensures ReadJsString(EscapeJsString(s) + "'" + t) == Some((s, t))
  {
    if s == [] {
      assert EscapeJsString(s) + "'" + t == "'" + t;
    } else {
      EscapeJsStringRoundTrip(s[1..], t);
      EscapeJsStep(s, t);
    }
  }

  /** One more character in front of an escaped text that reads back. */
  lemma EscapeJsStep(s: string, t: string)
    requires s != [] && ReadJsString(EscapeJsString(s[1..]) + "'" + t) == Some((s[1..], t))
    ensures ReadJsString(EscapeJsString(s) + "'" + t) == Some((s, t))
  {
    var e, d := EscapeJsChar(s[0]), EscapeJsString(s[1..]);
    var rest := d + "'" + t;
    Associative(e, d, "'");
    Associative(e, d + "'", t);
    ReadEscapedChar(s[0], rest);
    assert [s[0]] + s[1..] == s;
  }



  /** One escaped character reads back as itself, ahead of whatever follows. */
  lemma ReadEscapedChar(c: char, s: string)
    ensures ReadJsString(EscapeJsChar(c) + s) == match ReadJsString(s)
                                                 case None => None
                                                 case Some((v, rest)) => Some(([c] + v, rest))
  {
    if c == '\\' || c == '\'' || c == '\n' || c == '\r' {
      assert (EscapeJsChar(c) + s)[2..] == s;
    } else {
      ReadPlainChar(c, s);
    }
  }

  /** The text of an Edit button's inline handler, given the id and the two
      already-escaped literals. */
  function HandlerText(id: nat, name: string, year: string): string
  {
    "editStudent(" + NatToString(id) + ", '" + name + "', '" + year + "')"
  }

  /** The inline handler of a roster row's Edit button, as `renderStudents`
      writes it: name and year escaped by `EscapeQuotes` only. */
  function EditHandler(s: Student): string
  {
    HandlerText(s.id, EscapeQuotes(s.name), EscapeQuotes(s.year))
  }

  /** The same handler with the name and year escaped by `EscapeJsString`. */
  function EditHandlerCorrected(s: Student): string
  {
    HandlerText(s.id, EscapeJsString(s.name), EscapeJsString(s.year))
  }

  /** When both escaped literals read back, the handler passes the id, the
      name and the year through unchanged. */
  lemma HandlerReadsBack(id: nat, a: string, y: string, name: string, year: string)
    requires ReadJsString(a + "'" + (", '" + (y + "')"))) == Some((name, ", '" + (y + "')")))
    requires ReadJsString(y + "'" + ")") == Some((year, ")"))
    ensures var tail := y + "')";
            var args := a + "', '" + tail;
            && HandlerText(id, a, y) == "editStudent(" + NatToString(id) + ", '" + args
            && ReadJsString(args) == Some((name, ", '" + tail))
            && ReadJsString(tail) == Some((year, ")"))
            && ParseNat(NatToString(id)) == id
  {
    var tail := y + "')";
    var head := "editStudent(" + NatToString(id) + ", '";
    Associative(head, a, "', '");
    Associative(head, a + "', '", tail);
    Associative(head + a + "', '", y, "')");
    assert "'" + ", '" == "', '" && "'" + ")" == "')";
    Associative(a, "'", ", '");
    Associative(a + "'", ", '", tail);
    Associative(y, "'", ")");
    ParseNatToString(id);
  }

  /** As written, the handler passes the id, name and year through unchanged
      as long as neither the name nor the year holds a backslash or a line
      break (see `EscapeQuotesBreaksOnBackslash` for what happens otherwise). */
  lemma EditHandlerArguments(s: Student)
    requires '\\' !in s.name && '\n' !in s.name && '\r' !in s.name
    requires '\\' !in s.year && '\n' !in s.year && '\r' !in s.year
    ensures var tail := EscapeQuotes(s.year) + "')";
            var args := EscapeQuotes(s.name) + "', '" + tail;
            && EditHandler(s) == "editStudent(" + NatToString(s.id) + ", '" + args
            && ReadJsString(args) == Some((s.name, ", '" + tail))
            && ReadJsString(tail) == Some((s.year, ")"))
            && ParseNat(NatToString(s.id)) == s.id
  {
    var a, y := EscapeQuotes(s.name), EscapeQuotes(s.year);
    EscapeQuotesRoundTrip(s.name, ", '" + (y + "')"));
    EscapeQuotesRoundTrip(s.year, ")");
    HandlerReadsBack(s.id, a, y, s.name, s.year);
  }

  /** As written, a name ending in a backslash swallows the separator: the
      handler's first literal reads as another text and ends inside the year's
      literal. */
  lemma EditHandlerBreaksOnBackslash(s: Student, p: string)
    requires s.name == p + "\\"
    requires '\'' !in p && '\\' !in p && '\n' !in p && '\r' !in p
    ensures var tail := EscapeQuotes(s.year) + "')";
            var args := EscapeQuotes(s.name) + "', '" + tail;
            && EditHandler(s) == "editStudent(" + NatToString(s.id) + ", '" + args
            && ReadJsString(args) == Some((p + "', ", tail))
            && p + "', " != s.name
  {
    var a, y := EscapeQuotes(s.name), EscapeQuotes(s.year);
    var tail := y + "')";
    var head := "editStudent(" + NatToString(s.id) + ", '";
    Associative(head, a, "', '");
    Associative(head, a + "', '", tail);
    Associative(head + a + "', '", y, "')");
    EscapeQuotesBreaksOnBackslash(p, tail);
  }

  /** With the corrected escape the handler passes every id, name and year
      through unchanged. */
  lemma EditHandlerCorrectedArguments(s: Student)
    ensures var tail := EscapeJsString(s.year) + "')";
            var args := EscapeJsString(s.name) + "', '" + tail;
            && EditHandlerCorrected(s) == "editStudent(" + NatToString(s.id) + ", '" + args
            && ReadJsString(args) == Some((s.name, ", '" + tail))
            && ReadJsString(tail) == Some((s.year, ")"))
            && ParseNat(NatToString(s.id)) == s.id
  {
    var a, y := EscapeJsString(s.name), EscapeJsString(s.year);
    EscapeJsStringRoundTrip(s.name, ", '" + (y + "')"));
    EscapeJsStringRoundTrip(s.year, ")");
    HandlerReadsBack(s.id, a, y, s.name, s.year);
  }

  // ---------------------------------------------------------------------------
  // The page
  // ---------------------------------------------------------------------------

  class Page {
    /** `allLogs`: the logbook as last loaded. */
    var allLogs: array<LogEntry>
    /** The four filter inputs. */
    var criteria: Criteria
    /** The rows of the logs table, top to bottom. */
    var displayed: seq<LogEntry>
    /** `currentStudentYear`: the roster tab last selected. */
    var currentStudentYear: string

    constructor ()
      ensures allLogs.Length == 0 && criteria == NoCriteria() && displayed == []
      ensures currentStudentYear == "1st Year"
    {
      allLogs := new LogEntry[0];
      criteria := NoCriteria();
      displayed := [];
      currentStudentYear := "1st Year";
    }

    /** `renderLogs(logs)`: sorts the array it is given, in place, and shows it. */
    method RenderLogs(logs: array<LogEntry>)
      modifies this, logs
      ensures DescendingById(logs[..]) && multiset(logs[..]) == multiset(old(logs[..]))
      ensures displayed == logs[..]
      ensures allLogs == old(allLogs) && criteria == old(criteria) && currentStudentYear == old(currentStudentYear)
    {
      SortByIdDesc(logs);
      displayed := logs[..];
    }

    /** `loadDashboard` once the listing has arrived: the response becomes
        `allLogs`, which is then sorted in place and shown. */
    method LoadDashboard(logs: seq<LogEntry>)
      modifies this
      ensures fresh(allLogs)
      ensures DescendingById(allLogs[..]) && multiset(allLogs[..]) == multiset(logs)
      ensures displayed == allLogs[..]
      ensures criteria == old(criteria) && currentStudentYear == old(currentStudentYear)
    {
      var a := new LogEntry[|logs|](i requires 0 <= i < |logs| => logs[i]);
      assert a[..] == logs;
      allLogs := a;
      RenderLogs(a);
    }

    /** The user types into the filter inputs. */
    method SetCriteria(c: Criteria)
      modifies this
      ensures criteria == c
      ensures allLogs == old(allLogs) && displayed == old(displayed) && currentStudentYear == old(currentStudentYear)
    {
      criteria := c;
    }

    /** `filterLogs`: the logs that pass the filter, in a new array, sorted and
        shown; `allLogs` is left as it is. */
    method FilterLogs(iso: Time -> string)
      modifies this
      ensures DescendingById(displayed)
      ensures multiset(displayed) == multiset(LogFilter.FilterLogs(allLogs[..], criteria, iso))
      ensures allLogs == old(allLogs) && allLogs[..] == old(allLogs[..])
      ensures criteria == old(criteria) && currentStudentYear == old(currentStudentYear)
    {
      var kept := LogFilter.FilterLogs(allLogs[..], criteria, iso);
      var filtered := new LogEntry[|kept|](i requires 0 <= i < |kept| => kept[i]);
      assert filtered[..] == kept;
      RenderLogs(filtered);
    }

    /** `clearFilters`: every input emptied, then `filterLogs`, which now shows
        the whole logbook. */
    method ClearFilters(iso: Time -> string)
      modifies this
      ensures criteria == NoCriteria()
      ensures DescendingById(displayed) && multiset(displayed) == multiset(allLogs[..])
      ensures allLogs == old(allLogs) && allLogs[..] == old(allLogs[..])
      ensures currentStudentYear == old(currentStudentYear)
    {
      criteria := NoCriteria();
      ClearedFilterKeepsAll(allLogs[..], iso);
      FilterLogs(iso);
    }

    /** `loadStudentYear(year)`: remembers the tab and requests its roster. */
    method LoadStudentYear(year: string) returns (url: string)
      modifies this
      ensures currentStudentYear == year
      ensures url == StudentsUrl(year, year)
      ensures allLogs == old(allLogs) && criteria == old(criteria) && displayed == old(displayed)
    {
      currentStudentYear := year;
      url := LoadStudents(year);
    }

    /** `loadStudents(year)`: the URL of the roster request. */
    method LoadStudents(year: string) returns (url: string)
      ensures url == StudentsUrl(year, currentStudentYear)
    {
      url := StudentsUrl(year, currentStudentYear);
    }
  }
}
