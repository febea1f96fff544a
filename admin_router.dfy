/** The administrator endpoints: HTTP Basic authentication against the fixed
    account, the paged log listing and the CSV export of the logbook. */
module AdminRouter {
  import opened Wrappers
  import opened Models
  import opened Crud
  import opened Text
  import opened CsvWriter

  /** The user name and password of an HTTP Basic `Authorization` header. */
  datatype Credentials = Credentials(username: string, password: string)

  function Unauthorized(): HttpError
  {
    HttpError(401, "Incorrect username or password")
  }

  /** `get_current_admin`: only the account admin/password is let through. */
  function GetCurrentAdmin(c: Credentials): (r: Result<string, HttpError>)
    ensures r.Ok? <==> c.username == "admin" && c.password == "password"
    ensures r.Ok? ==> r.value == "admin"
    ensures r.Err? ==> r.error == Unauthorized()
  {
    if c.username != "admin" || c.password != "password" then Err(Unauthorized())
    else Ok(c.username)
  }

  /** `login`. */
  function Login(c: Credentials): (r: Result<string, HttpError>)
    ensures r.Ok? <==> GetCurrentAdmin(c).Ok?
    ensures r.Ok? ==> r.value == "Login successful"
    ensures r.Err? ==> r.error == Unauthorized()
  {
    match GetCurrentAdmin(c)
    case Err(e) => Err(e)
    case Ok(_) => Ok("Login successful")
  }

  /** `list_logs`: authentication first, then one page of the logbook in
      primary-key order (100 rows from the start when the query gives none). */
  function ListLogs(logs: seq<LogEntry>, c: Credentials, skip: int, limit: int): (r: Result<seq<LogEntry>, HttpError>)
    ensures r.Err? <==> GetCurrentAdmin(c).Err?
    ensures r.Err? ==> r.error == Unauthorized()
    ensures r.Ok? ==> limit >= 0 ==> |r.value| <= limit
    ensures r.Ok? ==> |r.value| <= |logs| - Offset(|logs|, skip)
    ensures r.Ok? ==> forall k :: 0 <= k < |r.value| ==> r.value[k] == logs[Offset(|logs|, skip) + k]
    ensures r.Ok? && (limit < 0 || Offset(|logs|, skip) + limit >= |logs|) ==> |r.value| == |logs| - Offset(|logs|, skip)
    ensures r.Ok? && limit >= 0 && Offset(|logs|, skip) + limit < |logs| ==> |r.value| == limit
    ensures r.Ok? ==> r.value == GetLogs(logs, skip, limit)
  {
    match GetCurrentAdmin(c)
    case Err(e) => Err(e)
    case Ok(_) => Ok(GetLogs(logs, skip, limit))
  }

  /** With the defaults, an authenticated listing is the first 100 sessions. */
  lemma DefaultListing(logs: seq<LogEntry>)
    ensures var r := ListLogs(logs, Credentials("admin", "password"), 0, 100);
            r.Ok? && r.value == logs[..if |logs| < 100 then |logs| else 100]
  {
    var r := ListLogs(logs, Credentials("admin", "password"), 0, 100);
    assert Offset(|logs|, 0) == 0;
    assert r.value == logs[..|r.value|];
  }

  /** The header line of the export. */
  function ExportHeader(): seq<string>
  {
    ["ID", "Register Number", "Name", "Year", "Computer", "Subject", "Check-in", "Check-out", "Issues"]
  }

  /** Most sessions the export includes. */
  const ExportLimit := 10000

  /** One session as an export line. `render` is how a timestamp prints; an
      absent check-out time or issue report prints as an empty field. */
  function ExportRecord(e: LogEntry, render: Time -> string): seq<string>
  {
    [ NatToString(e.id), e.studentId, e.studentName, e.year, e.computerNumber, e.purpose,
      render(e.checkInTime),
      match e.checkOutTime case None => "" case Some(t) => render(t),
      match e.issuesReported case None => "" case Some(i) => i ]
  }

  /** The export lines of a run of sessions, in order. */
  function ExportRecords(logs: seq<LogEntry>, render: Time -> string): (rows: seq<seq<string>>)
    ensures |rows| == |logs|
  {
    if logs == [] then [] else ExportRecords(logs[..|logs| - 1], render) + [ExportRecord(logs[|logs| - 1], render)]
  }

  /** The CSV file `export_logs` produces: the header line, then at most
      10000 sessions from the start of the logbook, one per line. */
  method ExportLogs(logs: seq<LogEntry>, render: Time -> string) returns (out: string)
    ensures out == Document([ExportHeader()] + ExportRecords(GetLogs(logs, 0, ExportLimit), render))
  {
    var page := GetLogs(logs, 0, ExportLimit);
    out := FormatRecord(ExportHeader());
    assert out == Document([ExportHeader()]) by {
      assert [ExportHeader()][..0] == [];
    }
    for i := 0 to |page|
      invariant out == Document([ExportHeader()] + ExportRecords(page[..i], render))
    {
      ExportStep(page, render, i);
      out := out + FormatRecord(ExportRecord(page[i], render));
    }
    assert page[..|page|] == page;
  }

  /** One more session in the export loop adds its line at the end. */
  lemma ExportStep(page: seq<LogEntry>, render: Time -> string, i: nat)
    requires i < |page|
    ensures Document([ExportHeader()] + ExportRecords(page[..i + 1], render))
            == Document([ExportHeader()] + ExportRecords(page[..i], render)) + FormatRecord(ExportRecord(page[i], render))
  {
    var rows := [ExportHeader()] + ExportRecords(page[..i + 1], render);
    assert page[..i + 1][..i] == page[..i];
    assert ExportRecords(page[..i + 1], render) == ExportRecords(page[..i], render) + [ExportRecord(page[i], render)];
    assert rows[..|rows| - 1] == [ExportHeader()] + ExportRecords(page[..i], render);
    assert rows[|rows| - 1] == ExportRecord(page[i], render);
  }

  lemma {:induction false} ExportRecordsAt(logs: seq<LogEntry>, render: Time -> string, k: nat)
    requires k < |logs|
    ensures ExportRecords(logs, render)[k] == ExportRecord(logs[k], render)
  {
    if k < |logs| - 1 {
      ExportRecordsAt(logs[..|logs| - 1], render, k);
    }
  }

  /** The sessions exported: the first 10000 of the logbook, or all of them. */
  lemma ExportedSessions(logs: seq<LogEntry>)
    ensures GetLogs(logs, 0, ExportLimit) == logs[..if |logs| < ExportLimit then |logs| else ExportLimit]
  {
    var page := GetLogs(logs, 0, ExportLimit);
    assert Offset(|logs|, 0) == 0;
    assert page == logs[..|page|];
  }

  /** An export line has the nine columns of the header; its first field reads
      back as the session id, and the check-out and issue columns are empty
      while the session is open with nothing reported. */
  lemma ExportRecordFields(e: LogEntry, render: Time -> string)
    ensures var row := ExportRecord(e, render);
            && |row| == |ExportHeader()|
            && ParseNat(row[0]) == e.id
            && row[1] == e.studentId && row[2] == e.studentName
            && row[3] == e.year && row[4] == e.computerNumber && row[5] == e.purpose
            && row[6] == render(e.checkInTime)
            && (e.checkOutTime.None? ==> row[7] == "")
            && (e.checkOutTime.Some? ==> row[7] == render(e.checkOutTime.value))
            && (e.issuesReported.None? ==> row[8] == "")
            && (e.issuesReported.Some? ==> row[8] == e.issuesReported.value)
  {
    ParseNatToString(e.id);
  }

  /** Reading the export back gives the header and then, line for line, the
      records of the exported sessions. */
  lemma ExportReadsBack(logs: seq<LogEntry>, render: Time -> string)
    ensures var rows := [ExportHeader()] + ExportRecords(GetLogs(logs, 0, ExportLimit), render);
            ReadDocument(Document(rows)) == Some(rows)
  {
    RecordsReadBack(ExportHeader(), GetLogs(logs, 0, ExportLimit), render);
  }

  /** Any non-empty header line followed by the records of `page` reads back. */
  lemma RecordsReadBack(header: seq<string>, page: seq<LogEntry>, render: Time -> string)
    requires header != []
    ensures var rows := [header] + ExportRecords(page, render);
            ReadDocument(Document(rows)) == Some(rows)
  {
    var rows := [header] + ExportRecords(page, render);
    forall i | 0 <= i < |rows| ensures rows[i] != [] {
      if i > 0 {
        ExportRecordsAt(page, render, i - 1);
      }
    }
    ReadDocumentRoundTrip(rows);
  }
}
