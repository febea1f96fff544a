# Lab logbook session engine — a Dafny model

The lab logbook records who is using which computer in a college lab. A
student checks in with their register number, a computer number and a
purpose. That opens a session which snapshots the student's name and year
from the roster. Checking out closes the session and may record reported
issues. Administrators can:

- list and export sessions;
- import the student roster from a CSV upload;
- see per-student usage statistics;
- filter and sort sessions in the browser dashboard.

This project models that core and proves what it promises.

- `wrappers.dfy` (`Wrappers`): `Option`, `Result`, and `HttpError(status, detail)` for the HTTP errors the routers raise.
- `text.dfy` (`Text`): the string operations the code relies on. These are Python's `strip` and `endswith`, JavaScript's `toLowerCase` and `includes`, the `split('T')[0]` prefix, and decimal rendering of ids.
- `models.dfy` (`Models`): the `Student` and `LogEntry` records and the request bodies. A session is open while it has no check-out time.
- `crud.py` becomes `crud.dfy` (`Crud`). The store is a `Database` class whose two tables are sequences in primary-key order:
  - its methods insert, update in place and delete;
  - the read-only queries are functions over the tables.
- `logs.py` becomes `logs_router.dfy` (`LogsRouter`). It holds check-in, check-out and the active-session lookup, with their HTTP errors. It also proves the invariant "at most one open session per student" over any sequence of requests.
- `students.py` is split in two:
  - `students_router.dfy` (`StudentsRouter`): the roster import loop over parsed CSV rows, the duplicate check on creation, and the import template;
  - `stats.dfy` (`StudentStats`): the statistics loop.
- `csv_writer.dfy` (`CsvWriter`): the minimal-quoting CSV writer used by the export and the import template. It also has a reference reader, proved to read every written document back.
- `admin.py` becomes `admin_router.dfy` (`AdminRouter`): the Basic-auth gate (modelled on the listing), login, paged listing and the CSV export.
- `admin.js` is split in three:
  - `log_filter.dfy` (`LogFilter`): the dashboard filter, as pure predicates;
  - `uri_component.dfy` (`UriComponent`): `encodeURIComponent`, used in the roster URL;
  - `admin_page.dfy` (`AdminPage`): the page state as a class. `allLogs` is an array sorted in place, newest first. The page also holds the roster URL logic and the quote escaping of the Edit button.

Time is an integer number of seconds, passed in as `now`. A timestamp is turned into text through a function parameter: `render` for `str(datetime)` in the export, `iso` for `toISOString` in the date filter.

## Model

| member | source | states |
|---|---|---|
| Crud.Where | app/crud.py:12-16 | a filtered query keeps exactly the rows that satisfy the condition, and never more rows than it was given |
| Crud.Page | app/crud.py:16 | `offset(skip).limit(limit)` gives consecutive rows starting at the offset; a negative offset counts as 0 and a negative limit means no limit; its length is exactly `limit` when enough rows remain, otherwise everything after the offset |
| Crud.NextId | app/crud.py:24-26 | a new primary key is positive and larger than every key already stored |
| Crud.WhereKeepsIncreasing | app/crud.py:42 | deleting rows keeps the primary keys in increasing order |
| Crud.WhereKeepsRegistersUnique | app/crud.py:42 | deleting students keeps register numbers unique |
| Crud.IncreasingFirstIndex | app/crud.py:6-7 | in a table with increasing keys, the first row with a given key is the row that has it |
| Crud.GetStudent | app/crud.py:6-7 | returns a stored student with that id, and nothing exactly when no student has it |
| Crud.GetStudentByRegNo | app/crud.py:9-10 | returns a stored student with that register number, and nothing exactly when none has it |
| Crud.GetStudents | app/crud.py:12-16 | the year filter is applied before paging: the result is the `skip`/`limit` window (`Page`) of the students of that year when a year is supplied, of the whole roster otherwise; so at most `limit` students, all stored, all of the given year |
| Crud.GetLogs | app/crud.py:65-66 | the consecutive run of the table that starts at `skip`: exactly `limit` sessions when that many remain, otherwise all the rest (all of them for a negative limit) |
| Crud.GetLogById | app/crud.py:68-69 | returns the stored session with that id, and nothing exactly when no session has it |
| Crud.GetActiveLogByStudent | app/crud.py:71-75 | returns an open session of that student, and nothing exactly when the student has no open session |
| Crud.GetStudentLogs | app/crud.py:77-81 | a session is returned exactly when it belongs to that student and is closed |
| Crud.StampCheckout | app/crud.py:85-88 | the session is closed at `now`; issues are overwritten only by a non-empty value; every other field is kept |
| Crud.WithoutIds | app/crud.py:104 | a session survives exactly when its id is not listed, and survivors plus removed sessions account for the whole table |
| Crud.RemovedCount | app/crud.py:102-106 | the number of sessions removed is the number of listed ids that exist, so unknown ids are ignored |
| Crud.WithoutIdsIdempotent | app/crud.py:102-106 | deleting the same ids a second time changes nothing and finds nothing more to remove |
| Crud.WithoutIdsIsWhere | app/crud.py:104 | deleting by ids is the filtered delete on "id not listed", so the key order is kept |
| Crud.Updated | app/crud.py:31-33 | the id and register number are kept; name and year are replaced only by non-empty supplied values |
| Crud.NewSession | app/crud.py:53-59 | a new session is open with no issues; it copies register number, computer and purpose from the request and name and year from the roster record |
| Crud.Database.constructor | app/crud.py:5-110 | the store starts with empty tables |
| Crud.Database.CreateStudent | app/crud.py:18-27 | appends the student under a fresh id and keeps register numbers unique; an already-registered number changes nothing |
| Crud.Database.UpdateStudent | app/crud.py:29-36 | an unknown id returns nothing and changes nothing; otherwise only that student changes, as `Updated` says, and the updated record is returned |
| Crud.Database.DeleteStudent | app/crud.py:38-44 | removes exactly the student with that id and returns it, or returns nothing |
| Crud.Database.CreateLog | app/crud.py:47-63 | an unregistered register number fails with "Student not found" and adds nothing; otherwise appends `NewSession` under a fresh id and returns it |
| Crud.Database.CheckoutLog | app/crud.py:83-91 | an unknown id returns nothing and changes nothing; otherwise only that session changes, as `StampCheckout` says, and it is returned |
| Crud.Database.DeleteAllLogs | app/crud.py:93-100 | empties the session table and returns its former size |
| Crud.Database.DeleteLogsByIds | app/crud.py:102-109 | removes exactly the listed sessions and returns how many were removed, which equals the number of listed ids that existed |
| LogsRouter.CheckInKeepsOneOpen | app/routers/logs.py:13-17 | adding an open session for a student who had none keeps at most one open session per student |
| LogsRouter.CheckOutKeepsOneOpen | app/routers/logs.py:26-29 | closing a session keeps at most one open session per student |
| LogsRouter.ActiveLogIsTheOpenOne | app/crud.py:71-75 | under the invariant, the active-session lookup finds the student's one open session |
| LogsRouter.CheckIn | app/routers/logs.py:10-19 | fails with 400 "Student already checked in." whenever the student has an open session, before the roster lookup; fails with 404 "Student not found" for an unregistered number; otherwise returns the new open session; nothing is created on failure; the invariant is kept |
| LogsRouter.CheckOut | app/routers/logs.py:21-29 | an unknown id fails with 404 "Log entry not found" and a closed session with 400 "Already checked out", both changing nothing; an open session is returned closed at `now` with the supplied issues; the invariant is kept |
| LogsRouter.GetActiveLog | app/routers/logs.py:31-36 | read-only: returns the student's open session, or 404 "No active session found" exactly when the student has none |
| LogsRouter.Serve | app/routers/logs.py:10-29 | any sequence of check-ins and check-outs on a store with at most one open session per student keeps that invariant and leaves the roster alone |
| LogsRouter.CheckOutTwice | app/routers/logs.py:26-27 | a second check-out of the same session fails with 400 and the first check-out time stays |
| StudentStats.SubjectOf | app/routers/students.py:156 | a session is counted under its purpose, or under "Unknown" when the purpose is empty; the key is never empty |
| StudentStats.BreakdownKeys | app/routers/students.py:156-158 | the breakdown has one key per distinct subject of the closed sessions |
| StudentStats.SubjectsOfClosedSessions | app/routers/students.py:151-158 | every closed session's subject is a key, and every key comes from some closed session |
| StudentStats.BreakdownValues | app/routers/students.py:151-159 | each breakdown value is the summed duration of the closed sessions with that subject |
| StudentStats.UnknownCollectsEmptyPurpose | app/routers/students.py:156 | the empty purpose is never a key; a closed session without purpose puts "Unknown" in the breakdown |
| StudentStats.BreakdownSumsToTotal | app/routers/students.py:151-159 | the breakdown values sum to the total |
| StudentStats.NoClosedSessionsNoStats | app/routers/students.py:151-159 | without closed sessions the total is 0 and the breakdown is empty |
| StudentStats.Aggregate | app/routers/students.py:148-159 | the accumulation loop computes the total and breakdown defined over the closed sessions |
| StudentStats.GetStudentStats | app/routers/students.py:140-169 | reports the register number asked for, with the total and breakdown of that student's closed sessions; it never fails |
| StudentStats.StatsOfIdleStudent | app/routers/students.py:146-169 | a student with no closed session, including an unregistered number, gets total 0 and an empty breakdown rather than an error |
| StudentStats.OpenSessionLeavesStats | app/crud.py:77-81 | adding an open session does not change what the statistics see |
| StudentsRouter.DictRow | app/routers/students.py:25 | a parsed row has exactly the header's columns |
| StudentsRouter.DictRowAt | app/routers/students.py:25 | under the last occurrence of a header name is the field at that position, or absent when the line is shorter |
| StudentsRouter.DictRows | app/routers/students.py:25-35 | `csv.DictReader` yields one row per non-blank data line, so as many rows as lines when none is blank |
| StudentsRouter.BlankLineIgnored | app/routers/students.py:25-35 | a blank line among the data lines changes nothing: it is neither imported nor reported |
| StudentsRouter.ParseRow | app/routers/students.py:38-50 | a row fails exactly when one of the three columns is absent; an accepted row becomes the student of its stripped register number, name and year, the first two non-empty |
| StudentsRouter.BlankRowSkipped | app/routers/students.py:38-43 | a row whose stripped register number or name is empty is skipped: it is neither inserted nor an error |
| StudentsRouter.ShortRowFails | app/routers/students.py:38-40 | a non-blank line with fewer than three fields fails, because the missing field cannot be stripped |
| StudentsRouter.CleanRowAccepted | app/routers/students.py:38-50 | a complete row with non-blank, unpadded register number and name is accepted as that student, with its year only stripped and never checked |
| StudentsRouter.InsertedAreNew | app/routers/students.py:52-56 | an import never inserts a register number already on the roster, nor the same number twice |
| StudentsRouter.InsertedFromAcceptedRows | app/routers/students.py:35-59 | every inserted student comes from an accepted row |
| StudentsRouter.AcceptedRowsRegistered | app/routers/students.py:52-59 | after the import, every accepted row's register number is registered: it was either present already or inserted |
| StudentsRouter.ErrorsAreFailedRows | app/routers/students.py:35-62 | the error list holds exactly the failing rows, in order; a failure never stops later rows |
| StudentsRouter.PlanImportExtends | app/routers/students.py:35-62 | importing more rows only adds to the inserted students and the errors, so earlier inserts are kept |
| StudentsRouter.RegNoLookup | app/crud.py:9-10 | the register-number lookup misses exactly when the number is not registered |
| StudentsRouter.AddedAfterAt | app/crud.py:18-27 | the students after roster position `n0` (those appended since the import began) are listed, in roster order, as the creation requests (`AsCreate`) of the roster's tail from `n0`, one per student; that they are the inserted requests is stated by `ImportRows` |
| StudentsRouter.ImportStudents | app/routers/students.py:13-67 | a non-`.csv` name fails with 400 "Invalid file type. Please upload a CSV." and a missing required column with 400 "Failed to parse CSV: 400: Invalid headers. …", both before any insert; otherwise the rows `csv.DictReader` makes of the data lines are planned, and the report counts the inserts, lists the failed rows, keeps existing students and appends exactly the new ones |
| StudentsRouter.ImportRows | app/routers/students.py:32-62 | the loop over the rows: the roster keeps its students and grows at its end by exactly the records `PlanImport` accepts, the counter is the number appended and the failed rows are those `PlanImport` lists |
| StudentsRouter.ImportRow | app/routers/students.py:36-62 | one row either records an error, is skipped, or inserts the student when the number is not yet registered, counting that insert |
| StudentsRouter.CreateStudent | app/routers/students.py:87-96 | an already-registered number fails with 400 "Student already registered" and changes nothing; otherwise the student is appended |
| StudentsRouter.TemplateRows | app/routers/students.py:74-76 | the template is a header row with the three required columns plus two sample rows |
| StudentsRouter.Template | app/routers/students.py:72-76 | the template body is the three template rows written by the CSV writer, and it reads back as exactly those rows |
| StudentsRouter.TemplateHeadersOk | app/routers/students.py:27-30 | the header row the template writes (line 74) passes the import's header check |
| StudentsRouter.TemplateImports | app/routers/students.py:74-76 | importing the template into a roster that lacks its two numbers inserts both sample students with no errors |
| CsvWriter.ReadFieldRoundTrip | app/routers/admin.py:46-60 | a field as written, quoted only when it contains a comma, a quote, a CR or a LF, reads back as the same field |
| CsvWriter.ReadRecordRoundTrip | app/routers/admin.py:50-60 | a written record, ending in CRLF, reads back as the same fields |
| CsvWriter.ReadDocumentRoundTrip | app/routers/admin.py:46-60 | a written document reads back as the same rows |
| AdminRouter.GetCurrentAdmin | app/routers/admin.py:16-23 | succeeds with "admin" exactly when the username is "admin" and the password is "password"; otherwise 401 "Incorrect username or password" |
| AdminRouter.Login | app/routers/admin.py:25-27 | "Login successful" exactly when the credentials pass, otherwise the 401 |
| AdminRouter.ListLogs | app/routers/admin.py:29-36 | the 401 exactly when the credentials fail; otherwise the `get_logs` window for skip and limit, with its exact length |
| AdminRouter.DefaultListing | app/routers/admin.py:31-32 | with the default skip 0 and limit 100, the listing is the first 100 sessions, or all of them when fewer |
| AdminRouter.ExportRecords | app/routers/admin.py:49-60 | one exported row per session |
| AdminRouter.ExportLogs | app/routers/admin.py:38-67 | the export is the CSV document of the 9-column header followed by one row per session of `get_logs(limit=10000)` |
| AdminRouter.ExportedSessions | app/routers/admin.py:43 | the export covers the first 10000 sessions in table order, or all of them when fewer |
| AdminRouter.ExportRecordFields | app/routers/admin.py:50-60 | an exported row is id, register number, name, year, computer, purpose, check-in, check-out and issues, in that order; a missing check-out or issues is an empty field, a present one its rendered time or its text |
| AdminRouter.ExportReadsBack | app/routers/admin.py:43-60 | reading the export back gives the header and then, row by row, the fields of each exported session |
| LogFilter.FilterLogs | app/static/js/admin.js:208-229 | a session is kept exactly when it matches the criteria, and never more sessions than given |
| LogFilter.FilterSnoc | app/static/js/admin.js:208-229 | `filter` keeps the order: one more session at the end is kept at the end exactly when it matches |
| LogFilter.MatchesIsConjunction | app/static/js/admin.js:208-229 | a session matches exactly when every non-empty criterion holds |
| LogFilter.SingleCriterion | app/static/js/admin.js:208-229 | empty criteria impose nothing: with one criterion set, matching is that criterion alone |
| LogFilter.PurposeIsCaseSensitive | app/static/js/admin.js:216 | the purpose filter is exact, so "Math" does not match a session whose purpose is "math" |
| LogFilter.StudentIdIsCaseInsensitiveSubstring | app/static/js/admin.js:205-219 | the student-id criterion holds exactly when the lowercased query occurs in the lowercased register number |
| LogFilter.QueriesFoldCase | app/static/js/admin.js:205-206 | lowercasing the student-id and general queries does not change the result |
| LogFilter.DateIsIsoPrefix | app/static/js/admin.js:210-213 | the date criterion holds when the query is the part of the ISO check-in timestamp before the `T` |
| LogFilter.ClearedFilterKeepsAll | app/static/js/admin.js:234-240 | with every criterion empty, the filter returns all sessions in order |
| LogFilter.FilterIdempotent | app/static/js/admin.js:208-229 | filtering twice with the same criteria gives the same result as filtering once |
| UriComponent.EncodeIsUrlSafe | app/static/js/admin.js:315 | the encoded year holds only unreserved characters and `%XX` escapes |
| UriComponent.DecodeEncode | app/static/js/admin.js:315 | percent-decoding the encoded year gives back its UTF-8 bytes |
| AdminPage.SortByIdDesc | app/static/js/admin.js:182-183 | sorts the array in place by id, descending; the result is a permutation of the input |
| AdminPage.NewestFirst | app/static/js/admin.js:182-183 | the first session shown has the largest id |
| AdminPage.StudentsUrlQuery | app/static/js/admin.js:308-316 | the target year is the given year, or the current year when none is given; the `?year=` query is added exactly when that target is non-empty and not "All" |
| AdminPage.FirstYearUrl | app/static/js/admin.js:310-316 | on the initial tab, whose year is set at line 268, the roster URL is `/api/students/?year=1st%20Year` |
| AdminPage.EscapeQuotesRoundTrip | app/static/js/admin.js:345-353 | replacing `'` with `\'` round-trips through a JS single-quoted literal for text without backslash or line breaks |
| AdminPage.EscapeQuotesBreaksOnBackslash | app/static/js/admin.js:345-353 | as written, for every name `p + "\"` where `p` holds no quote, backslash or line break, the Edit handler's first literal reads back as `p + "', "`, swallowing the separator, instead of the name; `O\` is the case `p = "O"` |
| AdminPage.EscapeJsStringRoundTrip | app/static/js/admin.js:345-353 | escaping backslashes, quotes and line breaks round-trips every string through a JS single-quoted literal |
| AdminPage.EditHandlerArguments | app/static/js/admin.js:345-353 | as a JS literal, the Edit handler as written reads back the student's id, exact name and exact year whenever neither name nor year holds a backslash or line break |
| AdminPage.EditHandlerBreaksOnBackslash | app/static/js/admin.js:345-353 | as written, a name `p + "\"` (with `p` free of quotes, backslashes and line breaks) makes the handler's first literal read back as `p + "', "`, not the name |
| AdminPage.EditHandlerCorrectedArguments | app/static/js/admin.js:345-353 | with the corrected escape, the handler, as a JS literal, reads back every id, name and year exactly |
| AdminPage.Page.constructor | app/static/js/admin.js:154 | the page starts with no sessions, empty filters and the "1st Year" roster tab (line 268) |
| AdminPage.Page.RenderLogs | app/static/js/admin.js:176-200 | sorts the given array in place, newest first, and displays it; nothing else changes |
| AdminPage.Page.LoadDashboard | app/static/js/admin.js:156-170 | the fetched sessions become `allLogs`, sorted newest first, and are displayed |
| AdminPage.Page.FilterLogs | app/static/js/admin.js:202-232 | displays, newest first, exactly the sessions of `allLogs` that match the criteria; `allLogs` is unchanged |
| AdminPage.Page.ClearFilters | app/static/js/admin.js:234-240 | empties the four criteria and displays every session, newest first |
| AdminPage.Page.LoadStudentYear | app/static/js/admin.js:270-304 | records the tab's year as the current year and fetches that year's roster URL |
| AdminPage.Page.LoadStudents | app/static/js/admin.js:306-330 | fetches the roster URL for the given year, or for the current year when none is given |
| Text.StripShape | app/routers/students.py:38-40 | `strip` removes exactly the leading and trailing whitespace and keeps the middle |
| Text.StripEmptyIffAllSpace | app/routers/students.py:42-43 | a value strips to empty exactly when it is all whitespace |
| Text.StripIdempotent | app/routers/students.py:38-40 | stripping twice is stripping once |
| Text.EndsWithIffConcat | app/routers/students.py:19 | a file name ends with ".csv" exactly when it is some stem followed by ".csv" |
| Text.ToLowerIdempotent | app/static/js/admin.js:205-206 | lowercasing twice is lowercasing once |
| Text.IncludesIffOccurs | app/static/js/admin.js:219-224 | `includes` holds exactly when the query occurs at some position |
| Text.IncludesLowered | app/static/js/admin.js:219 | a substring match is kept when both the text and the query are lowercased |
| Text.BeforeFirstOfConcat | app/static/js/admin.js:211 | `split('T')[0]` of a date, a `T` and a time is the date |
| Text.ParseNatToString | app/routers/admin.py:51 | an exported id reads back as the same number |

## Left out

- Browser and network plumbing are not modelled. This covers DOM updates, alerts, tabs, the login form, `sessionStorage`, the `btoa` Basic header, `fetch` and blob downloads in `admin.js`. The roster and session requests appear only as the URL that would be fetched and the data that came back.
- The table cell HTML of `renderLogs` and `renderStudents` is not modelled. That includes the `-` placeholders, the `toLocaleString` dates and HTML-attribute escaping. Only the sort order, the displayed sequence and the JS literal inside the Edit handler are modelled.
- `app/static/js/main.js`, `app/static/js/admin_students.js` and `app/main.py` are not part of this model. They are UI wiring and app setup.
- The Basic-auth gate (`Depends(get_current_admin)`, a 401 before any work) is modelled only in `AdminRouter.ListLogs`. The same gate on `export_logs` (app/routers/admin.py:41), `import_students`, `get_student_template`, `create_student` and `get_student_stats` (app/routers/students.py:17, 70, 91, 144) is not repeated: those models start after a successful login.
- Crud.Database.CreateStudent: `create_student` in app/crud.py:18-27 has no duplicate check, so a duplicate register number makes the commit raise `IntegrityError` (an HTTP 500). The model returns `None` and leaves the tables unchanged instead. The routers look up the number first, so neither can reach this path.
- The passthrough routes `read_students`, `read_student_by_reg`, `update_student` and `delete_student` in `students.py` are not modelled. Their logic is the crud functions, and those are modelled.
- SQLAlchemy sessions, commits, refreshes and rollbacks are not modelled. Each store call is atomic and sequential, so the race between the active-session check and the insert in `check_in` is not captured.
- The roster is a sequence of students in id order, not a map keyed by register number. The model needs this to give `update_student`/`delete_student` their id-based behaviour and new ids. Uniqueness of register numbers is an invariant of `Database.Valid`.
- Wall-clock time is not modelled: `get_ist_time` becomes the integer `now`. `str(datetime)` in the export becomes the `render` parameter, and `toISOString` in the date filter becomes the `iso` parameter.
- StudentStats.GetStudentStats: durations stay in integer seconds. The division by 3600 and the rounding to two decimals are floating point and are left out.
- StudentsRouter.ImportStudents: the upload's UTF-8 decode and the splitting of lines into fields by `csv.reader` are library code. Import starts from the header and the data lines already split into fields; `DictRows` models how `csv.DictReader` turns them into rows. A UTF-8 decode error is not modelled.
- StudentsRouter.ImportStudents: the header error detail uses one fixed printing of Python's set `{'register_number', 'name', 'year'}`, but Python's set order varies between runs.
- StudentsRouter.ImportStudents: an error entry records the failing row itself, not the formatted text `Row error (...): ...`.
- StudentsRouter.ParseRow: the schema validation of `StudentCreate` cannot fail on strings that are present, so the only modelled failure is an absent field. The year is not validated, as in the code.
- A row with more fields than headers is not modelled. The extra fields go under DictReader's `None` key, which the import never reads.
- CsvWriter: the reader is a reference for proving the writer lossless, not a model of Python's `csv` reader.
- CsvWriter: `Document` of an empty row list is empty. A record of a single empty field is written as `""`, as `csv.writer` does.
- LogFilter: `toLowerCase` is modelled for ASCII letters only, with no Unicode case mapping.
- AdminPage.SortByIdDesc: it is an insertion sort. The JS engine's sort algorithm is not modelled, but with unique ids every correct sort gives this order.
- AdminPage.ReadJsString: it reads the escapes `\\`, `\'`, `\"`, `\n` and `\r` of a JS literal; any other escape reads as a failure (`None`). Other JS escapes (`\x`, `\u`, octal, `\t`) are not modelled.
- Where the code differs from what one would expect, the model follows the code:
  - the purpose filter is exact and case-sensitive;
  - statistics do not fail for an unknown student;
  - import does not validate the year;
  - check-out does not compare the check-out time with the check-in time, so a duration can be negative.

## Findings

| source | as written | input that shows it | evidently intended | confidence | as-written member | corrected member |
|---|---|---|---|---|---|---|
| app/static/js/admin.js:345-346 | only `'` is escaped (as `\'`) before the name and year are put in the `editStudent('…', '…')` handler | the name `O\`: the handler text becomes `'O\', '1st Year'`, which a JS reader takes as the single string `O', ` | the handler should receive the student's exact name and year, so `\` and line breaks must be escaped too in the JS literal; the `onclick="…"` attribute around it would also need HTML escaping, since a `"` in a name ends the attribute and `&quot;`/`&amp;` are decoded before the JS is parsed, and that layer is not modelled | not executed | AdminPage.EditHandlerBreaksOnBackslash | AdminPage.EditHandlerCorrectedArguments |
