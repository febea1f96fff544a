/** The roster endpoints that carry logic: the CSV roster import, the duplicate
    check on creation and the import template. (The statistics endpoint of the
    same router is the module StudentStats.) */
module StudentsRouter {
  import opened Wrappers
  import opened Models
  import opened Crud
  import opened Text
  import CsvWriter

  /** One CSV row as `csv.DictReader` yields it: header name to field; a row
      shorter than the header gives `None` for the missing fields. */
  type Row = map<string, Option<string>>

  /** What `csv.DictReader` makes of one already-split line, given the header:
      the i-th header names the i-th field, a later duplicate header wins, and a
      header past the end of the line gets `None`. */
  function DictRow(fieldnames: seq<string>, fields: seq<string>): (row: Row)
    ensures row.Keys == set h | h in fieldnames
  {
    if fieldnames == [] then map[]
    else
      var i := |fieldnames| - 1;
      DictRow(fieldnames[..i], fields)[fieldnames[i] := if i < |fields| then Some(fields[i]) else None]
  }

  /** The last column under a header name holds the field at its position, or
      `None` when the line is shorter than that. */
  lemma {:induction false} DictRowAt(fieldnames: seq<string>, fields: seq<string>, i: nat)
    requires i < |fieldnames| && fieldnames[i] !in fieldnames[i + 1..]
    ensures DictRow(fieldnames, fields)[fieldnames[i]] == (if i < |fields| then Some(fields[i]) else None)
  {
    var n := |fieldnames| - 1;
    if i < n {
      assert fieldnames[n] == fieldnames[i + 1..][n - i - 1];
      assert fieldnames[..n][i + 1..] == fieldnames[i + 1..][..n - i - 1];
      DictRowAt(fieldnames[..n], fields, i);
    }
  }

  /** `csv.DictReader` over the lines after the header: a line with no field
      at all (a blank line) is passed over, every other line becomes a row. */
  function DictRows(fieldnames: seq<string>, lines: seq<seq<string>>): (rows: seq<Row>)
    ensures |rows| <= |lines|
    ensures (forall k :: 0 <= k < |lines| ==> lines[k] != []) ==> |rows| == |lines|
  {
    if lines == [] then []
    else (if lines[0] == [] then [] else [DictRow(fieldnames, lines[0])]) + DictRows(fieldnames, lines[1..])
  }

  /** A blank line anywhere among the data lines changes nothing: it is
      neither imported nor reported. */
  lemma {:induction false} BlankLineIgnored(fieldnames: seq<string>, before: seq<seq<string>>, after: seq<seq<string>>)
    ensures DictRows(fieldnames, before + [[]] + after) == DictRows(fieldnames, before + after)
  {
    if before == [] {
      assert before + [[]] + after == [[]] + after;
      assert before + after == after;
      DictRowsCons(fieldnames, [], after);
    } else {
      var b, r := before[0], before[1..];
      assert [b] + r == before;
      Associative([b], r, [[]]);
      Associative([b], r + [[]], after);
      Associative([b], r, after);
      BlankLineIgnored(fieldnames, r, after);
      DictRowsCons(fieldnames, b, r + [[]] + after);
      DictRowsCons(fieldnames, b, r + after);
    }
  }

  /** `DictRows` unfolded once at the front. */
  lemma DictRowsCons(fieldnames: seq<string>, line: seq<string>, rest: seq<seq<string>>)
    ensures DictRows(fieldnames, [line] + rest) ==
            (if line == [] then [] else [DictRow(fieldnames, line)]) + DictRows(fieldnames, rest)
  {
    assert ([line] + rest)[0] == line && ([line] + rest)[1..] == rest;
  }


  /** `row.get(key, '')`. */
  function Get(row: Row, key: string): Option<string>
  {
    if key in row then row[key] else Some("")
  }

  /** What the import loop does with one row. */
  datatype RowOutcome =
    | Failed                       // `.strip()` on a missing field raised
    | Skipped                      // blank register number or name
    | Accepted(student: StudentCreate)

  /** The three fields are stripped in order (a missing one raises); a blank
      register number or name skips the row; the year is not checked. */
  function ParseRow(row: Row): (o: RowOutcome)
    ensures o.Accepted? ==> o.student.registerNumber != "" && o.student.name != ""
    ensures o.Accepted? ==>
              && Get(row, "register_number").Some? && Get(row, "name").Some? && Get(row, "year").Some?
              && o.student == StudentCreate(Strip(Get(row, "register_number").value),
                                         Strip(Get(row, "name").value),
                                         Strip(Get(row, "year").value))
    ensures o.Failed? <==> Get(row, "register_number").None? || Get(row, "name").None? || Get(row, "year").None?
  {
    match (Get(row, "register_number"), Get(row, "name"), Get(row, "year"))
    case (Some(r), Some(n), Some(y)) =>
      var reg, name, year := Strip(r), Strip(n), Strip(y);
      if reg == "" || name == "" then Skipped else Accepted(StudentCreate(reg, name, year))
    case _ => Failed
  }

  /** A row is skipped exactly when all three fields are there and the register
      number or the name is nothing but whitespace. */
  lemma BlankRowSkipped(row: Row)
    ensures ParseRow(row).Skipped? <==>
              && Get(row, "register_number").Some? && Get(row, "name").Some? && Get(row, "year").Some?
              && (AllSpace(Get(row, "register_number").value) || AllSpace(Get(row, "name").value))
  {
    if Get(row, "register_number").Some? && Get(row, "name").Some? && Get(row, "year").Some? {
      StripEmptyIffAllSpace(Get(row, "register_number").value);
      StripEmptyIffAllSpace(Get(row, "name").value);
    }
  }

  /** A non-blank line shorter than the three required columns raises and is
      reported, whatever its fields hold. */
  lemma ShortRowFails(fields: seq<string>)
    requires 0 < |fields| < 3
    ensures ParseRow(DictRow(["register_number", "name", "year"], fields)).Failed?
  {
    var h := ["register_number", "name", "year"];
    assert h[..2] == ["register_number", "name"];
    assert DictRow(h, fields)["year"] == None;
  }

  /** A line under the template's header with a non-blank, unpadded register
      number and name is accepted as that student, whatever its year (which is
      only stripped, never checked). */
  lemma CleanRowAccepted(reg: string, name: string, year: string)
    requires reg != [] && !IsSpace(reg[0]) && !IsSpace(reg[|reg| - 1])
    requires name != [] && !IsSpace(name[0]) && !IsSpace(name[|name| - 1])
    ensures ParseRow(DictRow(["register_number", "name", "year"], [reg, name, year]))
            == Accepted(StudentCreate(reg, name, Strip(year)))
  {
    var h := ["register_number", "name", "year"];
    var f := [reg, name, year];
    assert h[..2] == ["register_number", "name"];
    assert h[..2][..1] == ["register_number"];
    assert h[..2][..1][..0] == [];
    var r1 := DictRow(h[..2][..1], f);
    assert r1 == map["register_number" := Some(reg)];
    var r2 := DictRow(h[..2], f);
    assert r2 == r1["name" := Some(name)];
    var row := DictRow(h, f);
    assert row == r2["year" := Some(year)];
    assert row["register_number"] == Some(reg);
    assert row["name"] == Some(name);
    assert row["year"] == Some(year);
    StripUntouched(reg);
    StripUntouched(name);
  }

  /** Text with no whitespace at either end is left as it is by `strip()`. */
  lemma StripUntouched(s: string)
    requires s != [] && !IsSpace(s[0]) && !IsSpace(s[|s| - 1])
    ensures Strip(s) == s
  {
  }

  function RegistersOf(created: seq<StudentCreate>): set<string>
  {
    set c | c in created :: c.registerNumber
  }

  lemma RegistersOfSnoc(created: seq<StudentCreate>, c: StudentCreate)
    ensures RegistersOf(created + [c]) == RegistersOf(created) + {c.registerNumber}
  {
    assert forall x :: x in created + [c] <==> x in created || x == c;
  }

  /** The outcome of the loop so far: the records inserted, in order, and the
      rows that raised. */
  datatype ImportPlan = ImportPlan(inserted: seq<StudentCreate>, errors: seq<Row>)

  /** One pass of the loop body, given what parsing the row gave, against a
      roster holding the register numbers `present`: an accepted row is
      inserted when its register number is neither on the roster nor inserted
      by an earlier row. */
  function Step(present: set<string>, prev: ImportPlan, row: Row, o: RowOutcome): ImportPlan
  {
    match o
    case Failed => prev.(errors := prev.errors + [row])
    case Skipped => prev
    case Accepted(s) =>
      if s.registerNumber in present || s.registerNumber in RegistersOf(prev.inserted) then prev
      else prev.(inserted := prev.inserted + [s])
  }

  lemma StepAcceptsNew(present: set<string>, prev: ImportPlan, row: Row, s: StudentCreate)
    requires s.registerNumber !in present && s.registerNumber !in RegistersOf(prev.inserted)
    ensures Step(present, prev, row, Accepted(s)) == prev.(inserted := prev.inserted + [s])
  {
  }

  /** The import loop over `rows`. */
  function PlanImport(present: set<string>, rows: seq<Row>): ImportPlan
  {
    if rows == [] then ImportPlan([], [])
    else
      var row := rows[|rows| - 1];
      Step(present, PlanImport(present, rows[..|rows| - 1]), row, ParseRow(row))
  }

  /** Register numbers that appear once each and not on the roster. */
  predicate AllNew(present: set<string>, ins: seq<StudentCreate>)
  {
    && (forall i, j :: 0 <= i < j < |ins| ==> ins[i].registerNumber != ins[j].registerNumber)
    && RegistersOf(ins) !! present
  }

  lemma StepKeepsAllNew(present: set<string>, prev: ImportPlan, row: Row, o: RowOutcome)
    requires AllNew(present, prev.inserted)
    ensures AllNew(present, Step(present, prev, row, o).inserted)
  {
    if o.Accepted? {
      var s := o.student;
      RegistersOfSnoc(prev.inserted, s);
      if s.registerNumber !in present && s.registerNumber !in RegistersOf(prev.inserted) {
        var ins := prev.inserted + [s];
        forall i, j | 0 <= i < j < |ins| ensures ins[i].registerNumber != ins[j].registerNumber {
          if j == |ins| - 1 {
            assert ins[i] in prev.inserted;
          }
        }
      }
    }
  }

  /** Inserted records never repeat a register number and never clash with the
      roster. */
  lemma {:induction false} InsertedAreNew(present: set<string>, rows: seq<Row>)
    ensures AllNew(present, PlanImport(present, rows).inserted)
  {
    if rows != [] {
      var row := rows[|rows| - 1];
      InsertedAreNew(present, rows[..|rows| - 1]);
      StepKeepsAllNew(present, PlanImport(present, rows[..|rows| - 1]), row, ParseRow(row));
    }
  }

  /** The records the accepted rows carry, in row order. */
  function AcceptedOf(rows: seq<Row>): seq<StudentCreate>
  {
    if rows == [] then []
    else
      var o := ParseRow(rows[|rows| - 1]);
      AcceptedOf(rows[..|rows| - 1]) + if o.Accepted? then [o.student] else []
  }

  lemma StepInsertsAccepted(present: set<string>, prev: ImportPlan, row: Row, o: RowOutcome, before: seq<StudentCreate>)
    requires forall s :: s in prev.inserted ==> s in before
    ensures forall s :: s in Step(present, prev, row, o).inserted ==>
              s in before + if o.Accepted? then [o.student] else []
  {
  }

  /** Every inserted record is what some accepted row said. */
  lemma {:induction false} InsertedFromAcceptedRows(present: set<string>, rows: seq<Row>)
    ensures forall s :: s in PlanImport(present, rows).inserted ==> s in AcceptedOf(rows)
  {
    if rows != [] {
      var row := rows[|rows| - 1];
      InsertedFromAcceptedRows(present, rows[..|rows| - 1]);
      StepInsertsAccepted(present, PlanImport(present, rows[..|rows| - 1]), row, ParseRow(row), AcceptedOf(rows[..|rows| - 1]));
    }
  }

  lemma StepRegistersAccepted(present: set<string>, prev: ImportPlan, row: Row, o: RowOutcome, before: seq<StudentCreate>)
    requires forall s :: s in before ==> s.registerNumber in present + RegistersOf(prev.inserted)
    ensures var next := Step(present, prev, row, o);
            forall s :: s in before + (if o.Accepted? then [o.student] else []) ==>
              s.registerNumber in present + RegistersOf(next.inserted)
  {
    if o.Accepted? {
      RegistersOfSnoc(prev.inserted, o.student);
    }
  }

  /** Every accepted row's register number is on the roster afterwards: it was
      there, or this row or an earlier one inserted it. */
  lemma {:induction false} AcceptedRowsRegistered(present: set<string>, rows: seq<Row>)
    ensures forall s :: s in AcceptedOf(rows) ==>
              s.registerNumber in present + RegistersOf(PlanImport(present, rows).inserted)
  {
    if rows != [] {
      var row := rows[|rows| - 1];
      AcceptedRowsRegistered(present, rows[..|rows| - 1]);
      StepRegistersAccepted(present, PlanImport(present, rows[..|rows| - 1]), row, ParseRow(row), AcceptedOf(rows[..|rows| - 1]));
    }
  }

  /** The rows whose parsing raises. */
  predicate RowFails(row: Row)
  {
    ParseRow(row).Failed?
  }

  lemma StepRecordsFailure(present: set<string>, prev: ImportPlan, row: Row, o: RowOutcome)
    ensures Step(present, prev, row, o).errors == prev.errors + if o.Failed? then [row] else []
  {
  }

  /** The error list holds exactly the rows that raised, in order. */
  lemma {:induction false} ErrorsAreFailedRows(present: set<string>, rows: seq<Row>)
    ensures PlanImport(present, rows).errors == Where(rows, RowFails)
  {
    if rows != [] {
      var init := rows[..|rows| - 1];
      var row := rows[|rows| - 1];
      ErrorsAreFailedRows(present, init);
      StepRecordsFailure(present, PlanImport(present, init), row, ParseRow(row));
      assert rows == init + [row];
      WhereSnoc(init, row, RowFails);
    }
  }

  /** Rows are isolated: what later rows do never undoes an earlier insert or
      error. */
  lemma {:induction false} PlanImportExtends(present: set<string>, rows: seq<Row>, more: seq<Row>)
    ensures var a := PlanImport(present, rows);
            var b := PlanImport(present, rows + more);
            a.inserted <= b.inserted && a.errors <= b.errors
    decreases |more|
  {
    if more == [] {
      assert rows + more == rows;
    } else {
      var init := more[..|more| - 1];
      assert (rows + more)[..|rows + more| - 1] == rows + init;
      PlanImportExtends(present, rows, init);
    }
  }

  function Registered(students: seq<Student>): set<string>
  {
    set s | s in students :: s.registerNumber
  }

  lemma RegisteredSnoc(students: seq<Student>, s: Student)
    ensures Registered(students + [s]) == Registered(students) + {s.registerNumber}
  {
    assert forall x :: x in students + [s] <==> x in students || x == s;
  }

  function AsCreate(s: Student): StudentCreate
  {
    StudentCreate(s.registerNumber, s.name, s.year)
  }

  function RequiredHeaders(): set<string>
  {
    {"register_number", "name", "year"}
  }

  /** The header check: a header line is present and names all three columns. */
  predicate HeadersOk(fieldnames: seq<string>)
  {
    |fieldnames| > 0 && RequiredHeaders() <= set h | h in fieldnames
  }

  /** The detail of the header refusal once the outer handler has re-raised it. */
  function InvalidHeadersDetail(): string
  {
    "Failed to parse CSV: 400: Invalid headers. Required: {'register_number', 'name', 'year'}"
  }

  lemma RegNoLookup(students: seq<Student>, reg: string)
    ensures GetStudentByRegNo(students, reg).None? <==> reg !in Registered(students)
  {
  }

  lemma PlanImportSnoc(present: set<string>, rows: seq<Row>, i: nat)
    requires i < |rows|
    ensures PlanImport(present, rows[..i + 1]) ==
            Step(present, PlanImport(present, rows[..i]), rows[i], ParseRow(rows[i]))
  {
    assert rows[..i + 1][..i] == rows[..i];
  }

  /** The records added after the first `n0` students. */
  function AddedAfter(students: seq<Student>, n0: nat): seq<StudentCreate>
    requires n0 <= |students|
  {
    if |students| == n0 then [] else AddedAfter(students[..|students| - 1], n0) + [AsCreate(students[|students| - 1])]
  }

  lemma AddedAfterSnoc(students: seq<Student>, n0: nat, s: Student)
    requires n0 <= |students|
    ensures AddedAfter(students + [s], n0) == AddedAfter(students, n0) + [AsCreate(s)]
  {
    assert (students + [s])[..|students|] == students;
  }

  lemma {:induction false} AddedAfterAt(students: seq<Student>, n0: nat)
    requires n0 <= |students|
    ensures |AddedAfter(students, n0)| == |students| - n0
    ensures forall k :: 0 <= k < |students| - n0 ==> AddedAfter(students, n0)[k] == AsCreate(students[n0 + k])
  {
    if |students| > n0 {
      AddedAfterAt(students[..|students| - 1], n0);
    }
  }

  /** `after` is `before` followed by one student per record of `added`, in
      order. */
  predicate Appends(before: seq<Student>, after: seq<Student>, added: seq<StudentCreate>)
  {
    && |after| == |before| + |added|
    && after[..|before|] == before
    && forall k :: 0 <= k < |added| ==> AsCreate(after[|before| + k]) == added[k]
  }

  /** The import response: the number inserted and one entry per failing row. */
  datatype ImportReport = ImportReport(count: nat, errors: seq<Row>)

  function Report(plan: ImportPlan): ImportReport
  {
    ImportReport(|plan.inserted|, plan.errors)
  }

  /** `import_students` over an already-tokenised upload: the header line and
      the data lines split into fields. A name not ending in ".csv" and a
      header missing a required column are refused before anything is inserted
      (the second one surfacing through the outer handler as "Failed to parse
      CSV"); otherwise the rows `csv.DictReader` yields are inserted as
      `PlanImport` says, the roster only growing at its end. */
  method ImportStudents(db: Database, filename: string, fieldnames: seq<string>, lines: seq<seq<string>>)
    returns (r: Result<ImportReport, HttpError>)
    requires db.Valid()
    modifies db
    ensures db.Valid() && db.logs == old(db.logs)
    ensures !EndsWith(filename, ".csv") ==>
              r == Err(HttpError(400, "Invalid file type. Please upload a CSV.")) && db.students == old(db.students)
    ensures EndsWith(filename, ".csv") && !HeadersOk(fieldnames) ==>
              r == Err(HttpError(400, InvalidHeadersDetail())) && db.students == old(db.students)
    ensures EndsWith(filename, ".csv") && HeadersOk(fieldnames) ==>
              && r == Ok(Report(PlanImport(Registered(old(db.students)), DictRows(fieldnames, lines))))
              && Appends(old(db.students), db.students,
                         PlanImport(Registered(old(db.students)), DictRows(fieldnames, lines)).inserted)
  {
    if !EndsWith(filename, ".csv") {
      return Err(HttpError(400, "Invalid file type. Please upload a CSV."));
    }
    if !HeadersOk(fieldnames) {
      return Err(HttpError(400, InvalidHeadersDetail()));
    }
    ghost var before := db.students;
    var count, errors := ImportRows(db, DictRows(fieldnames, lines));
    AddedAfterAppends(before, db.students);
    r := Ok(ImportReport(count, errors));
  }

  /** A roster that kept its first rows is those rows followed by the records
      added after them. */
  lemma AddedAfterAppends(before: seq<Student>, after: seq<Student>)
    requires |before| <= |after| && after[..|before|] == before
    ensures Appends(before, after, AddedAfter(after, |before|))
  {
    AddedAfterAt(after, |before|);
  }

  /** The loop of `import_students`: each row is parsed and inserted, skipped
      or recorded as failing; the roster grows by exactly the records of
      `PlanImport`, appended at its end. */
  method ImportRows(db: Database, rows: seq<Row>) returns (count: nat, errors: seq<Row>)
    requires db.Valid()
    modifies db
    ensures db.Valid() && db.logs == old(db.logs)
    ensures |db.students| >= |old(db.students)| && db.students[..|old(db.students)|] == old(db.students)
    ensures PlanImport(Registered(old(db.students)), rows)
              == ImportPlan(AddedAfter(db.students, |old(db.students)|), errors)
    ensures count == |db.students| - |old(db.students)|
  {
    ghost var present := Registered(db.students);
    ghost var n0 := |db.students|;
    count := 0;
    errors := [];
    for i := 0 to |rows|
      invariant db.Valid() && db.logs == old(db.logs)
      invariant |db.students| >= n0 && db.students[..n0] == old(db.students)
      invariant PlanImport(present, rows[..i]) == ImportPlan(AddedAfter(db.students, n0), errors)
      invariant count == |db.students| - n0
      invariant Registered(db.students) == present + RegistersOf(AddedAfter(db.students, n0))
    {
      PlanImportSnoc(present, rows, i);
      var inserted;
      errors, inserted := ImportRow(db, rows[i], ParseRow(rows[i]), errors, present, n0);
      if inserted {
        count := count + 1;
      }
    }
    assert rows[..|rows|] == rows;
  }

  /** The body of the import loop for one row, given what parsing it gave:
      record a failure, skip, or insert the student unless the register number
      is already on the roster (which by then holds the rows inserted before). */
  method ImportRow(db: Database, row: Row, o: RowOutcome, errors: seq<Row>, ghost present: set<string>, ghost n0: nat)
    returns (errors': seq<Row>, inserted: bool)
    requires db.Valid() && n0 <= |db.students|
    requires Registered(db.students) == present + RegistersOf(AddedAfter(db.students, n0))
    modifies db
    ensures db.Valid() && db.logs == old(db.logs)
    ensures |db.students| == |old(db.students)| + (if inserted then 1 else 0)
    ensures db.students[..|old(db.students)|] == old(db.students)
    ensures ImportPlan(AddedAfter(db.students, n0), errors') ==
            Step(present, ImportPlan(AddedAfter(old(db.students), n0), errors), row, o)
    ensures Registered(db.students) == present + RegistersOf(AddedAfter(db.students, n0))
  {
    errors', inserted := errors, false;
    match o
    case Failed =>
      errors' := errors + [row];
    case Skipped =>
    case Accepted(s) =>
      var existing := GetStudentByRegNo(db.students, s.registerNumber);
      RegNoLookup(db.students, s.registerNumber);
      if existing.None? {
        ghost var before := db.students;
        var created := db.CreateStudent(s);
        InsertKeepsPlan(before, n0, present, errors, row, created.value);
        inserted := true;
      } else {
        DuplicateKeepsPlan(db.students, n0, present, errors, row, s);
      }
  }

  /** Inserting a student whose register number is new takes the step the
      plan takes, and keeps the register numbers in line with it. */
  lemma InsertKeepsPlan(before: seq<Student>, n0: nat, present: set<string>, errors: seq<Row>, row: Row, created: Student)
    requires n0 <= |before|
    requires Registered(before) == present + RegistersOf(AddedAfter(before, n0))
    requires created.registerNumber !in Registered(before)
    ensures ImportPlan(AddedAfter(before + [created], n0), errors) ==
            Step(present, ImportPlan(AddedAfter(before, n0), errors), row, Accepted(AsCreate(created)))
    ensures Registered(before + [created]) == present + RegistersOf(AddedAfter(before + [created], n0))
  {
    var s := AsCreate(created);
    AddedAfterSnoc(before, n0, created);
    RegisteredSnoc(before, created);
    RegistersOfSnoc(AddedAfter(before, n0), s);
    StepAcceptsNew(present, ImportPlan(AddedAfter(before, n0), errors), row, s);
  }

  /** A register number already on the roster leaves the plan as it is. */
  lemma DuplicateKeepsPlan(students: seq<Student>, n0: nat, present: set<string>, errors: seq<Row>, row: Row, s: StudentCreate)
    requires n0 <= |students|
    requires Registered(students) == present + RegistersOf(AddedAfter(students, n0))
    requires s.registerNumber in Registered(students)
    ensures Step(present, ImportPlan(AddedAfter(students, n0), errors), row, Accepted(s)) ==
            ImportPlan(AddedAfter(students, n0), errors)
  {
  }

  /** `create_student`: a register number already on the roster is refused with
      400 and nothing is added. */
  method CreateStudent(db: Database, student: StudentCreate) returns (r: Result<Student, HttpError>)
    requires db.Valid()
    modifies db
    ensures db.Valid() && db.logs == old(db.logs)
    ensures GetStudentByRegNo(old(db.students), student.registerNumber).Some? ==>
              r == Err(HttpError(400, "Student already registered")) && db.students == old(db.students)
    ensures GetStudentByRegNo(old(db.students), student.registerNumber).None? ==>
              r.Ok? && AsCreate(r.value) == student && db.students == old(db.students) + [r.value]
  {
    if GetStudentByRegNo(db.students, student.registerNumber).Some? {
      return Err(HttpError(400, "Student already registered"));
    }
    var created := db.CreateStudent(student);
    r := Ok(created.value);
  }

  /** `get_student_template`: the header line and two sample students. */
  function TemplateRows(): (t: seq<seq<string>>)
    ensures |t| == 3 && t[0] == ["register_number", "name", "year"]
  {
    [ ["register_number", "name", "year"],
      ["21CS101", "John Doe", "1st Year"],
      ["21CS102", "Jane Smith", "2nd Year"] ]
  }

  /** The body of the `get_student_template` response: `TemplateRows` written
      by the CSV writer, which reads back as exactly those rows. */
  function Template(): (t: string)
    ensures CsvWriter.ReadDocument(t) == Some(TemplateRows())
  {
    var rows := TemplateRows();
    assert forall i :: 0 <= i < |rows| ==> rows[i] != [] by {
      assert rows[0] != [] && rows[1] != [] && rows[2] != [];
    }
    CsvWriter.ReadDocumentRoundTrip(rows);
    CsvWriter.Document(rows)
  }

  /** The template's header line passes the header check. */
  lemma TemplateHeadersOk()
    ensures HeadersOk(TemplateRows()[0])
  {
    var h := TemplateRows()[0];
    assert h[0] == "register_number" && h[1] == "name" && h[2] == "year";
  }

  /** Importing the template into a roster that lacks the two sample register
      numbers inserts both samples, in order, and reports no error. */
  lemma TemplateImports(present: set<string>)
    requires "21CS101" !in present && "21CS102" !in present
    ensures var plan := PlanImport(present, [DictRow(TemplateRows()[0], TemplateRows()[1]),
                                             DictRow(TemplateRows()[0], TemplateRows()[2])]);
            && plan.inserted == [StudentCreate("21CS101", "John Doe", "1st Year"),
                                 StudentCreate("21CS102", "Jane Smith", "2nd Year")]
            && plan.errors == []
  {
    var h := TemplateRows()[0];
    CleanRowAccepted("21CS101", "John Doe", "1st Year");
    CleanRowAccepted("21CS102", "Jane Smith", "2nd Year");
    TwoNewRows(present, DictRow(h, TemplateRows()[1]), DictRow(h, TemplateRows()[2]));
  }

  /** Two accepted rows with different register numbers, neither on the roster,
      are both inserted. */
  lemma TwoNewRows(present: set<string>, r0: Row, r1: Row)
    requires ParseRow(r0).Accepted? && ParseRow(r1).Accepted?
    requires ParseRow(r0).student.registerNumber !in present
    requires ParseRow(r1).student.registerNumber !in present
    requires ParseRow(r0).student.registerNumber != ParseRow(r1).student.registerNumber
    ensures PlanImport(present, [r0, r1]) == ImportPlan([ParseRow(r0).student, ParseRow(r1).student], [])
  {
    var s0, s1 := ParseRow(r0).student, ParseRow(r1).student;
    var rows := [r0, r1];
    assert rows[..0] == [] && rows[..2] == rows && [s0] + [s1] == [s0, s1];
    assert RegistersOf([]) == {};
    RegistersOfSnoc([], s0);
    var p1 := ImportPlan([s0], []);
    PlanImportSnoc(present, rows, 0);
    PlanImportSnoc(present, rows, 1);
    StepAcceptsNew(present, ImportPlan([], []), r0, s0);
    StepAcceptsNew(present, p1, r1, s1);
  }
}
