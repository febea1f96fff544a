/** The data-access layer: read-only queries over the two tables, and the
    `Database` object whose methods insert, update and delete rows. Each call is
    atomic; commit, refresh and rollback are not modelled. */
module Crud {
  import opened Wrappers
  import opened Models

  // ---------------------------------------------------------------------------
  // Generic query helpers

  /** The position of the first element satisfying `p`, as `.filter(...).first()` finds it. */
  function FirstIndex<T>(s: seq<T>, p: T -> bool): (r: Option<nat>)
    ensures r.Some? ==> r.value < |s| && p(s[r.value])
    ensures r.Some? ==> forall j :: 0 <= j < r.value ==> !p(s[j])
    ensures r.None? ==> forall j :: 0 <= j < |s| ==> !p(s[j])
  {
    if s == [] then None
    else if p(s[0]) then Some(0)
    else match FirstIndex(s[1..], p)
      case None => None
      case Some(i) => Some(i + 1)
  }

  /** The elements satisfying `p`, in table order, as `.filter(...).all()` returns them. */
  function Where<T(!new)>(s: seq<T>, p: T -> bool): (r: seq<T>)
    ensures |r| <= |s|
    ensures forall x :: x in r <==> x in s && p(x)
  {
    if s == [] then []
    else if p(s[0]) then [s[0]] + Where(s[1..], p)
    else Where(s[1..], p)
  }

  /** Filtering a sequence with one more element at the end. */
  lemma {:induction false} WhereSnoc<T(!new)>(s: seq<T>, x: T, p: T -> bool)
    ensures Where(s + [x], p) == Where(s, p) + (if p(x) then [x] else [])
  {
    if s == [] {
      assert [x][1..] == [];
    } else {
      assert (s + [x])[1..] == s[1..] + [x];
      WhereSnoc(s[1..], x, p);
    }
  }

  /** SQLite's OFFSET: a negative offset counts as zero, and one past the end
      leaves nothing. */
  function Offset(n: nat, skip: int): (o: nat)
    ensures o <= n
  {
    if skip <= 0 then 0 else if skip >= n then n else skip
  }

  /** `.offset(skip).limit(limit)`: a window of consecutive rows starting at the
      offset; SQLite reads a negative LIMIT as "no limit". */
  function Page<T>(s: seq<T>, skip: int, limit: int): (r: seq<T>)
    ensures |r| <= |s| - Offset(|s|, skip)
    ensures limit >= 0 ==> |r| <= limit
    ensures forall k :: 0 <= k < |r| ==> r[k] == s[Offset(|s|, skip) + k]
    ensures limit < 0 || Offset(|s|, skip) + limit >= |s| ==> |r| == |s| - Offset(|s|, skip)
    ensures limit >= 0 && Offset(|s|, skip) + limit < |s| ==> |r| == limit
  {
    var rest := s[Offset(|s|, skip)..];
    if 0 <= limit < |rest| then rest[..limit] else rest
  }

  // ---------------------------------------------------------------------------
  // Table invariants

  function StudentKey(s: Student): int { s.id }
  function LogKey(e: LogEntry): int { e.id }

  /** Rows are kept in primary-key order, keys strictly increasing. */
  ghost predicate Increasing<T>(s: seq<T>, key: T -> int)
  {
    forall i, j :: 0 <= i < j < |s| ==> key(s[i]) < key(s[j])
  }

  /** The unique constraint on `students.register_number`. */
  ghost predicate RegistersUnique(students: seq<Student>)
  {
    forall i, j :: 0 <= i < j < |students| ==> students[i].registerNumber != students[j].registerNumber
  }

  /** SQLite's choice of a new rowid: one more than the largest, 1 in an empty table. */
  function NextId<T(!new)>(s: seq<T>, key: T -> int): (id: nat)
    requires Increasing(s, key)
    ensures id >= 1
    ensures forall x :: x in s ==> key(x) < id
  {
    if s == [] then 1
    else
      var last := key(s[|s| - 1]);
      assert forall i :: 0 <= i < |s| ==> key(s[i]) <= last by {
        forall i | 0 <= i < |s| ensures key(s[i]) <= last {
          if i < |s| - 1 { assert key(s[i]) < key(s[|s| - 1]); }
        }
      }
      if last < 0 then 1 else last + 1
  }

  lemma AppendKeepsIncreasing<T>(s: seq<T>, key: T -> int, x: T)
    requires Increasing(s, key)
    requires forall y :: y in s ==> key(y) < key(x)
    ensures Increasing(s + [x], key)
  {
    forall i, j | 0 <= i < j < |s + [x]|
      ensures key((s + [x])[i]) < key((s + [x])[j])
    {
      if j == |s| { assert (s + [x])[i] in s; }
    }
  }

  /** Keeping a sub-sequence of the rows keeps them in key order. */
  lemma {:induction false} WhereKeepsIncreasing<T(!new)>(s: seq<T>, key: T -> int, p: T -> bool)
    requires Increasing(s, key)
    ensures Increasing(Where(s, p), key)
  {
    if s != [] {
      WhereKeepsIncreasing(s[1..], key, p);
      if p(s[0]) {
        var r := Where(s, p);
        forall i, j | 0 <= i < j < |r| ensures key(r[i]) < key(r[j]) {
          if i == 0 {
            assert r[j] in s[1..];
          }
        }
      }
    }
  }

  /** Removing rows keeps register numbers unique. */
  lemma {:induction false} WhereKeepsRegistersUnique(s: seq<Student>, p: Student -> bool)
    requires RegistersUnique(s)
    ensures RegistersUnique(Where(s, p))
  {
    if s != [] {
      WhereKeepsRegistersUnique(s[1..], p);
      if p(s[0]) {
        var r := Where(s, p);
        forall i, j | 0 <= i < j < |r| ensures r[i].registerNumber != r[j].registerNumber {
          if i == 0 {
            assert r[j] in s[1..];
          }
        }
      }
    }
  }

  /** In a key-ordered table, the row with a given key is the first one with it. */
  lemma IncreasingFirstIndex<T>(s: seq<T>, key: T -> int, k: nat)
    requires Increasing(s, key) && k < |s|
    ensures FirstIndex(s, (x: T) => key(x) == key(s[k])) == Some(k)
  {
    var p := (x: T) => key(x) == key(s[k]);
    var r := FirstIndex(s, p);
    assert p(s[k]);
    assert r.Some? && r.value <= k;
    assert key(s[r.value]) == key(s[k]);
  }

  // ---------------------------------------------------------------------------
  // Student queries

  /** `get_student`: the student with a primary key, if any. */
  function GetStudent(students: seq<Student>, id: int): (r: Option<Student>)
    ensures r.Some? ==> r.value in students && r.value.id == id
    ensures r.None? <==> forall s :: s in students ==> s.id != id
  {
    match FirstIndex(students, (s: Student) => s.id == id)
    case None => None
    case Some(i) => Some(students[i])
  }

  /** `get_student_by_reg_no`: the student with a register number, if any. */
  function GetStudentByRegNo(students: seq<Student>, reg: string): (r: Option<Student>)
    ensures r.Some? ==> r.value in students && r.value.registerNumber == reg
    ensures r.None? <==> forall s :: s in students ==> s.registerNumber != reg
  {
    match FirstIndex(students, (s: Student) => s.registerNumber == reg)
    case None => None
    case Some(i) => Some(students[i])
  }

  /** `get_students`: the year filter (when a non-empty year is given) is applied
      first, then the offset and limit. */
  function GetStudents(students: seq<Student>, skip: int, limit: int, year: string): (r: seq<Student>)
    ensures limit >= 0 ==> |r| <= limit
    ensures forall s :: s in r ==> s in students
    ensures year != "" ==> forall s :: s in r ==> s.year == year
    ensures r == Page(if year != "" then Where(students, (s: Student) => s.year == year) else students, skip, limit)
  {
    var candidates := if year != "" then Where(students, (s: Student) => s.year == year) else students;
    var r := Page(candidates, skip, limit);
    assert forall s :: s in r ==> s in candidates by {
      forall s | s in r ensures s in candidates {
        var k :| 0 <= k < |r| && r[k] == s;
        assert r[k] == candidates[Offset(|candidates|, skip) + k];
      }
    }
    r
  }

  // ---------------------------------------------------------------------------
  // Log queries

  /** `get_logs`. */
  function GetLogs(logs: seq<LogEntry>, skip: int, limit: int): (r: seq<LogEntry>)
    ensures limit >= 0 ==> |r| <= limit
    ensures |r| <= |logs| - Offset(|logs|, skip)
    ensures forall k :: 0 <= k < |r| ==> r[k] == logs[Offset(|logs|, skip) + k]
    ensures limit < 0 || Offset(|logs|, skip) + limit >= |logs| ==> |r| == |logs| - Offset(|logs|, skip)
    ensures limit >= 0 && Offset(|logs|, skip) + limit < |logs| ==> |r| == limit
  {
    Page(logs, skip, limit)
  }

  /** Where the log with a given id sits in the table, if it is there. */
  function LogIndex(logs: seq<LogEntry>, id: int): (r: Option<nat>)
    ensures r.Some? ==> r.value < |logs| && logs[r.value].id == id
    ensures r.None? <==> forall e :: e in logs ==> e.id != id
  {
    FirstIndex(logs, (e: LogEntry) => e.id == id)
  }

  /** `get_log_by_id`. */
  function GetLogById(logs: seq<LogEntry>, id: int): (r: Option<LogEntry>)
    ensures r.Some? ==> r.value in logs && r.value.id == id
    ensures r.None? <==> forall e :: e in logs ==> e.id != id
  {
    match LogIndex(logs, id)
    case None => None
    case Some(i) => Some(logs[i])
  }

  /** `get_active_log_by_student`: the first open session of the student. */
  function GetActiveLogByStudent(logs: seq<LogEntry>, studentId: string): (r: Option<LogEntry>)
    ensures r.Some? ==> r.value in logs && r.value.studentId == studentId && r.value.IsOpen()
    ensures r.None? <==> forall e :: e in logs ==> !(e.studentId == studentId && e.IsOpen())
  {
    match FirstIndex(logs, (e: LogEntry) => e.studentId == studentId && e.IsOpen())
    case None => None
    case Some(i) => Some(logs[i])
  }

  /** `get_student_logs`: the student's closed sessions, in table order. */
  function GetStudentLogs(logs: seq<LogEntry>, studentId: string): (r: seq<LogEntry>)
    ensures forall e :: e in r <==> e in logs && e.studentId == studentId && !e.IsOpen()
  {
    Where(logs, (e: LogEntry) => e.studentId == studentId && !e.IsOpen())
  }

  /** `checkout_log`'s change to one row: the check-out time becomes `now`, the
      issues are replaced only by a non-empty report, and nothing set at
      check-in moves. */
  function StampCheckout(e: LogEntry, issues: Option<string>, now: Time): (c: LogEntry)
    ensures c.checkOutTime == Some(now) && !c.IsOpen()
    ensures issues.Some? && issues.value != "" ==> c.issuesReported == issues
    ensures issues.None? || issues.value == "" ==> c.issuesReported == e.issuesReported
    ensures c.id == e.id && c.studentName == e.studentName && c.studentId == e.studentId
    ensures c.computerNumber == e.computerNumber && c.purpose == e.purpose
    ensures c.year == e.year && c.checkInTime == e.checkInTime
  {
    var stamped := e.(checkOutTime := Some(now));
    if issues.Some? && issues.value != "" then stamped.(issuesReported := issues) else stamped
  }

  /** The rows `delete_logs_by_ids` keeps. */
  function WithoutIds(logs: seq<LogEntry>, ids: set<int>): (r: seq<LogEntry>)
    ensures forall e :: e in r <==> e in logs && e.id !in ids
    ensures |r| + |OnlyIds(logs, ids)| == |logs|
  {
    if logs == [] then []
    else if logs[0].id in ids then WithoutIds(logs[1..], ids)
    else [logs[0]] + WithoutIds(logs[1..], ids)
  }

  /** The rows `delete_logs_by_ids` removes. */
  function OnlyIds(logs: seq<LogEntry>, ids: set<int>): (r: seq<LogEntry>)
    ensures forall e :: e in r <==> e in logs && e.id in ids
  {
    if logs == [] then []
    else if logs[0].id in ids then [logs[0]] + OnlyIds(logs[1..], ids)
    else OnlyIds(logs[1..], ids)
  }

  function LogIds(logs: seq<LogEntry>): set<int>
  {
    set e | e in logs :: e.id
  }

  lemma LogIdsCons(logs: seq<LogEntry>)
    requires logs != []
    ensures LogIds(logs) == {logs[0].id} + LogIds(logs[1..])
  {
    assert forall e :: e in logs <==> e == logs[0] || e in logs[1..];
  }

  /** In a key-ordered table the first row's id occurs nowhere after it. */
  lemma HeadIdFresh(logs: seq<LogEntry>)
    requires logs != [] && Increasing(logs, LogKey)
    ensures logs[0].id !in LogIds(logs[1..])
  {
    forall e | e in logs[1..] ensures e.id != logs[0].id {
      var k :| 0 <= k < |logs[1..]| && logs[1..][k] == e;
      assert LogKey(logs[0]) < LogKey(logs[k + 1]);
    }
  }

  /** Unknown ids are ignored: the number of rows removed is the number of
      listed ids that the table holds. */
  lemma {:induction false} RemovedCount(logs: seq<LogEntry>, ids: set<int>)
    requires Increasing(logs, LogKey)
    ensures |OnlyIds(logs, ids)| == |ids * LogIds(logs)|
  {
    if logs != [] {
      assert Increasing(logs[1..], LogKey);
      RemovedCount(logs[1..], ids);
      assert [logs[0]] + logs[1..] == logs;
      HeadIdFresh(logs);
      OnlyIdsCons(logs[0], logs[1..], ids);
      ListedIdsCons(logs[0], logs[1..], ids);
    }
  }

  /** The first row is kept exactly when its id is listed. */
  lemma OnlyIdsCons(h: LogEntry, rest: seq<LogEntry>, ids: set<int>)
    ensures |OnlyIds([h] + rest, ids)| == (if h.id in ids then 1 else 0) + |OnlyIds(rest, ids)|
  {
    assert ([h] + rest)[0] == h && ([h] + rest)[1..] == rest;
  }

  /** A first row whose id occurs nowhere after it counts once among the
      listed ids when it is listed, and not at all otherwise. */
  lemma ListedIdsCons(h: LogEntry, rest: seq<LogEntry>, ids: set<int>)
    requires h.id !in LogIds(rest)
    ensures |ids * LogIds([h] + rest)| == (if h.id in ids then 1 else 0) + |ids * LogIds(rest)|
  {
    var logs := [h] + rest;
    assert logs[0] == h && logs[1..] == rest;
    LogIdsCons(logs);
    if h.id in ids {
      assert ids * LogIds(logs) == {h.id} + ids * LogIds(rest);
    } else {
      assert ids * LogIds(logs) == ids * LogIds(rest);
    }
  }

  /** Deleting the same ids again changes nothing and removes no row. */
  lemma {:induction false} WithoutIdsIdempotent(logs: seq<LogEntry>, ids: set<int>)
    ensures WithoutIds(WithoutIds(logs, ids), ids) == WithoutIds(logs, ids)
    ensures OnlyIds(WithoutIds(logs, ids), ids) == []
  {
    if logs != [] {
      WithoutIdsIdempotent(logs[1..], ids);
      if logs[0].id !in ids {
        var rest := WithoutIds(logs[1..], ids);
        assert ([logs[0]] + rest)[1..] == rest;
      }
    }
  }

  lemma WithoutIdsKeepsIncreasing(logs: seq<LogEntry>, ids: set<int>)
    requires Increasing(logs, LogKey)
    ensures Increasing(WithoutIds(logs, ids), LogKey)
  {
    WithoutIdsIsWhere(logs, ids);
    WhereKeepsIncreasing(logs, LogKey, (e: LogEntry) => e.id !in ids);
  }

  lemma {:induction false} WithoutIdsIsWhere(logs: seq<LogEntry>, ids: set<int>)
    ensures WithoutIds(logs, ids) == Where(logs, (e: LogEntry) => e.id !in ids)
  {
    if logs != [] {
      WithoutIdsIsWhere(logs[1..], ids);
    }
  }

  // ---------------------------------------------------------------------------
  // The store

  /** The database: both tables, each in primary-key order. */
  class Database {
    var students: seq<Student>
    var logs: seq<LogEntry>

    ghost predicate Valid()
      reads this
    {
      && Increasing(students, StudentKey)
      && RegistersUnique(students)
      && Increasing(logs, LogKey)
    }

    constructor ()
      ensures Valid() && students == [] && logs == []
    {
      students := [];
      logs := [];
    }

    /** `create_student`. The unique constraint on the register number makes a
        duplicate fail (`None`) and leaves the table as it was. */
    method CreateStudent(s: StudentCreate) returns (r: Option<Student>)
      requires Valid()
      modifies this
      ensures Valid() && logs == old(logs)
      ensures GetStudentByRegNo(old(students), s.registerNumber).Some? ==>
                r.None? && students == old(students)
      ensures GetStudentByRegNo(old(students), s.registerNumber).None? ==>
                && r.Some?
                && r.value == Student(NextId(old(students), StudentKey), s.registerNumber, s.name, s.year)
                && students == old(students) + [r.value]
    {
      if GetStudentByRegNo(students, s.registerNumber).Some? {
        return None;
      }
      var created := Student(NextId(students, StudentKey), s.registerNumber, s.name, s.year);
      AppendKeepsIncreasing(students, StudentKey, created);
      students := students + [created];
      r := Some(created);
    }

    /** `update_student`: a supplied non-empty name or year overwrites the stored
        one; an unknown id changes nothing. */
    method UpdateStudent(id: int, u: StudentUpdate) returns (r: Option<Student>)
      requires Valid()
      modifies this
      ensures Valid() && logs == old(logs)
      ensures r == (match GetStudent(old(students), id)
                    case None => None
                    case Some(s) => Some(Updated(s, u)))
      ensures |students| == |old(students)|
      ensures forall i :: 0 <= i < |students| ==>
                students[i] == if old(students)[i].id == id then Updated(old(students)[i], u) else old(students)[i]
    {
      var p := (s: Student) => s.id == id;
      match FirstIndex(students, p)
      case None =>
        r := None;
      case Some(i) =>
        var updated := Updated(students[i], u);
        forall j | 0 <= j < |students| && j != i ensures students[j].id != id {
          if j < i { } else { assert StudentKey(students[i]) < StudentKey(students[j]); }
        }
        students := students[i := updated];
        r := Some(updated);
    }

    /** `delete_student`: removes the row with that id, if any, and returns it.
        Sessions keep their snapshot of the student. */
    method DeleteStudent(id: int) returns (r: Option<Student>)
      requires Valid()
      modifies this
      ensures Valid() && logs == old(logs)
      ensures r == GetStudent(old(students), id)
      ensures students == Where(old(students), (s: Student) => s.id != id)
    {
      r := GetStudent(students, id);
      WhereKeepsIncreasing(students, StudentKey, (s: Student) => s.id != id);
      WhereKeepsRegistersUnique(students, (s: Student) => s.id != id);
      students := Where(students, (s: Student) => s.id != id);
    }

    /** `create_log`: an unregistered student raises "Student not found" and adds
        nothing; otherwise a new open session is appended, snapshotting the
        student's name and year. */
    method CreateLog(log: LogCreate, now: Time) returns (r: Result<LogEntry, string>)
      requires Valid()
      modifies this
      ensures Valid() && students == old(students)
      ensures GetStudentByRegNo(students, log.studentId).None? ==>
                r == Err("Student not found") && logs == old(logs)
      ensures GetStudentByRegNo(students, log.studentId).Some? ==>
                && r.Ok?
                && r.value == NewSession(NextId(old(logs), LogKey), log,
                                         GetStudentByRegNo(students, log.studentId).value, now)
                && logs == old(logs) + [r.value]
    {
      var student := GetStudentByRegNo(students, log.studentId);
      if student.None? {
        return Err("Student not found");
      }
      var entry := NewSession(NextId(logs, LogKey), log, student.value, now);
      AppendKeepsIncreasing(logs, LogKey, entry);
      logs := logs + [entry];
      r := Ok(entry);
    }

    /** `checkout_log`: stamps the session with that id (open or not; the guard is
        the router's), or returns `None` and changes nothing for an unknown id. */
    method CheckoutLog(id: int, issues: Option<string>, now: Time) returns (r: Option<LogEntry>)
      requires Valid()
      modifies this
      ensures Valid() && students == old(students)
      ensures LogIndex(old(logs), id).None? ==> r.None? && logs == old(logs)
      ensures LogIndex(old(logs), id).Some? ==>
                var k := LogIndex(old(logs), id).value;
                && r == Some(StampCheckout(old(logs)[k], issues, now))
                && logs == old(logs)[k := r.value]
    {
      match LogIndex(logs, id)
      case None =>
        r := None;
      case Some(k) =>
        var closed := StampCheckout(logs[k], issues, now);
        logs := logs[k := closed];
        r := Some(closed);
    }

    /** `delete_all_logs`: empties the table and returns how many rows it held. */
    method DeleteAllLogs() returns (n: nat)
      requires Valid()
      modifies this
      ensures Valid() && students == old(students)
      ensures logs == [] && n == |old(logs)|
    {
      n := |logs|;
      logs := [];
    }

    /** `delete_logs_by_ids`: removes exactly the listed rows, ignores unknown
        ids, and returns the number removed. */
    method DeleteLogsByIds(ids: seq<int>) returns (n: nat)
      requires Valid()
      modifies this
      ensures Valid() && students == old(students)
      ensures logs == WithoutIds(old(logs), set i | i in ids)
      ensures n == |old(logs)| - |logs|
      ensures n == |(set i | i in ids) * LogIds(old(logs))|
    {
      var idSet := set i | i in ids;
      RemovedCount(logs, idSet);
      WithoutIdsKeepsIncreasing(logs, idSet);
      var kept := WithoutIds(logs, idSet);
      n := |logs| - |kept|;
      logs := kept;
    }
  }

  /** `update_student`'s change to one row. */
  function Updated(s: Student, u: StudentUpdate): (r: Student)
    ensures r.id == s.id && r.registerNumber == s.registerNumber
    ensures r.name == if u.name.Some? && u.name.value != "" then u.name.value else s.name
    ensures r.year == if u.year.Some? && u.year.value != "" then u.year.value else s.year
  {
    var named := if u.name.Some? && u.name.value != "" then s.(name := u.name.value) else s;
    if u.year.Some? && u.year.value != "" then named.(year := u.year.value) else named
  }

  /** The row `create_log` inserts: fields of the request, name and year of the
      roster record, open, with nothing reported. */
  function NewSession(id: nat, log: LogCreate, student: Student, now: Time): (e: LogEntry)
    ensures e.id == id && e.IsOpen() && e.issuesReported.None? && e.checkInTime == now
    ensures e.studentId == log.studentId && e.computerNumber == log.computerNumber && e.purpose == log.purpose
    ensures e.studentName == student.name && e.year == student.year
  {
    LogEntry(id, student.name, log.studentId, log.computerNumber, log.purpose, student.year, now, None, None)
  }
}
