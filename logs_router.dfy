/** The check-in / check-out endpoints: guards on the shared store, then a
    mutation through the data-access layer. Each session goes OPEN -> CLOSED
    exactly once, and a student never holds two open sessions. */
module LogsRouter {
  import opened Wrappers
  import opened Models
  import opened Crud

  /** At most one open session per student. */
  ghost predicate AtMostOneOpen(logs: seq<LogEntry>)
  {
    forall i, j :: 0 <= i < j < |logs| && logs[i].IsOpen() && logs[j].IsOpen() ==>
      logs[i].studentId != logs[j].studentId
  }

  /** Opening a session for a student who has none open keeps the invariant. */
  lemma CheckInKeepsOneOpen(logs: seq<LogEntry>, e: LogEntry)
    requires AtMostOneOpen(logs)
    requires GetActiveLogByStudent(logs, e.studentId).None?
    ensures AtMostOneOpen(logs + [e])
  {
    var s := logs + [e];
    forall i, j | 0 <= i < j < |s| && s[i].IsOpen() && s[j].IsOpen()
      ensures s[i].studentId != s[j].studentId
    {
      if j == |logs| {
        assert s[i] in logs;
      }
    }
  }

  /** Closing a session keeps the invariant. */
  lemma CheckOutKeepsOneOpen(logs: seq<LogEntry>, k: nat, closed: LogEntry)
    requires AtMostOneOpen(logs) && k < |logs| && !closed.IsOpen()
    ensures AtMostOneOpen(logs[k := closed])
  {
  }

  /** Under the invariant, the open session the store finds for a student is the
      only one there is. */
  lemma ActiveLogIsTheOpenOne(logs: seq<LogEntry>, k: nat)
    requires AtMostOneOpen(logs) && k < |logs| && logs[k].IsOpen()
    ensures GetActiveLogByStudent(logs, logs[k].studentId) == Some(logs[k])
  {
    var sid := logs[k].studentId;
    var p := (e: LogEntry) => e.studentId == sid && e.IsOpen();
    var r := FirstIndex(logs, p);
    assert p(logs[k]);
    assert r.Some? && r.value <= k;
    assert logs[r.value].studentId == sid && logs[r.value].IsOpen();
  }

  /** `check_in`: a student with an open session is refused with 400 before the
      roster is consulted; an unregistered student is refused with 404; otherwise
      the new open session is returned. */
  method CheckIn(db: Database, log: LogCreate, now: Time) returns (r: Result<LogEntry, HttpError>)
    requires db.Valid()
    modifies db
    ensures db.Valid() && db.students == old(db.students)
    ensures GetActiveLogByStudent(old(db.logs), log.studentId).Some? ==>
              r == Err(HttpError(400, "Student already checked in.")) && db.logs == old(db.logs)
    ensures GetActiveLogByStudent(old(db.logs), log.studentId).None? &&
            GetStudentByRegNo(db.students, log.studentId).None? ==>
              r == Err(HttpError(404, "Student not found")) && db.logs == old(db.logs)
    ensures GetActiveLogByStudent(old(db.logs), log.studentId).None? &&
            GetStudentByRegNo(db.students, log.studentId).Some? ==>
              && r.Ok?
              && r.value == NewSession(NextId(old(db.logs), LogKey), log,
                                       GetStudentByRegNo(db.students, log.studentId).value, now)
              && db.logs == old(db.logs) + [r.value]
    ensures AtMostOneOpen(old(db.logs)) ==> AtMostOneOpen(db.logs)
  {
    if GetActiveLogByStudent(db.logs, log.studentId).Some? {
      return Err(HttpError(400, "Student already checked in."));
    }
    ghost var before := db.logs;
    var created := db.CreateLog(log, now);
    match created
    case Err(msg) =>
      r := Err(HttpError(404, msg));
    case Ok(entry) =>
      if AtMostOneOpen(before) {
        CheckInKeepsOneOpen(before, entry);
      }
      r := Ok(entry);
  }

  /** `check_out`: 404 for an unknown id, 400 for a session already closed (its
      first check-out time stays), otherwise the session closed at `now` with the
      supplied issues. */
  method CheckOut(db: Database, logId: int, update: LogUpdate, now: Time) returns (r: Result<LogEntry, HttpError>)
    requires db.Valid()
    modifies db
    ensures db.Valid() && db.students == old(db.students)
    ensures GetLogById(old(db.logs), logId).None? ==>
              r == Err(HttpError(404, "Log entry not found")) && db.logs == old(db.logs)
    ensures GetLogById(old(db.logs), logId).Some? && !GetLogById(old(db.logs), logId).value.IsOpen() ==>
              r == Err(HttpError(400, "Already checked out")) && db.logs == old(db.logs)
    ensures GetLogById(old(db.logs), logId).Some? && GetLogById(old(db.logs), logId).value.IsOpen() ==>
              var k := LogIndex(old(db.logs), logId).value;
              && r == Ok(StampCheckout(old(db.logs)[k], update.issuesReported, now))
              && db.logs == old(db.logs)[k := r.value]
    ensures AtMostOneOpen(old(db.logs)) ==> AtMostOneOpen(db.logs)
  {
    var found := GetLogById(db.logs, logId);
    if found.None? {
      return Err(HttpError(404, "Log entry not found"));
    }
    if !found.value.IsOpen() {
      return Err(HttpError(400, "Already checked out"));
    }
    ghost var before := db.logs;
    var closed := db.CheckoutLog(logId, update.issuesReported, now);
    if AtMostOneOpen(before) {
      CheckOutKeepsOneOpen(before, LogIndex(before, logId).value, closed.value);
    }
    r := Ok(closed.value);
  }

  /** `get_active_log`: read-only; the student's open session, or 404. */
  function GetActiveLog(logs: seq<LogEntry>, studentId: string): (r: Result<LogEntry, HttpError>)
    ensures r.Ok? ==> r.value in logs && r.value.studentId == studentId && r.value.IsOpen()
    ensures r.Err? <==> forall e :: e in logs ==> !(e.studentId == studentId && e.IsOpen())
    ensures r.Err? ==> r.error == HttpError(404, "No active session found")
  {
    match GetActiveLogByStudent(logs, studentId)
    case None => Err(HttpError(404, "No active session found"))
    case Some(e) => Ok(e)
  }

  /** One call from the front desk. */
  datatype Request =
    | CheckInRequest(log: LogCreate)
    | CheckOutRequest(logId: int, update: LogUpdate)

  /** Any sequence of check-ins and check-outs, each stamped with its own clock
      reading, keeps at most one open session per student. */
  method Serve(db: Database, requests: seq<Request>, clock: seq<Time>)
    requires db.Valid() && AtMostOneOpen(db.logs)
    requires |clock| == |requests|
    modifies db
    ensures db.Valid() && AtMostOneOpen(db.logs)
    ensures db.students == old(db.students)
  {
    for n := 0 to |requests|
      invariant db.Valid() && AtMostOneOpen(db.logs)
      invariant db.students == old(db.students)
    {
      match requests[n]
      case CheckInRequest(log) =>
        var _ := CheckIn(db, log, clock[n]);
      case CheckOutRequest(id, update) =>
        var _ := CheckOut(db, id, update, clock[n]);
    }
  }

  /** A second check-out of the same session fails with 400 and the time stamped
      by the first one is kept. */
  method CheckOutTwice(db: Database, logId: int, first: LogUpdate, second: LogUpdate, t1: Time, t2: Time)
    returns (r1: Result<LogEntry, HttpError>, r2: Result<LogEntry, HttpError>)
    requires db.Valid()
    modifies db
    ensures r1.Ok? ==> r2 == Err(HttpError(400, "Already checked out"))
    ensures r1.Ok? ==> r1.value.checkOutTime == Some(t1) && GetLogById(db.logs, logId) == Some(r1.value)
  {
    r1 := CheckOut(db, logId, first, t1);
    if r1.Ok? {
      ghost var k := LogIndex(old(db.logs), logId).value;
      IncreasingFirstIndex(db.logs, LogKey, k);
      assert LogIndex(db.logs, logId) == Some(k);
    }
    r2 := CheckOut(db, logId, second, t2);
  }
}
