/** The per-student statistics endpoint of the roster router: total time spent
    in the lab, and the same time broken down by subject. Durations stay in
    whole seconds (the conversion to hours rounded to two places is not part of
    the model). */
module StudentStats {
  import opened Models
  import opened Crud

  /** Seconds a session lasted; an open session has no duration and contributes
      nothing. The check-out time is not compared with the check-in time, so a
      duration can be negative. */
  function Seconds(e: LogEntry): int
  {
    if e.IsOpen() then 0 else e.checkOutTime.value - e.checkInTime
  }

  /** The key a session is counted under: its purpose, or "Unknown" when empty. */
  function SubjectOf(e: LogEntry): (k: string)
    ensures k != ""
    ensures e.purpose != "" ==> k == e.purpose
    ensures e.purpose == "" ==> k == "Unknown"
  {
    if e.purpose == "" then "Unknown" else e.purpose
  }

  /** `total_seconds` once the loop has seen `logs`. */
  function TotalSeconds(logs: seq<LogEntry>): int
  {
    if logs == [] then 0 else TotalSeconds(logs[..|logs| - 1]) + Seconds(logs[|logs| - 1])
  }

  /** `subject_stats` once the loop has seen `logs`: a key appears with the first
      closed session of that subject and accumulates every later one. */
  function Breakdown(logs: seq<LogEntry>): map<string, int>
  {
    if logs == [] then map[]
    else
      var prev := Breakdown(logs[..|logs| - 1]);
      var e := logs[|logs| - 1];
      if e.IsOpen() then prev
      else
        var k := SubjectOf(e);
        prev[k := (if k in prev then prev[k] else 0) + Seconds(e)]
  }

  /** Independent reference: the seconds of the closed sessions with one subject. */
  function SubjectSeconds(logs: seq<LogEntry>, subject: string): int
  {
    if logs == [] then 0
    else
      var e := logs[|logs| - 1];
      SubjectSeconds(logs[..|logs| - 1], subject)
        + (if !e.IsOpen() && SubjectOf(e) == subject then Seconds(e) else 0)
  }

  /** The subjects of the closed sessions, each once, in first-seen order: the
      key order of the Python dict. */
  function Subjects(logs: seq<LogEntry>): seq<string>
  {
    if logs == [] then []
    else
      var prev := Subjects(logs[..|logs| - 1]);
      var e := logs[|logs| - 1];
      if e.IsOpen() || SubjectOf(e) in prev then prev else prev + [SubjectOf(e)]
  }

  predicate Distinct(keys: seq<string>)
  {
    forall i, j :: 0 <= i < j < |keys| ==> keys[i] != keys[j]
  }

  /** Sum of the map's values over the listed keys. */
  function SumOver(m: map<string, int>, keys: seq<string>): int
    requires forall k :: k in keys ==> k in m
  {
    if keys == [] then 0 else SumOver(m, keys[..|keys| - 1]) + m[keys[|keys| - 1]]
  }

  /** The breakdown has one key per subject seen, and the subjects list has no
      repeats. */
  lemma {:induction false} BreakdownKeys(logs: seq<LogEntry>)
    ensures Breakdown(logs).Keys == set k | k in Subjects(logs)
    ensures Distinct(Subjects(logs))
  {
    if logs != [] {
      BreakdownKeys(logs[..|logs| - 1]);
    }
  }

  /** The subjects are exactly those of the closed sessions. */
  lemma {:induction false} SubjectsOfClosedSessions(logs: seq<LogEntry>)
    ensures forall e :: e in logs && !e.IsOpen() ==> SubjectOf(e) in Subjects(logs)
    ensures forall k :: k in Subjects(logs) ==> exists e :: e in logs && !e.IsOpen() && SubjectOf(e) == k
  {
    if logs != [] {
      var init := logs[..|logs| - 1];
      SubjectsOfClosedSessions(init);
      assert forall e :: e in logs ==> e in init || e == logs[|logs| - 1];
      assert forall e :: e in init ==> e in logs;
    }
  }

  /** A subject that no closed session carries has no seconds. */
  lemma {:induction false} SubjectSecondsAbsent(logs: seq<LogEntry>, k: string)
    requires forall e :: e in logs && !e.IsOpen() ==> SubjectOf(e) != k
    ensures SubjectSeconds(logs, k) == 0
  {
    if logs != [] {
      var init := logs[..|logs| - 1];
      assert forall e :: e in init ==> e in logs;
      SubjectSecondsAbsent(init, k);
    }
  }

  /** Each breakdown value is the seconds of the closed sessions with that subject. */
  lemma {:induction false} BreakdownValues(logs: seq<LogEntry>)
    ensures forall k :: k in Breakdown(logs) ==> Breakdown(logs)[k] == SubjectSeconds(logs, k)
  {
    if logs != [] {
      var init := logs[..|logs| - 1];
      BreakdownValues(init);
      var e := logs[|logs| - 1];
      if !e.IsOpen() {
        var k := SubjectOf(e);
        if k !in Breakdown(init) {
          BreakdownKeys(init);
          SubjectsOfClosedSessions(init);
          SubjectSecondsAbsent(init, k);
        }
      }
    }
  }

  /** "Unknown" collects the sessions with an empty purpose; the empty string is
      never a key. */
  lemma UnknownCollectsEmptyPurpose(logs: seq<LogEntry>)
    ensures "" !in Breakdown(logs)
    ensures (exists e :: e in logs && !e.IsOpen() && e.purpose == "") ==> "Unknown" in Breakdown(logs)
  {
    BreakdownKeys(logs);
    SubjectsOfClosedSessions(logs);
  }

  /** Summing over a key list is unaffected by a key outside it. */
  lemma {:induction false} SumOverOtherKey(m: map<string, int>, keys: seq<string>, k: string, v: int)
    requires forall x :: x in keys ==> x in m
    requires k !in keys
    ensures SumOver(m[k := v], keys) == SumOver(m, keys)
  {
    if keys != [] {
      SumOverOtherKey(m, keys[..|keys| - 1], k, v);
    }
  }

  /** Adding `d` to one listed key adds `d` to the sum. */
  lemma {:induction false} SumOverBump(m: map<string, int>, keys: seq<string>, k: string, d: int)
    requires forall x :: x in keys ==> x in m
    requires Distinct(keys) && k in keys
    ensures SumOver(m[k := m[k] + d], keys) == SumOver(m, keys) + d
  {
    var init := keys[..|keys| - 1];
    var last := keys[|keys| - 1];
    if last == k {
      assert k !in init;
      SumOverOtherKey(m, init, k, m[k] + d);
    } else {
      assert k in init;
      SumOverBump(m, init, k, d);
    }
  }

  /** One closed session added to the running sums: the sum over the keys
      grows by its duration, whether its subject is new or not. */
  lemma SumOverStep(prev: map<string, int>, keys: seq<string>, k: string, d: int)
    requires forall x :: x in keys ==> x in prev
    requires Distinct(keys)
    ensures k in keys ==> SumOver(prev[k := prev[k] + d], keys) == SumOver(prev, keys) + d
    ensures k !in keys ==> SumOver(prev[k := d], keys + [k]) == SumOver(prev, keys) + d
  {
    if k in keys {
      SumOverBump(prev, keys, k, d);
    } else {
      assert (keys + [k])[..|keys|] == keys;
      SumOverOtherKey(prev, keys, k, d);
    }
  }

  /** Before rounding, the per-subject values add up to the total. */
  lemma {:induction false} BreakdownSumsToTotal(logs: seq<LogEntry>)
    ensures forall k :: k in Subjects(logs) ==> k in Breakdown(logs)
    ensures SumOver(Breakdown(logs), Subjects(logs)) == TotalSeconds(logs)
  {
    BreakdownKeys(logs);
    if logs != [] {
      var init, e := logs[..|logs| - 1], logs[|logs| - 1];
      assert init + [e] == logs;
      BreakdownSumsToTotal(init);
      BreakdownSumStep(init, e);
    }
  }

  /** One more session keeps the sums equal, given that they were before it. */
  lemma BreakdownSumStep(init: seq<LogEntry>, e: LogEntry)
    requires forall k :: k in Subjects(init) ==> k in Breakdown(init)
    requires SumOver(Breakdown(init), Subjects(init)) == TotalSeconds(init)
    ensures forall k :: k in Subjects(init + [e]) ==> k in Breakdown(init + [e])
    ensures SumOver(Breakdown(init + [e]), Subjects(init + [e])) == TotalSeconds(init + [e])
  {
    AppendSession(init, e);
    if !e.IsOpen() {
      var prev, keys := Breakdown(init), Subjects(init);
      var k, d := SubjectOf(e), Seconds(e);
      assert Distinct(keys) by {
        BreakdownKeys(init);
      }
      SumOverStep(prev, keys, k, d);
      if k in keys {
        assert k in prev;
        assert Breakdown(init + [e]) == prev[k := prev[k] + d];
      } else {
        NewSubjectNotKey(init, k);
        assert Breakdown(init + [e]) == prev[k := d];
      }
    }
  }

  /** A subject not seen yet has no entry in the breakdown. */
  lemma NewSubjectNotKey(logs: seq<LogEntry>, k: string)
    requires k !in Subjects(logs)
    ensures k !in Breakdown(logs)
  {
    BreakdownKeys(logs);
    assert Breakdown(logs).Keys == set x | x in Subjects(logs);
  }

  /** The three running values after one more session. */
  lemma AppendSession(init: seq<LogEntry>, e: LogEntry)
    ensures TotalSeconds(init + [e]) == TotalSeconds(init) + Seconds(e)
    ensures e.IsOpen() ==> Breakdown(init + [e]) == Breakdown(init)
    ensures e.IsOpen() ==> Subjects(init + [e]) == Subjects(init)
    ensures !e.IsOpen() && SubjectOf(e) in Subjects(init) ==>
              Subjects(init + [e]) == Subjects(init)
    ensures !e.IsOpen() && SubjectOf(e) !in Subjects(init) ==>
              Subjects(init + [e]) == Subjects(init) + [SubjectOf(e)]
    ensures !e.IsOpen() ==>
              var prev := Breakdown(init);
              var k := SubjectOf(e);
              Breakdown(init + [e]) == prev[k := (if k in prev then prev[k] else 0) + Seconds(e)]
  {
    assert (init + [e])[..|init|] == init;
  }

  /** With no closed session the total is zero and the breakdown empty. */
  lemma {:induction false} NoClosedSessionsNoStats(logs: seq<LogEntry>)
    requires forall e :: e in logs ==> e.IsOpen()
    ensures TotalSeconds(logs) == 0 && Breakdown(logs) == map[]
  {
    if logs != [] {
      var init := logs[..|logs| - 1];
      assert forall e :: e in init ==> e in logs;
      NoClosedSessionsNoStats(init);
    }
  }

  /** The statistics loop: accumulates the total and the per-subject seconds. */
  method Aggregate(logs: seq<LogEntry>) returns (total: int, subjectStats: map<string, int>)
    ensures total == TotalSeconds(logs)
    ensures subjectStats == Breakdown(logs)
  {
    total := 0;
    subjectStats := map[];
    for i := 0 to |logs|
      invariant total == TotalSeconds(logs[..i])
      invariant subjectStats == Breakdown(logs[..i])
    {
      assert logs[..i + 1][..i] == logs[..i];
      var log := logs[i];
      if !log.IsOpen() {
        var duration := log.checkOutTime.value - log.checkInTime;
        total := total + duration;
        var subject := if log.purpose == "" then "Unknown" else log.purpose;
        if subject !in subjectStats {
          subjectStats := subjectStats[subject := 0];
        }
        subjectStats := subjectStats[subject := subjectStats[subject] + duration];
      }
    }
    assert logs[..|logs|] == logs;
  }

  /** The response of the statistics endpoint, durations kept in seconds. */
  datatype Stats = Stats(registerNumber: string, totalSeconds: int, subjectBreakdown: map<string, int>)

  /** `get_student_stats`: never fails, not even for an unknown register number;
      only the student's closed sessions count. */
  method GetStudentStats(db: Database, registerNumber: string) returns (r: Stats)
    ensures r.registerNumber == registerNumber
    ensures r.totalSeconds == TotalSeconds(GetStudentLogs(db.logs, registerNumber))
    ensures r.subjectBreakdown == Breakdown(GetStudentLogs(db.logs, registerNumber))
  {
    var logs := GetStudentLogs(db.logs, registerNumber);
    var total, breakdown := Aggregate(logs);
    r := Stats(registerNumber, total, breakdown);
  }

  /** A student without closed sessions, registered or not, gets zero and an
      empty breakdown. */
  lemma StatsOfIdleStudent(logs: seq<LogEntry>, registerNumber: string)
    requires forall e :: e in logs && e.studentId == registerNumber ==> e.IsOpen()
    ensures TotalSeconds(GetStudentLogs(logs, registerNumber)) == 0
    ensures Breakdown(GetStudentLogs(logs, registerNumber)) == map[]
  {
    NoClosedSessionsNoStats(GetStudentLogs(logs, registerNumber));
  }

  /** Opening a session changes nobody's statistics. */
  lemma OpenSessionLeavesStats(logs: seq<LogEntry>, e: LogEntry, registerNumber: string)
    requires e.IsOpen()
    ensures GetStudentLogs(logs + [e], registerNumber) == GetStudentLogs(logs, registerNumber)
  {
    WhereSnoc(logs, e, (x: LogEntry) => x.studentId == registerNumber && !x.IsOpen());
  }
}
