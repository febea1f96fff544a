/** The log filter of the administrator page: four optional criteria, each
    ignored while its input is empty, combined by conjunction. */
module LogFilter {
  import opened Models
  import opened Text

  /** The four filter inputs as typed (an empty input is no criterion). */
  datatype Criteria = Criteria(date: string, purpose: string, studentId: string, general: string)

  /** The criteria after `clearFilters`. */
  function NoCriteria(): Criteria
  {
    Criteria("", "", "", "")
  }

  /** The calendar date `YYYY-MM-DD` of a check-in: the part of its ISO 8601
      form before the `T`. `iso` stands for `new Date(t).toISOString()`. */
  function DateOf(iso: Time -> string, t: Time): string
  {
    BeforeFirst(iso(t), 'T')
  }

  predicate DateMatches(log: LogEntry, date: string, iso: Time -> string)
  {
    date == "" || DateOf(iso, log.checkInTime) == date
  }

  /** Purpose: exact, case-sensitive equality. */
  predicate PurposeMatches(log: LogEntry, purpose: string)
  {
    purpose == "" || log.purpose == purpose
  }

  /** Student id: the lowered query is a substring of the lowered id. */
  predicate StudentIdMatches(log: LogEntry, query: string)
  {
    var q := ToLower(query);
    q == "" || Includes(ToLower(log.studentId), q)
  }

  /** General search: the lowered query is a substring of the lowered name or
      of the lowered computer number. */
  predicate GeneralMatches(log: LogEntry, query: string)
  {
    var q := ToLower(query);
    q == "" || Includes(ToLower(log.studentName), q) || Includes(ToLower(log.computerNumber), q)
  }

  /** The callback passed to `allLogs.filter`, checked in the source's order. */
  predicate Matches(log: LogEntry, c: Criteria, iso: Time -> string)
  {
    if c.date != "" && DateOf(iso, log.checkInTime) != c.date then false
    else if c.purpose != "" && log.purpose != c.purpose then false
    else if ToLower(c.studentId) != "" && !Includes(ToLower(log.studentId), ToLower(c.studentId)) then false
    else if ToLower(c.general) != "" then
      Includes(ToLower(log.studentName), ToLower(c.general)) || Includes(ToLower(log.computerNumber), ToLower(c.general))
    else true
  }

  /** `allLogs.filter(...)`: the matching logs, in their order. */
  function FilterLogs(logs: seq<LogEntry>, c: Criteria, iso: Time -> string): (r: seq<LogEntry>)
    ensures |r| <= |logs|
    ensures forall e :: e in r <==> e in logs && Matches(e, c, iso)
  {
    if logs == [] then []
    else
      var last := logs[|logs| - 1];
      FilterLogs(logs[..|logs| - 1], c, iso) + if Matches(last, c, iso) then [last] else []
  }

  /** A log passes exactly when it meets every criterion on its own; an empty
      input is no constraint. */
  lemma MatchesIsConjunction(log: LogEntry, c: Criteria, iso: Time -> string)
    ensures Matches(log, c, iso) <==>
              && DateMatches(log, c.date, iso)
              && PurposeMatches(log, c.purpose)
              && StudentIdMatches(log, c.studentId)
              && GeneralMatches(log, c.general)
  {
  }

  /** Each criterion alone: a criteria value with only one input filled in
      filters by that input's own test. */
  lemma SingleCriterion(log: LogEntry, iso: Time -> string, s: string)
    ensures Matches(log, Criteria(s, "", "", ""), iso) <==> DateMatches(log, s, iso)
    ensures Matches(log, Criteria("", s, "", ""), iso) <==> PurposeMatches(log, s)
    ensures Matches(log, Criteria("", "", s, ""), iso) <==> StudentIdMatches(log, s)
    ensures Matches(log, Criteria("", "", "", s), iso) <==> GeneralMatches(log, s)
  {
    assert ToLower("") == "";
  }

  /** The purpose test does not fold case: "Math" does not select "math". */
  lemma PurposeIsCaseSensitive(log: LogEntry, iso: Time -> string)
    requires log.purpose == "math"
    ensures !Matches(log, Criteria("", "Math", "", ""), iso)
  {
  }

  /** The student-id test folds case on both sides and looks for the query
      anywhere in the id. */
  lemma StudentIdIsCaseInsensitiveSubstring(log: LogEntry, query: string)
    ensures StudentIdMatches(log, query) ==>
              exists at :: OccursAt(ToLower(log.studentId), ToLower(query), at)
    ensures (exists at :: OccursAt(ToLower(log.studentId), ToLower(query), at)) ==>
              StudentIdMatches(log, query)
  {
    var id, q := ToLower(log.studentId), ToLower(query);
    IncludesIffOccurs(id, q);
    if q == "" {
      assert StudentIdMatches(log, query);
      assert id[0..|q|] == q;
      assert OccursAt(id, q, 0);
    } else if Includes(id, q) {
      assert StudentIdMatches(log, query);
      var at :| OccursAt(id, q, at);
      assert OccursAt(ToLower(log.studentId), ToLower(query), at);
    } else {
      assert !StudentIdMatches(log, query);
    }
  }

  /** Typing the query in another case changes nothing: a query and its lower
      case form select the same logs. */
  lemma QueriesFoldCase(log: LogEntry, c: Criteria, iso: Time -> string)
    ensures Matches(log, c.(studentId := ToLower(c.studentId), general := ToLower(c.general)), iso)
            == Matches(log, c, iso)
  {
    ToLowerIdempotent(c.studentId);
    ToLowerIdempotent(c.general);
  }

  /** A check-in whose ISO form is `d` + "T" + time falls on date `d`. */
  lemma DateIsIsoPrefix(log: LogEntry, iso: Time -> string, d: string, rest: string)
    requires 'T' !in d && iso(log.checkInTime) == d + "T" + rest
    ensures Matches(log, Criteria(d, "", "", ""), iso)
  {
    BeforeFirstOfConcat(d, 'T', rest);
  }

  /** With every input empty the filter keeps all logs, in order. */
  lemma {:induction false} ClearedFilterKeepsAll(logs: seq<LogEntry>, iso: Time -> string)
    ensures FilterLogs(logs, NoCriteria(), iso) == logs
  {
    if logs != [] {
      ClearedFilterKeepsAll(logs[..|logs| - 1], iso);
      assert ToLower("") == "";
      assert logs[..|logs| - 1] + [logs[|logs| - 1]] == logs;
    }
  }

  /** Filtering twice with the same criteria is filtering once. */
  lemma {:induction false} FilterIdempotent(logs: seq<LogEntry>, c: Criteria, iso: Time -> string)
    ensures FilterLogs(FilterLogs(logs, c, iso), c, iso) == FilterLogs(logs, c, iso)
  {
    if logs != [] {
      var init := logs[..|logs| - 1];
      var last := logs[|logs| - 1];
      FilterIdempotent(init, c, iso);
      var f := FilterLogs(init, c, iso);
      assert FilterLogs(logs, c, iso) == f + if Matches(last, c, iso) then [last] else [];
      if Matches(last, c, iso) {
        FilterSnoc(f, last, c, iso);
      } else {
        assert f + [] == f;
      }
    }
  }

  lemma FilterSnoc(logs: seq<LogEntry>, x: LogEntry, c: Criteria, iso: Time -> string)
    ensures FilterLogs(logs + [x], c, iso) == FilterLogs(logs, c, iso) + if Matches(x, c, iso) then [x] else []
  {
    assert (logs + [x])[..|logs|] == logs;
  }
}
