/** The two tables of the logbook and the request bodies the API accepts. */
module Models {
  import opened Wrappers

  /** A point in time, in whole seconds. The clock itself is not modelled: every
      operation that stamps a time receives it as `now`. */
  type Time = int

  /** A row of the `students` table. `registerNumber` is unique. */
  datatype Student = Student(id: nat, registerNumber: string, name: string, year: string)

  /** Body of a student creation, and one accepted import row. */
  datatype StudentCreate = StudentCreate(registerNumber: string, name: string, year: string)

  /** Body of a student update: either field may be left out. */
  datatype StudentUpdate = StudentUpdate(name: Option<string>, year: Option<string>)

  /** Body of a check-in: the student picks a computer and states a purpose (subject). */
  datatype LogCreate = LogCreate(studentId: string, computerNumber: string, purpose: string)

  /** Body of a check-out. */
  datatype LogUpdate = LogUpdate(issuesReported: Option<string>)

  /** A row of the `logs` table: one usage session. `studentName` and `year` are
      copied from the roster when the session opens; `checkOutTime` is absent
      while the session is open. */
  datatype LogEntry = LogEntry(
    id: nat,
    studentName: string,
    studentId: string,
    computerNumber: string,
    purpose: string,
    year: string,
    checkInTime: Time,
    checkOutTime: Option<Time>,
    issuesReported: Option<string>)
  {
    predicate IsOpen() { checkOutTime.None? }
  }
}
