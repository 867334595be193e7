/**
 * The four tables of the hostel database: one datatype per row kind, the
 * errors a statement can raise, and the column constants of the schema.
 */
module Schema {

  /** Largest rowid SQLite can hand out (a signed 64-bit integer). */
  const MaxRowId: int := 0x7FFF_FFFF_FFFF_FFFF

  /** Column default of leave_requests.status. */
  const PendingStatus: string := "Pending"

  /** Default of the status argument of add_entry. */
  const OnTimeStatus: string := "On Time"

  datatype Option<T> = None | Some(value: T)

  /**
   * What a statement can raise: a table that does not exist yet (any statement
   * run before the tables are created), or an AUTOINCREMENT table whose
   * counter already reached MaxRowId (SQLITE_FULL).
   */
  datatype DbError = NoSuchTable | Full

  datatype Result<T> = Ok(value: T) | Err(error: DbError)

  /** What a call that returns nothing does: completes, or raises. */
  datatype Outcome = Done | Raised(error: DbError)

  /** A row of `students`. */
  datatype Student = Student(
    id: int,
    name: string,
    dept: string,
    year: int,
    contact: string,
    guardian: string,
    guardianContact: string,
    roomNo: string)

  /** A row of `entry_logs`; exit_time is NULL unless given. */
  datatype EntryLog = EntryLog(
    logId: int,
    studentId: int,
    entryTime: string,
    exitTime: Option<string>,
    status: string)

  /** A row of `medical_info`, whose primary key is student_id. */
  datatype MedicalInfo = MedicalInfo(
    studentId: int,
    bloodGroup: string,
    allergies: string,
    conditions: string,
    emergencyContact: string)

  /** A row of `leave_requests`. */
  datatype LeaveRequest = LeaveRequest(
    requestId: int,
    studentId: int,
    fromDate: string,
    toDate: string,
    reason: string,
    status: string)

  // The columns that statements filter on, as functions of a row.

  function StudentKey(s: Student): int { s.id }
  function LogKey(l: EntryLog): int { l.logId }
  function LogOwner(l: EntryLog): int { l.studentId }
  function RequestKey(r: LeaveRequest): int { r.requestId }
  function RequestOwner(r: LeaveRequest): int { r.studentId }
}
