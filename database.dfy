/**
 * The whole hostel database as a value, and what each backend function does
 * to it. A function that returns Err leaves the database as it was: every
 * call is one statement (or, for delete_student, four statements that fail
 * together, since they all fail only when the tables are missing).
 */
module Database {
  import opened Schema
  import opened Tables

  /**
   * `ready` says whether the four tables exist; the three counters are the
   * AUTOINCREMENT sequence values: the largest id ever issued in each table.
   */
  datatype Db = Db(
    ready: bool,
    students: seq<Student>,
    logs: seq<EntryLog>,
    medical: map<int, MedicalInfo>,
    leaves: seq<LeaveRequest>,
    lastStudentId: nat,
    lastLogId: nat,
    lastRequestId: nat)

  /** A database file in which no table was created yet. */
  function Empty(): Db {
    Db(false, [], [], map[], [], 0, 0, 0)
  }

  /**
   * The states the backend can reach: no data without tables, every generated
   * id positive, unique, in insertion order and no larger than the counter
   * that issued it, and medical rows stored under their own student_id.
   */
  ghost predicate Valid(db: Db) {
    && (!db.ready ==> db == Empty())
    && db.lastStudentId <= MaxRowId
    && db.lastLogId <= MaxRowId
    && db.lastRequestId <= MaxRowId
    && Ascending(db.students, StudentKey) && KeysWithin(db.students, StudentKey, 1, db.lastStudentId)
    && Ascending(db.logs, LogKey) && KeysWithin(db.logs, LogKey, 1, db.lastLogId)
    && Ascending(db.leaves, RequestKey) && KeysWithin(db.leaves, RequestKey, 1, db.lastRequestId)
    && (forall sid :: sid in db.medical ==> db.medical[sid].studentId == sid)
  }

  /** The state after a call: the new database on success, the old one on error. */
  function Commit(db: Db, r: Result<Db>): Db {
    match r
    case Ok(next) => next
    case Err(_) => db
  }

  /** The object-level view of a call: `after` and `outcome` are what Commit and the result say. */
  ghost predicate Committed(before: Db, r: Result<Db>, after: Db, outcome: Outcome) {
    match r
    case Ok(next) => after == next && outcome == Done
    case Err(e) => after == before && outcome == Raised(e)
  }

  // ---------------------------------------------------------------------
  // Schema initialisation
  // ---------------------------------------------------------------------

  /** init_db: CREATE TABLE IF NOT EXISTS for the four tables. */
  function InitDb(db: Db): Db {
    if db.ready then db else Empty().(ready := true)
  }

  // ---------------------------------------------------------------------
  // Students
  // ---------------------------------------------------------------------

  /** add_student: an INSERT whose id comes from the students counter. */
  function AddStudent(db: Db, name: string, dept: string, year: int, contact: string,
                      guardian: string, guardianContact: string, roomNo: string): Result<Db>
  {
    if !db.ready then Err(NoSuchTable)
    else if db.lastStudentId >= MaxRowId then Err(Full)
    else
      var id := db.lastStudentId + 1;
      Ok(db.(students := db.students + [Student(id, name, dept, year, contact, guardian, guardianContact, roomNo)],
             lastStudentId := id))
  }

  /** view_students: SELECT * FROM students; the order of the rows is not promised. */
  function ViewStudents(db: Db): (r: Result<seq<Student>>)
    ensures r.Ok? <==> db.ready
    ensures r.Ok? ==> multiset(r.value) == multiset(db.students)
  {
    if db.ready then Ok(db.students) else Err(NoSuchTable)
  }

  /**
   * delete_student: four DELETE statements, one per table, each removing the
   * rows that belong to the student. The counters are not rolled back.
   */
  function DeleteStudent(db: Db, sid: int): Result<Db> {
    if !db.ready then Err(NoSuchTable)
    else
      Ok(db.(students := DeleteWhere(db.students, StudentKey, sid),
             logs := DeleteWhere(db.logs, LogOwner, sid),
             leaves := DeleteWhere(db.leaves, RequestOwner, sid),
             medical := db.medical - {sid}))
  }

  // ---------------------------------------------------------------------
  // Entry logs
  // ---------------------------------------------------------------------

  /** Python's `not v` on an optional string: None and "" are both falsy. */
  predicate Falsy(v: Option<string>) {
    v.None? || v.value == ""
  }

  /**
   * add_entry: an INSERT into entry_logs; a falsy entry time is replaced by
   * `now`, the clock reading the call would take.
   */
  function AddEntry(db: Db, studentId: int, entryTime: Option<string>, exitTime: Option<string>,
                    status: string, now: string): Result<Db>
  {
    if !db.ready then Err(NoSuchTable)
    else if db.lastLogId >= MaxRowId then Err(Full)
    else
      var id := db.lastLogId + 1;
      var stamp := if Falsy(entryTime) then now else entryTime.value;
      Ok(db.(logs := db.logs + [EntryLog(id, studentId, stamp, exitTime, status)], lastLogId := id))
  }

  /** view_logs: SELECT * FROM entry_logs; the order of the rows is not promised. */
  function ViewLogs(db: Db): (r: Result<seq<EntryLog>>)
    ensures r.Ok? <==> db.ready
    ensures r.Ok? ==> multiset(r.value) == multiset(db.logs)
  {
    if db.ready then Ok(db.logs) else Err(NoSuchTable)
  }

  // ---------------------------------------------------------------------
  // Medical information
  // ---------------------------------------------------------------------

  /** add_medical_info: INSERT OR REPLACE keyed by student_id. */
  function AddMedicalInfo(db: Db, studentId: int, bloodGroup: string, allergies: string,
                          conditions: string, emergencyContact: string): Result<Db>
  {
    if !db.ready then Err(NoSuchTable)
    else
      Ok(db.(medical := db.medical[studentId := MedicalInfo(studentId, bloodGroup, allergies, conditions, emergencyContact)]))
  }

  /** view_medical_info: SELECT ... WHERE student_id = ?, then fetchone. */
  function ViewMedicalInfo(db: Db, studentId: int): (r: Result<Option<MedicalInfo>>)
    ensures r.Ok? <==> db.ready
    ensures r.Ok? ==> (r.value.Some? <==> studentId in db.medical)
    ensures r.Ok? && r.value.Some? ==> r.value.value == db.medical[studentId]
  {
    if !db.ready then Err(NoSuchTable)
    else if studentId in db.medical then Ok(Some(db.medical[studentId]))
    else Ok(None)
  }

  // ---------------------------------------------------------------------
  // Leave requests
  // ---------------------------------------------------------------------

  /** add_leave_request: an INSERT that leaves status to its column default. */
  function AddLeaveRequest(db: Db, studentId: int, fromDate: string, toDate: string, reason: string): Result<Db> {
    if !db.ready then Err(NoSuchTable)
    else if db.lastRequestId >= MaxRowId then Err(Full)
    else
      var id := db.lastRequestId + 1;
      Ok(db.(leaves := db.leaves + [LeaveRequest(id, studentId, fromDate, toDate, reason, PendingStatus)],
             lastRequestId := id))
  }

  /** view_leave_requests: SELECT * FROM leave_requests; the order of the rows is not promised. */
  function ViewLeaveRequests(db: Db): (r: Result<seq<LeaveRequest>>)
    ensures r.Ok? <==> db.ready
    ensures r.Ok? ==> multiset(r.value) == multiset(db.leaves)
  {
    if db.ready then Ok(db.leaves) else Err(NoSuchTable)
  }

  /**
   * UPDATE leave_requests SET status = s WHERE request_id = rid, on the rows:
   * the matching rows get the new status and nothing else, every other row
   * stays as it was, in place.
   */
  function SetStatusWhere(rows: seq<LeaveRequest>, rid: int, s: string): (r: seq<LeaveRequest>)
    ensures |r| == |rows|
    ensures forall i :: 0 <= i < |rows| && rows[i].requestId == rid ==> r[i] == rows[i].(status := s)
    ensures forall i :: 0 <= i < |rows| && rows[i].requestId != rid ==> r[i] == rows[i]
  {
    if rows == [] then []
    else
      var head := if rows[0].requestId == rid then rows[0].(status := s) else rows[0];
      [head] + SetStatusWhere(rows[1..], rid, s)
  }

  /** update_leave_status: any status string is accepted. */
  function UpdateLeaveStatus(db: Db, rid: int, s: string): Result<Db> {
    if !db.ready then Err(NoSuchTable)
    else Ok(db.(leaves := SetStatusWhere(db.leaves, rid, s)))
  }

  // ---------------------------------------------------------------------
  // Sequences of calls
  // ---------------------------------------------------------------------

  /** One call of a backend function that writes. */
  datatype Request =
    | InitDbCall
    | AddStudentCall(name: string, dept: string, year: int, contact: string,
                     guardian: string, guardianContact: string, roomNo: string)
    | DeleteStudentCall(sid: int)
    | AddEntryCall(studentId: int, entryTime: Option<string>, exitTime: Option<string>, status: string, now: string)
    | AddMedicalInfoCall(studentId: int, bloodGroup: string, allergies: string, conditions: string, emergencyContact: string)
    | AddLeaveRequestCall(studentId: int, fromDate: string, toDate: string, reason: string)
    | UpdateLeaveStatusCall(rid: int, s: string)

  /** The database after one call, whether it completed or raised. */
  function Apply(db: Db, req: Request): Db {
    match req
    case InitDbCall => InitDb(db)
    case AddStudentCall(n, d, y, c, g, gc, r) => Commit(db, AddStudent(db, n, d, y, c, g, gc, r))
    case DeleteStudentCall(sid) => Commit(db, DeleteStudent(db, sid))
    case AddEntryCall(sid, et, xt, st, now) => Commit(db, AddEntry(db, sid, et, xt, st, now))
    case AddMedicalInfoCall(sid, b, a, c, e) => Commit(db, AddMedicalInfo(db, sid, b, a, c, e))
    case AddLeaveRequestCall(sid, f, t, r) => Commit(db, AddLeaveRequest(db, sid, f, t, r))
    case UpdateLeaveStatusCall(rid, s) => Commit(db, UpdateLeaveStatus(db, rid, s))
  }

  /** The database after a sequence of calls, one after the other. */
  function Run(db: Db, reqs: seq<Request>): Db
    decreases |reqs|
  {
    if reqs == [] then db else Run(Apply(db, reqs[0]), reqs[1..])
  }
}
