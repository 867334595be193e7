/**
 * What the backend functions promise, proved about the Database model:
 * freshness of generated ids, "nothing else changes", upsert overwrite,
 * cascade completeness, the column defaults, and that every call keeps the
 * database in a Valid state.
 */
module Laws {
  import opened Schema
  import opened Tables
  import opened Database

  /** The request ids present in a table. */
  function RequestIds(rows: seq<LeaveRequest>): set<int> {
    set q | q in rows :: q.requestId
  }

  // ---------------------------------------------------------------------
  // init_db
  // ---------------------------------------------------------------------

  /** init_db creates the tables and loses no data: on a reachable state only `ready` changes. */
  lemma InitDbKeepsData(db: Db)
    requires Valid(db)
    ensures InitDb(db) == db.(ready := true)
    ensures ViewStudents(InitDb(db)).Ok? && ViewLogs(InitDb(db)).Ok? && ViewLeaveRequests(InitDb(db)).Ok?
  {
  }

  /** Calling init_db twice is the same as calling it once. */
  lemma InitDbIdempotent(db: Db)
    ensures Apply(Apply(db, InitDbCall), InitDbCall) == Apply(db, InitDbCall)
  {
  }

  lemma InitDbPreservesValid(db: Db)
    requires Valid(db)
    ensures Valid(InitDb(db))
  {
  }

  // ---------------------------------------------------------------------
  // Students
  // ---------------------------------------------------------------------

  /**
   * add_student inserts exactly one row carrying the seven given values, with
   * an id larger than every id issued before; no field is checked, so it fails
   * only when the table is missing or its counter is exhausted.
   */
  lemma AddStudentInsertsOne(db: Db, name: string, dept: string, year: int, contact: string,
                             guardian: string, guardianContact: string, roomNo: string)
    requires Valid(db)
    ensures var r := AddStudent(db, name, dept, year, contact, guardian, guardianContact, roomNo);
      && (r.Ok? <==> db.ready && db.lastStudentId < MaxRowId)
      && (r.Err? ==> r.error == if db.ready then Full else NoSuchTable)
      && (r.Ok? ==>
            var after := r.value;
            && |after.students| == |db.students| + 1
            && var added := after.students[|db.students|];
            && after.students[..|db.students|] == db.students
            && added == Student(added.id, name, dept, year, contact, guardian, guardianContact, roomNo)
            && added.id > db.lastStudentId
            && (forall s :: s in db.students ==> s.id < added.id)
            && after.lastStudentId == added.id
            && multiset(ViewStudents(after).value) == multiset(ViewStudents(db).value) + multiset{added}
            && after.logs == db.logs && after.medical == db.medical && after.leaves == db.leaves
            && after.lastLogId == db.lastLogId && after.lastRequestId == db.lastRequestId)
  {
  }

  lemma AddStudentPreservesValid(db: Db, name: string, dept: string, year: int, contact: string,
                                 guardian: string, guardianContact: string, roomNo: string)
    requires Valid(db)
    ensures Valid(Commit(db, AddStudent(db, name, dept, year, contact, guardian, guardianContact, roomNo)))
  {
  }

  /**
   * delete_student removes the student row with that id and every log, leave
   * request and medical row whose student_id is that id, whether or not the
   * student row exists; every row that belongs to another id stays.
   */
  lemma DeleteStudentCascades(db: Db, sid: int)
    requires db.ready
    ensures var r := DeleteStudent(db, sid);
      && r.Ok?
      && var after := r.value;
      && (forall s :: s in after.students <==> s in db.students && s.id != sid)
      && (forall l :: l in after.logs <==> l in db.logs && l.studentId != sid)
      && (forall q :: q in after.leaves <==> q in db.leaves && q.studentId != sid)
      && after.medical.Keys == db.medical.Keys - {sid}
      && (forall k :: k in after.medical ==> after.medical[k] == db.medical[k])
      && after.lastStudentId == db.lastStudentId
      && after.lastLogId == db.lastLogId
      && after.lastRequestId == db.lastRequestId
  {
  }

  /** Deleting an id nothing refers to completes and changes nothing. */
  lemma DeleteUnreferencedIsNoop(db: Db, sid: int)
    requires db.ready
    requires forall s :: s in db.students ==> s.id != sid
    requires forall l :: l in db.logs ==> l.studentId != sid
    requires forall q :: q in db.leaves ==> q.studentId != sid
    requires sid !in db.medical
    ensures DeleteStudent(db, sid) == Ok(db)
  {
    assert db.medical - {sid} == db.medical;
  }

  lemma DeleteStudentPreservesValid(db: Db, sid: int)
    requires Valid(db)
    ensures Valid(Commit(db, DeleteStudent(db, sid)))
  {
    if db.ready {
      DeleteWhereKeepsOrder(db.students, StudentKey, sid, StudentKey, 1, db.lastStudentId);
      DeleteWhereKeepsOrder(db.logs, LogOwner, sid, LogKey, 1, db.lastLogId);
      DeleteWhereKeepsOrder(db.leaves, RequestOwner, sid, RequestKey, 1, db.lastRequestId);
    }
  }

  // ---------------------------------------------------------------------
  // Entry logs
  // ---------------------------------------------------------------------

  /**
   * add_entry inserts exactly one log row with a fresh id; a falsy entry time
   * becomes the clock reading, the exit time and status are stored as given,
   * and no existing log row changes.
   */
  lemma AddEntryInsertsOne(db: Db, studentId: int, entryTime: Option<string>, exitTime: Option<string>,
                           status: string, now: string)
    requires Valid(db)
    ensures var r := AddEntry(db, studentId, entryTime, exitTime, status, now);
      && (r.Ok? <==> db.ready && db.lastLogId < MaxRowId)
      && (r.Err? ==> r.error == if db.ready then Full else NoSuchTable)
      && (r.Ok? ==>
            var after := r.value;
            && |after.logs| == |db.logs| + 1
            && var added := after.logs[|db.logs|];
            && after.logs[..|db.logs|] == db.logs
            && added.logId > db.lastLogId
            && (forall l :: l in db.logs ==> l.logId < added.logId)
            && added.studentId == studentId
            && (Falsy(entryTime) ==> added.entryTime == now)
            && (!Falsy(entryTime) ==> Some(added.entryTime) == entryTime)
            && (now != "" ==> added.entryTime != "")
            && added.exitTime == exitTime
            && added.status == status
            && multiset(ViewLogs(after).value) == multiset(ViewLogs(db).value) + multiset{added}
            && after.students == db.students && after.medical == db.medical && after.leaves == db.leaves)
  {
  }

  /**
   * With its defaults, add_entry(sid) records a check-in at the clock
   * reading, with no exit time and the status "On Time".
   */
  lemma AddEntryDefaults(db: Db, studentId: int, now: string)
    requires db.ready && db.lastLogId < MaxRowId
    ensures AddEntry(db, studentId, None, None, OnTimeStatus, now).Ok?
    ensures var after := AddEntry(db, studentId, None, None, OnTimeStatus, now).value;
      after.logs == db.logs + [EntryLog(after.lastLogId, studentId, now, None, "On Time")]
  {
  }

  lemma AddEntryPreservesValid(db: Db, studentId: int, entryTime: Option<string>, exitTime: Option<string>,
                               status: string, now: string)
    requires Valid(db)
    ensures Valid(Commit(db, AddEntry(db, studentId, entryTime, exitTime, status, now)))
  {
  }

  // ---------------------------------------------------------------------
  // Medical information
  // ---------------------------------------------------------------------

  /**
   * After add_medical_info the row for that student holds exactly the call's
   * values (nothing merged from an older row), and view_medical_info returns
   * it; every other student's row and every other table is unchanged.
   */
  lemma AddMedicalInfoUpserts(db: Db, studentId: int, bloodGroup: string, allergies: string,
                              conditions: string, emergencyContact: string)
    requires db.ready
    ensures var r := AddMedicalInfo(db, studentId, bloodGroup, allergies, conditions, emergencyContact);
      && r.Ok?
      && ViewMedicalInfo(r.value, studentId)
         == Ok(Some(MedicalInfo(studentId, bloodGroup, allergies, conditions, emergencyContact)))
      && (forall k :: k != studentId ==> ViewMedicalInfo(r.value, k) == ViewMedicalInfo(db, k))
      && r.value.students == db.students && r.value.logs == db.logs && r.value.leaves == db.leaves
  {
  }

  /** Calling add_medical_info twice with the same arguments is the same as calling it once. */
  lemma AddMedicalInfoIdempotent(db: Db, studentId: int, bloodGroup: string, allergies: string,
                                 conditions: string, emergencyContact: string)
    ensures var call := AddMedicalInfoCall(studentId, bloodGroup, allergies, conditions, emergencyContact);
      Apply(Apply(db, call), call) == Apply(db, call)
  {
  }

  /** Of two add_medical_info calls for one student, only the second one's values remain. */
  lemma AddMedicalInfoLastWins(db: Db, studentId: int,
                               blood1: string, allergies1: string, conditions1: string, contact1: string,
                               blood2: string, allergies2: string, conditions2: string, contact2: string)
    ensures Apply(Apply(db, AddMedicalInfoCall(studentId, blood1, allergies1, conditions1, contact1)),
                  AddMedicalInfoCall(studentId, blood2, allergies2, conditions2, contact2))
         == Apply(db, AddMedicalInfoCall(studentId, blood2, allergies2, conditions2, contact2))
  {
  }

  /** On a reachable state the row view_medical_info returns is the one for the asked student. */
  lemma ViewMedicalInfoKeyed(db: Db, studentId: int)
    requires Valid(db) && db.ready
    ensures var r := ViewMedicalInfo(db, studentId);
      r.Ok? && (r.value.Some? ==> r.value.value.studentId == studentId)
  {
  }

  lemma AddMedicalInfoPreservesValid(db: Db, studentId: int, bloodGroup: string, allergies: string,
                                     conditions: string, emergencyContact: string)
    requires Valid(db)
    ensures Valid(Commit(db, AddMedicalInfo(db, studentId, bloodGroup, allergies, conditions, emergencyContact)))
  {
  }

  // ---------------------------------------------------------------------
  // Leave requests
  // ---------------------------------------------------------------------

  /**
   * add_leave_request inserts exactly one row with a fresh id, the given
   * student and dates (unchecked: to_date may precede from_date) and the
   * status "Pending".
   */
  lemma AddLeaveRequestIsPending(db: Db, studentId: int, fromDate: string, toDate: string, reason: string)
    requires Valid(db)
    ensures var r := AddLeaveRequest(db, studentId, fromDate, toDate, reason);
      && (r.Ok? <==> db.ready && db.lastRequestId < MaxRowId)
      && (r.Err? ==> r.error == if db.ready then Full else NoSuchTable)
      && (r.Ok? ==>
            var after := r.value;
            && |after.leaves| == |db.leaves| + 1
            && var added := after.leaves[|db.leaves|];
            && after.leaves[..|db.leaves|] == db.leaves
            && added == LeaveRequest(added.requestId, studentId, fromDate, toDate, reason, "Pending")
            && added.requestId > db.lastRequestId
            && (forall q :: q in db.leaves ==> q.requestId < added.requestId)
            && multiset(ViewLeaveRequests(after).value) == multiset(ViewLeaveRequests(db).value) + multiset{added}
            && after.students == db.students && after.logs == db.logs && after.medical == db.medical)
  {
  }

  lemma AddLeaveRequestPreservesValid(db: Db, studentId: int, fromDate: string, toDate: string, reason: string)
    requires Valid(db)
    ensures Valid(Commit(db, AddLeaveRequest(db, studentId, fromDate, toDate, reason)))
  {
  }

  /**
   * update_leave_status changes the status of the one row with that request
   * id, if there is one, to any string; every other field and row stays.
   */
  lemma UpdateLeaveStatusSetsOne(db: Db, rid: int, s: string)
    requires Valid(db) && db.ready
    ensures var r := UpdateLeaveStatus(db, rid, s);
      && r.Ok?
      && var after := r.value;
      && (forall i, j :: 0 <= i < j < |db.leaves| ==> db.leaves[i].requestId != rid || db.leaves[j].requestId != rid)
      && |after.leaves| == |db.leaves|
      && (forall i :: 0 <= i < |db.leaves| && db.leaves[i].requestId == rid ==>
            after.leaves[i].status == s && after.leaves[i].(status := db.leaves[i].status) == db.leaves[i])
      && (forall i :: 0 <= i < |db.leaves| && db.leaves[i].requestId != rid ==> after.leaves[i] == db.leaves[i])
      && after.students == db.students && after.logs == db.logs && after.medical == db.medical
      && after.lastRequestId == db.lastRequestId
  {
  }

  /** Updating a request id no row has completes and changes nothing. */
  lemma UpdateLeaveStatusMissingIsNoop(db: Db, rid: int, s: string)
    requires db.ready
    requires rid !in RequestIds(db.leaves)
    ensures UpdateLeaveStatus(db, rid, s) == Ok(db)
  {
    var rows := SetStatusWhere(db.leaves, rid, s);
    forall i | 0 <= i < |db.leaves| ensures rows[i] == db.leaves[i] {
      assert db.leaves[i] in db.leaves;
    }
    assert rows == db.leaves;
  }

  /**
   * Transitions are unrestricted: of two updates of one request only the
   * second one's status remains, so an Approved request can go back to
   * Pending.
   */
  lemma UpdateLeaveStatusLastWins(db: Db, rid: int, first: string, second: string)
    ensures Apply(Apply(db, UpdateLeaveStatusCall(rid, first)), UpdateLeaveStatusCall(rid, second))
         == Apply(db, UpdateLeaveStatusCall(rid, second))
  {
  }

  /** The reopening the state machine does not forbid: Approved, then Pending again. */
  lemma ApprovedCanReturnToPending(db: Db, rid: int)
    requires db.ready
    ensures var after := Apply(Apply(db, UpdateLeaveStatusCall(rid, "Approved")), UpdateLeaveStatusCall(rid, PendingStatus));
      forall q :: q in after.leaves && q.requestId == rid ==> q.status == "Pending"
  {
  }

  lemma UpdateLeaveStatusPreservesValid(db: Db, rid: int, s: string)
    requires Valid(db)
    ensures Valid(Commit(db, UpdateLeaveStatus(db, rid, s)))
  {
  }

  // ---------------------------------------------------------------------
  // Whole runs
  // ---------------------------------------------------------------------

  /** Every write keeps the database Valid. */
  lemma StepPreservesValid(db: Db, req: Request)
    requires Valid(db)
    ensures Valid(Apply(db, req))
  {
    match req
    case InitDbCall => InitDbPreservesValid(db);
    case AddStudentCall(n, d, y, c, g, gc, r) => AddStudentPreservesValid(db, n, d, y, c, g, gc, r);
    case DeleteStudentCall(sid) => DeleteStudentPreservesValid(db, sid);
    case AddEntryCall(sid, et, xt, st, now) => AddEntryPreservesValid(db, sid, et, xt, st, now);
    case AddMedicalInfoCall(sid, b, a, c, e) => AddMedicalInfoPreservesValid(db, sid, b, a, c, e);
    case AddLeaveRequestCall(sid, f, t, r) => AddLeaveRequestPreservesValid(db, sid, f, t, r);
    case UpdateLeaveStatusCall(rid, s) => UpdateLeaveStatusPreservesValid(db, rid, s);
  }

  lemma {:induction false} RunPreservesValid(db: Db, reqs: seq<Request>)
    requires Valid(db)
    ensures Valid(Run(db, reqs))
    decreases |reqs|
  {
    if reqs != [] {
      StepPreservesValid(db, reqs[0]);
      RunPreservesValid(Apply(db, reqs[0]), reqs[1..]);
    }
  }

  /**
   * One write never lowers a counter, and every row it leaves whose id was
   * already issued was there before it (for leave requests, a row with that
   * request id was there).
   */
  lemma StepKeepsIssuedIds(db: Db, req: Request)
    requires Valid(db)
    ensures var after := Apply(db, req);
      && db.lastStudentId <= after.lastStudentId
      && db.lastLogId <= after.lastLogId
      && db.lastRequestId <= after.lastRequestId
      && (forall s :: s in after.students && s.id <= db.lastStudentId ==> s in db.students)
      && (forall l :: l in after.logs && l.logId <= db.lastLogId ==> l in db.logs)
      && (forall q :: q in after.leaves && q.requestId <= db.lastRequestId ==> q.requestId in RequestIds(db.leaves))
  {
  }

  /**
   * Ids are never reused: after any sequence of calls, a row carrying an id
   * that had already been issued is a row that was already there, so a
   * deleted student's id never comes back.
   */
  lemma {:induction false} IdsNeverReused(db: Db, reqs: seq<Request>)
    requires Valid(db)
    ensures var after := Run(db, reqs);
      && db.lastStudentId <= after.lastStudentId
      && db.lastLogId <= after.lastLogId
      && db.lastRequestId <= after.lastRequestId
      && (forall s :: s in after.students && s.id <= db.lastStudentId ==> s in db.students)
      && (forall l :: l in after.logs && l.logId <= db.lastLogId ==> l in db.logs)
      && (forall q :: q in after.leaves && q.requestId <= db.lastRequestId ==> q.requestId in RequestIds(db.leaves))
    decreases |reqs|
  {
    if reqs != [] {
      StepKeepsIssuedIds(db, reqs[0]);
      StepPreservesValid(db, reqs[0]);
      IdsNeverReused(Apply(db, reqs[0]), reqs[1..]);
    }
  }

  /** Once a student is deleted, no later call brings a row with its id back. */
  lemma DeletedStudentStaysDeleted(db: Db, sid: int, reqs: seq<Request>)
    requires Valid(db) && db.ready
    requires exists s :: s in db.students && s.id == sid
    ensures forall s :: s in Run(DeleteStudent(db, sid).value, reqs).students ==> s.id != sid
  {
    var gone := DeleteStudent(db, sid).value;
    var s0 :| s0 in db.students && s0.id == sid;
    var i :| 0 <= i < |db.students| && db.students[i] == s0;
    assert sid <= gone.lastStudentId;
    DeleteStudentPreservesValid(db, sid);
    IdsNeverReused(gone, reqs);
  }
}
