/**
 * The data-access layer as an object: the four tables and the three
 * AUTOINCREMENT counters are fields that each call updates in place. Every
 * method is proved to leave exactly the state the Database model prescribes,
 * so the laws proved about that model hold of the object.
 */
module Backend {
  import opened Schema
  import opened Tables
  import Database
  import Laws

  class HostelStore {
    var ready: bool
    var students: seq<Student>
    var logs: seq<EntryLog>
    var medical: map<int, MedicalInfo>
    var leaves: seq<LeaveRequest>
    var lastStudentId: nat
    var lastLogId: nat
    var lastRequestId: nat

    /** The stored tables and counters, as a Database value. */
    function Snapshot(): Database.Db
      reads this
    {
      Database.Db(ready, students, logs, medical, leaves, lastStudentId, lastLogId, lastRequestId)
    }

    ghost predicate Valid()
      reads this
    {
      Database.Valid(Snapshot())
    }

    /** A new database file: no tables yet. */
    constructor ()
      ensures Valid() && Snapshot() == Database.Empty()
    {
      ready := false;
      students, logs, medical, leaves := [], [], map[], [];
      lastStudentId, lastLogId, lastRequestId := 0, 0, 0;
    }

    /** init_db */
    method InitDb()
      requires Valid()
      modifies this
      ensures Valid()
      ensures Snapshot() == Database.InitDb(old(Snapshot()))
    {
      if !ready {
        students, logs, medical, leaves := [], [], map[], [];
        lastStudentId, lastLogId, lastRequestId := 0, 0, 0;
        ready := true;
      }
      Laws.InitDbPreservesValid(old(Snapshot()));
    }

    /** add_student */
    method AddStudent(name: string, dept: string, year: int, contact: string,
                      guardian: string, guardianContact: string, roomNo: string) returns (outcome: Outcome)
      requires Valid()
      modifies this
      ensures Valid()
      ensures Database.Committed(old(Snapshot()),
                Database.AddStudent(old(Snapshot()), name, dept, year, contact, guardian, guardianContact, roomNo),
                Snapshot(), outcome)
    {
      Laws.AddStudentPreservesValid(Snapshot(), name, dept, year, contact, guardian, guardianContact, roomNo);
      if !ready {
        return Raised(NoSuchTable);
      }
      if lastStudentId >= MaxRowId {
        return Raised(Full);
      }
      lastStudentId := lastStudentId + 1;
      students := students + [Student(lastStudentId, name, dept, year, contact, guardian, guardianContact, roomNo)];
      outcome := Done;
    }

    /** view_students */
    function ViewStudents(): Result<seq<Student>>
      reads this
    {
      Database.ViewStudents(Snapshot())
    }

    /** delete_student: the four DELETE statements, in the source's order. */
    method DeleteStudent(sid: int) returns (outcome: Outcome)
      requires Valid()
      modifies this
      ensures Valid()
      ensures Database.Committed(old(Snapshot()), Database.DeleteStudent(old(Snapshot()), sid), Snapshot(), outcome)
    {
      Laws.DeleteStudentPreservesValid(Snapshot(), sid);
      if !ready {
        return Raised(NoSuchTable);
      }
      students := DeleteWhere(students, StudentKey, sid);
      logs := DeleteWhere(logs, LogOwner, sid);
      leaves := DeleteWhere(leaves, RequestOwner, sid);
      medical := medical - {sid};
      outcome := Done;
    }

    /** add_entry; `now` is the clock reading the call would take. */
    method AddEntry(studentId: int, entryTime: Option<string>, exitTime: Option<string>,
                    status: string, now: string) returns (outcome: Outcome)
      requires Valid()
      modifies this
      ensures Valid()
      ensures Database.Committed(old(Snapshot()),
                Database.AddEntry(old(Snapshot()), studentId, entryTime, exitTime, status, now),
                Snapshot(), outcome)
    {
      Laws.AddEntryPreservesValid(Snapshot(), studentId, entryTime, exitTime, status, now);
      var stamp := entryTime;
      if Database.Falsy(stamp) {
        stamp := Some(now);
      }
      if !ready {
        return Raised(NoSuchTable);
      }
      if lastLogId >= MaxRowId {
        return Raised(Full);
      }
      lastLogId := lastLogId + 1;
      logs := logs + [EntryLog(lastLogId, studentId, stamp.value, exitTime, status)];
      outcome := Done;
    }

    /** view_logs */
    function ViewLogs(): Result<seq<EntryLog>>
      reads this
    {
      Database.ViewLogs(Snapshot())
    }

    /** add_medical_info: INSERT OR REPLACE. */
    method AddMedicalInfo(studentId: int, bloodGroup: string, allergies: string,
                          conditions: string, emergencyContact: string) returns (outcome: Outcome)
      requires Valid()
      modifies this
      ensures Valid()
      ensures Database.Committed(old(Snapshot()),
                Database.AddMedicalInfo(old(Snapshot()), studentId, bloodGroup, allergies, conditions, emergencyContact),
                Snapshot(), outcome)
    {
      Laws.AddMedicalInfoPreservesValid(Snapshot(), studentId, bloodGroup, allergies, conditions, emergencyContact);
      if !ready {
        return Raised(NoSuchTable);
      }
      medical := medical[studentId := MedicalInfo(studentId, bloodGroup, allergies, conditions, emergencyContact)];
      outcome := Done;
    }

    /** view_medical_info */
    function ViewMedicalInfo(studentId: int): Result<Option<MedicalInfo>>
      reads this
    {
      Database.ViewMedicalInfo(Snapshot(), studentId)
    }

    /** add_leave_request: status takes its column default. */
    method AddLeaveRequest(studentId: int, fromDate: string, toDate: string, reason: string) returns (outcome: Outcome)
      requires Valid()
      modifies this
      ensures Valid()
      ensures Database.Committed(old(Snapshot()),
                Database.AddLeaveRequest(old(Snapshot()), studentId, fromDate, toDate, reason),
                Snapshot(), outcome)
    {
      Laws.AddLeaveRequestPreservesValid(Snapshot(), studentId, fromDate, toDate, reason);
      if !ready {
        return Raised(NoSuchTable);
      }
      if lastRequestId >= MaxRowId {
        return Raised(Full);
      }
      lastRequestId := lastRequestId + 1;
      leaves := leaves + [LeaveRequest(lastRequestId, studentId, fromDate, toDate, reason, PendingStatus)];
      outcome := Done;
    }

    /** view_leave_requests */
    function ViewLeaveRequests(): Result<seq<LeaveRequest>>
      reads this
    {
      Database.ViewLeaveRequests(Snapshot())
    }

    /** update_leave_status */
    method UpdateLeaveStatus(rid: int, newStatus: string) returns (outcome: Outcome)
      requires Valid()
      modifies this
      ensures Valid()
      ensures Database.Committed(old(Snapshot()), Database.UpdateLeaveStatus(old(Snapshot()), rid, newStatus),
                Snapshot(), outcome)
    {
      Laws.UpdateLeaveStatusPreservesValid(Snapshot(), rid, newStatus);
      if !ready {
        return Raised(NoSuchTable);
      }
      leaves := Database.SetStatusWhere(leaves, rid, newStatus);
      outcome := Done;
    }
  }

  /**
   * A client of the object: what the specifications alone let a caller
   * conclude about upsert overwrite, the Pending default, reopening a
   * request, the delete cascade and ids that are not reused.
   */
  method Demonstration(now: string)
  {
    var store := new HostelStore();
    store.InitDb();
    var o := store.AddStudent("Aarav Sharma", "CSE", 2, "9876543210", "Ramesh Sharma", "9123456789", "A-101");
    assert o == Done && store.students[0].id == 1;
    o := store.AddEntry(1, None, None, OnTimeStatus, now);
    assert store.logs == [EntryLog(1, 1, now, None, "On Time")];
    o := store.AddMedicalInfo(1, "B+", "Peanuts", "Asthma", "9876543210");
    o := store.AddMedicalInfo(1, "O-", "", "", "9876543210");
    assert store.ViewMedicalInfo(1) == Ok(Some(MedicalInfo(1, "O-", "", "", "9876543210")));
    o := store.AddLeaveRequest(1, "2025-11-15", "2025-11-13", "Going home");
    assert store.leaves[0].status == "Pending";
    o := store.UpdateLeaveStatus(1, "Approved");
    o := store.UpdateLeaveStatus(1, "Pending");
    assert store.leaves[0].status == "Pending";
    o := store.DeleteStudent(1);
    assert store.students == [] && store.logs == [] && store.leaves == [] && 1 !in store.medical;
    o := store.AddStudent("Priya Patel", "ECE", 3, "9988776655", "Suresh Patel", "9090909090", "B-202");
    assert store.students[0].id == 2;
  }
}
