# Hostel management backend, modelled in Dafny

The hostel dashboard keeps its data in one SQLite file with four tables:
`students`, `entry_logs`, `medical_info` (keyed by `student_id`) and
`leave_requests`. `backend.py` has one function per action: create the
tables, insert a row, read a whole table, upsert medical information, update
a leave request's status, and delete a student with all of that student's rows.
This project replaces the SQLite file with an in-memory model of the same tables:

- `schema.dfy` (module `Schema`): one datatype per row kind, and the errors a
  statement can raise. `NoSuchTable` is any call made before `init_db`.
  `Full` is SQLite's error when an AUTOINCREMENT counter has reached
  2^63 - 1. The module also holds the column constants (`'Pending'`,
  `"On Time"`).
- `tables.dfy` (module `Tables`): `DELETE ... WHERE column = value` on a
  table stored as a sequence of rows, and the fact that rows kept in key
  order stay in key order after a delete.
- `database.dfy` (module `Database`): the whole database as a value `Db`.
  It holds the four tables, a flag saying whether the tables exist, and the
  three AUTOINCREMENT counters (`students.id`, `entry_logs.log_id`,
  `leave_requests.request_id`), each the largest id ever issued. There is one
  function per backend function; a write returns `Ok(new state)` or
  `Err(error)`. `Valid` is the invariant of reachable states. `Request`,
  `Apply` and `Run` describe sequences of writes.
- `laws.dfy` (module `Laws`): the promises of the backend, proved about that
  model.
- `backend.dfy` (module `Backend`): class `HostelStore`. Its fields are the
  tables and counters, and one method per backend function updates them in
  place. Each method's postcondition says the new state and the outcome are
  the ones the `Database` function prescribes, and that `Valid` still holds.
  The object-level reads `ViewStudents`, `ViewLogs`, `ViewMedicalInfo` and
  `ViewLeaveRequests` delegate to the `Database.View*` functions of the
  current fields, whose contracts are in the table below. `Demonstration` is
  a client-side call sequence showing what the contracts let a caller
  conclude: upsert overwrite, the Pending default, reopening a request, the
  delete cascade and no id reuse.

Generated ids follow AUTOINCREMENT. A new id is the counter plus one. The
counter never decreases, and a delete does not roll it back. So a new id is
larger than every id ever issued, and an id is never reused
(`Laws.IdsNeverReused`).

Two inputs of the source are parameters here:
- the clock reading that `add_entry` takes when no entry time is given (`now`);
- the order of `SELECT *` results. It is not promised: the `View*`
  functions promise only the multiset of rows.

A check-out (`add_entry(sid, exit_time=...)`, app.py:171) passes no entry
time. `backend.py:104-105` replaces a falsy entry time (None or `""`) with the
clock reading, so a check-out row carries both times
(`Laws.AddEntryInsertsOne`).

## Model

| member | source | states |
|---|---|---|
| `Backend.HostelStore.constructor` | backend.py:8 | A newly created database file holds no tables, no rows and zero counters, and is Valid. |
| `Backend.HostelStore.InitDb` | backend.py:7-63 | init_db creates the four tables if they are absent and otherwise changes nothing; the object stays Valid. |
| `Backend.HostelStore.AddStudent` | backend.py:69-77 | add_student updates the fields to exactly the state Database.AddStudent prescribes (or leaves them and raises), keeping Valid. |
| `Backend.HostelStore.DeleteStudent` | backend.py:87-95 | The four DELETE statements update the fields to exactly the state Database.DeleteStudent prescribes, keeping Valid. |
| `Backend.HostelStore.AddEntry` | backend.py:101-111 | add_entry appends exactly the log row Database.AddEntry prescribes, after replacing a falsy entry time by `now`, keeping Valid. |
| `Backend.HostelStore.AddMedicalInfo` | backend.py:125-134 | INSERT OR REPLACE sets the row under the student id as Database.AddMedicalInfo prescribes, keeping Valid. |
| `Backend.HostelStore.AddLeaveRequest` | backend.py:148-156 | add_leave_request appends the row Database.AddLeaveRequest prescribes, with the column default status, keeping Valid. |
| `Backend.HostelStore.UpdateLeaveStatus` | backend.py:166-171 | UPDATE ... WHERE request_id sets the leaves as Database.UpdateLeaveStatus prescribes, keeping Valid. |
| `Database.ViewStudents` | backend.py:79-85 | view_students fails exactly when the tables are missing; otherwise it returns every student row, as a multiset, with no order promised. |
| `Database.ViewLogs` | backend.py:113-119 | view_logs fails exactly when the tables are missing; otherwise it returns every log row, as a multiset. |
| `Database.ViewMedicalInfo` | backend.py:136-142 | view_medical_info fails exactly when the tables are missing; otherwise it returns a row exactly when the student has one, and that row. |
| `Database.ViewLeaveRequests` | backend.py:158-164 | view_leave_requests fails exactly when the tables are missing; otherwise it returns every leave row, as a multiset. |
| `Database.SetStatusWhere` | backend.py:169 | UPDATE ... SET status WHERE request_id: the table keeps its length, and matching rows get the new status and no other change. Every other row is left in place. |
| `Tables.DeleteWhere` | backend.py:90-93 | DELETE ... WHERE key = k keeps exactly the rows whose key differs from k. It is the identity when no row matches. |
| `Tables.DeleteWhereKeepsOrder` | backend.py:90-93 | The rows a DELETE leaves stay in id order and in the range of issued ids. |
| `Laws.InitDbKeepsData` | backend.py:12-60 | On a reachable state init_db only marks the tables as existing: no row or counter changes, and every read then succeeds. |
| `Laws.InitDbIdempotent` | backend.py:7-63 | Calling init_db twice gives the same state as calling it once. |
| `Laws.InitDbPreservesValid` | backend.py:7-63 | init_db keeps the database Valid. |
| `Laws.AddStudentInsertsOne` | backend.py:69-77 | add_student fails only for a missing table or an exhausted counter, never because of a field value such as the year. On success it adds exactly one row with the seven given values and an id above every id ever issued. All existing rows, the other tables and the other counters are unchanged. |
| `Laws.AddStudentPreservesValid` | backend.py:69-77 | add_student keeps the database Valid. |
| `Laws.DeleteStudentCascades` | backend.py:87-95 | delete_student completes on existing tables. It removes the student row with that id and every log, leave and medical row with that student_id, even when no such student exists. Rows of other ids and the counters remain. |
| `Laws.DeleteUnreferencedIsNoop` | backend.py:87-95 | Deleting an id that no row refers to raises nothing and changes nothing. |
| `Laws.DeleteStudentPreservesValid` | backend.py:87-95 | delete_student keeps the database Valid, and the surviving rows stay in id order. |
| `Laws.AddEntryInsertsOne` | backend.py:101-111 | add_entry fails only for a missing table or an exhausted counter. It adds exactly one log row with a fresh id and existing rows do not change. A falsy entry time becomes the clock reading, so with a non-empty clock reading the entry time is never empty. The exit time and status are stored as given. |
| `Laws.AddEntryDefaults` | backend.py:101 | add_entry(sid) with its defaults records the clock reading, no exit time and "On Time". |
| `Laws.AddEntryPreservesValid` | backend.py:101-111 | add_entry keeps the database Valid. |
| `Laws.AddMedicalInfoUpserts` | backend.py:125-142 | After add_medical_info(sid, ...), view_medical_info(sid) returns exactly the call's values, with nothing merged from an older row. Other students' rows and the other tables are unchanged. |
| `Laws.AddMedicalInfoIdempotent` | backend.py:128-132 | Calling add_medical_info twice with the same arguments gives the same state as calling it once. |
| `Laws.AddMedicalInfoLastWins` | backend.py:128-132 | Of two add_medical_info calls for one student, the second replaces the whole row. |
| `Laws.ViewMedicalInfoKeyed` | backend.py:136-142 | On a reachable state, a row returned by view_medical_info belongs to the asked student. |
| `Laws.AddMedicalInfoPreservesValid` | backend.py:125-134 | add_medical_info keeps the database Valid. |
| `Laws.AddLeaveRequestIsPending` | backend.py:148-156 | add_leave_request fails only for a missing table or an exhausted counter, and never checks the dates. On success it adds exactly one row with a fresh id, the given student, dates and reason, and status "Pending". |
| `Laws.AddLeaveRequestPreservesValid` | backend.py:148-156 | add_leave_request keeps the database Valid. |
| `Laws.UpdateLeaveStatusSetsOne` | backend.py:166-171 | At most one row has the request id. update_leave_status sets that row's status to the given string and changes no other field. Every other row and table is unchanged. |
| `Laws.UpdateLeaveStatusMissingIsNoop` | backend.py:166-171 | Updating a request id no row has raises nothing and changes nothing. |
| `Laws.UpdateLeaveStatusLastWins` | backend.py:169 | Of two status updates of one request, only the second remains: transitions are unrestricted. |
| `Laws.ApprovedCanReturnToPending` | backend.py:169 | An Approved request set back to Pending reads Pending. |
| `Laws.UpdateLeaveStatusPreservesValid` | backend.py:166-171 | update_leave_status keeps the database Valid. |
| `Laws.StepPreservesValid` | backend.py:7-171 | Every write keeps the database Valid. |
| `Laws.RunPreservesValid` | backend.py:7-171 | Any sequence of writes keeps the database Valid. |
| `Laws.StepKeepsIssuedIds` | backend.py:12-60 | One write never lowers a counter. A student or log row it leaves whose id was already issued was already there, unchanged. For a leave row with an already-issued request id, a row with that request id was already there (its status may have changed). |
| `Laws.IdsNeverReused` | backend.py:12-60 | After any sequence of writes, the counters have not decreased. Every student or log row carrying an id issued before the sequence was already there, unchanged. For leave rows, a row with that request id was already there (its status may have changed). |
| `Laws.DeletedStudentStaysDeleted` | backend.py:87-95 | Once a student is deleted, no later sequence of calls brings a row with that id back. |

## Left out

- `app.py`: Streamlit pages, forms and the chart aggregation are presentation code.
- `database.py`: a standalone script that creates a different, unused schema.
- The demonstration data under `if __name__ == "__main__"` in `backend.py`: it depends on `random` and the wall clock.
- Opening, committing and closing connections, and SQLite itself. The tables are modelled abstractly. A crash between the four deletes of `delete_student` is a storage-engine matter and is not modelled.
- Foreign keys: SQLite does not enforce them unless the `foreign_keys` pragma is on, and this code never turns it on. So no insert requires the student to exist.
- `update_student`: `test_backend.py` calls it, but `backend.py` does not define it.
- NULL in text columns other than `exit_time`: every caller passes strings, so the other columns are modelled as strings.
- Column type affinity: SQLite would convert a text `year` to an integer. `year` is modelled as an integer.
- Python integers outside the signed 64-bit range: Python's SQLite binding raises `OverflowError` for them. Ids are modelled as unbounded integers.
- `Database.ViewStudents`: promises the rows only as a multiset, because `SELECT *` without `ORDER BY` promises no order.
- `Database.ViewLogs`: promises the rows only as a multiset, for the same reason.
- `Database.ViewLeaveRequests`: promises the rows only as a multiset, for the same reason.
