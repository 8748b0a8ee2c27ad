/** The two tables of the leave-request database (`managers`, `leave_requests`), their
    enumerations, column defaults and serial ids, as an in-memory store. */
module DbSchema {
  import opened Common

  /** A point in time, in milliseconds since the epoch. */
  type Timestamp = int

  // The three database enumerations.
  datatype Department = HR | FINANCE | PRODUCTION | MARKETING | IT | OPERATIONS | QUALITY_CONTROL | LOGISTICS
  datatype LeaveStatus = PENDING | APPROVED | REJECTED
  datatype ManagerRole = MANAGER | DEPARTMENT_MANAGER

  /** A row of `managers`. */
  datatype Manager = Manager(
    id: int,
    username: string,
    password_hash: string,
    name: string,
    role: ManagerRole,
    phone_number: string,
    created_at: Timestamp)

  /** A row of `leave_requests`. `approved_by` is a plain nullable integer: no foreign-key
      constraint ties it to `managers`. */
  datatype LeaveRequest = LeaveRequest(
    id: int,
    employee_id: string,
    department: Department,
    reason: string,
    leave_date: Timestamp,
    location: string,
    status: LeaveStatus,
    approved_by: Option<int>,
    approved_at: Option<Timestamp>,
    rejection_reason: Option<string>,
    created_at: Timestamp)

  /** The values of an insert into `managers`; `None` means the column was not supplied. */
  datatype NewManager = NewManager(
    username: string,
    password_hash: string,
    name: string,
    role: ManagerRole,
    phone_number: string,
    created_at: Option<Timestamp>)

  /** The values of an insert into `leave_requests`; `None` means the column was not supplied. */
  datatype NewLeaveRequest = NewLeaveRequest(
    employee_id: string,
    department: Department,
    reason: string,
    leave_date: Timestamp,
    location: string,
    status: Option<LeaveStatus>,
    approved_by: Option<int>,
    approved_at: Option<Timestamp>,
    rejection_reason: Option<string>,
    created_at: Option<Timestamp>)

  /** Errors the database itself raises on insert. */
  datatype InsertError = UniqueViolation(column: string)

  /** A snapshot of the whole database: each table keyed by its primary key, and the next
      value of each table's serial sequence. */
  datatype Tables = Tables(
    managers: map<int, Manager>,
    requests: map<int, LeaveRequest>,
    nextManagerId: int,
    nextRequestId: int)

  /** A freshly created database: both tables empty, both sequences at 1. */
  const EmptyTables := Tables(map[], map[], 1, 1)

  /** No two managers share a username (the unique constraint on `username`). */
  ghost predicate UniqueUsernames(managers: map<int, Manager>) {
    forall i, j :: i in managers && j in managers && i != j ==> managers[i].username != managers[j].username
  }

  /** Every manager is stored under its own id. */
  ghost predicate ManagersKeyedById(m: map<int, Manager>) {
    forall id :: id in m ==> m[id].id == id
  }

  /** Every leave request is stored under its own id. */
  ghost predicate RequestsKeyedById(m: map<int, LeaveRequest>) {
    forall id :: id in m ==> m[id].id == id
  }

  /** What inserts through the serial sequences guarantee: rows are stored under their own
      id, every id was drawn from its sequence (so it lies in [1, next)), and the unique
      constraint keeps usernames distinct.
      Hence the next value of either sequence names no existing row. */
  ghost predicate WellFormed(t: Tables)
    ensures WellFormed(t) ==> ManagersKeyedById(t.managers) && RequestsKeyedById(t.requests)
    ensures WellFormed(t) ==> t.nextManagerId !in t.managers && t.nextRequestId !in t.requests
  {
    && t.nextManagerId >= 1
    && t.nextRequestId >= 1
    && (forall id :: id in t.managers ==> t.managers[id].id == id && 1 <= id < t.nextManagerId)
    && (forall id :: id in t.requests ==> t.requests[id].id == id && 1 <= id < t.nextRequestId)
    && UniqueUsernames(t.managers)
  }

  /** `approved_by` and `approved_at` are null exactly while the request is pending.
      The schema does not enforce this; the handlers keep it. */
  ghost predicate ApprovalConsistent(t: Tables) {
    forall id :: id in t.requests ==>
      && (t.requests[id].approved_by.None? <==> t.requests[id].status == PENDING)
      && (t.requests[id].approved_at.None? <==> t.requests[id].status == PENDING)
  }

  /** A rejection reason is present only on a rejected request. Kept by the handlers. */
  ghost predicate ReasonOnlyWhenRejected(t: Tables) {
    forall id :: id in t.requests && t.requests[id].rejection_reason.Some? ==> t.requests[id].status == REJECTED
  }

  /** Every `approved_by` written by a handler names a manager that existed when it was
      written; since managers are never deleted here, it still names one. */
  ghost predicate ApproversExist(t: Tables) {
    forall id :: id in t.requests && t.requests[id].approved_by.Some? ==> t.requests[id].approved_by.value in t.managers
  }

  /** The invariant of the request lifecycle, over and above `WellFormed`. */
  ghost predicate LifecycleInvariant(t: Tables) {
    ApprovalConsistent(t) && ReasonOnlyWhenRejected(t) && ApproversExist(t)
  }

  /** True when some manager already has `username`. */
  predicate UsernameTaken(managers: map<int, Manager>, username: string) {
    exists id :: id in managers && managers[id].username == username
  }

  /** The row built from insert values under serial id `id`: `created_at` defaults to now;
      the other columns take the value supplied. */
  function NewManagerRow(values: NewManager, id: int, now: Timestamp): (m: Manager)
    ensures m.id == id && m.username == values.username && m.password_hash == values.password_hash
    ensures m.name == values.name && m.role == values.role && m.phone_number == values.phone_number
    ensures values.created_at.None? ==> m.created_at == now
    ensures values.created_at.Some? ==> m.created_at == values.created_at.value
  {
    Manager(id, values.username, values.password_hash, values.name, values.role, values.phone_number,
            if values.created_at.Some? then values.created_at.value else now)
  }

  /** The result of an insert into `managers`: the unique constraint on `username` rejects
      a duplicate. */
  function ManagerInsertOutcome(t: Tables, values: NewManager, now: Timestamp): (r: Result<Manager, InsertError>)
    ensures r.Failure? <==> UsernameTaken(t.managers, values.username)
    ensures r.Success? ==> r.value == NewManagerRow(values, t.nextManagerId, now)
  {
    if UsernameTaken(t.managers, values.username) then Failure(UniqueViolation("username"))
    else Success(NewManagerRow(values, t.nextManagerId, now))
  }

  /** The database after an insert into `managers`. The sequence advances even when the
      unique constraint rejects the row, as a PostgreSQL serial does. */
  function AfterManagerInsert(t: Tables, values: NewManager, now: Timestamp): (t': Tables)
    ensures t'.requests == t.requests && t'.nextRequestId == t.nextRequestId
    ensures t'.nextManagerId == t.nextManagerId + 1
    ensures t.managers.Keys <= t'.managers.Keys
    ensures ManagerInsertOutcome(t, values, now).Failure? ==> t'.managers == t.managers
    ensures ManagerInsertOutcome(t, values, now).Success? ==>
      t'.managers == t.managers[t.nextManagerId := ManagerInsertOutcome(t, values, now).value]
    ensures WellFormed(t) ==> forall id :: id in t.managers ==> t'.managers[id] == t.managers[id]
    ensures WellFormed(t) ==> WellFormed(t')
    ensures WellFormed(t) && LifecycleInvariant(t) ==> LifecycleInvariant(t')
  {
    var r := ManagerInsertOutcome(t, values, now);
    var managers := if r.Success? then t.managers[t.nextManagerId := r.value] else t.managers;
    t.(managers := managers, nextManagerId := t.nextManagerId + 1)
  }

  /** The row built from insert values under serial id `id`: `status` defaults to
      `PENDING`, `created_at` to now; `approved_by`, `approved_at` and `rejection_reason`
      are nullable without a default, so they stay null unless supplied. */
  function NewRequestRow(values: NewLeaveRequest, id: int, now: Timestamp): (r: LeaveRequest)
    ensures r.id == id && r.employee_id == values.employee_id && r.department == values.department
    ensures r.reason == values.reason && r.leave_date == values.leave_date && r.location == values.location
    ensures values.status.None? ==> r.status == PENDING
    ensures values.status.Some? ==> r.status == values.status.value
    ensures r.approved_by == values.approved_by && r.approved_at == values.approved_at
    ensures r.rejection_reason == values.rejection_reason
    ensures values.created_at.None? ==> r.created_at == now
    ensures values.created_at.Some? ==> r.created_at == values.created_at.value
  {
    LeaveRequest(id, values.employee_id, values.department, values.reason, values.leave_date,
                 values.location,
                 if values.status.Some? then values.status.value else PENDING,
                 values.approved_by, values.approved_at, values.rejection_reason,
                 if values.created_at.Some? then values.created_at.value else now)
  }

  /** The database after an insert into `leave_requests`: exactly one row is added, under
      an id no existing row has, and every existing row is kept as it was. */
  function AfterRequestInsert(t: Tables, values: NewLeaveRequest, now: Timestamp): (t': Tables)
    ensures t'.managers == t.managers && t'.nextManagerId == t.nextManagerId
    ensures t'.nextRequestId == t.nextRequestId + 1
    ensures t'.requests.Keys == t.requests.Keys + {t.nextRequestId}
    ensures t'.requests[t.nextRequestId] == NewRequestRow(values, t.nextRequestId, now)
    ensures WellFormed(t) ==> t.nextRequestId !in t.requests && WellFormed(t')
    ensures WellFormed(t) ==> forall id :: id in t.requests ==> t'.requests[id] == t.requests[id]
  {
    t.(requests := t.requests[t.nextRequestId := NewRequestRow(values, t.nextRequestId, now)],
       nextRequestId := t.nextRequestId + 1)
  }

  /** The database connection: the two tables and their sequences, updated in place. */
  class Database {
    var managers: map<int, Manager>
    var requests: map<int, LeaveRequest>
    var nextManagerId: int
    var nextRequestId: int

    /** The current contents as a value. */
    function Snapshot(): Tables
      reads this
    {
      Tables(managers, requests, nextManagerId, nextRequestId)
    }

    ghost predicate Valid()
      reads this
    {
      WellFormed(Snapshot())
    }

    constructor ()
      ensures Valid() && Snapshot() == EmptyTables
    {
      managers, requests := map[], map[];
      nextManagerId, nextRequestId := 1, 1;
    }

    /** `INSERT INTO managers ... RETURNING *`. */
    method InsertManager(values: NewManager, now: Timestamp) returns (r: Result<Manager, InsertError>)
      requires Valid()
      modifies this
      ensures Valid()
      ensures r == ManagerInsertOutcome(old(Snapshot()), values, now)
      ensures Snapshot() == AfterManagerInsert(old(Snapshot()), values, now)
    {
      var id := nextManagerId;
      nextManagerId := nextManagerId + 1;
      if UsernameTaken(managers, values.username) {
        r := Failure(UniqueViolation("username"));
      } else {
        var row := NewManagerRow(values, id, now);
        managers := managers[id := row];
        r := Success(row);
      }
    }

    /** `INSERT INTO leave_requests ... RETURNING *`: the returned row is the stored row. */
    method InsertLeaveRequest(values: NewLeaveRequest, now: Timestamp) returns (r: LeaveRequest)
      requires Valid()
      modifies this
      ensures Valid()
      ensures r == NewRequestRow(values, old(nextRequestId), now)
      ensures Snapshot() == AfterRequestInsert(old(Snapshot()), values, now)
      ensures r.id !in old(requests) && requests[r.id] == r
    {
      var id := nextRequestId;
      r := NewRequestRow(values, id, now);
      requests := requests[id := r];
      nextRequestId := nextRequestId + 1;
    }
  }
}
