/** `createLeaveRequest`: insert a new request as `PENDING` and return the stored row. */
module CreateLeaveRequestHandler {
  import opened Common
  import opened DbSchema
  import opened ApiSchema

  /** The values the handler inserts: the input's fields, the converted date and an
      explicit `PENDING`; the approval columns are not supplied. */
  function CreateValues(input: CreateLeaveRequestInput, leaveDate: Timestamp): (v: NewLeaveRequest)
    ensures v.status == Some(PENDING)
    ensures v.approved_by.None? && v.approved_at.None? && v.rejection_reason.None? && v.created_at.None?
    ensures v.employee_id == input.employee_id && v.department == input.department
    ensures v.reason == input.reason && v.leave_date == leaveDate && v.location == input.location
  {
    NewLeaveRequest(input.employee_id, input.department, input.reason, leaveDate, input.location,
                    Some(PENDING), None, None, None, None)
  }

  /** The record a create stores and returns, given the converted leave date and the clock. */
  function CreatedRecord(t: Tables, input: CreateLeaveRequestInput, leaveDate: Timestamp, now: Timestamp): (r: LeaveRequest)
    ensures r.status == PENDING
    ensures r.approved_by.None? && r.approved_at.None? && r.rejection_reason.None?
    ensures r.employee_id == input.employee_id && r.department == input.department
    ensures r.reason == input.reason && r.location == input.location
    ensures r.leave_date == leaveDate && r.created_at == now
    ensures r.id == t.nextRequestId
    ensures WellFormed(t) ==> r.id !in t.requests
  {
    NewRequestRow(CreateValues(input, leaveDate), t.nextRequestId, now)
  }

  /** The database after a create: the created record is added under its fresh id, every
      other row and the managers table are kept, and the lifecycle invariant is kept. */
  function AfterCreate(t: Tables, input: CreateLeaveRequestInput, leaveDate: Timestamp, now: Timestamp): (t': Tables)
    ensures t'.managers == t.managers
    ensures t'.nextRequestId == t.nextRequestId + 1 && t'.nextManagerId == t.nextManagerId
    ensures t'.requests.Keys == t.requests.Keys + {t.nextRequestId}
    ensures t'.requests[t.nextRequestId] == CreatedRecord(t, input, leaveDate, now)
    ensures WellFormed(t) ==> WellFormed(t')
    ensures WellFormed(t) ==> forall id :: id in t.requests ==> t'.requests[id] == t.requests[id]
    ensures WellFormed(t) && LifecycleInvariant(t) ==> LifecycleInvariant(t')
  {
    AfterRequestInsert(t, CreateValues(input, leaveDate), now)
  }

  /** The handler. Validation has accepted `input`, so its date parses; `parseDate` stands
      for `new Date(string)` and `now` for the clock that fills `created_at`. */
  method CreateLeaveRequest(db: Database, input: CreateLeaveRequestInput,
                            parseDate: string -> Option<Timestamp>, now: Timestamp)
    returns (r: LeaveRequest)
    requires db.Valid()
    requires CreateInputValid(input, parseDate)
    modifies db
    ensures db.Valid()
    ensures r == CreatedRecord(old(db.Snapshot()), input, parseDate(input.leave_date).value, now)
    ensures db.Snapshot() == AfterCreate(old(db.Snapshot()), input, parseDate(input.leave_date).value, now)
    ensures r.id !in old(db.requests) && db.requests[r.id] == r
  {
    var leaveDate := parseDate(input.leave_date).value;
    r := db.InsertLeaveRequest(CreateValues(input, leaveDate), now);
  }
}
