/** `updateLeaveStatus`: three ordered guards, then a single-row update that decides a
    pending request. */
module UpdateLeaveStatusHandler {
  import opened Common
  import opened DbSchema
  import opened ApiSchema

  /** The errors the handler throws, in the order its guards check them. */
  datatype UpdateError = ManagerNotFound | LeaveRequestNotFound | AlreadyProcessed

  /** The message each error is thrown with; the message alone tells the three apart. */
  function ErrorMessage(e: UpdateError): (msg: string)
    ensures msg == "Manager not found" <==> e == ManagerNotFound
    ensures msg == "Leave request not found" <==> e == LeaveRequestNotFound
    ensures msg == "Leave request has already been processed" <==> e == AlreadyProcessed
  {
    match e
    case ManagerNotFound => "Manager not found"
    case LeaveRequestNotFound => "Leave request not found"
    case AlreadyProcessed => "Leave request has already been processed"
  }

  /** JavaScript truthiness of an optional string: present and not empty. */
  predicate Truthy(s: Option<string>) {
    s.Some? && |s.value| > 0
  }

  /** The columns an update never touches are the same in both records. */
  predicate SameRequestData(a: LeaveRequest, b: LeaveRequest) {
    && a.id == b.id
    && a.employee_id == b.employee_id
    && a.department == b.department
    && a.reason == b.reason
    && a.leave_date == b.leave_date
    && a.location == b.location
    && a.created_at == b.created_at
  }

  /** The row after the update: status, approver and approval time are set; the rejection
      reason is written only for a rejection with a non-empty reason, and otherwise keeps its
      previous value, so a reason sent with an approval is ignored. */
  function Decided(req: LeaveRequest, input: UpdateLeaveStatusInput, now: Timestamp): (r: LeaveRequest)
    ensures r.status == input.status
    ensures r.approved_by == Some(input.manager_id) && r.approved_at == Some(now)
    ensures input.status == REJECTED && Truthy(input.rejection_reason) ==> r.rejection_reason == input.rejection_reason
    ensures !(input.status == REJECTED && Truthy(input.rejection_reason)) ==> r.rejection_reason == req.rejection_reason
    ensures SameRequestData(r, req)
  {
    var r := req.(status := input.status, approved_by := Some(input.manager_id), approved_at := Some(now));
    if input.status == REJECTED && Truthy(input.rejection_reason) then r.(rejection_reason := input.rejection_reason)
    else r
  }

  /** What the handler returns or throws on a database `t`: the manager check comes first,
      then the request check, then the status check; only a pending request is decided. */
  function UpdateOutcome(t: Tables, input: UpdateLeaveStatusInput, now: Timestamp): (r: Result<LeaveRequest, UpdateError>)
    ensures r == Failure(ManagerNotFound) <==> input.manager_id !in t.managers
    ensures r == Failure(LeaveRequestNotFound) <==> input.manager_id in t.managers && input.id !in t.requests
    ensures r == Failure(AlreadyProcessed) <==>
      input.manager_id in t.managers && input.id in t.requests && t.requests[input.id].status != PENDING
    ensures r.Success? ==>
      && input.id in t.requests
      && t.requests[input.id].status == PENDING
      && r.value == Decided(t.requests[input.id], input, now)
  {
    if input.manager_id !in t.managers then Failure(ManagerNotFound)
    else if input.id !in t.requests then Failure(LeaveRequestNotFound)
    else if t.requests[input.id].status != PENDING then Failure(AlreadyProcessed)
    else Success(Decided(t.requests[input.id], input, now))
  }

  /** The database after the call: on failure nothing changes; on success only the row
      `input.id` changes, and it becomes the returned record. */
  function AfterUpdate(t: Tables, input: UpdateLeaveStatusInput, now: Timestamp): (t': Tables)
    ensures UpdateOutcome(t, input, now).Failure? ==> t' == t
    ensures UpdateOutcome(t, input, now).Success? ==> input.id in t'.requests && t'.requests[input.id] == UpdateOutcome(t, input, now).value
    ensures t'.managers == t.managers && t'.nextManagerId == t.nextManagerId && t'.nextRequestId == t.nextRequestId
    ensures t'.requests.Keys == t.requests.Keys
    ensures forall id :: id in t.requests && id != input.id ==> t'.requests[id] == t.requests[id]
    ensures input.id in t.requests ==> SameRequestData(t'.requests[input.id], t.requests[input.id])
  {
    match UpdateOutcome(t, input, now)
    case Failure(_) => t
    case Success(row) => t.(requests := t.requests[input.id := row])
  }

  /** A successful update keeps the schema's guarantees and the lifecycle invariant: the
      request leaves `PENDING` with approver and time set together, its rejection reason was
      null while pending and is written only for a rejection, and the approver exists. */
  lemma UpdatePreservesInvariants(t: Tables, input: UpdateLeaveStatusInput, now: Timestamp)
    requires WellFormed(t) && LifecycleInvariant(t)
    requires UpdateInputValid(input)
    ensures WellFormed(AfterUpdate(t, input, now))
    ensures LifecycleInvariant(AfterUpdate(t, input, now))
  {
    var t' := AfterUpdate(t, input, now);
    if UpdateOutcome(t, input, now).Success? {
      var before := t.requests[input.id];
      assert before.rejection_reason.None? by {
        assert before.status == PENDING;
      }
      forall id | id in t'.requests
        ensures (t'.requests[id].approved_by.None? <==> t'.requests[id].status == PENDING)
        ensures (t'.requests[id].approved_at.None? <==> t'.requests[id].status == PENDING)
        ensures t'.requests[id].rejection_reason.Some? ==> t'.requests[id].status == REJECTED
        ensures t'.requests[id].approved_by.Some? ==> t'.requests[id].approved_by.value in t'.managers
      {
        if id != input.id {
          assert t'.requests[id] == t.requests[id];
        }
      }
    }
  }

  /** The transition guard: once a request has been decided, any later call on it fails,
      whatever status it asks for; with an existing manager it fails as already processed. */
  lemma DecidedOnce(t: Tables, first: UpdateLeaveStatusInput, second: UpdateLeaveStatusInput, n1: Timestamp, n2: Timestamp)
    requires UpdateInputValid(first)
    requires UpdateOutcome(t, first, n1).Success?
    requires second.id == first.id
    ensures UpdateOutcome(AfterUpdate(t, first, n1), second, n2).Failure?
    ensures second.manager_id in t.managers ==>
      UpdateOutcome(AfterUpdate(t, first, n1), second, n2) == Failure(AlreadyProcessed)
  {
  }

  /** The handler, run as one atomic step; `now` stands for the clock that fills
      `approved_at`. */
  method UpdateLeaveStatus(db: Database, input: UpdateLeaveStatusInput, now: Timestamp)
    returns (r: Result<LeaveRequest, UpdateError>)
    requires db.Valid()
    requires UpdateInputValid(input)
    modifies db
    ensures db.Valid()
    ensures r == UpdateOutcome(old(db.Snapshot()), input, now)
    ensures db.Snapshot() == AfterUpdate(old(db.Snapshot()), input, now)
  {
    if input.manager_id !in db.managers {
      return Failure(ManagerNotFound);
    }
    if input.id !in db.requests {
      return Failure(LeaveRequestNotFound);
    }
    var existing := db.requests[input.id];
    if existing.status != PENDING {
      return Failure(AlreadyProcessed);
    }
    var updated := existing.(status := input.status, approved_by := Some(input.manager_id), approved_at := Some(now));
    if input.status == REJECTED && Truthy(input.rejection_reason) {
      updated := updated.(rejection_reason := input.rejection_reason);
    }
    db.requests := db.requests[input.id := updated];
    r := Success(updated);
  }
}
