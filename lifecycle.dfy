/** The request lifecycle across any sequence of calls. Each call is validated first, as
    the router does, and reaches its handler only if validation accepts it; the read-only
    handlers cannot change the store, so only inserts of managers, creates and updates
    appear here. */
module Lifecycle {
  import opened Common
  import opened DbSchema
  import opened ApiSchema
  import opened CreateLeaveRequestHandler
  import opened UpdateLeaveStatusHandler

  /** A call that can change the store, with the clock reading it runs at. */
  datatype Call =
    | InsertManagerCall(values: NewManager, now: Timestamp)
    | CreateCall(createInput: RawCreateLeaveRequestInput, now: Timestamp)
    | UpdateCall(updateInput: RawUpdateLeaveStatusInput, now: Timestamp)

  /** The state machine of a request's status: `PENDING` may become `APPROVED` or
      `REJECTED`; both are terminal. */
  predicate CanTransition(from: LeaveStatus, to: LeaveStatus) {
    from == PENDING && to != PENDING
  }

  /** One routed call: an input the validator rejects leaves the store unchanged; an
      accepted one runs its handler on the validated input. No call removes a row. */
  function Step(t: Tables, c: Call, parseDate: string -> Option<Timestamp>): (t': Tables)
    ensures c.InsertManagerCall? ==> t' == AfterManagerInsert(t, c.values, c.now)
    ensures c.CreateCall? && ParseCreateLeaveRequestInput(c.createInput, parseDate).Failure? ==> t' == t
    ensures c.CreateCall? && ParseCreateLeaveRequestInput(c.createInput, parseDate).Success? ==>
      var input := ParseCreateLeaveRequestInput(c.createInput, parseDate).value;
      t' == AfterCreate(t, input, parseDate(input.leave_date).value, c.now)
    ensures c.UpdateCall? && ParseUpdateLeaveStatusInput(c.updateInput).Failure? ==> t' == t
    ensures c.UpdateCall? && ParseUpdateLeaveStatusInput(c.updateInput).Success? ==>
      t' == AfterUpdate(t, ParseUpdateLeaveStatusInput(c.updateInput).value, c.now)
    ensures t.requests.Keys <= t'.requests.Keys && t.managers.Keys <= t'.managers.Keys
  {
    match c
    case InsertManagerCall(values, now) => AfterManagerInsert(t, values, now)
    case CreateCall(raw, now) =>
      (match ParseCreateLeaveRequestInput(raw, parseDate)
       case Failure(_) => t
       case Success(input) => AfterCreate(t, input, parseDate(input.leave_date).value, now))
    case UpdateCall(raw, now) =>
      (match ParseUpdateLeaveStatusInput(raw)
       case Failure(_) => t
       case Success(input) => AfterUpdate(t, input, now))
  }

  /** The calls run one after another, each to completion; no row is ever removed and
      neither sequence goes back. */
  function Run(t: Tables, calls: seq<Call>, parseDate: string -> Option<Timestamp>): (t': Tables)
    ensures t.requests.Keys <= t'.requests.Keys && t.managers.Keys <= t'.managers.Keys
    ensures t.nextRequestId <= t'.nextRequestId && t.nextManagerId <= t'.nextManagerId
    decreases |calls|
  {
    if calls == [] then t else Run(Step(t, calls[0], parseDate), calls[1..], parseDate)
  }

  /** Running two batches of calls one after the other is running them as one sequence. */
  lemma {:induction false} RunConcat(t: Tables, a: seq<Call>, b: seq<Call>, parseDate: string -> Option<Timestamp>)
    ensures Run(t, a + b, parseDate) == Run(Run(t, a, parseDate), b, parseDate)
    decreases |a|
  {
    if a != [] {
      assert (a + b)[0] == a[0] && (a + b)[1..] == a[1..] + b;
      RunConcat(Step(t, a[0], parseDate), a[1..], b, parseDate);
    } else {
      assert a + b == b;
    }
  }

  /** One step keeps the schema's guarantees, never alters a request's own data, and changes
      a status only from `PENDING` to a decision. It needs nothing beyond what the schema
      enforces: in particular, not that every approver exists. */
  lemma StepKeepsRequests(t: Tables, c: Call, parseDate: string -> Option<Timestamp>)
    requires WellFormed(t)
    ensures WellFormed(Step(t, c, parseDate))
    ensures forall id :: id in t.requests ==>
      && SameRequestData(Step(t, c, parseDate).requests[id], t.requests[id])
      && (Step(t, c, parseDate).requests[id] == t.requests[id]
          || CanTransition(t.requests[id].status, Step(t, c, parseDate).requests[id].status))
  {
  }

  /** On a well-formed store, one step keeps every approver naming an existing manager. */
  lemma StepKeepsApprovers(t: Tables, c: Call, parseDate: string -> Option<Timestamp>)
    requires WellFormed(t) && ApproversExist(t)
    ensures ApproversExist(Step(t, c, parseDate))
  {
  }

  /** On a well-formed store whose approvers all exist, they still all exist after any
      sequence of calls; the rest of the lifecycle invariant is not needed for this. */
  lemma {:induction false} RunKeepsApprovers(t: Tables, calls: seq<Call>, parseDate: string -> Option<Timestamp>)
    requires WellFormed(t) && ApproversExist(t)
    ensures ApproversExist(Run(t, calls, parseDate))
    decreases |calls|
  {
    if calls != [] {
      StepKeepsRequests(t, calls[0], parseDate);
      StepKeepsApprovers(t, calls[0], parseDate);
      RunKeepsApprovers(Step(t, calls[0], parseDate), calls[1..], parseDate);
    }
  }

  /** One step keeps the schema's guarantees and the lifecycle invariant, and every status
      change it makes is a transition of the state machine that leaves the request's own
      data alone. */
  lemma StepPreservesInvariants(t: Tables, c: Call, parseDate: string -> Option<Timestamp>)
    requires WellFormed(t) && LifecycleInvariant(t)
    ensures WellFormed(Step(t, c, parseDate)) && LifecycleInvariant(Step(t, c, parseDate))
    ensures forall id :: id in t.requests ==>
      && SameRequestData(Step(t, c, parseDate).requests[id], t.requests[id])
      && (Step(t, c, parseDate).requests[id] == t.requests[id]
          || CanTransition(t.requests[id].status, Step(t, c, parseDate).requests[id].status))
  {
    match c
    case InsertManagerCall(_, _) =>
    case CreateCall(_, _) =>
    case UpdateCall(raw, now) =>
      match ParseUpdateLeaveStatusInput(raw)
      case Failure(_) =>
      case Success(input) =>
        UpdatePreservesInvariants(t, input, now);
  }

  /** Whatever calls run, the store stays well formed and the lifecycle invariant holds:
      `approved_by` and `approved_at` are null exactly while a request is pending, a
      rejection reason appears only on a rejected request, and every approver exists. */
  lemma {:induction false} RunPreservesInvariants(t: Tables, calls: seq<Call>, parseDate: string -> Option<Timestamp>)
    requires WellFormed(t) && LifecycleInvariant(t)
    ensures WellFormed(Run(t, calls, parseDate)) && LifecycleInvariant(Run(t, calls, parseDate))
    decreases |calls|
  {
    if calls != [] {
      StepPreservesInvariants(t, calls[0], parseDate);
      RunPreservesInvariants(Step(t, calls[0], parseDate), calls[1..], parseDate);
    }
  }

  /** A decision is final: once a request is approved or rejected, no sequence of calls
      removes it or changes any of its fields. */
  lemma {:induction false} DecisionIsFinal(t: Tables, calls: seq<Call>, parseDate: string -> Option<Timestamp>, id: int)
    requires WellFormed(t)
    requires id in t.requests && t.requests[id].status != PENDING
    ensures id in Run(t, calls, parseDate).requests
    ensures Run(t, calls, parseDate).requests[id] == t.requests[id]
    decreases |calls|
  {
    if calls != [] {
      var t' := Step(t, calls[0], parseDate);
      StepKeepsRequests(t, calls[0], parseDate);
      assert t'.requests[id] == t.requests[id];
      DecisionIsFinal(t', calls[1..], parseDate, id);
    }
  }

  /** A request, once created, is never removed; its own data never changes; and its status
      either stays as it is or has made one transition of the state machine. */
  lemma {:induction false} StatusOnlyMovesForward(t: Tables, calls: seq<Call>, parseDate: string -> Option<Timestamp>, id: int)
    requires WellFormed(t)
    requires id in t.requests
    ensures id in Run(t, calls, parseDate).requests
    ensures SameRequestData(Run(t, calls, parseDate).requests[id], t.requests[id])
    ensures Run(t, calls, parseDate).requests[id].status == t.requests[id].status
         || CanTransition(t.requests[id].status, Run(t, calls, parseDate).requests[id].status)
    decreases |calls|
  {
    if calls != [] {
      var t' := Step(t, calls[0], parseDate);
      StepKeepsRequests(t, calls[0], parseDate);
      StatusOnlyMovesForward(t', calls[1..], parseDate, id);
      if t'.requests[id].status != PENDING {
        DecisionIsFinal(t', calls[1..], parseDate, id);
      }
    }
  }

  /** The scenario the handlers' tests walk through, on the database object: a manager is
      inserted, a request created and approved, and a second decision on it is refused. */
  method ApproveOnceScenario(parseDate: string -> Option<Timestamp>, now: Timestamp)
    returns (created: LeaveRequest, approved: Result<LeaveRequest, UpdateError>, again: Result<LeaveRequest, UpdateError>)
    requires parseDate("2024-01-15").Some?
    ensures created.status == PENDING && created.approved_by.None? && created.approved_at.None?
    ensures created.leave_date == parseDate("2024-01-15").value && created.created_at == now
    ensures approved.Success? && approved.value.id == created.id
    ensures approved.value.status == APPROVED && approved.value.approved_by.Some?
    ensures approved.value.approved_at == Some(now + 1) && approved.value.rejection_reason.None?
    ensures SameRequestData(approved.value, created)
    ensures again == Failure(AlreadyProcessed)
    ensures ErrorMessage(again.error) == "Leave request has already been processed"
  {
    var db := new Database();
    var m := db.InsertManager(NewManager("manager1", "hashed_password", "John Manager", MANAGER, "+1234567890", None), now);
    assert m.Success?;
    var input := CreateLeaveRequestInput("EMP001", IT, "Medical appointment", "2024-01-15", "New York Office");
    created := CreateLeaveRequest(db, input, parseDate, now);
    approved := UpdateLeaveStatus(db, UpdateLeaveStatusInput(created.id, APPROVED, m.value.id, None), now + 1);
    again := UpdateLeaveStatus(db, UpdateLeaveStatusInput(created.id, REJECTED, m.value.id, Some("Insufficient notice")), now + 2);
  }
}
