/** The input and response schemas of the API: enumerations as names on the wire, and the
    validators that run before any handler is called. A validator returns either the typed
    input or every issue it found, in field order. */
module ApiSchema {
  import opened Common
  import opened DbSchema

  /** The wire name of a department. */
  function DepartmentName(d: Department): string {
    match d
    case HR => "HR"
    case FINANCE => "FINANCE"
    case PRODUCTION => "PRODUCTION"
    case MARKETING => "MARKETING"
    case IT => "IT"
    case OPERATIONS => "OPERATIONS"
    case QUALITY_CONTROL => "QUALITY_CONTROL"
    case LOGISTICS => "LOGISTICS"
  }

  /** The department enumeration check: accepts exactly the eight department names. */
  function ParseDepartment(s: string): (r: Option<Department>)
    ensures r.Some? ==> DepartmentName(r.value) == s
    ensures r.None? ==> forall d :: DepartmentName(d) != s
  {
    if s == "HR" then Some(HR)
    else if s == "FINANCE" then Some(FINANCE)
    else if s == "PRODUCTION" then Some(PRODUCTION)
    else if s == "MARKETING" then Some(MARKETING)
    else if s == "IT" then Some(IT)
    else if s == "OPERATIONS" then Some(OPERATIONS)
    else if s == "QUALITY_CONTROL" then Some(QUALITY_CONTROL)
    else if s == "LOGISTICS" then Some(LOGISTICS)
    else None
  }

  /** Every department name is accepted and read back as that department. */
  lemma DepartmentRoundTrip(d: Department)
    ensures ParseDepartment(DepartmentName(d)) == Some(d)
  {
  }

  /** The wire name of a status. */
  function StatusName(s: LeaveStatus): string {
    match s
    case PENDING => "PENDING"
    case APPROVED => "APPROVED"
    case REJECTED => "REJECTED"
  }

  /** The status check of an update input: only `APPROVED` or `REJECTED`. */
  function ParseTargetStatus(s: string): (r: Option<LeaveStatus>)
    ensures r.Some? ==> r.value != PENDING && StatusName(r.value) == s
    ensures r.None? ==> forall st :: st != PENDING ==> StatusName(st) != s
  {
    if s == "APPROVED" then Some(APPROVED)
    else if s == "REJECTED" then Some(REJECTED)
    else None
  }

  /** `PENDING` is a status but not a valid target of an update. */
  lemma PendingIsNoTarget()
    ensures ParseTargetStatus(StatusName(PENDING)) == None
  {
  }

  /** A validation issue, one per failing field check. */
  datatype Issue =
    | EmployeeIdRequired
    | InvalidDepartment(received: string)
    | ReasonRequired
    | InvalidDateFormat
    | LocationRequired
    | UsernameRequired
    | PasswordRequired
    | InvalidStatus(received: string)

  /** The message the schema attaches to a custom check; the enumeration checks use the
      validation library's own wording, which is not part of this model. Each custom message
      belongs to exactly one check. */
  function IssueMessage(i: Issue): (msg: Option<string>)
    ensures msg.None? <==> i.InvalidDepartment? || i.InvalidStatus?
    ensures msg == Some("Employee ID is required") <==> i == EmployeeIdRequired
    ensures msg == Some("Reason is required") <==> i == ReasonRequired
    ensures msg == Some("Invalid date format") <==> i == InvalidDateFormat
    ensures msg == Some("Location is required") <==> i == LocationRequired
    ensures msg == Some("Username is required") <==> i == UsernameRequired
    ensures msg == Some("Password is required") <==> i == PasswordRequired
  {
    match i
    case EmployeeIdRequired => Some("Employee ID is required")
    case ReasonRequired => Some("Reason is required")
    case InvalidDateFormat => Some("Invalid date format")
    case LocationRequired => Some("Location is required")
    case UsernameRequired => Some("Username is required")
    case PasswordRequired => Some("Password is required")
    case InvalidDepartment(_) => None
    case InvalidStatus(_) => None
  }

  /** The position of an issue's field in its schema's shape; the validation library
      reports issues in this order. */
  function FieldRank(i: Issue): nat {
    match i
    case EmployeeIdRequired => 0
    case InvalidDepartment(_) => 1
    case ReasonRequired => 2
    case InvalidDateFormat => 3
    case LocationRequired => 4
    case UsernameRequired => 0
    case PasswordRequired => 1
    case InvalidStatus(_) => 1
  }

  /** Issues listed in the order of their fields, at most one per field. */
  predicate InFieldOrder(issues: seq<Issue>) {
    forall a, b :: 0 <= a < b < |issues| ==> FieldRank(issues[a]) < FieldRank(issues[b])
  }

  /** Appending at most one issue of field `k` after issues of earlier fields keeps the order. */
  lemma AppendInFieldOrder(s: seq<Issue>, t: seq<Issue>, k: nat)
    requires InFieldOrder(s) && (forall x :: x in s ==> FieldRank(x) < k)
    requires |t| <= 1 && (forall y :: y in t ==> FieldRank(y) == k)
    ensures InFieldOrder(s + t) && (forall x :: x in s + t ==> FieldRank(x) <= k)
  {
    forall a, b | 0 <= a < b < |s + t|
      ensures FieldRank((s + t)[a]) < FieldRank((s + t)[b])
    {
      if b >= |s| {
        assert (s + t)[a] == s[a] && (s + t)[b] in t;
      }
    }
  }

  /** A create request as it arrives, every field a string. */
  datatype RawCreateLeaveRequestInput = RawCreateLeaveRequestInput(
    employee_id: string,
    department: string,
    reason: string,
    leave_date: string,
    location: string)

  /** A create request after validation: the department is an enumeration value; the date
      is still the string the handler converts. */
  datatype CreateLeaveRequestInput = CreateLeaveRequestInput(
    employee_id: string,
    department: Department,
    reason: string,
    leave_date: string,
    location: string)

  /** What validation guarantees of a create input, and so what the create handler may
      rely on. `parseDate` stands for `Date.parse`, `None` for NaN. */
  predicate CreateInputValid(input: CreateLeaveRequestInput, parseDate: string -> Option<Timestamp>) {
    && |input.employee_id| >= 1
    && |input.reason| >= 1
    && parseDate(input.leave_date).Some?
    && |input.location| >= 1
  }

  /** The issues of a create input, in field order. Only emptiness is checked: a string of
      blanks passes. */
  function CreateIssues(raw: RawCreateLeaveRequestInput, parseDate: string -> Option<Timestamp>): (issues: seq<Issue>)
    ensures EmployeeIdRequired in issues <==> |raw.employee_id| == 0
    ensures InvalidDepartment(raw.department) in issues <==> ParseDepartment(raw.department).None?
    ensures ReasonRequired in issues <==> |raw.reason| == 0
    ensures InvalidDateFormat in issues <==> parseDate(raw.leave_date).None?
    ensures LocationRequired in issues <==> |raw.location| == 0
    ensures issues == [] <==>
      && |raw.employee_id| >= 1
      && ParseDepartment(raw.department).Some?
      && |raw.reason| >= 1
      && parseDate(raw.leave_date).Some?
      && |raw.location| >= 1
    ensures forall i :: i in issues ==>
      i == EmployeeIdRequired || i == InvalidDepartment(raw.department) || i == ReasonRequired
      || i == InvalidDateFormat || i == LocationRequired
    ensures |issues| ==
      (if |raw.employee_id| == 0 then 1 else 0)
      + (if ParseDepartment(raw.department).None? then 1 else 0)
      + (if |raw.reason| == 0 then 1 else 0)
      + (if parseDate(raw.leave_date).None? then 1 else 0)
      + (if |raw.location| == 0 then 1 else 0)
  {
    var employeeId := if |raw.employee_id| < 1 then [EmployeeIdRequired] else [];
    var department := if ParseDepartment(raw.department).None? then [InvalidDepartment(raw.department)] else [];
    var reason := if |raw.reason| < 1 then [ReasonRequired] else [];
    var leaveDate := if parseDate(raw.leave_date).None? then [InvalidDateFormat] else [];
    var location := if |raw.location| < 1 then [LocationRequired] else [];
    employeeId + department + reason + leaveDate + location
  }

  /** Five groups of at most one issue each, of fields 0 to 4 in turn, are in field order
      once concatenated. */
  lemma {:induction false} FiveInFieldOrder(e: seq<Issue>, d: seq<Issue>, r: seq<Issue>, l: seq<Issue>, o: seq<Issue>)
    requires |e| <= 1 && (forall x :: x in e ==> FieldRank(x) == 0)
    requires |d| <= 1 && (forall x :: x in d ==> FieldRank(x) == 1)
    requires |r| <= 1 && (forall x :: x in r ==> FieldRank(x) == 2)
    requires |l| <= 1 && (forall x :: x in l ==> FieldRank(x) == 3)
    requires |o| <= 1 && (forall x :: x in o ==> FieldRank(x) == 4)
    ensures InFieldOrder(e + d + r + l + o)
  {
    AppendInFieldOrder([], e, 0);
    assert [] + e == e;
    AppendInFieldOrder(e, d, 1);
    AppendInFieldOrder(e + d, r, 2);
    AppendInFieldOrder(e + d + r, l, 3);
    AppendInFieldOrder(e + d + r + l, o, 4);
  }

  /** The create issues come in the order of the schema's fields, at most one per field. */
  lemma CreateIssuesInFieldOrder(raw: RawCreateLeaveRequestInput, parseDate: string -> Option<Timestamp>)
    ensures InFieldOrder(CreateIssues(raw, parseDate))
  {
    FiveInFieldOrder(if |raw.employee_id| < 1 then [EmployeeIdRequired] else [],
                     if ParseDepartment(raw.department).None? then [InvalidDepartment(raw.department)] else [],
                     if |raw.reason| < 1 then [ReasonRequired] else [],
                     if parseDate(raw.leave_date).None? then [InvalidDateFormat] else [],
                     if |raw.location| < 1 then [LocationRequired] else []);
  }

  /** `createLeaveRequestInputSchema.parse`. */
  function ParseCreateLeaveRequestInput(raw: RawCreateLeaveRequestInput, parseDate: string -> Option<Timestamp>)
    : (r: Result<CreateLeaveRequestInput, seq<Issue>>)
    ensures r.Failure? ==> r.error != [] && r.error == CreateIssues(raw, parseDate)
    ensures r.Success? ==> CreateInputValid(r.value, parseDate)
    ensures r.Success? ==>
      && r.value.employee_id == raw.employee_id
      && DepartmentName(r.value.department) == raw.department
      && r.value.reason == raw.reason
      && r.value.leave_date == raw.leave_date
      && r.value.location == raw.location
  {
    var issues := CreateIssues(raw, parseDate);
    if issues != [] then Failure(issues)
    else Success(CreateLeaveRequestInput(raw.employee_id, ParseDepartment(raw.department).value,
                                         raw.reason, raw.leave_date, raw.location))
  }

  /** An update request as it arrives. */
  datatype RawUpdateLeaveStatusInput = RawUpdateLeaveStatusInput(
    id: int,
    status: string,
    manager_id: int,
    rejection_reason: Option<string>)

  /** An update request after validation. */
  datatype UpdateLeaveStatusInput = UpdateLeaveStatusInput(
    id: int,
    status: LeaveStatus,
    manager_id: int,
    rejection_reason: Option<string>)

  /** What validation guarantees of an update input: the target status is not `PENDING`. */
  predicate UpdateInputValid(input: UpdateLeaveStatusInput) {
    input.status != PENDING
  }

  /** `updateLeaveStatusInputSchema.parse`: the status must be `APPROVED` or `REJECTED`;
      the rejection reason is optional and passed through as given. */
  function ParseUpdateLeaveStatusInput(raw: RawUpdateLeaveStatusInput): (r: Result<UpdateLeaveStatusInput, seq<Issue>>)
    ensures r.Success? <==> raw.status == "APPROVED" || raw.status == "REJECTED"
    ensures r.Failure? ==> r.error == [InvalidStatus(raw.status)]
    ensures r.Success? ==>
      && UpdateInputValid(r.value)
      && StatusName(r.value.status) == raw.status
      && r.value.id == raw.id
      && r.value.manager_id == raw.manager_id
      && r.value.rejection_reason == raw.rejection_reason
  {
    match ParseTargetStatus(raw.status)
    case None => Failure([InvalidStatus(raw.status)])
    case Some(st) => Success(UpdateLeaveStatusInput(raw.id, st, raw.manager_id, raw.rejection_reason))
  }

  /** A login request. */
  datatype ManagerLoginInput = ManagerLoginInput(username: string, password: string)

  /** What validation guarantees of a login input: neither field is empty. */
  predicate LoginInputValid(input: ManagerLoginInput) {
    |input.username| >= 1 && |input.password| >= 1
  }

  /** The issues of a login input, in field order. */
  function LoginIssues(input: ManagerLoginInput): (issues: seq<Issue>)
    ensures UsernameRequired in issues <==> |input.username| == 0
    ensures PasswordRequired in issues <==> |input.password| == 0
    ensures issues == [] <==> LoginInputValid(input)
    ensures forall i :: i in issues ==> i == UsernameRequired || i == PasswordRequired
    ensures |issues| == (if |input.username| == 0 then 1 else 0) + (if |input.password| == 0 then 1 else 0)
    ensures InFieldOrder(issues)
  {
    var username := if |input.username| < 1 then [UsernameRequired] else [];
    var password := if |input.password| < 1 then [PasswordRequired] else [];
    username + password
  }

  /** The identity a successful login reveals: id, name and role, nothing else. */
  datatype ManagerIdentity = ManagerIdentity(id: int, name: string, role: ManagerRole)

  /** The login response; `manager` is absent on failure. */
  datatype ManagerLoginResponse = ManagerLoginResponse(success: bool, message: string, manager: Option<ManagerIdentity>)
}
