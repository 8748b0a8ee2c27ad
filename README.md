# Leave-request store and lifecycle, modelled in Dafny

This project models the server core of a small leave-request workflow. Employees submit
leave requests. Managers log in and approve or reject them. The database holds two tables,
`managers` and `leave_requests`. The model represents them as maps from id to record, with
one serial counter per table (`DbSchema.Tables` as a value, `DbSchema.Database` as the
object the handlers update in place).

On top of that store the model gives the handlers:

- `createLeaveRequest` inserts a `PENDING` row with a fresh id.
- `updateLeaveStatus` runs three ordered guards (the manager exists, the request exists,
  the request is still `PENDING`), then updates one row.
- `getLeaveRequests` lists every request, newest `created_at` first.
- `getLeaveRequestById` returns the record or null.
- `managerLogin` looks up the manager by username, checks the password, and returns a
  uniform failure or a minimal identity.

The router validates every input against its schema before it calls a handler. So the
validators (`ApiSchema`) are modelled as functions, and what they guarantee becomes each
handler's precondition. `Lifecycle` runs any sequence of routed calls and proves the request
lifecycle invariants over all of them.

Layout: `common.dfy` (Option, Result), `db_schema.dfy`, `api_schema.dfy`, one file per
handler, and `lifecycle.dfy`.

Three foreign primitives are parameters:

- `Date.parse` / `new Date(string)` is `parseDate: string -> Option<Timestamp>`, where
  `None` stands for NaN.
- The clock is a `now: Timestamp` argument.
- `Bun.password.verify` is `verify: (string, string) -> bool`, applied to
  (password, stored hash).

Three points about the code that the model follows:

- No handler calls the notification sender, so neither a create nor a status change sends
  a notification here.
- `approved_by` carries only an ORM relation to `managers`, with no foreign-key constraint.
  `WellFormed` therefore does not require it to name a manager. `ApproversExist` is an
  invariant the handlers keep when it holds to begin with (`RunKeepsApprovers`); the
  finality of a decision (`DecisionIsFinal`, `StatusOnlyMovesForward`) does not depend on it.
- The rejection reason is written only when it is truthy, so an empty string counts as
  absent (`Truthy`).

## Model

| member | source | states |
|---|---|---|
| `DbSchema.WellFormed` | server/src/db/schema.ts:30-41 | What inserts through the serial sequences and the unique username guarantee: every row is stored under its own id, drawn from its sequence and so in [1, next), and no two managers share a username; so the next value of each sequence names no existing row |
| `DbSchema.NewManagerRow` | server/src/db/schema.ts:29-37 | A manager row keeps every supplied column, a supplied `created_at` included; an omitted `created_at` defaults to now |
| `DbSchema.ManagerInsertOutcome` | server/src/db/schema.ts:31 | A manager insert fails exactly when the username is already taken (unique constraint); otherwise the returned row is the supplied columns under the next serial id |
| `DbSchema.AfterManagerInsert` | server/src/db/schema.ts:29-37 | A failed manager insert adds no manager; a successful one adds exactly the returned row under the old sequence value; either way it leaves `leave_requests` alone, keeps existing managers, advances the sequence, and preserves well-formedness (unique usernames) and the lifecycle invariant |
| `DbSchema.NewRequestRow` | server/src/db/schema.ts:40-52 | A request inserted without a status gets `PENDING`; `approved_by`, `approved_at` and `rejection_reason` are null unless supplied; a supplied `created_at` is kept, an omitted one defaults to now |
| `DbSchema.AfterRequestInsert` | server/src/db/schema.ts:41 | An insert adds exactly one row, under an id no existing row has, keeps every existing row, and preserves well-formedness |
| `DbSchema.Database.constructor` | server/src/db/schema.ts:29-52 | A new database has two empty tables and both sequences at 1 |
| `DbSchema.Database.InsertManager` | server/src/db/schema.ts:29-37 | The in-place insert returns and stores what `ManagerInsertOutcome` and `AfterManagerInsert` describe |
| `DbSchema.Database.InsertLeaveRequest` | server/src/db/schema.ts:40-52 | The in-place insert stores the defaulted row under a fresh id and returns the stored row |
| `ApiSchema.ParseDepartment` | server/src/schema.ts:5-14 | Accepts exactly the eight department names; an accepted string is that department's name |
| `ApiSchema.DepartmentRoundTrip` | server/src/schema.ts:5-14 | Every department's name is accepted and read back as that department |
| `ApiSchema.ParseTargetStatus` | server/src/schema.ts:81 | An update target is `APPROVED` or `REJECTED` and never `PENDING` |
| `ApiSchema.PendingIsNoTarget` | server/src/schema.ts:81 | The string `PENDING` is rejected as an update target |
| `ApiSchema.IssueMessage` | server/src/schema.ts:61-73 | Each custom check carries its own message, and each message belongs to exactly one check; the two enumeration checks carry none of the schema's own |
| `ApiSchema.CreateIssues` | server/src/schema.ts:60-66 | Each field issue is reported exactly when its check fails: an empty employee id, reason or location (blanks pass), an unknown department, or an unparseable date; no other issue appears and each appears once (one issue per failing check); no issues iff all checks pass |
| `ApiSchema.CreateIssuesInFieldOrder` | server/src/schema.ts:60-66 | The create issues come in the order of the schema's fields: employee id, department, reason, date, location |
| `ApiSchema.ParseCreateLeaveRequestInput` | server/src/schema.ts:60-66 | A create input is accepted iff it has no issues; the accepted input carries the fields unchanged and meets the create handler's precondition |
| `ApiSchema.ParseUpdateLeaveStatusInput` | server/src/schema.ts:79-84 | An update input is accepted iff its status is `APPROVED` or `REJECTED`; the rejection reason is optional and passed through |
| `ApiSchema.LoginIssues` | server/src/schema.ts:71-74 | A login input is rejected exactly when the username or the password is empty, with one issue per empty field and no other, the username issue first |
| `CreateLeaveRequestHandler.CreateValues` | server/src/handlers/create_leave_request.ts:10-17 | The handler inserts the input's fields, the converted date and an explicit `PENDING`, and supplies no approval columns |
| `CreateLeaveRequestHandler.CreatedRecord` | server/src/handlers/create_leave_request.ts:9-23 | The created record is `PENDING` with null `approved_by`, `approved_at` and `rejection_reason`, stores the input fields exactly and the parsed date, and has an id not in the table |
| `CreateLeaveRequestHandler.AfterCreate` | server/src/handlers/create_leave_request.ts:9-19 | A create adds exactly the created record, keeps every other row and the managers, advances the request sequence by one and leaves the manager sequence alone, and preserves well-formedness and the lifecycle invariant |
| `CreateLeaveRequestHandler.CreateLeaveRequest` | server/src/handlers/create_leave_request.ts:6-28 | The handler on the database object returns the stored record, with `leave_date` the parsed input date and an id not previously present |
| `UpdateLeaveStatusHandler.ErrorMessage` | server/src/handlers/update_leave_status.ts:16-30 | Each guard throws its own message, and the message alone tells the three failures apart |
| `UpdateLeaveStatusHandler.Decided` | server/src/handlers/update_leave_status.ts:33-43 | A decision sets status, `approved_by` and `approved_at`; it writes the rejection reason only for a rejection with a non-empty reason and otherwise keeps the old one; the request's own data is untouched |
| `UpdateLeaveStatusHandler.UpdateOutcome` | server/src/handlers/update_leave_status.ts:9-31 | A missing manager fails with "Manager not found" whatever the request; otherwise a missing request fails with "Leave request not found"; otherwise a non-pending one fails as already processed; a pending one is decided |
| `UpdateLeaveStatusHandler.AfterUpdate` | server/src/handlers/update_leave_status.ts:45-52 | A failed update changes nothing; a successful one changes only the row `input.id`, which becomes the returned record, and keeps its own data |
| `UpdateLeaveStatusHandler.UpdatePreservesInvariants` | server/src/handlers/update_leave_status.ts:33-50 | An update keeps well-formedness and the lifecycle invariant (approval fields null iff pending, a reason only on a rejection, the approver exists) |
| `UpdateLeaveStatusHandler.DecidedOnce` | server/src/handlers/update_leave_status.ts:29-31 | After one successful update, any later update of that id fails, as already processed when the manager exists |
| `UpdateLeaveStatusHandler.UpdateLeaveStatus` | server/src/handlers/update_leave_status.ts:7-57 | The handler on the database object, with early error returns, returns `UpdateOutcome` and leaves the database as `AfterUpdate` |
| `GetLeaveRequestsHandler.RowsBetween` | server/src/handlers/get_leave_requests.ts:10-11 | The table scan yields every row with an id in range exactly once, as stored, and nothing else |
| `GetLeaveRequestsHandler.InsertNewestFirst` | server/src/handlers/get_leave_requests.ts:13 | Inserting into a newest-first list keeps it newest-first and adds exactly that row |
| `GetLeaveRequestsHandler.SortNewestFirst` | server/src/handlers/get_leave_requests.ts:13 | `ORDER BY created_at DESC` yields a newest-first permutation of its input |
| `GetLeaveRequestsHandler.LeftJoinManagers` | server/src/handlers/get_leave_requests.ts:12 | The left join on the manager key gives one joined row per request row, carrying a manager exactly when `approved_by` names one, and then the manager stored under that id |
| `GetLeaveRequestsHandler.ProjectRequests` | server/src/handlers/get_leave_requests.ts:17-29 | The projection keeps only the request's own columns, one per joined row |
| `GetLeaveRequestsHandler.JoinThenProjectIsIdentity` | server/src/handlers/get_leave_requests.ts:10-29 | Joining to managers and projecting back returns the request rows unchanged |
| `GetLeaveRequestsHandler.GetLeaveRequests` | server/src/handlers/get_leave_requests.ts:7-34 | The list is newest-first, holds every stored request exactly once with its stored fields, and nothing else |
| `GetLeaveRequestsHandler.RowsBetweenLength` | server/src/handlers/get_leave_requests.ts:10-11 | The scan yields as many rows as there are ids in range |
| `GetLeaveRequestsHandler.ListLength` | server/src/handlers/get_leave_requests.ts:10-29 | The list is as long as the table, so it is empty exactly when the table is |
| `GetLeaveRequestByIdHandler.GetLeaveRequestById` | server/src/handlers/get_leave_request_by_id.ts:7-30 | A missing id gives null, never an error; a found record is the stored one, with the requested id, and a null `approved_at` stays null |
| `GetLeaveRequestByIdHandler.LookupAgreesWithList` | server/src/handlers/get_leave_request_by_id.ts:9-25 | The lookup finds a record under an id exactly when the listing holds that record with that id |
| `ManagerLoginHandler.FindByUsername` | server/src/handlers/manager_login.ts:10-13 | The username query returns a stored manager with exactly that username, or none when no manager in range has it |
| `ManagerLoginHandler.LoginSucceeded` | server/src/handlers/manager_login.ts:37-45 | A success response says "Login successful" and carries only id, name and role, the role unchanged |
| `ManagerLoginHandler.ManagerLogin` | server/src/handlers/manager_login.ts:7-50 | Login succeeds iff a manager has the username and the password verifies against its hash; it then names that manager; every failure is the one "Invalid credentials" response |
| `ManagerLoginHandler.FailuresAreIndistinguishable` | server/src/handlers/manager_login.ts:15-34 | An unknown username and a wrong password give the identical response |
| `Lifecycle.Step` | server/src/index.ts:35-57 | A call whose input validation rejects leaves the store unchanged; an accepted create or update is exactly `AfterCreate` or `AfterUpdate` of the validated input; a manager insert is `AfterManagerInsert`; no call removes a row |
| `Lifecycle.Run` | server/src/index.ts:35-57 | Calls run one after another; no request or manager is ever removed and neither sequence goes back |
| `Lifecycle.RunConcat` | server/src/index.ts:35-57 | Running two batches of calls in turn is the same as running them as one sequence |
| `Lifecycle.StepKeepsRequests` | server/src/handlers/update_leave_status.ts:29-43 | On any well-formed store, one call keeps it well formed, never alters a request's own data, and changes a status only from `PENDING` to a decision |
| `Lifecycle.StepPreservesInvariants` | server/src/handlers/update_leave_status.ts:29-43 | One call keeps the invariants, never alters a request's own data, and changes a status only from `PENDING` to a decision |
| `Lifecycle.StepKeepsApprovers` | server/src/handlers/update_leave_status.ts:9-17 | On a well-formed store whose approvers all exist, one call keeps every approver naming an existing manager |
| `Lifecycle.RunKeepsApprovers` | server/src/handlers/update_leave_status.ts:9-17 | The same over any sequence of calls, without the rest of the lifecycle invariant |
| `Lifecycle.RunPreservesInvariants` | server/src/handlers/update_leave_status.ts:34-43 | Over any sequence of calls, approval fields are null iff pending, a reason appears only on a rejection, and every approver exists |
| `Lifecycle.DecisionIsFinal` | server/src/handlers/update_leave_status.ts:29-31 | On any well-formed store, whether or not its approvers exist: once approved or rejected, a request is never changed again by any sequence of calls |
| `Lifecycle.StatusOnlyMovesForward` | server/src/handlers/update_leave_status.ts:29-50 | On any well-formed store, whether or not its approvers exist: over any sequence of calls, a request is never removed, its own data never changes, and its status moves at most once, from `PENDING` to a decision |
| `Lifecycle.ApproveOnceScenario` | server/src/tests/update_leave_status.test.ts:137-155 | On a fresh database, with the create handler's test input (server/src/tests/create_leave_request.test.ts:11-17) in place of the directly inserted row: a created request is `PENDING` with no approval; approving it sets status, approver and time and keeps its data; a second decision on it fails as already processed |

## Left out

- Notification sending: the sender is a placeholder that always succeeds, and no handler calls it. Phone formatting, retry and backoff are not implemented in the code.
- CSV export: the handler returns a fixed placeholder buffer. Columns, quoting and date formatting are not implemented in the code.
- The HTTP/RPC server, CORS, ports and serialisation are I/O plumbing. The model keeps only the fact that validation runs before each handler.
- Concurrency is not modelled. Each handler runs as one atomic step, so the window between the status check and the write in `updateLeaveStatus` is not represented.
- Password hashing, date parsing and the clock are parameters, not implementations.
- Logging and the catch-and-rethrow wrappers are not modelled. A database error other than the unique-username violation is not modelled either.
- `ApiSchema.CreateIssues`: the raw create input arrives with every field present and a string. A missing field or a non-string field such as `department`, which the validation library rejects with an invalid-type issue, cannot be represented, so the contract characterises only string-typed input.
- `ApiSchema.ParseUpdateLeaveStatusInput`: the raw update input arrives with `id` and `manager_id` as numbers, `status` as a string and `rejection_reason` absent or a string. A missing field, a wrongly typed one or a `null` `rejection_reason`, each rejected by the validation library with an invalid-type issue, cannot be represented.
- `ApiSchema.LoginIssues`: the login input arrives with both fields present and strings; a missing or non-string field, rejected by the validation library with an invalid-type issue, cannot be represented.
- Numbers are integers. A JavaScript number input that is not an integer (for `id` or `manager_id`) is not represented. The id columns are 32-bit: an `id` or `manager_id` above 2^31-1 is a database error (out of range for type integer), which the model's unbounded integers turn into a not-found result instead.
- Inserts that supply an explicit `id` are not modelled: every id comes from its sequence and lies in [1, next), which the scans of `GetLeaveRequestsHandler.GetLeaveRequests` and `ManagerLoginHandler.FindByUsername` rely on.
- Enumeration issue messages: the validation library's default wording for an enumeration failure is not modelled. Only the schema's own custom messages are.
- `GetLeaveRequestsHandler.GetLeaveRequests`: rows with equal `created_at` come out in one fixed order, which the query leaves unspecified. The contract promises only non-increasing `created_at`.
- Deleting rows and updating managers: no handler does either.
