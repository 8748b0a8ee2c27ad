/** `getLeaveRequests`: every stored request, newest `created_at` first, left-joined to its
    approving manager and projected back to the request's own columns. */
module GetLeaveRequestsHandler {
  import opened Common
  import opened DbSchema

  /** The rows with ids in [lo, hi), in id order: the table's natural (insertion) order. */
  function RowsBetween(m: map<int, LeaveRequest>, lo: int, hi: int): (rows: seq<LeaveRequest>)
    requires RequestsKeyedById(m)
    ensures forall x :: x in rows ==> x.id in m && m[x.id] == x && lo <= x.id < hi
    ensures forall id :: id in m && lo <= id < hi ==> multiset(rows)[m[id]] == 1
    decreases hi - lo
  {
    if lo >= hi then []
    else
      var rest := RowsBetween(m, lo + 1, hi);
      if lo in m then
        assert m[lo] !in rest;
        [m[lo]] + rest
      else rest
  }

  /** Newest first: `created_at` does not increase along the sequence. */
  predicate NewestFirst(s: seq<LeaveRequest>) {
    forall i, j :: 0 <= i < j < |s| ==> s[i].created_at >= s[j].created_at
  }

  /** Insert `x` into a newest-first sequence, before the first row that is not newer. */
  function InsertNewestFirst(x: LeaveRequest, s: seq<LeaveRequest>): (r: seq<LeaveRequest>)
    requires NewestFirst(s)
    ensures |r| == |s| + 1
    ensures r[0] == x || (s != [] && r[0] == s[0])
    ensures NewestFirst(r)
    ensures multiset(r) == multiset(s) + multiset{x}
  {
    if s == [] || x.created_at >= s[0].created_at then [x] + s
    else
      var tail := InsertNewestFirst(x, s[1..]);
      assert s == [s[0]] + s[1..];
      assert s[0].created_at >= tail[0].created_at;
      [s[0]] + tail
  }

  /** `ORDER BY created_at DESC`: a newest-first permutation of `s`. The order among equal
      timestamps is whatever this sort produces; the query leaves it unspecified. */
  function SortNewestFirst(s: seq<LeaveRequest>): (r: seq<LeaveRequest>)
    ensures NewestFirst(r)
    ensures multiset(r) == multiset(s)
  {
    if s == [] then []
    else
      assert s == [s[0]] + s[1..];
      InsertNewestFirst(s[0], SortNewestFirst(s[1..]))
  }

  /** A row of the left join: the request and, if `approved_by` names one, that manager. */
  datatype JoinedRow = JoinedRow(leave_requests: LeaveRequest, managers: Option<Manager>)

  /** `LEFT JOIN managers ON leave_requests.approved_by = managers.id`. The join is on the
      managers' primary key, so each request row yields exactly one joined row. */
  function LeftJoinManagers(rows: seq<LeaveRequest>, managers: map<int, Manager>): (j: seq<JoinedRow>)
    ensures |j| == |rows|
    ensures forall i :: 0 <= i < |j| ==> j[i].leave_requests == rows[i]
    ensures forall i :: 0 <= i < |j| ==>
      (j[i].managers.Some? <==> rows[i].approved_by.Some? && rows[i].approved_by.value in managers)
    ensures forall i :: 0 <= i < |j| && j[i].managers.Some? ==>
      j[i].managers.value == managers[rows[i].approved_by.value]
  {
    seq(|rows|, i requires 0 <= i < |rows| =>
      JoinedRow(rows[i],
                if rows[i].approved_by.Some? && rows[i].approved_by.value in managers
                then Some(managers[rows[i].approved_by.value]) else None))
  }

  /** The `results.map(...)` projection: each joined row back to the request's columns. */
  function ProjectRequests(j: seq<JoinedRow>): (rows: seq<LeaveRequest>)
    ensures |rows| == |j|
    ensures forall i :: 0 <= i < |rows| ==> rows[i] == j[i].leave_requests
  {
    seq(|j|, i requires 0 <= i < |j| => j[i].leave_requests)
  }

  /** The handler, a read-only query. The result holds every stored request exactly once,
      with all its fields (nulls included) as stored, and nothing else, newest first. */
  function GetLeaveRequests(t: Tables): (r: seq<LeaveRequest>)
    requires WellFormed(t)
    ensures NewestFirst(r)
    ensures forall x :: x in r ==> x.id in t.requests && t.requests[x.id] == x
    ensures forall id :: id in t.requests ==> multiset(r)[t.requests[id]] == 1
  {
    assert RequestsKeyedById(t.requests);
    var unsorted := RowsBetween(t.requests, 1, t.nextRequestId);
    var rows := SortNewestFirst(unsorted);
    assert forall x :: x in rows ==> x in unsorted by {
      forall x | x in rows ensures x in unsorted {
        assert x in multiset(rows);
      }
    }
    JoinThenProjectIsIdentity(rows, t.managers);
    ProjectRequests(LeftJoinManagers(rows, t.managers))
  }

  /** The left join neither drops nor duplicates nor alters a request row, so projecting it
      back gives exactly the rows it started from. */
  lemma JoinThenProjectIsIdentity(rows: seq<LeaveRequest>, managers: map<int, Manager>)
    ensures ProjectRequests(LeftJoinManagers(rows, managers)) == rows
  {
  }

  /** The request ids in [lo, hi). */
  ghost function IdsBetween(m: map<int, LeaveRequest>, lo: int, hi: int): set<int> {
    set id | id in m && lo <= id < hi
  }

  /** The natural-order scan yields one row per id in range. */
  lemma {:induction false} RowsBetweenLength(m: map<int, LeaveRequest>, lo: int, hi: int)
    requires RequestsKeyedById(m)
    ensures |RowsBetween(m, lo, hi)| == |IdsBetween(m, lo, hi)|
    decreases hi - lo
  {
    if lo >= hi {
      assert IdsBetween(m, lo, hi) == {};
    } else {
      RowsBetweenLength(m, lo + 1, hi);
      if lo in m {
        assert IdsBetween(m, lo, hi) == IdsBetween(m, lo + 1, hi) + {lo};
      } else {
        assert IdsBetween(m, lo, hi) == IdsBetween(m, lo + 1, hi);
      }
    }
  }

  /** The list has one entry per stored request, so it is empty exactly when the table is. */
  lemma ListLength(t: Tables)
    requires WellFormed(t)
    ensures |GetLeaveRequests(t)| == |t.requests|
    ensures GetLeaveRequests(t) == [] <==> t.requests == map[]
  {
    var rows := RowsBetween(t.requests, 1, t.nextRequestId);
    RowsBetweenLength(t.requests, 1, t.nextRequestId);
    assert IdsBetween(t.requests, 1, t.nextRequestId) == t.requests.Keys;
    assert |SortNewestFirst(rows)| == |rows| by {
      assert |multiset(SortNewestFirst(rows))| == |multiset(rows)|;
    }
  }
}
