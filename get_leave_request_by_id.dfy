/** `getLeaveRequestById`: the stored record with a given id, or null. */
module GetLeaveRequestByIdHandler {
  import opened Common
  import opened DbSchema
  import GetLeaveRequestsHandler

  /** The handler, a read-only lookup. A missing id yields null, never an error; a found
      record is returned with every field as stored, a null `approved_at` included. */
  function GetLeaveRequestById(t: Tables, id: int): (r: Option<LeaveRequest>)
    ensures r.None? <==> id !in t.requests
    ensures r.Some? ==> r.value == t.requests[id]
    ensures r.Some? && WellFormed(t) ==> r.value.id == id
    ensures r.Some? ==> (r.value.approved_at.None? <==> t.requests[id].approved_at.None?)
  {
    if id !in t.requests then None
    // The handler copies the row and re-wraps each timestamp as the same instant; a null
    // approval time stays null. As values, the copy is the stored row.
    else Some(t.requests[id])
  }

  /** The lookup and the listing agree: a record is found under `id` exactly when the list
      holds a record with that id, and it is that record. */
  lemma LookupAgreesWithList(t: Tables, id: int, x: LeaveRequest)
    requires WellFormed(t)
    ensures GetLeaveRequestById(t, id) == Some(x) <==> x in GetLeaveRequestsHandler.GetLeaveRequests(t) && x.id == id
  {
    var list := GetLeaveRequestsHandler.GetLeaveRequests(t);
    if id in t.requests && t.requests[id] == x {
      assert x in multiset(list);
    }
  }
}
