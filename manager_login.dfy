/** `managerLogin`: find the manager by username, check the password, and answer with a
    uniform failure or a minimal identity. */
module ManagerLoginHandler {
  import opened Common
  import opened DbSchema
  import opened ApiSchema

  /** `SELECT * FROM managers WHERE username = ?`, first row: the manager with that
      username among ids [lo, hi), scanned in id order. */
  function FindByUsername(m: map<int, Manager>, username: string, lo: int, hi: int): (r: Option<Manager>)
    requires ManagersKeyedById(m)
    ensures r.Some? ==> r.value.id in m && m[r.value.id] == r.value && r.value.username == username
    ensures r.Some? ==> lo <= r.value.id < hi
    ensures r.None? ==> forall id :: id in m && lo <= id < hi ==> m[id].username != username
    decreases hi - lo
  {
    if lo >= hi then None
    else if lo in m && m[lo].username == username then Some(m[lo])
    else FindByUsername(m, username, lo + 1, hi)
  }

  /** The one failure response, for an unknown username and for a wrong password alike. */
  const InvalidCredentials := ManagerLoginResponse(false, "Invalid credentials", None)

  /** The success response for manager `m`: only its id, name and role. */
  function LoginSucceeded(m: Manager): (r: ManagerLoginResponse)
    ensures r.success && r.message == "Login successful"
    ensures r.manager == Some(ManagerIdentity(m.id, m.name, m.role))
  {
    ManagerLoginResponse(true, "Login successful", Some(ManagerIdentity(m.id, m.name, m.role)))
  }

  /** The handler, read-only. `verify` stands for the password-hash check, applied to
      (password, stored hash). Success happens exactly when a manager has the username and
      the check holds; the response then names that manager, and is otherwise the uniform
      failure. */
  function ManagerLogin(t: Tables, input: ManagerLoginInput, verify: (string, string) -> bool): (r: ManagerLoginResponse)
    requires WellFormed(t)
    requires LoginInputValid(input)
    ensures (forall id :: id in t.managers ==> t.managers[id].username != input.username) ==> r == InvalidCredentials
    ensures forall id :: id in t.managers && t.managers[id].username == input.username ==>
      r == (if verify(input.password, t.managers[id].password_hash) then LoginSucceeded(t.managers[id])
            else InvalidCredentials)
    ensures r.success <==>
      exists id :: id in t.managers && t.managers[id].username == input.username
                   && verify(input.password, t.managers[id].password_hash)
    ensures !r.success ==> r == InvalidCredentials
  {
    assert ManagersKeyedById(t.managers);
    match FindByUsername(t.managers, input.username, 1, t.nextManagerId)
    case None => InvalidCredentials
    case Some(m) => if verify(input.password, m.password_hash) then LoginSucceeded(m) else InvalidCredentials
  }

  /** A failed login reveals nothing: any two failures, whatever the store, the username or
      the reason, are the same response. */
  lemma FailuresAreIndistinguishable(t1: Tables, i1: ManagerLoginInput, v1: (string, string) -> bool,
                                     t2: Tables, i2: ManagerLoginInput, v2: (string, string) -> bool)
    requires WellFormed(t1) && LoginInputValid(i1)
    requires WellFormed(t2) && LoginInputValid(i2)
    requires !ManagerLogin(t1, i1, v1).success && !ManagerLogin(t2, i2, v2).success
    ensures ManagerLogin(t1, i1, v1) == ManagerLogin(t2, i2, v2)
  {
  }
}
