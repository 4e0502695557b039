/**
  Login, logout and the default administrator account of the web application.

  The session is an object whose values the handlers replace; Flask keeps the
  `permanent` flag among those values, so clearing the session also resets it.
  The password check is a parameter (the hash algorithm is not modelled).
 */
module App {
  import opened Common
  import opened Tables
  import opened Shifts
  import PyStr
  import ApiRoutes

  /** A value stored in the session. */
  datatype SessionValue = IntValue(i: int) | Text(s: string) | Null

  class Session {
    var values: map<string, SessionValue>
    var permanent: bool

    constructor ()
      ensures values == map[] && !permanent
    {
      values := map[];
      permanent := false;
    }

    /** `session.clear()`. */
    method Clear()
      modifies this
      ensures values == map[] && !permanent
    {
      values := map[];
      permanent := false;
    }
  }

  /** `SELECT ... FROM employees WHERE login = %s AND is_active = TRUE`: the
      first active employee with that login, by position. */
  function FindActive(employees: seq<Employee>, login: string): (r: Option<nat>)
    ensures r.Some? ==> r.value < |employees| && employees[r.value].login == login && employees[r.value].active
    ensures r.Some? ==> forall j :: 0 <= j < r.value ==> !(employees[j].login == login && employees[j].active)
    ensures r.None? ==> forall j :: 0 <= j < |employees| ==> !(employees[j].login == login && employees[j].active)
  {
    if employees == [] then None
    else
      var rest := FindActive(employees[..|employees| - 1], login);
      if rest.Some? then rest
      else if employees[|employees| - 1].login == login && employees[|employees| - 1].active then Some(|employees| - 1)
      else None
  }

  /** The three values a successful login stores. */
  function SessionFor(id: int, e: Employee): map<string, SessionValue> {
    map["user_id" := IntValue(id), "role" := Text(e.role),
        "store_id" := if e.store.Some? then IntValue(e.store.value) else Null]
  }

  datatype LoginError = MissingCredentials | WrongCredentials

  /** The outcome of the credential gate: the employee's position, or an error. */
  datatype Credentials = Rejected(error: LoginError) | Accepted(index: nat)

  /** The credential gate of `login`: the login is stripped, and a blank login
      or password is rejected before any lookup. Otherwise the active employee
      with that login must exist and its stored hash must match the password;
      an unknown or inactive login and a wrong password give the same error. */
  function Authenticate(employees: seq<Employee>, login: Option<string>, password: Option<string>,
                        checkHash: (string, string) -> bool): (c: Credentials)
    ensures var name := PyStr.Strip(if login.Some? then login.value else "");
      var pw := if password.Some? then password.value else "";
      (c == Rejected(MissingCredentials) <==> name == "" || pw == "") &&
      (c.Accepted? ==>
        c.index < |employees| && employees[c.index].login == name && employees[c.index].active &&
        checkHash(employees[c.index].passwordHash, pw) && FindActive(employees, name) == Some(c.index)) &&
      (c == Rejected(WrongCredentials) <==>
        name != "" && pw != "" &&
        (FindActive(employees, name).None? || !checkHash(employees[FindActive(employees, name).value].passwordHash, pw)))
  {
    var name := PyStr.Strip(if login.Some? then login.value else "");
    var pw := if password.Some? then password.value else "";
    if name == "" || pw == "" then Rejected(MissingCredentials)
    else
      var found := FindActive(employees, name);
      if found.None? || !checkHash(employees[found.value].passwordHash, pw) then Rejected(WrongCredentials)
      else Accepted(found.value)
  }

  datatype LoginOutcome = LoginPage(error: LoginError) | ToAdminHome | ToSellerHome

  /** `login` (form submission): a login the credential gate rejects changes
      nothing. Otherwise the session is cleared and set to exactly the user's
      id, role and store, and made permanent; an administrator goes to the
      admin pages without a shift, any other role has a shift opened for its
      pair unless one is open. */
  method Login(db: Database, session: Session, login: Option<string>, password: Option<string>,
               checkHash: (string, string) -> bool) returns (r: LoginOutcome)
    modifies db, session
    ensures db.storeStock == old(db.storeStock) && db.warehouseStock == old(db.warehouseStock)
    ensures db.operations == old(db.operations) && db.notifications == old(db.notifications)
    ensures db.products == old(db.products) && db.employees == old(db.employees)
    ensures var c := Authenticate(old(db.employees), login, password, checkHash);
      if c.Rejected? then
        r == LoginPage(c.error) && db.shifts == old(db.shifts) &&
        session.values == old(session.values) && session.permanent == old(session.permanent)
      else
        var e := old(db.employees)[c.index];
        session.values == SessionFor(c.index + 1, e) && session.permanent &&
        if e.role == "admin" then r == ToAdminHome && db.shifts == old(db.shifts)
        else r == ToSellerHome && db.shifts == OpenIfMissing(old(db.shifts), c.index + 1, e.store)
    ensures old(ApiRoutes.Consistent(db)) ==> ApiRoutes.Consistent(db)
  {
    var c := Authenticate(db.employees, login, password, checkHash);
    if c.Rejected? {
      return LoginPage(c.error);
    }
    var id := c.index + 1;
    var e := db.employees[c.index];
    session.Clear();
    session.values := session.values["user_id" := IntValue(id)];
    session.values := session.values["role" := Text(e.role)];
    session.values := session.values["store_id" := if e.store.Some? then IntValue(e.store.value) else Null];
    session.permanent := true;
    if e.role == "admin" {
      return ToAdminHome;
    }
    OpenIfMissingKeepsOneOpen(db.shifts, id, e.store);
    var existing := LatestOpen(db.shifts, id, e.store);
    if existing.None? {
      db.shifts := db.shifts + [Shift(id, e.store, true)];
    }
    r := ToSellerHome;
  }

  /** The ids a seller session names: a truthy user id and a truthy store id
      (the values login writes are integers or NULL). */
  function SellerIds(values: map<string, SessionValue>): Option<(int, int)> {
    if "role" in values && values["role"] == Text("seller") &&
       "user_id" in values && values["user_id"].IntValue? && values["user_id"].i != 0 &&
       "store_id" in values && values["store_id"].IntValue? && values["store_id"].i != 0
    then Some((values["user_id"].i, values["store_id"].i))
    else None
  }

  datatype LogoutOutcome = ToShiftReport(shiftId: int) | ToLoginPage

  /** `logout`: reads the session, clears it, and for a seller with a user id
      and a store closes the latest open shift of that pair and shows its
      report; in every other case it goes to the login page and changes no
      shift. Afterwards the pair has no open shift. */
  method Logout(db: Database, session: Session) returns (r: LogoutOutcome)
    modifies db, session
    ensures db.storeStock == old(db.storeStock) && db.warehouseStock == old(db.warehouseStock)
    ensures db.operations == old(db.operations) && db.notifications == old(db.notifications)
    ensures db.products == old(db.products) && db.employees == old(db.employees)
    ensures session.values == map[] && !session.permanent
    ensures var ids := SellerIds(old(session.values));
      if ids.Some? && LatestOpen(old(db.shifts), ids.value.0, Some(ids.value.1)).Some? then
        var i := LatestOpen(old(db.shifts), ids.value.0, Some(ids.value.1)).value;
        r == ToShiftReport(i + 1) && db.shifts == CloseAt(old(db.shifts), i)
      else r == ToLoginPage && db.shifts == old(db.shifts)
    ensures var ids := SellerIds(old(session.values));
      old(ApiRoutes.Consistent(db)) && ids.Some? ==> LatestOpen(db.shifts, ids.value.0, Some(ids.value.1)).None?
    ensures old(ApiRoutes.Consistent(db)) ==> ApiRoutes.Consistent(db)
  {
    var ids := SellerIds(session.values);
    session.Clear();
    if ids.Some? {
      var (u, s) := ids.value;
      var row := LatestOpen(db.shifts, u, Some(s));
      if row.Some? {
        CloseKeepsOneOpen(db.shifts, row.value);
        if OneOpenPerPair(db.shifts) {
          CloseLatestLeavesNone(db.shifts, u, Some(s));
        }
        db.shifts := CloseAt(db.shifts, row.value);
        return ToShiftReport(row.value + 1);
      }
    }
    r := ToLoginPage;
  }

  /** Some employee, active or not, has the login. */
  predicate HasLogin(employees: seq<Employee>, login: string) {
    exists i :: 0 <= i < |employees| && employees[i].login == login
  }

  /** The default administrator (no store, active). */
  function DefaultAdmin(passwordHash: string): Employee {
    Employee("admin", passwordHash, "Администратор системы (директор)", "admin", None, true)
  }

  /** The employee table after `init_admin_user`. */
  function WithDefaultAdmin(employees: seq<Employee>, passwordHash: string): (r: seq<Employee>)
    ensures HasLogin(r, "admin")
    ensures |employees| <= |r| <= |employees| + 1 && r[..|employees|] == employees
  {
    if HasLogin(employees, "admin") then employees
    else
      var r := employees + [DefaultAdmin(passwordHash)];
      assert r[|employees|].login == "admin";
      r
  }

  /** The admin row is added only when no employee has the login, so running
      the initialisation again changes nothing. */
  lemma WithDefaultAdminOnce(employees: seq<Employee>, h1: string, h2: string)
    ensures HasLogin(employees, "admin") <==> WithDefaultAdmin(employees, h1) == employees
    ensures WithDefaultAdmin(WithDefaultAdmin(employees, h1), h2) == WithDefaultAdmin(employees, h1)
  {
    if !HasLogin(employees, "admin") {
      assert |WithDefaultAdmin(employees, h1)| == |employees| + 1;
    }
  }

  /** `init_admin_user`; the hash of the default password is a parameter. */
  method InitAdminUser(db: Database, passwordHash: string)
    modifies db
    ensures db.storeStock == old(db.storeStock) && db.warehouseStock == old(db.warehouseStock)
    ensures db.operations == old(db.operations) && db.notifications == old(db.notifications)
    ensures db.products == old(db.products) && db.shifts == old(db.shifts)
    ensures db.employees == WithDefaultAdmin(old(db.employees), passwordHash)
  {
    if HasLogin(db.employees, "admin") {
      return;
    }
    db.employees := db.employees + [DefaultAdmin(passwordHash)];
  }
}
