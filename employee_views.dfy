/** Finding the employee row of a logged-in user, creating one with defaulted fields the
    first time. */
module EmployeeViews {
  import opened Wrappers
  import opened Calendar
  import opened Models
  import opened Utils

  const COMPANY_DOMAIN: string := "@company.com"

  /** The made-up address of a user: the username at the company domain. */
  function CompanyEmail(u: User): (r: string)
    ensures |r| == |u.username| + |COMPANY_DOMAIN|
    ensures r[..|u.username|] == u.username && r[|u.username|..] == COMPANY_DOMAIN
  {
    u.username + COMPANY_DOMAIN
  }

  /** The employees linked to user `uid`. */
  function LinkedTo(employees: map<EmpId, Employee>, uid: UserId): set<EmpId>
  {
    set id | id in employees && employees[id].user == Some(uid)
  }

  /** The emails employees already use. */
  function EmailsInUse(employees: map<EmpId, Employee>): set<string>
  {
    set id | id in employees :: employees[id].email
  }

  /** The email a new employee gets: the user's own when it is set and free, otherwise the
      company address. The company address is not checked against `taken` again. */
  function ChosenEmail(u: User, taken: set<string>): (r: string)
    ensures r != ""
    ensures r == u.email || r == CompanyEmail(u)
    ensures u.email != "" && u.email !in taken ==> r == u.email
    ensures u.email == "" || u.email in taken ==> r == CompanyEmail(u)
    ensures r in taken ==> r == CompanyEmail(u)
  {
    var email := if u.email != "" then u.email else CompanyEmail(u);
    if email in taken then CompanyEmail(u) else email
  }

  /** The company address can itself be taken: whenever the user's own address is unset or
      taken and the company address is taken too, the chosen address is taken, so the insert
      breaks the unique email. */
  lemma CompanyEmailMayBeTaken(u: User, taken: set<string>)
    ensures (u.email == "" || u.email in taken) && CompanyEmail(u) in taken ==> ChosenEmail(u, taken) in taken
  {
  }

  /** The case is reachable: a user `ann` whose home address and company address both
      belong to other employees. */
  lemma CompanyEmailTakenExample()
    ensures var u := User(1, "ann", "ann@home.org", "", "", true, {});
      ChosenEmail(u, {"ann@home.org", "ann@company.com"}) in {"ann@home.org", "ann@company.com"}
  {
    var u := User(1, "ann", "ann@home.org", "", "", true, {});
    assert CompanyEmail(u) == "ann@company.com";
  }

  /** The new row for user `u`: linked to `u`, position `Employee`, department `General`,
      hired today; the first name falls back to the username, the last name is the user's. */
  function NewEmployee(u: User, email: string, today: Day): (r: Employee)
    ensures r.user == Some(u.id) && r.email == email
    ensures r.position == "Employee" && r.department == "General" && r.dateHired == today
    ensures r.firstName == (if u.firstName != "" then u.firstName else u.username)
    ensures u.username != "" ==> r.firstName != ""
    ensures r.lastName == u.lastName
  {
    Employee(if u.firstName != "" then u.firstName else u.username, u.lastName, email, "Employee", "General", today, Some(u.id))
  }

  /** Under the store's constraints a user is linked to at most one employee. */
  lemma LinkedAtMostOne(st: Store, uid: UserId, id: EmpId)
    requires StoreValid(st) && id in LinkedTo(st.employees, uid)
    ensures LinkedTo(st.employees, uid) == {id}
  {
  }

  /** A new employee has no attendance record yet, so the percentage shown on the day they
      are created is 0. */
  lemma NewEmployeeStartsAtZero(st: Store, u: User, email: string, today: Day)
    requires StoreValid(st)
    ensures var id := st.nextEmployeeId;
      AttendancePercentage(st.attendance, id, st.holidays.Keys, NewEmployee(u, email, today).dateHired, today) == 0.0
  {
    var id := st.nextEmployeeId;
    var holidays := st.holidays.Keys;
    assert RecordAt(st.attendance, id, today) == None;
    assert Tallied(st.attendance, id, holidays, today, today - 1) == Tally(0, 0, 0);
    assert Tallied(st.attendance, id, holidays, today, today).present == 0;
  }

  method GetOrCreateEmployee(db: Db, u: User, today: Day) returns (r: Result<EmpId>)
    requires db.Valid()
    modifies db
    ensures db.Valid()
    ensures LinkedTo(old(db.employees), u.id) != {} ==>
      r.Ok? && LinkedTo(old(db.employees), u.id) == {r.value} && db.Model() == old(db.Model())
    ensures LinkedTo(old(db.employees), u.id) == {} ==>
      var email := ChosenEmail(u, EmailsInUse(old(db.employees)));
      if email in EmailsInUse(old(db.employees)) then
        r == Err(IntegrityError) && db.Model() == old(db.Model())
      else
        r == Ok(old(db.nextEmployeeId)) &&
        db.Model() == old(db.Model()).(employees := old(db.employees)[r.value := NewEmployee(u, email, today)],
                                       nextEmployeeId := old(db.nextEmployeeId) + 1)
  {
    var linked := LinkedTo(db.employees, u.id);
    if linked != {} {
      var id :| id in linked;
      LinkedAtMostOne(db.Model(), u.id, id);
      return Ok(id);
    }
    var taken := EmailsInUse(db.employees);
    var email := if u.email != "" then u.email else CompanyEmail(u);
    if email in taken {
      email := CompanyEmail(u);
    }
    if email in taken {
      return Err(IntegrityError);
    }
    var id := db.nextEmployeeId;
    var employee := NewEmployee(u, email, today);
    forall a | a in db.employees
      ensures db.employees[a].email != email && db.employees[a].user != Some(u.id)
    {
      assert db.employees[a].email in taken;
      assert a !in linked;
    }
    db.employees := db.employees[id := employee];
    db.nextEmployeeId := id + 1;
    r := Ok(id);
  }
}
