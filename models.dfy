/** The four tables of the application (employees, attendance records, leave requests
    and holidays), their constraints and the cascade on deleting an employee. */
module Models {
  import opened Wrappers
  import opened Calendar

  type EmpId = nat
  type LeaveId = nat
  type UserId = nat

  /** The fields of the authentication framework's user that the core reads. */
  datatype User = User(
    id: UserId,
    username: string,
    email: string,
    firstName: string,
    lastName: string,
    isAuthenticated: bool,
    groups: set<string>)

  /** An employee row. `user` is the optional link to a login account: the views read and
      write it although the model class does not declare it. */
  datatype Employee = Employee(
    firstName: string,
    lastName: string,
    email: string,
    position: string,
    department: string,
    dateHired: Day,
    user: Option<UserId>)

  /** The display string of an employee: first name, one space, last name. */
  function DisplayName(e: Employee): (r: string)
    ensures |r| == |e.firstName| + 1 + |e.lastName|
    ensures r[..|e.firstName|] == e.firstName
    ensures r[|e.firstName|] == ' '
    ensures r[|e.firstName| + 1..] == e.lastName
  {
    e.firstName + " " + e.lastName
  }

  /** The status choices of an attendance record. */
  const PRESENT: string := "Present"
  const ABSENT: string := "Absent"
  const LEAVE: string := "Leave"

  /** Not an attendance choice: the status the reconciled day list shows for a holiday,
      and the value of the manual edit form that turns a day into a holiday. */
  const HOLIDAY: string := "Holiday"

  predicate IsAttendanceChoice(s: string)
  {
    s == PRESENT || s == ABSENT || s == LEAVE
  }

  /** Every record holds one of the three choices. The choices are not enforced when a row
      is saved, so this is a property of the writers, not of the table. */
  ghost predicate AllChoices(attendance: AttendanceTable)
  {
    forall k :: k in attendance ==> IsAttendanceChoice(attendance[k])
  }

  datatype LeaveStatus = Pending | Approved | Rejected

  datatype LeaveRequest = LeaveRequest(
    employee: EmpId,
    startDate: Day,
    endDate: Day,
    reason: string,
    status: LeaveStatus)

  /** A request as it is first stored: the status field defaults to Pending. */
  function NewLeaveRequest(employee: EmpId, startDate: Day, endDate: Day, reason: string): (r: LeaveRequest)
    ensures r.status == Pending
    ensures r.employee == employee && r.startDate == startDate && r.endDate == endDate && r.reason == reason
  {
    LeaveRequest(employee, startDate, endDate, reason, Pending)
  }

  /** Attendance rows keyed by the unique (employee, date) pair, so that at most one
      record exists per employee and day by construction. */
  type AttendanceTable = map<(EmpId, Day), string>

  /** A snapshot of the database. Holidays are keyed by their unique date and hold the
      holiday's name. `nextEmployeeId` is the next primary key the employee table hands out. */
  datatype Store = Store(
    employees: map<EmpId, Employee>,
    attendance: AttendanceTable,
    leaves: map<LeaveId, LeaveRequest>,
    holidays: map<Day, string>,
    nextEmployeeId: nat)

  /** Employee emails are unique. */
  ghost predicate EmailsUnique(employees: map<EmpId, Employee>)
  {
    forall a, b :: a in employees && b in employees && a != b ==> employees[a].email != employees[b].email
  }

  /** A login account is linked to at most one employee. */
  ghost predicate UsersUnique(employees: map<EmpId, Employee>)
  {
    forall a, b :: a in employees && b in employees && a != b && employees[a].user.Some? ==>
      employees[a].user != employees[b].user
  }

  /** The constraints of the store: foreign keys from attendance and leave requests to
      employees, unique emails, and primary keys below the next one to be handed out, which
      the database enforces; and at most one employee per user link, which no column
      declares and the model assumes, as a one-to-one link would give. */
  ghost predicate StoreValid(s: Store)
  {
    (forall k :: k in s.attendance ==> k.0 in s.employees) &&
    (forall l :: l in s.leaves ==> s.leaves[l].employee in s.employees) &&
    (forall id :: id in s.employees ==> id < s.nextEmployeeId) &&
    EmailsUnique(s.employees) &&
    UsersUnique(s.employees)
  }

  /** Deleting an employee; the foreign keys cascade, so the employee's attendance records
      and leave requests go with it and nothing else changes. */
  function CascadeDelete(s: Store, id: EmpId): (r: Store)
    ensures r.employees.Keys == s.employees.Keys - {id}
    ensures forall k :: k in r.attendance <==> k in s.attendance && k.0 != id
    ensures forall l :: l in r.leaves <==> l in s.leaves && s.leaves[l].employee != id
    ensures forall k :: k in r.attendance ==> r.attendance[k] == s.attendance[k]
    ensures forall l :: l in r.leaves ==> r.leaves[l] == s.leaves[l]
    ensures forall e :: e in r.employees ==> r.employees[e] == s.employees[e]
    ensures r.holidays == s.holidays && r.nextEmployeeId == s.nextEmployeeId
  {
    s.(employees := s.employees - {id},
       attendance := map k | k in s.attendance && k.0 != id :: s.attendance[k],
       leaves := map l | l in s.leaves && s.leaves[l].employee != id :: s.leaves[l])
  }

  /** The cascade leaves no record or request pointing at the deleted employee, and the
      store's constraints still hold. */
  lemma CascadeDeleteKeepsStoreValid(s: Store, id: EmpId)
    requires StoreValid(s)
    ensures StoreValid(CascadeDelete(s, id))
    ensures forall k :: k in CascadeDelete(s, id).attendance ==> k.0 != id
    ensures forall l :: l in CascadeDelete(s, id).leaves ==> CascadeDelete(s, id).leaves[l].employee != id
  {
  }

  /** The database as a mutable object: every view that writes changes these fields. */
  class Db {
    var employees: map<EmpId, Employee>
    var attendance: AttendanceTable
    var leaves: map<LeaveId, LeaveRequest>
    var holidays: map<Day, string>
    var nextEmployeeId: nat

    ghost function Model(): Store
      reads this
    {
      Store(employees, attendance, leaves, holidays, nextEmployeeId)
    }

    ghost predicate Valid()
      reads this
    {
      StoreValid(Model())
    }

    constructor ()
      ensures Valid()
      ensures Model() == Store(map[], map[], map[], map[], 0)
    {
      employees, attendance, leaves, holidays, nextEmployeeId := map[], map[], map[], map[], 0;
    }

    /** Deleting an employee row, with its cascade. */
    method DeleteEmployee(id: EmpId)
      requires Valid()
      modifies this
      ensures Valid()
      ensures Model() == CascadeDelete(old(Model()), id)
    {
      CascadeDeleteKeepsStoreValid(Model(), id);
      var s := CascadeDelete(Store(employees, attendance, leaves, holidays, nextEmployeeId), id);
      employees, attendance, leaves := s.employees, s.attendance, s.leaves;
    }
  }
}
