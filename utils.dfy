/** The attendance percentage: a walk over the calendar from the hire date to today that
    skips weekends and holidays and sorts every other day into present, leave or absent;
    and the two role checks. */
module Utils {
  import opened Wrappers
  import opened Calendar
  import opened Models

  /** The status of the employee's record for a day, if there is one. */
  function RecordAt(attendance: AttendanceTable, e: EmpId, d: Day): Option<string>
  {
    if (e, d) in attendance then Some(attendance[(e, d)]) else None
  }

  /** A day that the walk counts: neither Saturday nor Sunday, and not a holiday. */
  predicate IsWorkingDay(holidays: set<Day>, d: Day)
  {
    !IsWeekend(d) && d !in holidays
  }

  /** The three counters of the walk. */
  datatype Counter = PresentCount | AbsentCount | LeaveCount

  /** The counter a working day goes to: `Present` to present, `Leave` to leave, and
      any other status, or no record at all, to absent. */
  function CounterFor(status: Option<string>): Counter
  {
    if status == Some(PRESENT) then PresentCount
    else if status == Some(LEAVE) then LeaveCount
    else AbsentCount
  }

  datatype Tally = Tally(present: nat, absent: nat, leave: nat)
  {
    function Get(k: Counter): nat
    {
      match k
      case PresentCount => present
      case AbsentCount => absent
      case LeaveCount => leave
    }

    /** One more day on counter `k`, the others unchanged. */
    function Bump(k: Counter): (t: Tally)
      ensures t.Get(k) == Get(k) + 1
      ensures forall j :: j != k ==> t.Get(j) == Get(j)
    {
      match k
      case PresentCount => this.(present := present + 1)
      case AbsentCount => this.(absent := absent + 1)
      case LeaveCount => this.(leave := leave + 1)
    }
  }

  /** The counters after walking the days `lo..hi` (none when `hi < lo`). */
  function Tallied(attendance: AttendanceTable, e: EmpId, holidays: set<Day>, lo: Day, hi: Day): (r: Tally)
    ensures r.present + r.absent + r.leave <= if hi < lo then 0 else hi - lo + 1
    decreases hi - lo
  {
    if hi < lo then Tally(0, 0, 0)
    else
      var t := Tallied(attendance, e, holidays, lo, hi - 1);
      if IsWorkingDay(holidays, hi) then t.Bump(CounterFor(RecordAt(attendance, e, hi))) else t
  }

  /** The working days in `lo..hi`. */
  function WorkingDays(holidays: set<Day>, lo: Day, hi: Day): set<Day>
  {
    set d | lo <= d <= hi && IsWorkingDay(holidays, d)
  }

  /** The working days in `lo..hi` that go to counter `k`. */
  function CountedAs(attendance: AttendanceTable, e: EmpId, holidays: set<Day>, lo: Day, hi: Day, k: Counter): set<Day>
  {
    set d | lo <= d <= hi && IsWorkingDay(holidays, d) && CounterFor(RecordAt(attendance, e, d)) == k
  }

  /** Each counter of the walk is the number of working days in range that belong to it:
      every working day is visited once, and weekends and holidays change nothing. */
  lemma {:induction false} TalliedCountsDays(attendance: AttendanceTable, e: EmpId, holidays: set<Day>, lo: Day, hi: Day, k: Counter)
    ensures Tallied(attendance, e, holidays, lo, hi).Get(k) == |CountedAs(attendance, e, holidays, lo, hi, k)|
    decreases hi - lo
  {
    var s := CountedAs(attendance, e, holidays, lo, hi, k);
    if hi < lo {
      assert s == {};
    } else {
      TalliedCountsDays(attendance, e, holidays, lo, hi - 1, k);
      var s' := CountedAs(attendance, e, holidays, lo, hi - 1, k);
      if IsWorkingDay(holidays, hi) && CounterFor(RecordAt(attendance, e, hi)) == k {
        assert s == s' + {hi};
      } else {
        assert s == s';
      }
    }
  }

  /** The three counters split the working days: their day sets are pairwise disjoint and
      together they are exactly the working days. */
  lemma CountersPartitionWorkingDays(attendance: AttendanceTable, e: EmpId, holidays: set<Day>, lo: Day, hi: Day)
    ensures CountedAs(attendance, e, holidays, lo, hi, PresentCount) !! CountedAs(attendance, e, holidays, lo, hi, AbsentCount)
    ensures CountedAs(attendance, e, holidays, lo, hi, PresentCount) !! CountedAs(attendance, e, holidays, lo, hi, LeaveCount)
    ensures CountedAs(attendance, e, holidays, lo, hi, AbsentCount) !! CountedAs(attendance, e, holidays, lo, hi, LeaveCount)
    ensures CountedAs(attendance, e, holidays, lo, hi, PresentCount)
          + CountedAs(attendance, e, holidays, lo, hi, AbsentCount)
          + CountedAs(attendance, e, holidays, lo, hi, LeaveCount) == WorkingDays(holidays, lo, hi)
  {
  }

  /** present + absent + leave is the number of working days from `lo` to `hi`. */
  lemma TallyCoversWorkingDays(attendance: AttendanceTable, e: EmpId, holidays: set<Day>, lo: Day, hi: Day)
    ensures var t := Tallied(attendance, e, holidays, lo, hi);
      t.present + t.absent + t.leave == |WorkingDays(holidays, lo, hi)|
  {
    var p := CountedAs(attendance, e, holidays, lo, hi, PresentCount);
    var a := CountedAs(attendance, e, holidays, lo, hi, AbsentCount);
    var l := CountedAs(attendance, e, holidays, lo, hi, LeaveCount);
    TalliedCountsDays(attendance, e, holidays, lo, hi, PresentCount);
    TalliedCountsDays(attendance, e, holidays, lo, hi, AbsentCount);
    TalliedCountsDays(attendance, e, holidays, lo, hi, LeaveCount);
    CountersPartitionWorkingDays(attendance, e, holidays, lo, hi);
    assert |p + a| == |p| + |a|;
    assert |p + a + l| == |p + a| + |l|;
  }

  /** Records on weekends and holidays, and records outside the range, do not matter: two
      tables that agree on the employee's working days in range give the same counters. */
  lemma {:induction false} TallyIgnoresNonWorkingDays(attendance: AttendanceTable, other: AttendanceTable, e: EmpId, holidays: set<Day>, lo: Day, hi: Day)
    requires forall d :: lo <= d <= hi && IsWorkingDay(holidays, d) ==> RecordAt(attendance, e, d) == RecordAt(other, e, d)
    ensures Tallied(attendance, e, holidays, lo, hi) == Tallied(other, e, holidays, lo, hi)
    decreases hi - lo
  {
    if lo <= hi {
      TallyIgnoresNonWorkingDays(attendance, other, e, holidays, lo, hi - 1);
    }
  }

  /** present / (present + absent) * 100, or 0 when no day is present or absent; days on
      leave are left out of the denominator. */
  function Percentage(t: Tally): (r: real)
    ensures t.present + t.absent == 0 ==> r == 0.0
    ensures t.present + t.absent > 0 ==> r * ((t.present + t.absent) as real) == (t.present as real) * 100.0
  {
    if t.present + t.absent == 0 then 0.0
    else (t.present as real) / ((t.present + t.absent) as real) * 100.0
  }

  /** The percentage lies between 0 and 100; it is 0 exactly when no day is present, and
      100 exactly when some day is present and none absent. */
  lemma PercentageBounds(t: Tally)
    ensures 0.0 <= Percentage(t) <= 100.0
    ensures Percentage(t) == 0.0 <==> t.present == 0
    ensures Percentage(t) == 100.0 <==> t.present > 0 && t.absent == 0
    ensures forall n: nat :: Percentage(t.(leave := n)) == Percentage(t)
  {
  }

  /** The attendance percentage of employee `e` hired on `hired`, on day `today`. */
  function AttendancePercentage(attendance: AttendanceTable, e: EmpId, holidays: set<Day>, hired: Day, today: Day): real
  {
    Percentage(Tallied(attendance, e, holidays, hired, today))
  }

  /** The percentage of an employee hired after today: no day is visited, so it is 0. */
  lemma HiredInFutureGivesZero(attendance: AttendanceTable, e: EmpId, holidays: set<Day>, hired: Day, today: Day)
    requires today < hired
    ensures AttendancePercentage(attendance, e, holidays, hired, today) == 0.0
    ensures Tallied(attendance, e, holidays, hired, today) == Tally(0, 0, 0)
  {
  }

  /** The walk itself, day by day from the hire date to today, reading the employee's
      records and the holiday dates from the database. */
  method CalculateAttendancePercentage(db: Db, id: EmpId, today: Day) returns (r: real)
    requires id in db.employees
    ensures r == AttendancePercentage(db.attendance, id, db.holidays.Keys, db.employees[id].dateHired, today)
    ensures 0.0 <= r <= 100.0
  {
    var startDate, endDate := db.employees[id].dateHired, today;
    var holidays := db.holidays.Keys;
    var present, absent, leave := 0, 0, 0;
    var current := startDate;
    while current <= endDate
      invariant startDate <= current
      invariant current <= endDate + 1 || current == startDate
      invariant Tally(present, absent, leave) == Tallied(db.attendance, id, holidays, startDate, current - 1)
      decreases endDate - current
    {
      if Weekday(current) >= 5 {
        current := current + 1;
        continue;
      }
      if current in holidays {
        current := current + 1;
        continue;
      }
      var status := RecordAt(db.attendance, id, current);
      if status == Some(PRESENT) {
        present := present + 1;
      } else if status == Some(LEAVE) {
        leave := leave + 1;
      } else {
        absent := absent + 1;
      }
      current := current + 1;
    }
    PercentageBounds(Tally(present, absent, leave));
    var totalWorkingDays := present + absent;
    if totalWorkingDays == 0 {
      return 0.0;
    }
    r := (present as real) / (totalWorkingDays as real) * 100.0;
  }

  const HR_GROUP: string := "HR"
  const EMPLOYEE_GROUP: string := "Employee"

  /** An HR user is an authenticated member of the `HR` group. */
  predicate IsHr(u: User)
    ensures !u.isAuthenticated ==> !IsHr(u)
    ensures u.isAuthenticated ==> (IsHr(u) <==> HR_GROUP in u.groups)
  {
    u.isAuthenticated && HR_GROUP in u.groups
  }

  /** An employee user is an authenticated member of the `Employee` group. */
  predicate IsEmployee(u: User)
    ensures !u.isAuthenticated ==> !IsEmployee(u)
    ensures u.isAuthenticated ==> (IsEmployee(u) <==> EMPLOYEE_GROUP in u.groups)
  {
    u.isAuthenticated && EMPLOYEE_GROUP in u.groups
  }
}
