/** The main views: the day-by-day attendance list of an employee, the manual attendance
    edit, and the leave request detail page's approve/reject action. */
module Views {
  import opened Wrappers
  import opened Calendar
  import opened Models
  import opened Utils
  import HrViews

  /** One line of the attendance list: the date, the status shown, and the status of the
      attendance record behind it (None when the day is a holiday or has no record). */
  datatype DayEntry = DayEntry(date: Day, status: string, record: Option<string>)

  /** How the list shows a weekday: a holiday as `Holiday` without a record, otherwise the
      recorded status, or `Absent` when there is no record. */
  function EntryFor(attendance: AttendanceTable, e: EmpId, holidays: set<Day>, d: Day): DayEntry
  {
    if d in holidays then DayEntry(d, HOLIDAY, None)
    else
      match RecordAt(attendance, e, d)
      case Some(s) => DayEntry(d, s, Some(s))
      case None => DayEntry(d, ABSENT, None)
  }

  /** The list for the days `lo..hi` in calendar order, with Saturdays and Sundays left out. */
  function Reconciled(attendance: AttendanceTable, e: EmpId, holidays: set<Day>, lo: Day, hi: Day): (r: seq<DayEntry>)
    ensures |r| <= if hi < lo then 0 else hi - lo + 1
    decreases hi - lo
  {
    if hi < lo then []
    else Reconciled(attendance, e, holidays, lo, hi - 1) + (if IsWeekend(hi) then [] else [EntryFor(attendance, e, holidays, hi)])
  }

  /** The dates a list mentions. */
  function DatesOf(days: seq<DayEntry>): set<Day>
  {
    set i | 0 <= i < |days| :: days[i].date
  }

  /** Every line's date lies in `lo..hi` and is not a Saturday or Sunday. */
  ghost predicate WeekdaysWithin(days: seq<DayEntry>, lo: Day, hi: Day)
  {
    forall i :: 0 <= i < |days| ==> lo <= days[i].date <= hi && !IsWeekend(days[i].date)
  }

  ghost predicate StrictlyAscending(days: seq<DayEntry>)
  {
    forall i, j :: 0 <= i < j < |days| ==> days[i].date < days[j].date
  }

  /** A holiday line shows `Holiday` and no record; any other line shows the day's
      recorded status, or `Absent` when it has none. */
  ghost predicate ShowsRecords(days: seq<DayEntry>, attendance: AttendanceTable, e: EmpId, holidays: set<Day>)
  {
    forall i :: 0 <= i < |days| ==>
      if days[i].date in holidays then days[i].status == HOLIDAY && days[i].record == None
      else
        days[i].record == RecordAt(attendance, e, days[i].date) &&
        days[i].status == (if days[i].record.Some? then days[i].record.value else ABSENT)
  }

  /** The list's dates strictly ascend within `lo..hi` and none is a Saturday or Sunday; a
      holiday shows `Holiday` with no record; any other day shows its recorded status, or
      `Absent` when it has none. */
  lemma {:induction false} ReconciledInOrder(attendance: AttendanceTable, e: EmpId, holidays: set<Day>, lo: Day, hi: Day)
    ensures WeekdaysWithin(Reconciled(attendance, e, holidays, lo, hi), lo, hi)
    ensures StrictlyAscending(Reconciled(attendance, e, holidays, lo, hi))
    ensures ShowsRecords(Reconciled(attendance, e, holidays, lo, hi), attendance, e, holidays)
    decreases hi - lo
  {
    if lo <= hi {
      ReconciledInOrder(attendance, e, holidays, lo, hi - 1);
      var prev := Reconciled(attendance, e, holidays, lo, hi - 1);
      var days := Reconciled(attendance, e, holidays, lo, hi);
      if !IsWeekend(hi) {
        var entry := EntryFor(attendance, e, holidays, hi);
        assert days == prev + [entry];
        assert entry.date == hi;
        forall i | 0 <= i < |days|
          ensures lo <= days[i].date <= hi && !IsWeekend(days[i].date)
        {
          if i < |prev| { assert days[i] == prev[i]; }
        }
        forall i, j | 0 <= i < j < |days|
          ensures days[i].date < days[j].date
        {
          assert days[i] == prev[i];
          if j < |prev| { assert days[j] == prev[j]; }
        }
      } else {
        assert days == prev;
      }
    }
  }

  /** Every weekday of `lo..hi` is in the list, and nothing else is. */
  lemma {:induction false} ReconciledCoversWeekdays(attendance: AttendanceTable, e: EmpId, holidays: set<Day>, lo: Day, hi: Day)
    ensures DatesOf(Reconciled(attendance, e, holidays, lo, hi)) == set d | lo <= d <= hi && !IsWeekend(d)
    decreases hi - lo
  {
    var days := Reconciled(attendance, e, holidays, lo, hi);
    if hi < lo {
      assert DatesOf(days) == {};
    } else {
      ReconciledCoversWeekdays(attendance, e, holidays, lo, hi - 1);
      var prev := Reconciled(attendance, e, holidays, lo, hi - 1);
      if IsWeekend(hi) {
        assert days == prev;
      } else {
        assert days == prev + [EntryFor(attendance, e, holidays, hi)];
        assert DatesOf(days) == DatesOf(prev) + {hi} by {
          forall x | x in DatesOf(days) ensures x in DatesOf(prev) + {hi} {
            var i :| 0 <= i < |days| && days[i].date == x;
            if i < |prev| { assert prev[i] == days[i]; }
          }
          forall x | x in DatesOf(prev) + {hi} ensures x in DatesOf(days) {
            if x == hi {
              assert days[|prev|].date == hi;
            } else {
              var i :| 0 <= i < |prev| && prev[i].date == x;
              assert days[i] == prev[i];
            }
          }
        }
      }
    }
  }

  /** The counters a list stands for: `Holiday` lines are skipped, `Present` and `Leave` go
      to their counters, and every other status to absent. */
  function TallyOfEntries(days: seq<DayEntry>): Tally
  {
    if days == [] then Tally(0, 0, 0)
    else
      var t := TallyOfEntries(days[..|days| - 1]);
      var last := days[|days| - 1];
      if last.status == HOLIDAY then t else t.Bump(CounterFor(Some(last.status)))
  }

  /** No attendance record of the employee holds the status `Holiday`. The manual edit turns
      that value into a holiday instead of writing it, and no other view writes it. */
  ghost predicate NoHolidayRecords(attendance: AttendanceTable, e: EmpId)
  {
    forall d :: RecordAt(attendance, e, d) != Some(HOLIDAY)
  }

  /** Appending a line adds its counter, unless it is a `Holiday` line. */
  lemma TallyOfEntriesSnoc(prev: seq<DayEntry>, entry: DayEntry)
    ensures TallyOfEntries(prev + [entry]) ==
      if entry.status == HOLIDAY then TallyOfEntries(prev) else TallyOfEntries(prev).Bump(CounterFor(Some(entry.status)))
  {
    assert (prev + [entry])[..|prev + [entry]| - 1] == prev;
  }

  /** One day of the walk: if the list for `lo..hi-1` stands for the walk's counters, so
      does the list for `lo..hi`. */
  lemma EntriesTallyStep(attendance: AttendanceTable, e: EmpId, holidays: set<Day>, lo: Day, hi: Day)
    requires NoHolidayRecords(attendance, e)
    requires lo <= hi
    requires TallyOfEntries(Reconciled(attendance, e, holidays, lo, hi - 1)) == Tallied(attendance, e, holidays, lo, hi - 1)
    ensures TallyOfEntries(Reconciled(attendance, e, holidays, lo, hi)) == Tallied(attendance, e, holidays, lo, hi)
  {
    var prev := Reconciled(attendance, e, holidays, lo, hi - 1);
    if IsWeekend(hi) {
      assert Reconciled(attendance, e, holidays, lo, hi) == prev;
    } else {
      var entry := EntryFor(attendance, e, holidays, hi);
      assert Reconciled(attendance, e, holidays, lo, hi) == prev + [entry];
      TallyOfEntriesSnoc(prev, entry);
      if hi !in holidays {
        assert RecordAt(attendance, e, hi) != Some(HOLIDAY);
      }
    }
  }

  /** The counters of the list's non-`Holiday` lines are the walk's counters. */
  lemma {:induction false} EntriesTallyLikeWalk(attendance: AttendanceTable, e: EmpId, holidays: set<Day>, lo: Day, hi: Day)
    requires NoHolidayRecords(attendance, e)
    ensures TallyOfEntries(Reconciled(attendance, e, holidays, lo, hi)) == Tallied(attendance, e, holidays, lo, hi)
    decreases hi - lo
  {
    if lo <= hi {
      EntriesTallyLikeWalk(attendance, e, holidays, lo, hi - 1);
      EntriesTallyStep(attendance, e, holidays, lo, hi);
    }
  }

  /** Day by day, when no record holds `Holiday`: a line is a non-`Holiday` line exactly when
      its date is a working day of the walk, such a line goes to the counter the walk gives
      its day, and every working day has such a line. */
  lemma ReconcilerLinesAreWorkingDays(attendance: AttendanceTable, e: EmpId, holidays: set<Day>, lo: Day, hi: Day)
    requires NoHolidayRecords(attendance, e)
    ensures var days := Reconciled(attendance, e, holidays, lo, hi);
      forall i :: 0 <= i < |days| ==> (days[i].status != HOLIDAY <==> days[i].date in WorkingDays(holidays, lo, hi))
    ensures var days := Reconciled(attendance, e, holidays, lo, hi);
      forall i :: 0 <= i < |days| && days[i].status != HOLIDAY ==>
        CounterFor(Some(days[i].status)) == CounterFor(RecordAt(attendance, e, days[i].date))
    ensures var days := Reconciled(attendance, e, holidays, lo, hi);
      forall d :: d in WorkingDays(holidays, lo, hi) ==>
        exists i :: 0 <= i < |days| && days[i].date == d && days[i].status != HOLIDAY
  {
    var days := Reconciled(attendance, e, holidays, lo, hi);
    ReconciledInOrder(attendance, e, holidays, lo, hi);
    ReconciledCoversWeekdays(attendance, e, holidays, lo, hi);
    forall i | 0 <= i < |days|
      ensures days[i].status != HOLIDAY <==> days[i].date in WorkingDays(holidays, lo, hi)
      ensures days[i].status != HOLIDAY ==>
        CounterFor(Some(days[i].status)) == CounterFor(RecordAt(attendance, e, days[i].date))
    {
      if days[i].date !in holidays {
        assert RecordAt(attendance, e, days[i].date) != Some(HOLIDAY);
      }
    }
    forall d | d in WorkingDays(holidays, lo, hi)
      ensures exists i :: 0 <= i < |days| && days[i].date == d && days[i].status != HOLIDAY
    {
      assert d in DatesOf(days);
      var i :| 0 <= i < |days| && days[i].date == d;
      assert days[i].status != HOLIDAY;
    }
  }

  /** The list and the percentage agree: the counters of the list's non-`Holiday` lines are the
      walk's counters, hence the percentages are equal. `ReconcilerLinesAreWorkingDays` gives
      the same agreement day by day. */
  lemma ReconcilerAgreesWithAggregator(attendance: AttendanceTable, e: EmpId, holidays: set<Day>, lo: Day, hi: Day)
    requires NoHolidayRecords(attendance, e)
    ensures TallyOfEntries(Reconciled(attendance, e, holidays, lo, hi)) == Tallied(attendance, e, holidays, lo, hi)
    ensures Percentage(TallyOfEntries(Reconciled(attendance, e, holidays, lo, hi))) == AttendancePercentage(attendance, e, holidays, lo, hi)
  {
    EntriesTallyLikeWalk(attendance, e, holidays, lo, hi);
  }

  /** What the attendance detail page shows. */
  datatype AttendanceDetail = AttendanceDetail(employee: Employee, days: seq<DayEntry>, percent: real)

  /** The attendance detail page of employee `id`: the walk that builds the list, then the
      percentage. */
  method AttendanceDetailGet(db: Db, id: EmpId, today: Day) returns (r: Result<AttendanceDetail>)
    ensures id !in db.employees ==> r == Err(NotFound)
    ensures id in db.employees ==>
      r.Ok? && r.value.employee == db.employees[id] &&
      r.value.days == Reconciled(db.attendance, id, db.holidays.Keys, db.employees[id].dateHired, today) &&
      r.value.percent == AttendancePercentage(db.attendance, id, db.holidays.Keys, db.employees[id].dateHired, today)
  {
    if id !in db.employees {
      return Err(NotFound);
    }
    var employee := db.employees[id];
    var startDate, endDate := employee.dateHired, today;
    var holidays := db.holidays.Keys;
    var attendanceDays := [];
    var current := startDate;
    while current <= endDate
      invariant startDate <= current
      invariant current <= endDate + 1 || current == startDate
      invariant attendanceDays == Reconciled(db.attendance, id, holidays, startDate, current - 1)
      decreases endDate - current
    {
      if Weekday(current) >= 5 {
        current := current + 1;
        continue;
      }
      if current in holidays {
        attendanceDays := attendanceDays + [DayEntry(current, HOLIDAY, None)];
        current := current + 1;
        continue;
      }
      var attendance := RecordAt(db.attendance, id, current);
      attendanceDays := attendanceDays + [DayEntry(current, if attendance.Some? then attendance.value else ABSENT, attendance)];
      current := current + 1;
    }
    var percent := CalculateAttendancePercentage(db, id, today);
    r := Ok(AttendanceDetail(employee, attendanceDays, percent));
  }

  /** The name a holiday created from the manual edit gets. */
  const MANUAL_HOLIDAY: string := "Manual Holiday"

  /** The holiday lookup-or-insert as written: both the date and the name are lookup
      fields, so a date that already is a holiday under another name is not found, and the
      insert that follows breaks the unique date. */
  function HolidayGetOrCreateAsWritten(holidays: map<Day, string>, d: Day, name: string): (r: Result<map<Day, string>>)
    ensures r.Ok? ==> d in r.value && r.value[d] == name
    ensures r == Err(IntegrityError) <==> d in holidays && holidays[d] != name
  {
    if d in holidays && holidays[d] == name then Ok(holidays)
    else if d in holidays then Err(IntegrityError)
    else Ok(holidays[d := name])
  }

  /** An input on which the lookup-or-insert as written fails: 2024-01-01 (ordinal 738886)
      already is the holiday "New Year". */
  lemma ManualHolidayOnNamedHolidayFails()
    ensures HolidayGetOrCreateAsWritten(map[738886 := "New Year"], 738886, MANUAL_HOLIDAY) == Err(IntegrityError)
  {
  }

  /** Making `d` a holiday: looked up by date alone, added with `name` when missing. */
  function EnsureHoliday(holidays: map<Day, string>, d: Day, name: string): (r: map<Day, string>)
    ensures r.Keys == holidays.Keys + {d}
    ensures forall x :: x in holidays ==> r[x] == holidays[x]
    ensures d !in holidays ==> r[d] == name
  {
    if d in holidays then holidays else holidays[d := name]
  }

  /** Opening the edit page of (employee `e`, day `d`): the employee must exist; a missing
      record is created as `Absent`, an existing one is left as it is. */
  function OpenAttendance(st: Store, e: EmpId, d: Day): (r: Result<Store>)
    ensures r.Err? <==> e !in st.employees
    ensures r.Err? ==> r.failure == NotFound
    ensures r.Ok? ==> r.value == st.(attendance := r.value.attendance)
    ensures r.Ok? ==> r.value.attendance.Keys == st.attendance.Keys + {(e, d)}
    ensures r.Ok? ==> forall k :: k in st.attendance ==> r.value.attendance[k] == st.attendance[k]
    ensures r.Ok? && (e, d) !in st.attendance ==> r.value.attendance[(e, d)] == ABSENT
  {
    if e !in st.employees then Err(NotFound)
    else if (e, d) in st.attendance then Ok(st)
    else Ok(st.(attendance := st.attendance[(e, d) := ABSENT]))
  }

  /** Opening the page creates a record only when there is none, as `Absent`, changes no
      other row, and opening it again changes nothing more. */
  lemma OpenAttendanceGetsOrCreates(st: Store, e: EmpId, d: Day)
    requires StoreValid(st)
    ensures e !in st.employees <==> OpenAttendance(st, e, d) == Err(NotFound)
    ensures e in st.employees ==>
      var s' := OpenAttendance(st, e, d).value;
      StoreValid(s') &&
      (e, d) in s'.attendance &&
      s'.attendance[(e, d)] == (if (e, d) in st.attendance then st.attendance[(e, d)] else ABSENT) &&
      s'.attendance.Keys == st.attendance.Keys + {(e, d)} &&
      (forall k :: k in st.attendance ==> s'.attendance[k] == st.attendance[k]) &&
      s'.employees == st.employees && s'.leaves == st.leaves && s'.holidays == st.holidays &&
      s'.nextEmployeeId == st.nextEmployeeId &&
      OpenAttendance(s', e, d) == Ok(s')
  {
  }

  /** What the edit page shows: the record's status and whether the day is a holiday. */
  datatype EditForm = EditForm(status: string, isHoliday: bool)

  method UpdateAttendanceGet(db: Db, e: EmpId, d: Day) returns (r: Result<EditForm>)
    requires db.Valid()
    modifies db
    ensures db.Valid()
    ensures match OpenAttendance(old(db.Model()), e, d)
      case Ok(st) => db.Model() == st && r == Ok(EditForm(st.attendance[(e, d)], d in st.holidays))
      case Err(f) => db.Model() == old(db.Model()) && r == Err(f)
  {
    OpenAttendanceGetsOrCreates(db.Model(), e, d);
    if e !in db.employees {
      return Err(NotFound);
    }
    if (e, d) !in db.attendance {
      db.attendance := db.attendance[(e, d) := ABSENT];
    }
    var isHoliday := d in db.holidays;
    r := Ok(EditForm(db.attendance[(e, d)], isHoliday));
  }

  /** Saving the edit page of (employee `e`, day `d`) with the posted `status`: no record is
      not found; `Holiday` makes the day a holiday and deletes the record; a missing value
      breaks the not-null status column; any other value is written as it is. */
  function PostAttendance(st: Store, e: EmpId, d: Day, status: Option<string>): (r: Result<Store>)
    ensures r == Err(NotFound) <==> (e, d) !in st.attendance
    ensures r == Err(IntegrityError) <==> (e, d) in st.attendance && status.None?
    ensures r.Ok? ==> r.value.employees == st.employees && r.value.leaves == st.leaves
    ensures r.Ok? ==> r.value.nextEmployeeId == st.nextEmployeeId
    ensures r.Ok? && status == Some(HOLIDAY) ==> (e, d) !in r.value.attendance && d in r.value.holidays
    ensures r.Ok? && status != Some(HOLIDAY) ==>
      r.value.holidays == st.holidays && r.value.attendance == st.attendance[(e, d) := status.value]
  {
    if (e, d) !in st.attendance then Err(NotFound)
    else if status == Some(HOLIDAY) then
      Ok(st.(holidays := EnsureHoliday(st.holidays, d, MANUAL_HOLIDAY),
             attendance := st.attendance - {(e, d)}))
    else if status.None? then Err(IntegrityError)
    else Ok(st.(attendance := st.attendance[(e, d) := status.value]))
  }

  /** Saving touches only the record of (e, d) and, for `Holiday`, the holiday dates: after
      `Holiday` the date is a holiday (existing holidays keep their names) and the record is
      gone, so the attendance list shows the day as `Holiday`; any other value is stored
      unvalidated, and `Holiday` itself is never stored. Constraints are kept. */
  lemma PostAttendanceEffects(st: Store, e: EmpId, d: Day, status: Option<string>)
    requires StoreValid(st)
    ensures (e, d) !in st.attendance <==> PostAttendance(st, e, d, status) == Err(NotFound)
    ensures (e, d) in st.attendance && status.None? ==> PostAttendance(st, e, d, status) == Err(IntegrityError)
    ensures PostAttendance(st, e, d, status).Ok? ==>
      var s' := PostAttendance(st, e, d, status).value;
      StoreValid(s') &&
      s'.employees == st.employees && s'.leaves == st.leaves && s'.nextEmployeeId == st.nextEmployeeId &&
      (forall k :: k != (e, d) ==> (k in s'.attendance <==> k in st.attendance)) &&
      (forall k :: k in s'.attendance && k != (e, d) ==> s'.attendance[k] == st.attendance[k]) &&
      (forall e' :: NoHolidayRecords(st.attendance, e') ==> NoHolidayRecords(s'.attendance, e'))
    ensures (e, d) in st.attendance && status == Some(HOLIDAY) ==>
      var s' := PostAttendance(st, e, d, status).value;
      d in s'.holidays && (e, d) !in s'.attendance &&
      (forall x :: x in st.holidays ==> x in s'.holidays && s'.holidays[x] == st.holidays[x]) &&
      (forall x :: x in s'.holidays && x != d ==> x in st.holidays) &&
      (!IsWeekend(d) ==> EntryFor(s'.attendance, e, s'.holidays.Keys, d) == DayEntry(d, HOLIDAY, None))
    ensures (e, d) in st.attendance && status.Some? && status != Some(HOLIDAY) ==>
      var s' := PostAttendance(st, e, d, status).value;
      s'.holidays == st.holidays && s'.attendance[(e, d)] == status.value
  {
    if PostAttendance(st, e, d, status).Ok? {
      var s' := PostAttendance(st, e, d, status).value;
      forall e': EmpId | NoHolidayRecords(st.attendance, e')
        ensures NoHolidayRecords(s'.attendance, e')
      {
        forall x ensures RecordAt(s'.attendance, e', x) != Some(HOLIDAY) {
          if (e', x) != (e, d) {
            assert RecordAt(s'.attendance, e', x) == RecordAt(st.attendance, e', x);
          }
        }
      }
    }
  }

  /** The other two writers of the attendance table, opening the edit page and approving
      leave, write only `Absent` and `Leave`, so no record of any employee becomes `Holiday`. */
  lemma WritersKeepNoHolidayRecords(st: Store, e: EmpId, d: Day, s: Day, t: Day, e': EmpId)
    requires NoHolidayRecords(st.attendance, e')
    ensures OpenAttendance(st, e, d).Ok? ==> NoHolidayRecords(OpenAttendance(st, e, d).value.attendance, e')
    ensures NoHolidayRecords(HrViews.WithLeave(st.attendance, e, s, t), e')
  {
    var w := HrViews.WithLeave(st.attendance, e, s, t);
    forall x ensures RecordAt(w, e', x) != Some(HOLIDAY) {
      if (e', x) !in HrViews.LeaveDays(e, s, t) {
        assert RecordAt(w, e', x) == RecordAt(st.attendance, e', x);
      }
    }
    if OpenAttendance(st, e, d).Ok? {
      var o := OpenAttendance(st, e, d).value.attendance;
      forall x ensures RecordAt(o, e', x) != Some(HOLIDAY) {
        if (e', x) != (e, d) || (e, d) in st.attendance {
          assert RecordAt(o, e', x) == RecordAt(st.attendance, e', x);
        }
      }
    }
  }

  /** Opening the edit page and approving leave write only status choices; saving the edit
      page stores any posted value other than `Holiday`, so it can leave the choices. */
  lemma ChoicesKeptExceptByManualEdit(st: Store, e: EmpId, d: Day, s: Day, t: Day)
    requires AllChoices(st.attendance)
    ensures OpenAttendance(st, e, d).Ok? ==> AllChoices(OpenAttendance(st, e, d).value.attendance)
    ensures AllChoices(HrViews.WithLeave(st.attendance, e, s, t))
    ensures (e, d) in st.attendance ==> !AllChoices(PostAttendance(st, e, d, Some("Late")).value.attendance)
  {
    var r := PostAttendance(st, e, d, Some("Late"));
    if (e, d) in st.attendance {
      assert r.value.attendance[(e, d)] == "Late";
      assert !IsAttendanceChoice("Late");
    }
  }

  method UpdateAttendancePost(db: Db, e: EmpId, d: Day, status: Option<string>) returns (r: Result<()>)
    requires db.Valid()
    modifies db
    ensures db.Valid()
    ensures match PostAttendance(old(db.Model()), e, d, status)
      case Ok(st) => db.Model() == st && r == Ok(())
      case Err(f) => db.Model() == old(db.Model()) && r == Err(f)
  {
    PostAttendanceEffects(db.Model(), e, d, status);
    if (e, d) !in db.attendance {
      return Err(NotFound);
    }
    if status == Some(HOLIDAY) {
      db.holidays := EnsureHoliday(db.holidays, d, MANUAL_HOLIDAY);
      db.attendance := db.attendance - {(e, d)};
    } else if status.None? {
      return Err(IntegrityError);
    } else {
      db.attendance := db.attendance[(e, d) := status.value];
    }
    r := Ok(());
  }

  /** The leave request detail page's POST, the same approve/reject action as the HR
      approvals page. */
  method LeaveRequestDetailPost(db: Db, pk: LeaveId, action: Option<string>) returns (r: Result<()>)
    requires db.Valid()
    modifies db
    ensures db.Valid()
    ensures match HrViews.Review(old(db.Model()), pk, action)
      case Ok(st) => r == Ok(()) && db.Model() == st
      case Err(f) => r == Err(f) && db.Model() == old(db.Model())
  {
    r := HrViews.LeaveApprovalPost(db, pk, action);
  }
}
