/** The HR leave-approval view: listing the pending requests, and approving or rejecting
    one, where approval writes a `Leave` record for every day of the request. */
module HrViews {
  import opened Wrappers
  import opened Calendar
  import opened Models
  import opened Utils

  const APPROVE: string := "approve"
  const REJECT: string := "reject"

  /** The (employee, date) keys of the days `s..t`, every calendar day included. */
  function LeaveDays(e: EmpId, s: Day, t: Day): set<(EmpId, Day)>
  {
    set d: Day | s <= d <= t :: (e, d)
  }

  /** The attendance table after a `Leave` record is upserted for every key of
      `LeaveDays(e, s, t)`. */
  function WithLeave(attendance: AttendanceTable, e: EmpId, s: Day, t: Day): (r: AttendanceTable)
    ensures r.Keys == attendance.Keys + LeaveDays(e, s, t)
    ensures forall k :: k in r && k !in LeaveDays(e, s, t) ==> r[k] == attendance[k]
  {
    map k | k in attendance.Keys + LeaveDays(e, s, t) :: if k in LeaveDays(e, s, t) then LEAVE else attendance[k]
  }

  /** Propagation is exact: every day from `s` to `t`, weekends and holidays included, maps
      to `Leave` for the employee, and no record of another employee or of a day outside the
      range is added, removed or changed. */
  lemma PropagationExact(attendance: AttendanceTable, e: EmpId, s: Day, t: Day)
    ensures forall d :: s <= d <= t ==> RecordAt(WithLeave(attendance, e, s, t), e, d) == Some(LEAVE)
    ensures forall e', d :: e' != e || d < s || t < d ==>
      RecordAt(WithLeave(attendance, e, s, t), e', d) == RecordAt(attendance, e', d)
  {
  }

  /** A reversed range (`t < s`) writes nothing. */
  lemma PropagationEmptyRange(attendance: AttendanceTable, e: EmpId, s: Day, t: Day)
    requires t < s
    ensures WithLeave(attendance, e, s, t) == attendance
  {
  }

  /** One step of the loop: the table for `s..c` is the table for `s..c-1` with the day `c`
      upserted. */
  lemma PropagationStep(attendance: AttendanceTable, e: EmpId, s: Day, c: Day)
    requires s <= c
    ensures WithLeave(attendance, e, s, c) == WithLeave(attendance, e, s, c - 1)[(e, c) := LEAVE]
  {
  }

  /** Propagating the same range twice gives the table that propagating it once gives. */
  lemma PropagationIdempotent(attendance: AttendanceTable, e: EmpId, s: Day, t: Day)
    ensures WithLeave(WithLeave(attendance, e, s, t), e, s, t) == WithLeave(attendance, e, s, t)
  {
  }

  /** A request over N calendar days names exactly N keys. */
  lemma {:induction false} LeaveDaysCount(e: EmpId, s: Day, t: Day)
    ensures |LeaveDays(e, s, t)| == if s <= t then t - s + 1 else 0
    decreases t - s
  {
    if t < s {
      assert LeaveDays(e, s, t) == {};
    } else {
      LeaveDaysCount(e, s, t - 1);
      assert LeaveDays(e, s, t) == LeaveDays(e, s, t - 1) + {(e, t)};
    }
  }

  /** Approving or rejecting request `pk`. A missing request is not found; `approve` sets
      Approved whatever the previous status and propagates the leave; `reject` sets Rejected
      and leaves attendance alone; any other action, or none, changes nothing. */
  function Review(st: Store, pk: LeaveId, action: Option<string>): (r: Result<Store>)
    ensures pk !in st.leaves <==> r == Err(NotFound)
    ensures r.Ok? ==>
      r.value.employees == st.employees && r.value.holidays == st.holidays &&
      r.value.nextEmployeeId == st.nextEmployeeId && r.value.leaves.Keys == st.leaves.Keys
    ensures r.Ok? && action != Some(APPROVE) ==> r.value.attendance == st.attendance
    ensures r.Ok? ==> forall l :: l in st.leaves && l != pk ==> r.value.leaves[l] == st.leaves[l]
    ensures pk in st.leaves && action == Some(APPROVE) ==>
      r.Ok? && r.value.leaves[pk] == st.leaves[pk].(status := Approved)
    ensures pk in st.leaves && action == Some(REJECT) ==>
      r.Ok? && r.value.leaves[pk] == st.leaves[pk].(status := Rejected) && r.value.attendance == st.attendance
    ensures pk in st.leaves && action != Some(APPROVE) && action != Some(REJECT) ==> r == Ok(st)
  {
    if pk !in st.leaves then Err(NotFound)
    else
      var leave := st.leaves[pk];
      if action == Some(APPROVE) then
        Ok(st.(leaves := st.leaves[pk := leave.(status := Approved)],
               attendance := WithLeave(st.attendance, leave.employee, leave.startDate, leave.endDate)))
      else if action == Some(REJECT) then
        Ok(st.(leaves := st.leaves[pk := leave.(status := Rejected)]))
      else Ok(st)
  }

  /** Approval: the request is Approved and the employee has a `Leave` record on every day
      of it, while other employees and other days keep theirs. */
  lemma ApprovalMarksEveryDay(st: Store, pk: LeaveId)
    requires pk in st.leaves
    ensures var r := Review(st, pk, Some(APPROVE));
      var leave := st.leaves[pk];
      r.Ok? && r.value.leaves[pk] == leave.(status := Approved) &&
      (forall l :: l in st.leaves && l != pk ==> r.value.leaves[l] == st.leaves[l]) &&
      r.value.employees == st.employees && r.value.holidays == st.holidays &&
      (forall d :: leave.startDate <= d <= leave.endDate ==> RecordAt(r.value.attendance, leave.employee, d) == Some(LEAVE)) &&
      (forall e, d :: e != leave.employee || d < leave.startDate || leave.endDate < d ==>
         RecordAt(r.value.attendance, e, d) == RecordAt(st.attendance, e, d))
  {
  }

  /** Approving the same request twice leaves the store as approving it once. */
  lemma ApproveTwiceIsApproveOnce(st: Store, pk: LeaveId)
    requires pk in st.leaves
    ensures Review(Review(st, pk, Some(APPROVE)).value, pk, Some(APPROVE)) == Review(st, pk, Some(APPROVE))
  {
    var leave := st.leaves[pk];
    var once := Review(st, pk, Some(APPROVE)).value;
    assert once.leaves[pk] == leave.(status := Approved);
    assert once.leaves[pk := once.leaves[pk].(status := Approved)] == once.leaves;
    PropagationIdempotent(st.attendance, leave.employee, leave.startDate, leave.endDate);
  }

  /** Reviewing keeps the database's constraints: approval writes records only for the
      request's employee, who exists. */
  lemma ReviewKeepsStoreValid(st: Store, pk: LeaveId, action: Option<string>)
    requires StoreValid(st)
    ensures Review(st, pk, action).Ok? ==> StoreValid(Review(st, pk, action).value)
  {
  }

  /** The upsert loop: a `Leave` record for employee `e` on every day from `s` to `t`. */
  method MarkLeaveDays(db: Db, e: EmpId, s: Day, t: Day)
    modifies db
    ensures db.attendance == WithLeave(old(db.attendance), e, s, t)
    ensures db.employees == old(db.employees) && db.leaves == old(db.leaves)
    ensures db.holidays == old(db.holidays) && db.nextEmployeeId == old(db.nextEmployeeId)
  {
    var current := s;
    PropagationEmptyRange(db.attendance, e, s, current - 1);
    while current <= t
      invariant s <= current
      invariant current <= t + 1 || current == s
      invariant db.attendance == WithLeave(old(db.attendance), e, s, current - 1)
      invariant db.employees == old(db.employees) && db.leaves == old(db.leaves)
      invariant db.holidays == old(db.holidays) && db.nextEmployeeId == old(db.nextEmployeeId)
      decreases t - current
    {
      PropagationStep(old(db.attendance), e, s, current);
      db.attendance := db.attendance[(e, current) := LEAVE];
      current := current + 1;
    }
    if t < s {
      PropagationEmptyRange(old(db.attendance), e, s, t);
    }
  }

  /** The view's POST: the status assignment, then the day-by-day upsert loop. */
  method LeaveApprovalPost(db: Db, pk: LeaveId, action: Option<string>) returns (r: Result<()>)
    requires db.Valid()
    modifies db
    ensures db.Valid()
    ensures match Review(old(db.Model()), pk, action)
      case Ok(st) => r == Ok(()) && db.Model() == st
      case Err(f) => r == Err(f) && db.Model() == old(db.Model())
  {
    ReviewKeepsStoreValid(db.Model(), pk, action);
    if pk !in db.leaves {
      return Err(NotFound);
    }
    var leave := db.leaves[pk];
    if action == Some(APPROVE) {
      db.leaves := db.leaves[pk := leave.(status := Approved)];
      MarkLeaveDays(db, leave.employee, leave.startDate, leave.endDate);
    } else if action == Some(REJECT) {
      db.leaves := db.leaves[pk := leave.(status := Rejected)];
    }
    return Ok(());
  }

  /** The requests the approvals page lists: those whose status is Pending. */
  function PendingLeaves(leaves: map<LeaveId, LeaveRequest>): (r: map<LeaveId, LeaveRequest>)
    ensures forall l :: l in r <==> l in leaves && leaves[l].status == Pending
    ensures forall l :: l in r ==> r[l] == leaves[l]
  {
    map l | l in leaves && leaves[l].status == Pending :: leaves[l]
  }

  /** A request enters the approvals list when it is created, and leaves it once it is
      approved or rejected; the other entries of the list stay as they were. */
  lemma PendingListFollowsReview(st: Store, pk: LeaveId, action: Option<string>, newId: LeaveId, e: EmpId, s: Day, t: Day, reason: string)
    requires pk in st.leaves && newId !in st.leaves
    ensures newId in PendingLeaves(st.leaves[newId := NewLeaveRequest(e, s, t, reason)])
    ensures action == Some(APPROVE) || action == Some(REJECT) ==>
      PendingLeaves(Review(st, pk, action).value.leaves) == PendingLeaves(st.leaves) - {pk}
    ensures action != Some(APPROVE) && action != Some(REJECT) ==>
      PendingLeaves(Review(st, pk, action).value.leaves) == PendingLeaves(st.leaves)
  {
  }
}
