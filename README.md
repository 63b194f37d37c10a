# Attendance core of the EMS employee-management application, in Dafny

This project models the part of the EMS Django application that does more than copy form
fields into rows:

- the **attendance percentage** (`calculate_attendance_percentage`): a walk from an
  employee's hire date to today that skips Saturdays, Sundays and holidays, counts every
  other day as present, leave or absent (no record counts as absent) and returns
  present / (present + absent) × 100, or 0 when nothing was present or absent;
- the **attendance list** (`AttendanceDetailView.get`): the same walk, producing the ordered
  list of weekdays with `Holiday`, the recorded status, or `Absent`;
- the **leave approval** (`LeaveApprovalView.post`, duplicated in
  `LeaveRequestDetailView.post`): approve or reject a request; approval upserts a `Leave`
  record on every calendar day of the request, weekends and holidays included;
- the **manual attendance edit** (`UpdateAttendanceView.get/post`) and the approvals list;
- **`get_or_create_employee`**, with its email and name defaults;
- the **tables** of `employee/models.py`, their constraints and the cascade on delete.

Dates are day ordinals (`Calendar.Day`; day 1 is 0001-01-01, a Monday, so Python's
`weekday()` is `(d + 6) % 7`). The database is a `Models.Db` object whose fields are maps:
attendance keyed by the unique (employee, date) pair, holidays keyed by their unique date
(value: the holiday's name), employees and leave requests by primary key. `Models.Store` is
the same data as a value; each view that writes is a method on a `Db` whose contract ties
the new state to a pure transition function over `Store` (`Views.OpenAttendance`,
`Views.PostAttendance`, `HrViews.Review`), and the properties are lemmas about those
functions. The two walks are `while` loops proved against recursive functions
(`Utils.Tallied`, `Views.Reconciled`). Today's date is a parameter.

Three behaviours of the code are modelled as they are:

- the manual edit stores any posted status other than `Holiday` as it is, without checking
  it against the status choices (`Views.PostAttendance`);
- weekends do not appear in the attendance list at all; there is no `Weekend` line;
- approval and rejection work from any current status, not only from Pending, and
  approving again re-writes the `Leave` records.

## Model

| member | source | states |
|---|---|---|
| `Calendar.Weekday` | employee/utils.py:30 | the weekday of a day ordinal is in 0..6 (Monday 0), 5 and 6 being the weekend |
| `Calendar.WeekdayFollowsCalendar` | employee/utils.py:30 | day 1 (0001-01-01) is a Monday, each next day is the next weekday modulo 7, and day 738886 (2024-01-01) is a Monday, as Python's `weekday()` has them |
| `Models.DisplayName` | employee/models.py:14-15 | an employee's display string is the first name, one space, then the last name, and both names can be read back from it |
| `Models.NewLeaveRequest` | employee/models.py:30-35 | a newly stored leave request is Pending and keeps the employee, dates and reason given |
| `Models.CascadeDelete` | employee/models.py:17-31 | deleting an employee removes exactly that employee, their attendance records and their leave requests, and nothing else |
| `Models.CascadeDeleteKeepsStoreValid` | employee/models.py:3-42 | after the cascade no record or request points at the deleted employee, and foreign keys and unique emails still hold |
| `Models.Db.DeleteEmployee` | employee/models.py:17-31 | the database after deleting an employee is the cascade of the old one, and stays valid |
| `Utils.CalculateAttendancePercentage` | employee/utils.py:5-55 | the day-by-day loop returns the percentage of the walk from the hire date to today, and it lies in [0, 100] |
| `Utils.Tallied` | employee/utils.py:26-48 | the walk over `lo..hi` counts at most one day per calendar day of the range, none when the range is empty |
| `Utils.Tally.Bump` | employee/utils.py:41-46 | one more day on the chosen counter, the other two unchanged |
| `Utils.TalliedCountsDays` | employee/utils.py:26-48 | each counter equals the number of working days in range whose record sends them to it: each day is counted once, weekends and holidays never |
| `Utils.CountersPartitionWorkingDays` | employee/utils.py:39-46 | the present, absent and leave days are pairwise disjoint and together are exactly the working days (Present to present, Leave to leave, anything else or no record to absent) |
| `Utils.TallyCoversWorkingDays` | employee/utils.py:26-48 | present + absent + leave equals the number of non-weekend, non-holiday days from the hire date to today |
| `Utils.TallyIgnoresNonWorkingDays` | employee/utils.py:30-37 | records on Saturdays, Sundays and holidays (and outside the range) change no counter |
| `Utils.PercentageBounds` | employee/utils.py:50-55 | the percentage lies in [0, 100], is 0 exactly when no day is present, 100 exactly when some day is present and none absent, and does not depend on the leave count |
| `Utils.Percentage` | employee/utils.py:50-55 | with no present or absent day the result is 0; otherwise it is the ratio present / (present + absent) times 100 |
| `Utils.HiredInFutureGivesZero` | employee/utils.py:26-55 | when the hire date is after today no day is visited and the percentage is 0 |
| `Utils.IsHr` | employee/utils.py:57-58 | an anonymous user is never HR; an authenticated user is HR exactly when in group `HR` |
| `Utils.IsEmployee` | employee/utils.py:60-61 | an anonymous user is never an employee; an authenticated user is one exactly when in group `Employee` |
| `Views.AttendanceDetailGet` | employee/views.py:47-108 | a missing employee is not found; otherwise the loop's list is the reconciled list of the hire date to today, and the page's percentage is the walk's |
| `Views.Reconciled` | employee/views.py:70-96 | the list for `lo..hi` has at most one line per calendar day of the range, none when the range is empty |
| `Views.ReconciledInOrder` | employee/views.py:70-96 | list dates strictly ascend within [hire date, today], no Saturday or Sunday appears, a holiday shows `Holiday` with no record, any other day its recorded status or `Absent` |
| `Views.ReconciledCoversWeekdays` | employee/views.py:70-96 | the list's dates are exactly the weekdays from the hire date to today |
| `Views.EntriesTallyStep` | employee/views.py:70-96 | when no record holds `Holiday`: if the list's counters equal the walk's for the days up to `hi - 1`, they also equal them for the days up to `hi` |
| `Views.EntriesTallyLikeWalk` | employee/views.py:68-96 | when no record holds `Holiday`, counting the list's non-`Holiday` lines gives the percentage walk's present/absent/leave counters, by induction on the last day |
| `Views.ReconcilerLinesAreWorkingDays` | employee/views.py:70-96 | when no record holds `Holiday`, a line is non-`Holiday` exactly when its date is a working day of the percentage walk, such a line goes to the counter the walk gives that day, and every working day has such a line |
| `Views.ReconcilerAgreesWithAggregator` | employee/views.py:68-101 | when no record holds `Holiday`, the non-`Holiday` lines give the same present/absent/leave counts, hence the same percentage, as the percentage walk |
| `Views.HolidayGetOrCreateAsWritten` | employee/views.py:138 | the holiday lookup-or-insert as written fails with an integrity error exactly when the date already is a holiday under another name |
| `Views.ManualHolidayOnNamedHolidayFails` | employee/views.py:137-139 | on a date that is already the holiday "New Year", the lookup-or-insert as written fails |
| `Views.EnsureHoliday` | employee/views.py:138 | making a day a holiday adds just that date, keeps every existing holiday's name, and names a new one as given |
| `Views.OpenAttendance` | employee/views.py:113-118 | a missing employee is not found; otherwise only the attendance table changes, gaining the key (employee, date) if it was missing, as `Absent`, and keeping every existing record |
| `Views.OpenAttendanceGetsOrCreates` | employee/views.py:112-118 | opening the edit page of a missing employee is not found; otherwise a record exists afterwards, `Absent` if it was missing, unchanged if it existed, no other row changes and reopening changes nothing |
| `Views.UpdateAttendanceGet` | employee/views.py:112-126 | the page shows the record's status and whether the day is a holiday, and the database becomes the get-or-create result |
| `Views.PostAttendance` | employee/views.py:128-142 | with the corrected holiday lookup: no record is not found and a missing value an integrity error, exactly; `Holiday` removes the record and makes the date a holiday; any other value is written into the record and holidays are unchanged; employees, leave requests and the key counter never change |
| `Views.PostAttendanceEffects` | employee/views.py:128-144 | with the corrected holiday lookup: no record is not found, a missing value is refused; `Holiday` makes the date a holiday and deletes the record, so the list shows the day as `Holiday`; any other value is stored unvalidated; no other record changes and constraints hold |
| `Views.WritersKeepNoHolidayRecords` | employee/views.py:113-118 | opening the edit page and approving leave never leave a `Holiday` record for any employee that had none |
| `Views.ChoicesKeptExceptByManualEdit` | employee/views.py:137-142 | opening the edit page and approving leave write only Present/Absent/Leave, while saving the edit page can store a value outside the choices |
| `Views.UpdateAttendancePost` | employee/views.py:128-144 | the database after saving the edit page is the result of the post transition, unchanged on failure |
| `Views.LeaveRequestDetailPost` | employee/views.py:154-176 | the detail page's approve/reject does what the approvals page does |
| `HrViews.WithLeave` | employee/views/hr_views.py:97-104 | the table after approval has exactly the old keys plus one per day of the request, and every key outside the request keeps its record |
| `HrViews.PropagationExact` | employee/views/hr_views.py:97-104 | after propagation every day of [start, end], weekends and holidays included, is `Leave` for the employee, and every other employee's and date's record is as before |
| `HrViews.PropagationEmptyRange` | employee/views/hr_views.py:93-98 | when the end date is before the start date no record is written |
| `HrViews.PropagationIdempotent` | employee/views/hr_views.py:99-103 | propagating the same range twice gives the same table as once |
| `HrViews.LeaveDaysCount` | employee/views/hr_views.py:97-104 | a request over N calendar days writes N (employee, date) keys |
| `HrViews.Review` | employee/views/hr_views.py:89-110 | a missing request is not found; approve sets that request Approved, reject sets it Rejected and leaves attendance unchanged, any other action changes nothing; every other request is unchanged |
| `HrViews.ApprovalMarksEveryDay` | employee/views/hr_views.py:93-104 | approve sets Approved whatever the prior status and marks every day of the request `Leave`; other requests, employees and holidays are unchanged |
| `HrViews.ApproveTwiceIsApproveOnce` | employee/views/hr_views.py:93-104 | approving the same request twice leaves the database as approving it once |
| `HrViews.ReviewKeepsStoreValid` | employee/views/hr_views.py:97-104 | approval and rejection keep foreign keys and unique constraints |
| `HrViews.MarkLeaveDays` | employee/views/hr_views.py:97-104 | the `while current <= end_date` loop upserts `Leave` for the employee on every day from start to end and changes no other table |
| `HrViews.LeaveApprovalPost` | employee/views/hr_views.py:89-110 | the status assignment and the upsert loop leave the database as the review transition says, unchanged on failure |
| `HrViews.PendingLeaves` | employee/views/hr_views.py:84 | the approvals list holds exactly the requests whose status is Pending |
| `HrViews.PendingListFollowsReview` | employee/views/hr_views.py:84-108 | a new request is listed; approving or rejecting removes exactly that request from the list; any other action leaves the list as it was |
| `EmployeeViews.CompanyEmail` | employee/views/employee_views.py:30 | the fallback address is the username followed by `@company.com` |
| `EmployeeViews.ChosenEmail` | employee/views/employee_views.py:30-33 | the email is the user's own when set and free, else the company address; it is never empty, and it can be taken only when it is the company address |
| `EmployeeViews.CompanyEmailMayBeTaken` | employee/views/employee_views.py:32-33 | the company address is not re-checked: whenever the user's address is unset or taken and the company address is taken, the chosen address is in use |
| `EmployeeViews.CompanyEmailTakenExample` | employee/views/employee_views.py:32-33 | a concrete user for whom both candidate addresses are taken, so the case above happens |
| `EmployeeViews.NewEmployee` | employee/views/employee_views.py:35-43 | the new row is linked to the user, position `Employee`, department `General`, hired today, first name defaulting to the username, last name the user's |
| `EmployeeViews.LinkedAtMostOne` | employee/views/employee_views.py:26 | under the store constraints the lookup by user finds at most one employee |
| `EmployeeViews.NewEmployeeStartsAtZero` | employee/views/employee_views.py:35-43 | a newly created employee has no record, so their percentage on the day of creation is 0 |
| `EmployeeViews.GetOrCreateEmployee` | employee/views/employee_views.py:22-44 | a linked employee is returned and nothing is created; otherwise exactly one employee is added with the next key and defaulted fields, or the insert fails when the chosen email is taken |

## Findings

| source | as written | input that shows it | evidently intended | confidence | as-written member | corrected member |
|---|---|---|---|---|---|---|
| employee/views.py:138 | the manual holiday is looked up by date and name together, then inserted | a day that is already the holiday "New Year" with an attendance record, edited to `Holiday`: the insert breaks the unique holiday date, and the record is not deleted | look the holiday up by date only, with "Manual Holiday" as the name of a new one | medium, not executed | `Views.HolidayGetOrCreateAsWritten`, `Views.ManualHolidayOnNamedHolidayFails` | `Views.EnsureHoliday`, proved in `Views.PostAttendanceEffects` |

## Left out

- Rendering, templates, redirects, flash messages, URL routing and the template context processor.
- Login, registration and logout views, the `login_required` and `user_passes_test` wiring, password handling and group assignment: framework calls. Only the role predicates `is_hr` and `is_employee` are modelled.
- The forms module: widget configuration and a username check that needs the user table.
- Float division and `round(..., 2)`: the percentage is an exact `real`.
- Utils.PercentageBounds: its "0 exactly when no day is present" and "100 exactly when none is absent" clauses hold for the exact ratio, not for the value `round(x, 2)` returns. Once present + absent exceeds about 20000 they fail for the rounded value: 1 present of 20002 rounds to 0.0, and 20001 present of 20002 rounds to 100.0.
- `date.today()` is a parameter. Converting ordinals to calendar dates is left out, and so are the `__str__` methods of attendance records, leave requests and holidays, which print dates.
- Query mechanics, transactions and concurrent requests: the store is maps updated one step at a time. The walks look records up directly instead of building the range-filtered `record_map` and holiday set; the walk only asks about dates in the range, so the result is the same.
- `max_length` limits of the text columns, which the database may or may not enforce.
- Default ordering of employees by hire date: the model's tables are maps, so listings have no order.
- Plain CRUD views, dashboards with counts, and the placeholder functions with `...` bodies.
- The department/name/month CSV export is not modelled.
- `Models.Employee.user`: the employee table declares no user column, though the views read and write one. The model gives employees an optional user link and assumes at most one employee per user (`Models.UsersUnique`), as a one-to-one column would. With several linked rows the real lookup would raise an error that the model does not have.
- `Views.PostAttendance`: uses the corrected holiday lookup of the finding above (by date only). On a date that already is a holiday under another name the code as written fails with an integrity error and keeps the record, while the model succeeds and deletes it; so its "integrity error exactly when the value is missing" clause holds only for the corrected lookup.
- `Views.PostAttendanceEffects`: states the save with the corrected holiday lookup, for the same reason; the code as written is `Views.HolidayGetOrCreateAsWritten`.
- `HrViews.LeaveApprovalPost`: Python's dates end at 9999-12-31 (ordinal 3652059); `Calendar.Day` is unbounded. Approving a request that ends on that day upserts its last `Leave` record and then raises `OverflowError` when the loop advances the date, so the view fails instead of redirecting. The model returns `Ok(())` there, with the store as `HrViews.Review` gives it.
- `Views.LeaveRequestDetailPost`: the same `OverflowError` after the last upsert for a request ending on 9999-12-31, where the model returns `Ok(())`.
- `Views.UpdateAttendancePost`: uses the corrected holiday lookup of the finding above. The code as written fails with an integrity error when the date already is a holiday under another name.
- `EmployeeViews.NewEmployee`: `last_name or ''` differs from `last_name` only for a missing value. The model's strings are never missing.
- `EmployeeViews.GetOrCreateEmployee`: an integrity error from the insert is returned as an error value. In the application it is an unhandled exception.
