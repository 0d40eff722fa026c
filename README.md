# Attendance tool: a verified model of its two service cores

The repository holds two independent implementations of one attendance tool
for a tutoring business. This project models the business rules of both and
proves what they promise.

**The Python service layer.** `AttendanceService` (python/services.py) runs on
the SQLAlchemy schema of python/models.py. Its six tables are students,
teachers, courses, weekly course schedules, the student–course enrollment
association, and attendance records.

- `schema.dfy` holds the entity shapes and the database value `Db`.
  - `Valid` is the invariant every operation keeps: unique student, teacher
    and course names; references that resolve; class counters that fit the
    64-bit column; one record per (student, schedule, date).
  - It also holds the delete cascades of the ORM relationships.
- `service_rules.dfy` writes each service operation as a transition of `Db`,
  giving the answer and the new database.
  - These include the counters of `add_student` and `add_classes_to_student`,
    the guard of `delete_teacher`, and the lunch-break rule of
    `add_course_schedule`.
  - They include the weekly schedules expanded into dated occurrences, the
    enrollment lists, and the month range and ordering of the monthly report.
  - Above all they include `take_attendance`: unknown schedules and students,
    the "already recorded" skip, and the deduction rule for 有到 (present) and
    遲到 (late) when the balance is positive.
  - The properties are proved beside these rules: idempotence, the exact
    balance and record that each student ends with, the balance floor, and the
    preserved invariant.
- `services.dfy` is the class. It holds the six tables as fields and performs
  each operation in place, with the source's loops. Each method is proved to
  leave exactly the answer and the tables that its rule describes.

**The Express/Prisma backend** (backend/server.js). `backend.dfy` models a
`Store` class with the student table, the course table and the attendance
records. It models three handlers:

- `POST /courses/:id/attendance` answers 404 and changes nothing for a missing
  course. Otherwise it writes one record per student of the table: `present`
  iff the id was submitted, `absent` otherwise. A present student with hours
  left loses exactly one hour, and nothing is deduplicated.
- `GET /courses/:id/attendance` answers one row per record of the course,
  joined with the student as it is now.
- `DELETE /students/:id` removes the student's records, then the student.

**Representation:**

- Dates are proleptic Gregorian ordinals, as `date.toordinal()` gives them, and
  `Weekday` is `date.weekday()` (Monday 0).
- Times of day are minutes since midnight.
- An end time wraps past midnight like `datetime.combine(...).time()`.
- Every `datetime` overflow that the source lets escape is the value `None`.
- New rows get SQLite's rowid: one more than the largest key present, or 1 in
  an empty table.
- String order is code-point order, which is SQLite's default `BINARY`
  collation.

**Behaviour of the code worth knowing, and how the model treats it.**

- The attendance page frontend/src/AttendancePage.jsx:25-36 posts a date and
  a status per student. The handler reads only `presentStudentIds`
  (backend/server.js:83) and writes no session date. Given that body it has
  no list, so it answers 500 and writes nothing, or 201 with nothing written
  when there are no students (`Backend.Store.RecordAttendance`). Given a list,
  it appends one record per student on every submission
  (`Backend.SubmissionAppendsRecords`). The Python core instead skips a
  student who already has a record for the (student, schedule, date)
  (python/services.py:308-314).
- The delete route calls `prisma.attendance`, a model name under which the
  handler writes no records. The model takes the route's evident intent: the
  student's attendance records, then the student.
- `add_course_schedule` tests the lunch break on the wrapped end time. A slot
  that runs past midnight can therefore pass the test while covering the
  break (`Calendar.WrappedSlotPassesLunchTest`). This includes a slot that
  starts inside the break (`Calendar.WrappedSlotsPassLunchTest`). The model
  keeps that behaviour.
- Deleting a course or a student removes only the association rows that the
  ORM loads through the inner join of the `secondary` relationship. A row
  written by `update_course_enrollments` for an id of no student therefore
  survives the course delete. When the deleted course had the largest key,
  the next course created takes that key and inherits the row (`ServiceRules.DanglingEnrollmentOutlivesCourse`).
- SQLite's INTEGER holds 64 bits, and the driver raises OverflowError for a
  larger value. `add_student`, `add_classes_to_student` and `add_course`
  catch it and refuse. So do `update_course_enrollments`, for an id of the
  list, and `take_attendance`, for a student id of the dict. The latter rolls
  back the entries it has already written. The model refuses the same inputs
  and leaves the tables as they were.

## Model

| member | source | states |
|---|---|---|
| `Calendar.EndTime` | python/services.py:163-164 | The end time exists iff start + duration stays inside the `datetime` range. It is congruent to start + duration modulo one day, and equals it when no midnight is crossed. |
| `Calendar.ClearOfLunchIffNoLunchMinute` | python/services.py:166-168 | For a slot of positive length within one day, "ends by 12:10 or starts at 13:00 or later" holds iff no minute of the slot lies in the lunch break. |
| `Calendar.WrappedSlotPassesLunchTest` | python/services.py:163-168 | A 24-hour slot from 12:00 has the wrapped end time 12:00 and passes the lunch test. |
| `Calendar.WrappedSlotsPassLunchTest` | python/services.py:163-168 | Every slot that starts before 13:00 and runs past midnight to end by 12:10 is accepted, although one of its minutes lies in the break. |
| `Calendar.DayName` | python/services.py:218-223 | The name is one of MON..SUN, the one at the date's `weekday()`. |
| `Calendar.FirstDayIsMonday` | python/services.py:218-223 | 0001-01-01, ordinal 1, is a Monday. |
| `Calendar.WeekdayNext` | python/services.py:222-236 | Stepping one day advances the weekday by one, cyclically. |
| `Calendar.AddDaysFromFirst` | python/services.py:363 | Counting k ≤ 31 days from the first of a month stays in the month while k is below its length, then continues in the next month. |
| `Calendar.MonthRange` | python/services.py:362-363 | Defined iff year is 1..9999, month is 1..12 and not 9999-12. The range runs from the ordinal of the first to the ordinal of the last day of that month, so it spans the month's length. |
| `Text.LessIsStrictWeakOrder` | python/services.py:249 | The name order of `order_by(Student.name)` is irreflexive and transitive, and so is its incomparability. |
| `Text.AsciiUpper` | python/services.py:173 | The result has the same length, and each character is upper-cased if it is an ASCII letter, otherwise kept. |
| `Text.AsciiUpperIdempotent` | python/services.py:173 | Upper-casing a stored day name again changes nothing. |
| `Seqs.InKeyOrder` | python/services.py:214-217 | The schedules are listed as their keys, each exactly once, in ascending key order. |
| `Seqs.SortBy` | python/services.py:237 | The result is sorted by the given strict weak order and is a permutation of the input. |
| `Schema.NextId` | python/models.py:18 | A new row's key is at least 1, is not in use, and is above every key in use. It is 1 or one more than a key in use. |
| `Schema.EmptyDbValid` | python/services.py:19-22 | The freshly created, empty database satisfies the schema invariant. |
| `Schema.DeleteStudentRemovesItsRecords` | python/models.py:26-36 | After a student delete, the student is gone and exactly the other students' records remain. Its association rows go where they name an existing course, every other row stays, and nothing is added. |
| `Schema.DeleteCourseRemovesItsRecords` | python/models.py:58-85 | After a course delete, the course and its schedules are gone, and exactly the records of other courses' schedules remain. Its association rows go where they name an existing student, every other row stays, and nothing is added. |
| `Schema.DeleteStudentKeepsValid` | python/models.py:26-30 | The student-delete cascade keeps the schema invariant. |
| `Schema.DeleteCourseKeepsValid` | python/models.py:59-85 | The course-delete cascade keeps the schema invariant. |
| `ServiceRules.AddStudent` | python/services.py:28-43 | Refused iff the name is taken or the class count does not fit 64 bits, and then nothing changes. Otherwise a new key holds the student with the given name, phone and address and with remaining classes equal to registered classes. Nothing else changes, and the invariant is kept. |
| `ServiceRules.AddClassesToStudent` | python/services.py:59-73 | False with nothing changed iff the student is missing or a raised counter would not fit 64 bits. Otherwise both counters rise by n, the name, phone and address stay, and no other student and no other table changes. |
| `ServiceRules.AddClassesKeepsUsed` | python/services.py:65-66 | Registered minus remaining classes is unchanged for every student. |
| `ServiceRules.DeleteStudent` | python/services.py:75-88 | False with nothing changed iff the student is missing, otherwise the student-delete cascade. The invariant is kept. |
| `ServiceRules.AddTeacher` | python/services.py:91-102 | Refused iff the name is taken. Otherwise a new key holds the teacher and nothing else changes. |
| `ServiceRules.DeleteTeacher` | python/services.py:111-126 | Deleted iff the teacher exists and gives no course, and then only the teacher is removed. Not found iff missing. Otherwise the answer is the number of courses (> 0), with nothing changed. |
| `ServiceRules.AddCourse` | python/services.py:129-145 | Created iff the teacher exists, the name is free and both lengths fit 64 bits. Only the new course is added, and the invariant is kept. |
| `ServiceRules.AddCourseSchedule` | python/services.py:156-184 | Created iff the course exists, the end time is defined and the slot ends by 12:10 or starts at 13:00 or later. The new slot stores the upper-cased day, the start, and an end congruent to start + duration. Nothing else changes. |
| `ServiceRules.DeleteCourse` | python/services.py:186-199 | False with nothing changed iff the course is missing, otherwise the course-delete cascade. The invariant is kept. |
| `ServiceRules.DanglingEnrollmentOutlivesCourse` | python/services.py:186-199 | An association row for an id of no student outlives the delete of its course. The next course created takes the freed largest key and counts that id as enrolled. |
| `ServiceRules.ScheduleKeysJoin` | python/services.py:214-217 | In a valid database, every listed schedule loads its course and teacher, each key is listed once, and all are listed. |
| `ServiceRules.DayOccurrencesCount` | python/services.py:224-235 | One date's pass over the schedules yields each occurrence of a listed schedule on that date exactly once and nothing else. |
| `ServiceRules.PeriodOccurrencesCount` | python/services.py:222-236 | The day-by-day loop yields each occurrence of a listed schedule within [first, last] exactly once. |
| `ServiceRules.PeriodOccurrencesExact` | python/services.py:220-236 | With all schedules listed once, every occurrence of the period appears exactly once and nothing else does. |
| `ServiceRules.OccursBeforeIsStrictWeakOrder` | python/services.py:237 | The sort key (date, start time) is a strict weak order. |
| `ServiceRules.OneOccurrencePerSlot` | python/services.py:224-235 | A (date, schedule) pair has only one occurrence. |
| `ServiceRules.NoOccurrenceInEmptyRange` | python/services.py:222 | A range that ends before it starts has no occurrence. |
| `ServiceRules.StudentsForCourse` | python/services.py:242-252 | The enrolled students, each once, sorted by name. |
| `ServiceRules.StudentsNotInCourse` | python/services.py:254-266 | The students the course's rows do not name, each once, sorted by name. |
| `ServiceRules.CourseListsPartitionStudents` | python/services.py:254-264 | The two lists are disjoint and together make up the student table. With no rows for the course, every student is "not in course". |
| `ServiceRules.UpdateCourseEnrollments` | python/services.py:268-293 | False with nothing changed iff the course is missing or some id does not fit 64 bits. Otherwise the course's enrolled ids are exactly the distinct given ids, every other course keeps its rows, and no other table changes. |
| `ServiceRules.UpdateEnrollmentsIdempotent` | python/services.py:275-285 | Giving the same set of ids again, in any order or repeated, changes nothing more. |
| `ServiceRules.MarkOne` | python/services.py:303-326 | One entry keeps the student keys and the other tables. It appends at most one record, and that record is for the entry's student, the schedule and the date, with the entry's status. |
| `ServiceRules.MarkAll` | python/services.py:303-326 | The whole dict keeps the student keys and the other tables. It appends at most one record per entry, each for the call's schedule and date. |
| `ServiceRules.TakeAttendance` | python/services.py:296-334 | False with nothing changed iff the schedule is missing or some student id of the dict does not fit 64 bits, the rollback undoing earlier entries. Otherwise only students and records change, and the invariant is kept. |
| `ServiceRules.MarkOneKeepsValid` | python/services.py:308-326 | Writing one entry keeps the invariant, in particular one record per (student, schedule, date). |
| `ServiceRules.MarkAllKeepsValid` | python/services.py:303-326 | Writing all entries keeps the invariant. |
| `ServiceRules.MarkAllRecordsKnownStudents` | python/services.py:303-326 | After marking, every known student of the dict has a record for (schedule, date). |
| `ServiceRules.MarkAllIdle` | python/services.py:308-314 | When every known student of the dict already has a record for the key, marking changes nothing. |
| `ServiceRules.TakeAttendanceIdempotent` | python/services.py:308-314 | Submitting the same statuses a second time gives the same answer and the same database: no second record and no second deduction. |
| `ServiceRules.FirstStatus` | python/services.py:303 | There is no status iff no entry names the student. |
| `ServiceRules.MarkAllBalance` | python/services.py:316-320 | A student loses exactly one class iff it is known, had no record for the key, and its first status is 有到 or 遲到 with a positive balance. Otherwise, and in all its other fields, it is unchanged. |
| `ServiceRules.MarkingKeepsBalanceFloor` | python/services.py:316-320 | No balance drops by more than one, and a non-negative balance stays non-negative. |
| `ServiceRules.MarkAllRecords` | python/services.py:316-326 | For a marked student, the records of (student, schedule, date) become exactly one new record. It carries the student's status, and `class_deducted` is true iff a class was deducted. Every other student keeps its records for that schedule and date. |
| `ServiceRules.OtherSessionsKeepTheirRecords` | python/services.py:296-334 | A submission for one (schedule, date) leaves every student's records for every other (schedule, date) as they were. |
| `ServiceRules.ExactlyOneRecordPerMarkedKey` | python/services.py:308-326 | After a submission that succeeds, a known student named in the dict has exactly one record for (schedule, date), whether or not one existed. |
| `ServiceRules.UnknownStudentsSkipped` | python/services.py:303-306 | Entries for unknown students have no effect: the outcome is that of the dict without them. |
| `ServiceRules.JoinedRows` | python/services.py:364-376 | A row is produced iff some record joins its student, schedule, course and teacher into it. |
| `ServiceRules.JoinedRowsCount` | python/services.py:364-376 | The inner join yields each row exactly as often as there are records that join into it. |
| `ServiceRules.EveryRecordJoins` | python/services.py:364-376 | In a valid database every record joins, so there is one joined row per record. |
| `ServiceRules.ReportBeforeIsStrictWeakOrder` | python/services.py:379 | The order (date, student name) is a strict weak order. |
| `ServiceRules.MonthlyReport` | python/services.py:359-383 | Defined iff the month range is. The rows are sorted by (date, student name), and each joined row dated in the range appears as often as it is produced, the others not at all. |
| `ServiceRules.ReportRowsAreTheMonths` | python/services.py:362-378 | For a valid month, a row is reported iff it joins a record dated from the first to the last day of that month. |
| `ServiceRules.ByNameIsStrictWeakOrder` | python/services.py:249 | Ordering student ids by the student's name is a strict weak order. |
| `ServiceRules.SortedByNameIsStrict` | python/models.py:19 | With unique names, a list of distinct students sorted by name has strictly increasing names. |
| `Services.AttendanceService.constructor` | python/services.py:19-22 | A fresh service holds the empty database, which is valid. |
| `Services.AttendanceService.AddStudent` | python/services.py:28-43 | The answer and the tables are those of `ServiceRules.AddStudent`. `registered_classes` defaults to 0, and the invariant is kept. |
| `Services.AttendanceService.AddClassesToStudent` | python/services.py:59-73 | Both counters are updated in place, as `ServiceRules.AddClassesToStudent` describes. |
| `Services.AttendanceService.DeleteStudent` | python/services.py:75-88 | The tables become `ServiceRules.DeleteStudent`'s. |
| `Services.AttendanceService.AddTeacher` | python/services.py:91-102 | The tables become `ServiceRules.AddTeacher`'s. |
| `Services.AttendanceService.DeleteTeacher` | python/services.py:111-126 | The answer and the tables are `ServiceRules.DeleteTeacher`'s. |
| `Services.AttendanceService.AddCourse` | python/services.py:129-145 | The tables become `ServiceRules.AddCourse`'s, with defaults of 60 and 10 minutes. |
| `Services.AttendanceService.AddCourseSchedule` | python/services.py:156-184 | The tables become `ServiceRules.AddCourseSchedule`'s. |
| `Services.AttendanceService.DeleteCourse` | python/services.py:186-199 | The tables become `ServiceRules.DeleteCourse`'s. The schedules and their records go, and so do the course's association rows of existing students. |
| `Services.AttendanceService.CoursesForPeriod` | python/services.py:211-239 | None iff first ≤ last is the last representable date (the loop steps past `date.max`). Otherwise each occurrence in [first, last] appears exactly once, nothing else appears, and the list is sorted by (date, start time). |
| `Services.AttendanceService.ExpandPeriod` | python/services.py:220-236 | The `while` loop appends the period's occurrences date by date, or overflows past the last date. |
| `Services.AttendanceService.AppendDay` | python/services.py:223-235 | The inner loop appends the occurrences of one date in schedule order. |
| `Services.AttendanceService.UpdateCourseEnrollments` | python/services.py:268-293 | The delete-then-insert loop leaves the answer and the tables of `ServiceRules.UpdateCourseEnrollments`. |
| `Services.AttendanceService.TakeAttendance` | python/services.py:296-334 | The loop over the dict, with the rollback on an overflowing id, leaves the answer and the tables of `ServiceRules.TakeAttendance`. |
| `Backend.SubmissionRecords` | backend/server.js:98-118 | One record per student, in table order, for the course. The status is present iff the id was submitted, the author is "teacher", and the time is the stamp. |
| `Backend.ChargedStudents` | backend/server.js:99-109 | Only present students with a positive balance lose exactly one hour, no non-negative balance goes negative, and nothing else about any student changes. |
| `Backend.OneNewRecordPerStudent` | backend/server.js:95-118 | With distinct ids, each student gets exactly one new record for the course, and an id of no student gets none. |
| `Backend.SubmissionAppendsRecords` | backend/server.js:111-118 | Each submission adds one record per student to however many that student already had for the course. |
| `Backend.UnknownIdsIgnored` | backend/server.js:95-99 | Submitted ids of no student change neither the records nor the balances. |
| `Backend.IndexOf` | backend/server.js:138 | The student a record refers to is found at a position holding that id. |
| `Backend.SubmissionKeepsValid` | backend/server.js:95-121 | A submission for an existing course keeps ids distinct and every record resolving. |
| `Backend.DeleteKeepsValid` | backend/server.js:249-250 | Removing a student's records, and then the student, keeps every remaining record resolving. |
| `Backend.Store.constructor` | backend/server.js:8 | An empty store is valid. |
| `Backend.Store.RecordAttendance` | backend/server.js:82-128 | "Course not found" iff the course is missing. A body without `presentStudentIds` fails iff there is a student. In both cases nothing changes. Otherwise the balances become `ChargedStudents`, the records gain `SubmissionRecords`, and the store stays valid. |
| `Backend.Store.Submit` | backend/server.js:98-119 | Visiting the students in table order leaves the charged student table and the old records followed by one new record per student. |
| `Backend.Store.CourseAttendance` | backend/server.js:131-152 | One row per record of the course, in record order, each showing the record's status and time with its student's current fields. There is no record and no row otherwise. |
| `Backend.Store.DeleteStudent` | backend/server.js:246-255 | The student's records are removed. It succeeds iff the student exists, and then the student is removed. The store stays valid. |

## Left out

- Interfaces and plumbing:
  - The Tkinter interface (python/main_gui.py) and the React pages are user
    interface.
  - The login check in a page and the `localStorage` flag are client plumbing.
  - Sessions, commit and rollback, and exception messages belong to SQLAlchemy
    and Prisma. Each operation is a total transition, and a refused one
    returns the unchanged tables.
- Parsing: `strptime`, `int(...)`, `parseInt` and `new Date` are left out.
  Operations take parsed integers, minute-of-day times and ordinal dates. A
  malformed string, which the source would reject or turn into `NaN`, is not
  modelled.
- Excel export (`export_report_to_excel`) is file output through pandas.
  `get_student_remaining_classes` is a lookup by name that only the export
  uses, so it is not modelled either.
- The other backend routes are routing, not core: `POST /students`,
  `/teachers` and `/courses`, `GET /courses/:id/summary`, and the duplicated
  `GET /courses`.
- Read-only lookups outside the core are not modelled: `get_all_students`,
  `get_student_by_id`, `get_all_teachers`, `get_all_courses_with_schedules`,
  `get_course_schedule_by_id` and `get_student_attendance`.
- Upper-casing beyond ASCII: `str.upper()` on other letters (for instance ß) is
  not modelled. Day names are expected in ASCII.
- Nullable phone and address columns are strings here. Record ids are not
  modelled, because records are kept in insertion order.
- The Prisma schema file is not part of this model. The backend's foreign keys
  are the store's invariant, and `updatedAt` is stamped with a clock value
  passed in as `now`.
- Concurrency: the backend handler runs its per-student work under
  `Promise.all`. The model runs it one student after the other, so
  interleavings, lost updates and the arrival order of the new records are not
  captured.
- A primary key beyond 2^63 - 1, where SQLite stops assigning consecutive
  rowids, is not modelled.
- The id of the row to look up in `add_classes_to_student`, `delete_student`,
  `add_course`, `add_course_schedule`, `delete_course`,
  `update_course_enrollments` and `take_attendance` is not checked against
  64 bits. Such an id makes the lookup raise, and the service returns its
  refusal. The model returns the same refusal, because no key in use is that
  wide.
- `presentStudentIds.includes` compares with strict equality. Ids sent as
  strings, which would match nobody, are not modelled, because the ids are
  integers here.
- Services.AttendanceService.CoursesForPeriod: the result is stated to be
  sorted and a permutation, not the particular order in which Python's stable
  sort keeps ties with the same date and start time.
- Backend.Store.CourseAttendance: `findMany` has no `orderBy`, so the source
  promises no row order. The model lists the rows in record order, which is
  one order the database may return.
- ServiceRules.MonthlyReport: the order among rows with the same date and
  student name is left open, as SQL leaves it.
- ServiceRules.TakeAttendance: the status dict is its sequence of entries in
  iteration order. A duplicated id, which a dict cannot hold, is skipped the
  way the flushed "already recorded" query would skip it.
