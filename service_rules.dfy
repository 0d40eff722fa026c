/** The business rules of the Python service layer (python/services.py),
    each operation written as a transition of the database value: what it
    returns and the database it leaves. The `AttendanceService` class
    (services.dfy) performs them on its tables and is proved to agree. */
module ServiceRules {
  import opened Wrappers
  import opened Calendar
  import opened Text
  import opened Seqs
  import opened Schema

  /** What an operation returns, and the database after it. */
  datatype Step<R> = Step(result: R, db: Db)

  // ---------- 1) students ----------

  /** `add_student`: a new student starts with as many remaining classes as
      registered ones. A name already in use is refused (the unique column
      makes the commit fail, and the session is rolled back), and so is a
      class count the 64-bit column cannot hold. */
  function AddStudent(db: Db, name: string, phone: string, address: string,
                      registeredClasses: int): (r: Step<Option<int>>)
    ensures r.result.None? <==> StudentNameTaken(db.students, name) || !FitsInteger(registeredClasses)
    ensures r.result.None? ==> r.db == db
    ensures r.result.Some? ==>
      var id := r.result.value;
      && id !in db.students
      && r.db.students.Keys == db.students.Keys + {id}
      && r.db.students[id] == Student(name, phone, address, registeredClasses, registeredClasses)
      && (forall k :: k in db.students ==> r.db.students[k] == db.students[k])
      && r.db == db.(students := r.db.students)
    ensures Valid(db) ==> Valid(r.db)
  {
    if StudentNameTaken(db.students, name) || !FitsInteger(registeredClasses) then Step(None, db)
    else
      var id := NextId(db.students.Keys);
      Step(Some(id), db.(students := db.students[id := Student(name, phone, address,
                                                               registeredClasses, registeredClasses)]))
  }

  /** Both counters of a student can be raised by `n` within the 64-bit column. */
  predicate CanAddClasses(s: Student, n: int)
  {
    FitsInteger(s.registeredClasses + n) && FitsInteger(s.remainingClasses + n)
  }

  /** `add_classes_to_student`: both counters rise by `n`. A missing student
      is refused, and so is a sum the 64-bit column cannot hold. */
  function AddClassesToStudent(db: Db, studentId: int, n: int): (r: Step<bool>)
    ensures r.result <==> studentId in db.students && CanAddClasses(db.students[studentId], n)
    ensures !r.result ==> r.db == db
    ensures r.result ==>
      && r.db.students.Keys == db.students.Keys
      && r.db.students[studentId].registeredClasses == db.students[studentId].registeredClasses + n
      && r.db.students[studentId].remainingClasses == db.students[studentId].remainingClasses + n
      && r.db.students[studentId].name == db.students[studentId].name
      && r.db.students[studentId].phone == db.students[studentId].phone
      && r.db.students[studentId].address == db.students[studentId].address
      && (forall k :: k in db.students && k != studentId ==> r.db.students[k] == db.students[k])
      && r.db == db.(students := r.db.students)
    ensures Valid(db) ==> Valid(r.db)
  {
    if studentId !in db.students || !CanAddClasses(db.students[studentId], n) then Step(false, db)
    else
      var s := db.students[studentId];
      Step(true, db.(students := db.students[studentId := s.(registeredClasses := s.registeredClasses + n,
                                                             remainingClasses := s.remainingClasses + n)]))
  }

  /** Registered minus remaining classes is the number of lessons used. */
  function Used(s: Student): int
  {
    s.registeredClasses - s.remainingClasses
  }

  /** Buying classes does not change how many lessons any student has used. */
  lemma AddClassesKeepsUsed(db: Db, studentId: int, n: int)
    ensures var after := AddClassesToStudent(db, studentId, n).db;
      forall k :: k in db.students ==> k in after.students && Used(after.students[k]) == Used(db.students[k])
  {
  }

  /** `delete_student`: the student goes with its records and its enrollments in existing courses. */
  function DeleteStudent(db: Db, studentId: int): (r: Step<bool>)
    ensures r.result <==> studentId in db.students
    ensures !r.result ==> r.db == db
    ensures r.result ==> r.db == DeleteStudentCascade(db, studentId)
    ensures Valid(db) ==> Valid(r.db)
  {
    if studentId !in db.students then Step(false, db)
    else
      DeleteStudentKeepsValidIf(db, studentId);
      Step(true, DeleteStudentCascade(db, studentId))
  }

  lemma DeleteStudentKeepsValidIf(db: Db, studentId: int)
    ensures Valid(db) ==> Valid(DeleteStudentCascade(db, studentId))
  {
    if Valid(db) {
      DeleteStudentKeepsValid(db, studentId);
    }
  }

  // ---------- 2) teachers ----------

  /** `add_teacher`: a name already in use is refused. */
  function AddTeacher(db: Db, name: string, phone: string, address: string): (r: Step<Option<int>>)
    ensures r.result.None? <==> TeacherNameTaken(db.teachers, name)
    ensures r.result.None? ==> r.db == db
    ensures r.result.Some? ==>
      && r.result.value !in db.teachers
      && r.db == db.(teachers := db.teachers[r.result.value := Teacher(name, phone, address)])
    ensures Valid(db) ==> Valid(r.db)
  {
    if TeacherNameTaken(db.teachers, name) then Step(None, db)
    else
      var id := NextId(db.teachers.Keys);
      Step(Some(id), db.(teachers := db.teachers[id := Teacher(name, phone, address)]))
  }

  /** The courses a teacher gives (`Teacher.courses`). */
  function CoursesOf(db: Db, teacherId: int): set<int>
  {
    set c | c in db.courses && db.courses[c].teacherId == teacherId
  }

  /** The outcome of `delete_teacher`; the message of a refusal names the course count. */
  datatype TeacherDeletion = Deleted | TeacherNotFound | StillTeaching(courses: nat)

  /** `delete_teacher`: refused while the teacher is missing or still has courses. */
  function DeleteTeacher(db: Db, teacherId: int): (r: Step<TeacherDeletion>)
    ensures r.result == Deleted <==> teacherId in db.teachers && CoursesOf(db, teacherId) == {}
    ensures r.result == TeacherNotFound <==> teacherId !in db.teachers
    ensures r.result.StillTeaching? ==> r.result.courses == |CoursesOf(db, teacherId)| > 0
    ensures r.result != Deleted ==> r.db == db
    ensures r.result == Deleted ==> r.db == db.(teachers := db.teachers - {teacherId})
    ensures Valid(db) ==> Valid(r.db)
  {
    if teacherId !in db.teachers then Step(TeacherNotFound, db)
    else if CoursesOf(db, teacherId) != {} then Step(StillTeaching(|CoursesOf(db, teacherId)|), db)
    else
      assert forall c :: c in db.courses ==> db.courses[c].teacherId != teacherId by {
        forall c | c in db.courses ensures db.courses[c].teacherId != teacherId {
          assert db.courses[c].teacherId == teacherId ==> c in CoursesOf(db, teacherId);
        }
      }
      Step(Deleted, db.(teachers := db.teachers - {teacherId}))
  }

  // ---------- 3) courses and schedules ----------

  /** `add_course`: refused for a missing teacher, a name already in use, or
      a length the 64-bit columns cannot hold. */
  function AddCourse(db: Db, name: string, teacherId: int, durationMinutes: int,
                     breakMinutes: int): (r: Step<Option<int>>)
    ensures r.result.Some? <==>
      && teacherId in db.teachers && !CourseNameTaken(db.courses, name)
      && FitsInteger(durationMinutes) && FitsInteger(breakMinutes)
    ensures r.result.None? ==> r.db == db
    ensures r.result.Some? ==>
      && r.result.value !in db.courses
      && r.db == db.(courses := db.courses[r.result.value := Course(name, teacherId, durationMinutes, breakMinutes)])
    ensures Valid(db) ==> Valid(r.db)
  {
    if || teacherId !in db.teachers || CourseNameTaken(db.courses, name)
       || !FitsInteger(durationMinutes) || !FitsInteger(breakMinutes)
    then Step(None, db)
    else
      var id := NextId(db.courses.Keys);
      Step(Some(id), db.(courses := db.courses[id := Course(name, teacherId, durationMinutes, breakMinutes)]))
  }

  /** `add_course_schedule`: the slot lasts the course's `duration_minutes`
      and is accepted iff it ends by 12:10 or starts at 13:00 or later; the
      day name is stored upper-cased. A missing course, an end time that
      overflows `datetime`, or a slot in the lunch break yields None. */
  function AddCourseSchedule(db: Db, courseId: int, dayOfWeek: string, start: MinuteOfDay): (r: Step<Option<int>>)
    ensures r.result.Some? <==>
      && courseId in db.courses
      && EndTime(start, db.courses[courseId].durationMinutes).Some?
      && ClearOfLunch(start, EndTime(start, db.courses[courseId].durationMinutes).value)
    ensures r.result.None? ==> r.db == db
    ensures r.result.Some? ==>
      var id := r.result.value;
      && id !in db.schedules
      && id in r.db.schedules
      && r.db == db.(schedules := db.schedules[id := r.db.schedules[id]])
      && r.db.schedules[id].courseId == courseId
      && r.db.schedules[id].dayOfWeek == AsciiUpper(dayOfWeek)
      && r.db.schedules[id].startTime == start
      && (start + db.courses[courseId].durationMinutes - r.db.schedules[id].endTime) % MinutesPerDay == 0
    ensures Valid(db) ==> Valid(r.db)
  {
    if courseId !in db.courses then Step(None, db)
    else
      match EndTime(start, db.courses[courseId].durationMinutes)
      case None => Step(None, db)
      case Some(end) =>
        if !ClearOfLunch(start, end) then Step(None, db)
        else
          var id := NextId(db.schedules.Keys);
          Step(Some(id), db.(schedules := db.schedules[id := CourseSchedule(courseId, AsciiUpper(dayOfWeek), start, end)]))
  }

  /** `delete_course`: the course goes with its schedules, their records and
      its enrollments of existing students. */
  function DeleteCourse(db: Db, courseId: int): (r: Step<bool>)
    ensures r.result <==> courseId in db.courses
    ensures !r.result ==> r.db == db
    ensures r.result ==> r.db == DeleteCourseCascade(db, courseId)
    ensures Valid(db) ==> Valid(r.db)
  {
    if courseId !in db.courses then Step(false, db)
    else
      DeleteCourseKeepsValidIf(db, courseId);
      Step(true, DeleteCourseCascade(db, courseId))
  }

  lemma DeleteCourseKeepsValidIf(db: Db, courseId: int)
    ensures Valid(db) ==> Valid(DeleteCourseCascade(db, courseId))
  {
    if Valid(db) {
      DeleteCourseKeepsValid(db, courseId);
    }
  }

  /** An association row naming no student outlives the deletion of its
      course, and the next course created takes the freed key and the row. */
  lemma DanglingEnrollmentOutlivesCourse()
    ensures var db := Db(map[], map[1 := Teacher("T", "", "")], map[1 := Course("C", 1, 60, 10)],
                         map[], {Enrollment(99, 1)}, []);
      var deleted := DeleteCourse(db, 1);
      var added := AddCourse(deleted.db, "D", 1, 60, 10);
      && deleted.result && 1 !in deleted.db.courses
      && Enrollment(99, 1) in deleted.db.enrollments
      && added.result == Some(1)
      && 99 in Enrolled(added.db, 1)
  {
    var db := Db(map[], map[1 := Teacher("T", "", "")], map[1 := Course("C", 1, 60, 10)],
                 map[], {Enrollment(99, 1)}, []);
    var deleted := DeleteCourse(db, 1);
    assert Enrollment(99, 1) in deleted.db.enrollments;
    assert deleted.db.courses == map[];
    var added := AddCourse(deleted.db, "D", 1, 60, 10);
    assert Enrollment(99, 1) in added.db.enrollments;
  }

  // ---------- 4) dated occurrences of the weekly schedules ----------

  /** One row of `get_courses_for_period`. */
  datatype Occurrence = Occurrence(date: Date, courseId: int, scheduleId: int, courseName: string,
                                   teacherName: string, startTime: MinuteOfDay, endTime: MinuteOfDay)

  /** A schedule whose course and teacher can be loaded. */
  predicate Joinable(db: Db, k: int)
  {
    && k in db.schedules
    && db.schedules[k].courseId in db.courses
    && db.courses[db.schedules[k].courseId].teacherId in db.teachers
  }

  /** The schedules in key order, each of them joinable. */
  lemma ScheduleKeysJoin(db: Db)
    requires Valid(db)
    ensures var keys := InKeyOrder(db.schedules.Keys);
      && (forall i :: 0 <= i < |keys| ==> Joinable(db, keys[i]))
      && (forall i, j :: 0 <= i < j < |keys| ==> keys[i] != keys[j])
      && (forall k :: k in db.schedules ==> k in keys)
  {
    var keys := InKeyOrder(db.schedules.Keys);
    forall i | 0 <= i < |keys| ensures Joinable(db, keys[i]) {
      assert keys[i] in keys;
    }
  }

  function OccurrenceOf(db: Db, d: Date, k: int): (o: Occurrence)
    requires Joinable(db, k)
    ensures o.date == d && o.scheduleId == k
  {
    var s := db.schedules[k];
    var c := db.courses[s.courseId];
    Occurrence(d, s.courseId, k, c.name, db.teachers[c.teacherId].name, s.startTime, s.endTime)
  }

  /** The schedule meets on the weekday of date `d`. */
  predicate MeetsOn(s: CourseSchedule, d: int)
  {
    s.dayOfWeek == DayName(d)
  }

  /** `o` is the occurrence on date `d` of a schedule whose day is that date's weekday. */
  predicate OccurrenceAt(db: Db, d: int, o: Occurrence)
  {
    && o.date == d
    && Joinable(db, o.scheduleId)
    && MeetsOn(db.schedules[o.scheduleId], d)
    && o == OccurrenceOf(db, o.date, o.scheduleId)
  }

  /** `o` is the occurrence of one schedule on one date of [first, last]
      whose weekday is the schedule's day. */
  predicate IsOccurrence(db: Db, first: int, last: int, o: Occurrence)
  {
    first <= o.date <= last && OccurrenceAt(db, o.date, o)
  }

  /** What the inner `for s in schedules` loop appends for date `d`, given the
      schedules in the order `keys`. */
  function DayOccurrences(db: Db, keys: seq<int>, d: Date): seq<Occurrence>
    requires forall i :: 0 <= i < |keys| ==> Joinable(db, keys[i])
    decreases |keys|
  {
    if keys == [] then []
    else
      var k := keys[|keys| - 1];
      assert Joinable(db, k);
      DayOccurrences(db, keys[..|keys| - 1], d)
        + (if MeetsOn(db.schedules[k], d) then [OccurrenceOf(db, d, k)] else [])
  }

  /** What the `while d <= end_date` loop has appended once it has passed `last`. */
  function PeriodOccurrences(db: Db, keys: seq<int>, first: Date, last: int): seq<Occurrence>
    requires forall i :: 0 <= i < |keys| ==> Joinable(db, keys[i])
    requires last <= MaxOrdinal
    decreases last - first
  {
    if last < first then []
    else PeriodOccurrences(db, keys, first, last - 1) + DayOccurrences(db, keys, last)
  }

  lemma {:induction false} DayOccurrencesCount(db: Db, keys: seq<int>, d: Date, o: Occurrence)
    requires forall i :: 0 <= i < |keys| ==> Joinable(db, keys[i])
    requires forall i, j :: 0 <= i < j < |keys| ==> keys[i] != keys[j]
    ensures multiset(DayOccurrences(db, keys, d))[o]
         == if o.scheduleId in keys && OccurrenceAt(db, d, o) then 1 else 0
    decreases |keys|
  {
    if keys != [] {
      var front := keys[..|keys| - 1];
      var k := keys[|keys| - 1];
      DayOccurrencesCount(db, front, d, o);
      assert keys == front + [k];
      assert o.scheduleId in keys <==> o.scheduleId in front || o.scheduleId == k;
      assert k !in front;
    }
  }

  /** The occurrences appended over [first, last]: each occurrence of a
      schedule in `keys` exactly once. */
  lemma {:induction false} PeriodOccurrencesCount(db: Db, keys: seq<int>, first: Date, last: int, o: Occurrence)
    requires forall i :: 0 <= i < |keys| ==> Joinable(db, keys[i])
    requires forall i, j :: 0 <= i < j < |keys| ==> keys[i] != keys[j]
    requires last <= MaxOrdinal
    ensures multiset(PeriodOccurrences(db, keys, first, last))[o]
         == if o.scheduleId in keys && IsOccurrence(db, first, last, o) then 1 else 0
    decreases last - first
  {
    if last >= first {
      PeriodOccurrencesCount(db, keys, first, last - 1, o);
      DayOccurrencesCount(db, keys, last, o);
    }
  }

  /** With every schedule listed once, the loop appends each occurrence of
      the period exactly once and nothing else. */
  lemma PeriodOccurrencesExact(db: Db, keys: seq<int>, first: Date, last: int)
    requires forall i :: 0 <= i < |keys| ==> Joinable(db, keys[i])
    requires forall i, j :: 0 <= i < j < |keys| ==> keys[i] != keys[j]
    requires forall k :: k in db.schedules ==> k in keys
    requires last <= MaxOrdinal
    ensures forall o :: multiset(PeriodOccurrences(db, keys, first, last))[o]
                     == if IsOccurrence(db, first, last, o) then 1 else 0
  {
    forall o ensures multiset(PeriodOccurrences(db, keys, first, last))[o]
                  == if IsOccurrence(db, first, last, o) then 1 else 0 {
      PeriodOccurrencesCount(db, keys, first, last, o);
    }
  }

  /** The sort key `(date, start_time)`. */
  predicate OccursBefore(a: Occurrence, b: Occurrence)
  {
    a.date < b.date || (a.date == b.date && a.startTime < b.startTime)
  }

  lemma OccursBeforeIsStrictWeakOrder()
    ensures StrictWeakOrder(OccursBefore)
  {
  }

  /** A (date, schedule) pair has exactly one occurrence. */
  lemma OneOccurrencePerSlot(db: Db, first: int, last: int, o1: Occurrence, o2: Occurrence)
    requires IsOccurrence(db, first, last, o1) && IsOccurrence(db, first, last, o2)
    requires o1.date == o2.date && o1.scheduleId == o2.scheduleId
    ensures o1 == o2
  {
  }

  /** A range that ends before it starts has no occurrence. */
  lemma NoOccurrenceInEmptyRange(db: Db, first: int, last: int, o: Occurrence)
    requires first > last
    ensures !IsOccurrence(db, first, last, o)
  {
  }

  // ---------- 5) enrollments ----------

  /** The ids on the association rows of a course (of students or not). */
  function Enrolled(db: Db, courseId: int): set<int>
  {
    set e | e in db.enrollments && e.courseId == courseId :: e.studentId
  }

  /** `get_students_for_course`: the students joined to the course's rows. */
  function InCourse(db: Db, courseId: int): set<int>
  {
    set k | k in db.students && Enrollment(k, courseId) in db.enrollments
  }

  /** `get_students_not_in_course`: every student whose id is on none of its rows. */
  function NotInCourse(db: Db, courseId: int): set<int>
  {
    set k | k in db.students && Enrollment(k, courseId) !in db.enrollments
  }

  /** `get_students_for_course`: the enrolled students, ordered by name. */
  function StudentsForCourse(db: Db, courseId: int): (ids: seq<int>)
    ensures SortedBy(ids, ByName(db.students))
    ensures multiset(ids) == multiset(InCourse(db, courseId))
  {
    ByNameIsStrictWeakOrder(db.students);
    InKeyOrderMultiset(InCourse(db, courseId));
    SortBy(InKeyOrder(InCourse(db, courseId)), ByName(db.students))
  }

  /** `get_students_not_in_course`: the other students, ordered by name. */
  function StudentsNotInCourse(db: Db, courseId: int): (ids: seq<int>)
    ensures SortedBy(ids, ByName(db.students))
    ensures multiset(ids) == multiset(NotInCourse(db, courseId))
  {
    ByNameIsStrictWeakOrder(db.students);
    InKeyOrderMultiset(NotInCourse(db, courseId));
    SortBy(InKeyOrder(NotInCourse(db, courseId)), ByName(db.students))
  }

  /** The two lists split the student table: a missing course, or one nobody
      enrolled in, leaves every student "not in course". */
  lemma CourseListsPartitionStudents(db: Db, courseId: int)
    ensures InCourse(db, courseId) + NotInCourse(db, courseId) == db.students.Keys
    ensures InCourse(db, courseId) !! NotInCourse(db, courseId)
    ensures Enrolled(db, courseId) == {} ==> NotInCourse(db, courseId) == db.students.Keys
  {
    if Enrolled(db, courseId) == {} {
      forall k | k in db.students ensures Enrollment(k, courseId) !in db.enrollments {
        assert Enrollment(k, courseId) in db.enrollments ==> k in Enrolled(db, courseId);
      }
    }
  }

  /** Every id can be bound as a 64-bit INTEGER. */
  predicate IdsFit(ids: seq<int>)
  {
    forall i :: 0 <= i < |ids| ==> FitsInteger(ids[i])
  }

  /** `update_course_enrollments`: the course's rows are replaced by one row
      per distinct given id; a missing course is refused. */
  function UpdateCourseEnrollments(db: Db, courseId: int, studentIds: seq<int>): (r: Step<bool>)
    ensures r.result <==> courseId in db.courses && IdsFit(studentIds)
    ensures !r.result ==> r.db == db
    ensures r.result ==> r.db == db.(enrollments := r.db.enrollments)
    ensures r.result ==> Enrolled(r.db, courseId) == (set i | i in studentIds)
    ensures r.result ==> forall c :: c != courseId ==> Enrolled(r.db, c) == Enrolled(db, c)
    ensures Valid(db) ==> Valid(r.db)
  {
    if courseId !in db.courses || !IdsFit(studentIds) then Step(false, db)
    else
      var kept := set e | e in db.enrollments && e.courseId != courseId;
      var added := set i | i in studentIds :: Enrollment(i, courseId);
      var after := db.(enrollments := kept + added);
      assert Enrolled(after, courseId) == (set i | i in studentIds) by {
        forall i | i in studentIds ensures i in Enrolled(after, courseId) {
          assert Enrollment(i, courseId) in added;
        }
      }
      assert forall c :: c != courseId ==> Enrolled(after, c) == Enrolled(db, c) by {
        forall c, i | c != courseId && i in Enrolled(db, c) ensures i in Enrolled(after, c) {
          var e :| e in db.enrollments && e.courseId == c && e.studentId == i;
          assert e in kept;
        }
      }
      Step(true, after)
  }

  /** Giving the same ids again, in any order or repeated, changes nothing more. */
  lemma UpdateEnrollmentsIdempotent(db: Db, courseId: int, studentIds: seq<int>, again: seq<int>)
    requires (set i | i in again) == (set i | i in studentIds)
    ensures var first := UpdateCourseEnrollments(db, courseId, studentIds).db;
      UpdateCourseEnrollments(first, courseId, again).db == first
  {
    var first := UpdateCourseEnrollments(db, courseId, studentIds).db;
    assert IdsFit(again) <==> IdsFit(studentIds) by {
      var given, repeated := (set i | i in studentIds), (set i | i in again);
      assert given == repeated;
      forall k | 0 <= k < |again| ensures again[k] in studentIds {
        assert again[k] in repeated;
      }
      forall k | 0 <= k < |studentIds| ensures studentIds[k] in again {
        assert studentIds[k] in given;
      }
    }
    if courseId in db.courses && IdsFit(studentIds) {
      var second := UpdateCourseEnrollments(first, courseId, again).db;
      forall e ensures e in second.enrollments <==> e in first.enrollments {
        if e.courseId == courseId {
          assert e in second.enrollments <==> e.studentId in Enrolled(second, courseId);
          assert e in first.enrollments <==> e.studentId in Enrolled(first, courseId);
        }
      }
    }
  }

  // ---------- 6) taking attendance ----------

  /** The three statuses the form offers: present, late, absent. */
  const Attended: string := "有到"
  const Late: string := "遲到"
  const Absent: string := "曠課"

  /** The statuses that use up one lesson. */
  predicate Deducts(status: string)
  {
    status == Attended || status == Late
  }

  /** One entry of the status dict: an unknown student, or one who already
      has a record for this schedule and date, is skipped; otherwise a record
      is written, and for a deducting status and a positive balance one
      lesson is taken off and the record says so. */
  function MarkOne(db: Db, scheduleId: int, date: Date, studentId: int, status: string): (r: Db)
    ensures r.students.Keys == db.students.Keys
    ensures r == db.(students := r.students, records := r.records)
    ensures db.records <= r.records && |r.records| <= |db.records| + 1
    ensures forall i :: |db.records| <= i < |r.records| ==>
      IsRecordFor(r.records[i], studentId, scheduleId, date) && r.records[i].status == status
  {
    if studentId !in db.students || HasRecord(db.records, studentId, scheduleId, date) then db
    else
      var stu := db.students[studentId];
      var deducted := Deducts(status) && stu.remainingClasses > 0;
      var stu' := if deducted then stu.(remainingClasses := stu.remainingClasses - 1) else stu;
      db.(students := db.students[studentId := stu'],
          records := db.records + [AttendanceRecord(studentId, scheduleId, date, status, deducted)])
  }

  /** The entries in the dict's order. */
  function MarkAll(db: Db, scheduleId: int, date: Date, statuses: seq<(int, string)>): (r: Db)
    decreases |statuses|
    ensures r.students.Keys == db.students.Keys
    ensures r == db.(students := r.students, records := r.records)
    ensures db.records <= r.records && |r.records| <= |db.records| + |statuses|
    ensures forall i :: |db.records| <= i < |r.records| ==>
      r.records[i].courseScheduleId == scheduleId && r.records[i].date == date
  {
    if statuses == [] then db
    else MarkAll(MarkOne(db, scheduleId, date, statuses[0].0, statuses[0].1), scheduleId, date, statuses[1..])
  }

  /** Every student id of the dict can be bound as a 64-bit INTEGER. */
  predicate KeysFit(statuses: seq<(int, string)>)
  {
    forall i :: 0 <= i < |statuses| ==> FitsInteger(statuses[i].0)
  }

  /** `take_attendance`: False, with nothing changed, for an unknown
      schedule, and for a dict with a student id whose lookup overflows:
      the exception rolls back the entries already written. */
  function TakeAttendance(db: Db, scheduleId: int, date: Date, statuses: seq<(int, string)>): (r: Step<bool>)
    ensures r.result <==> scheduleId in db.schedules && KeysFit(statuses)
    ensures !r.result ==> r.db == db
    ensures r.db == db.(students := r.db.students, records := r.db.records)
    ensures Valid(db) ==> Valid(r.db)
  {
    if scheduleId !in db.schedules || !KeysFit(statuses) then Step(false, db)
    else
      MarkAllKeepsValidIf(db, scheduleId, date, statuses);
      Step(true, MarkAll(db, scheduleId, date, statuses))
  }

  lemma PairwiseSnoc<T>(s: seq<T>, x: T, ok: (T, T) -> bool)
    requires Pairwise(s, ok)
    requires forall i :: 0 <= i < |s| ==> ok(s[i], x)
    ensures Pairwise(s + [x], ok)
  {
  }

  lemma MarkOneKeepsValid(db: Db, scheduleId: int, date: Date, studentId: int, status: string)
    requires Valid(db) && scheduleId in db.schedules
    ensures Valid(MarkOne(db, scheduleId, date, studentId, status))
  {
    if studentId in db.students && !HasRecord(db.records, studentId, scheduleId, date) {
      var rec := AttendanceRecord(studentId, scheduleId, date, status,
                                  Deducts(status) && db.students[studentId].remainingClasses > 0);
      assert forall i :: 0 <= i < |db.records| ==> !IsRecordFor(db.records[i], studentId, scheduleId, date);
      PairwiseSnoc(db.records, rec, DistinctKeys);
    }
  }

  lemma {:induction false} MarkAllKeepsValid(db: Db, scheduleId: int, date: Date, statuses: seq<(int, string)>)
    requires Valid(db) && scheduleId in db.schedules
    ensures Valid(MarkAll(db, scheduleId, date, statuses))
    decreases |statuses|
  {
    if statuses != [] {
      MarkOneKeepsValid(db, scheduleId, date, statuses[0].0, statuses[0].1);
      MarkAllKeepsValid(MarkOne(db, scheduleId, date, statuses[0].0, statuses[0].1), scheduleId, date, statuses[1..]);
    }
  }

  lemma MarkAllKeepsValidIf(db: Db, scheduleId: int, date: Date, statuses: seq<(int, string)>)
    requires scheduleId in db.schedules
    ensures Valid(db) ==> Valid(MarkAll(db, scheduleId, date, statuses))
  {
    if Valid(db) {
      MarkAllKeepsValid(db, scheduleId, date, statuses);
    }
  }

  lemma HasRecordGrows(a: seq<AttendanceRecord>, b: seq<AttendanceRecord>, studentId: int, scheduleId: int, date: int)
    requires a <= b && HasRecord(a, studentId, scheduleId, date)
    ensures HasRecord(b, studentId, scheduleId, date)
  {
    var i :| 0 <= i < |a| && IsRecordFor(a[i], studentId, scheduleId, date);
    assert b[i] == a[i];
  }

  /** After marking, every known student of the dict has a record for the key. */
  lemma {:induction false} MarkAllRecordsKnownStudents(db: Db, scheduleId: int, date: Date, statuses: seq<(int, string)>)
    ensures var after := MarkAll(db, scheduleId, date, statuses);
      forall i :: 0 <= i < |statuses| && statuses[i].0 in db.students ==>
        HasRecord(after.records, statuses[i].0, scheduleId, date)
    decreases |statuses|
  {
    if statuses != [] {
      var (sid, status) := statuses[0];
      var next := MarkOne(db, scheduleId, date, sid, status);
      var after := MarkAll(db, scheduleId, date, statuses);
      MarkAllRecordsKnownStudents(next, scheduleId, date, statuses[1..]);
      if sid in db.students {
        if !HasRecord(db.records, sid, scheduleId, date) {
          assert IsRecordFor(next.records[|next.records| - 1], sid, scheduleId, date);
        }
        HasRecordGrows(next.records, after.records, sid, scheduleId, date);
      }
      forall i | 0 <= i < |statuses| && statuses[i].0 in db.students
        ensures HasRecord(after.records, statuses[i].0, scheduleId, date)
      {
        if i > 0 {
          assert statuses[1..][i - 1] == statuses[i];
        }
      }
    }
  }

  /** Marking changes nothing when every known student already has a record. */
  lemma {:induction false} MarkAllIdle(db: Db, scheduleId: int, date: Date, statuses: seq<(int, string)>)
    requires forall i :: 0 <= i < |statuses| && statuses[i].0 in db.students ==>
      HasRecord(db.records, statuses[i].0, scheduleId, date)
    ensures MarkAll(db, scheduleId, date, statuses) == db
    decreases |statuses|
  {
    if statuses != [] {
      assert MarkOne(db, scheduleId, date, statuses[0].0, statuses[0].1) == db;
      forall i | 0 <= i < |statuses[1..]| && statuses[1..][i].0 in db.students
        ensures HasRecord(db.records, statuses[1..][i].0, scheduleId, date)
      {
        assert statuses[1..][i] == statuses[i + 1];
      }
      MarkAllIdle(db, scheduleId, date, statuses[1..]);
    }
  }

  /** Submitting the same statuses again changes nothing: no second record
      for a key and no second deduction. */
  lemma TakeAttendanceIdempotent(db: Db, scheduleId: int, date: Date, statuses: seq<(int, string)>)
    ensures var once := TakeAttendance(db, scheduleId, date, statuses);
      TakeAttendance(once.db, scheduleId, date, statuses) == once
  {
    if scheduleId in db.schedules && KeysFit(statuses) {
      var after := MarkAll(db, scheduleId, date, statuses);
      MarkAllRecordsKnownStudents(db, scheduleId, date, statuses);
      MarkAllIdle(after, scheduleId, date, statuses);
    }
  }

  /** The status given for a student by the first entry that names it. */
  function FirstStatus(statuses: seq<(int, string)>, studentId: int): (r: Option<string>)
    ensures r.None? <==> forall i :: 0 <= i < |statuses| ==> statuses[i].0 != studentId
  {
    if statuses == [] then None
    else if statuses[0].0 == studentId then Some(statuses[0].1)
    else
      var rest := FirstStatus(statuses[1..], studentId);
      assert forall i :: 1 <= i < |statuses| ==> statuses[i] == statuses[1..][i - 1];
      rest
  }

  /** A known student without a record for the key who is named in the dict:
      the one whose balance and records the submission touches. */
  predicate Marked(db: Db, scheduleId: int, date: int, statuses: seq<(int, string)>, studentId: int)
  {
    && studentId in db.students
    && !HasRecord(db.records, studentId, scheduleId, date)
    && FirstStatus(statuses, studentId).Some?
  }

  /** A marked student whose status deducts and whose balance is positive. */
  predicate Charged(db: Db, scheduleId: int, date: int, statuses: seq<(int, string)>, studentId: int)
  {
    && Marked(db, scheduleId, date, statuses, studentId)
    && Deducts(FirstStatus(statuses, studentId).value)
    && db.students[studentId].remainingClasses > 0
  }

  /** A student's balance after marking: one lesson less exactly when the
      student is charged, and nothing else about the student changes. */
  lemma {:induction false} MarkAllBalance(db: Db, scheduleId: int, date: Date,
                                          statuses: seq<(int, string)>, studentId: int)
    requires studentId in db.students
    ensures var after := MarkAll(db, scheduleId, date, statuses);
      var before := db.students[studentId];
      after.students[studentId]
        == if Charged(db, scheduleId, date, statuses, studentId)
           then before.(remainingClasses := before.remainingClasses - 1) else before
    decreases |statuses|
  {
    if statuses != [] {
      var (sid, status) := statuses[0];
      var next := MarkOne(db, scheduleId, date, sid, status);
      MarkAllBalance(next, scheduleId, date, statuses[1..], studentId);
      if sid == studentId {
        if !HasRecord(db.records, sid, scheduleId, date) {
          assert IsRecordFor(next.records[|next.records| - 1], sid, scheduleId, date);
        }
        assert HasRecord(next.records, studentId, scheduleId, date);
      } else {
        assert HasRecord(next.records, studentId, scheduleId, date)
           <==> HasRecord(db.records, studentId, scheduleId, date) by {
          if HasRecord(next.records, studentId, scheduleId, date) {
            var i :| 0 <= i < |next.records| && IsRecordFor(next.records[i], studentId, scheduleId, date);
            assert i < |db.records| && next.records[i] == db.records[i];
          }
          if HasRecord(db.records, studentId, scheduleId, date) {
            HasRecordGrows(db.records, next.records, studentId, scheduleId, date);
          }
        }
      }
    }
  }

  /** Marking never takes a balance below zero, and never takes off more than one lesson. */
  lemma MarkingKeepsBalanceFloor(db: Db, scheduleId: int, date: Date, statuses: seq<(int, string)>)
    ensures var after := TakeAttendance(db, scheduleId, date, statuses).db;
      forall k :: k in db.students ==>
        && k in after.students
        && db.students[k].remainingClasses - 1 <= after.students[k].remainingClasses <= db.students[k].remainingClasses
        && (db.students[k].remainingClasses >= 0 ==> after.students[k].remainingClasses >= 0)
  {
    if scheduleId in db.schedules && KeysFit(statuses) {
      forall k | k in db.students
        ensures var after := MarkAll(db, scheduleId, date, statuses);
          && db.students[k].remainingClasses - 1 <= after.students[k].remainingClasses <= db.students[k].remainingClasses
          && (db.students[k].remainingClasses >= 0 ==> after.students[k].remainingClasses >= 0)
      {
        MarkAllBalance(db, scheduleId, date, statuses, k);
      }
    }
  }

  function RecordsFor(records: seq<AttendanceRecord>, studentId: int, scheduleId: int, date: int): seq<AttendanceRecord>
  {
    Filter(records, (r: AttendanceRecord) => IsRecordFor(r, studentId, scheduleId, date))
  }

  lemma RecordsForSnoc(records: seq<AttendanceRecord>, x: AttendanceRecord, studentId: int, scheduleId: int, date: int)
    ensures RecordsFor(records + [x], studentId, scheduleId, date)
         == RecordsFor(records, studentId, scheduleId, date)
            + (if IsRecordFor(x, studentId, scheduleId, date) then [x] else [])
  {
    var keep := (r: AttendanceRecord) => IsRecordFor(r, studentId, scheduleId, date);
    FilterAppend(records, [x], keep);
    assert Filter([x], keep) == (if keep(x) then [x] else []) + Filter([x][1..], keep);
  }

  lemma HasRecordIffRecordsFor(records: seq<AttendanceRecord>, studentId: int, scheduleId: int, date: int)
    ensures HasRecord(records, studentId, scheduleId, date) <==> RecordsFor(records, studentId, scheduleId, date) != []
  {
    var rs := RecordsFor(records, studentId, scheduleId, date);
    if HasRecord(records, studentId, scheduleId, date) {
      var i :| 0 <= i < |records| && IsRecordFor(records[i], studentId, scheduleId, date);
      assert records[i] in rs;
    }
    if rs != [] {
      assert rs[0] in records;
    }
  }

  /** The records a submission leaves for one (student, schedule, date) key:
      for a marked student exactly one new record, carrying the student's
      status and whether a lesson was deducted; for everyone else the records
      that were already there. */
  lemma {:induction false} MarkAllRecords(db: Db, scheduleId: int, date: Date,
                                          statuses: seq<(int, string)>, studentId: int)
    ensures var after := MarkAll(db, scheduleId, date, statuses);
      RecordsFor(after.records, studentId, scheduleId, date)
        == if Marked(db, scheduleId, date, statuses, studentId)
           then [AttendanceRecord(studentId, scheduleId, date, FirstStatus(statuses, studentId).value,
                                  Charged(db, scheduleId, date, statuses, studentId))]
           else RecordsFor(db.records, studentId, scheduleId, date)
    decreases |statuses|
  {
    if statuses != [] {
      var (sid, status) := statuses[0];
      var next := MarkOne(db, scheduleId, date, sid, status);
      MarkAllRecords(next, scheduleId, date, statuses[1..], studentId);
      HasRecordIffRecordsFor(db.records, studentId, scheduleId, date);
      HasRecordIffRecordsFor(next.records, studentId, scheduleId, date);
      if next != db {
        var x := next.records[|next.records| - 1];
        assert next.records == db.records + [x];
        RecordsForSnoc(db.records, x, studentId, scheduleId, date);
      }
    }
  }

  /** A submission for one (schedule, date) leaves the records of every other
      (schedule, date) exactly as they were. */
  lemma OtherSessionsKeepTheirRecords(db: Db, scheduleId: int, date: Date, statuses: seq<(int, string)>,
                                      studentId: int, otherSchedule: int, otherDate: int)
    requires otherSchedule != scheduleId || otherDate != date
    ensures RecordsFor(TakeAttendance(db, scheduleId, date, statuses).db.records, studentId, otherSchedule, otherDate)
         == RecordsFor(db.records, studentId, otherSchedule, otherDate)
  {
    var after := TakeAttendance(db, scheduleId, date, statuses).db.records;
    var added := after[|db.records|..];
    assert after == db.records + added;
    var keep := (r: AttendanceRecord) => IsRecordFor(r, studentId, otherSchedule, otherDate);
    FilterAppend(db.records, added, keep);
    FilterNone(added, keep);
  }

  /** A known student named in the dict has exactly one record for the key
      after a submission that succeeds, whether or not one existed before. */
  lemma ExactlyOneRecordPerMarkedKey(db: Db, scheduleId: int, date: Date,
                                     statuses: seq<(int, string)>, studentId: int)
    requires Valid(db)
    requires studentId in db.students && FirstStatus(statuses, studentId).Some?
    ensures var r := TakeAttendance(db, scheduleId, date, statuses);
      r.result ==> |RecordsFor(r.db.records, studentId, scheduleId, date)| == 1
  {
    MarkAllRecords(db, scheduleId, date, statuses, studentId);
    if HasRecord(db.records, studentId, scheduleId, date) {
      var rs := RecordsFor(db.records, studentId, scheduleId, date);
      HasRecordIffRecordsFor(db.records, studentId, scheduleId, date);
      FilterKeepsPairwise(db.records, (r: AttendanceRecord) => IsRecordFor(r, studentId, scheduleId, date), DistinctKeys);
      assert |rs| > 1 ==> IsRecordFor(rs[0], studentId, scheduleId, date) && IsRecordFor(rs[1], studentId, scheduleId, date) by {
        if |rs| > 1 {
          assert rs[0] in rs && rs[1] in rs;
        }
      }
    }
  }

  /** The entries that name a known student. */
  function KnownEntries(statuses: seq<(int, string)>, known: set<int>): seq<(int, string)>
  {
    Filter(statuses, (e: (int, string)) => e.0 in known)
  }

  /** Entries for unknown students are skipped without affecting the others:
      the outcome is that of the dict with those entries left out. */
  lemma {:induction false} UnknownStudentsSkipped(db: Db, scheduleId: int, date: Date, statuses: seq<(int, string)>)
    ensures MarkAll(db, scheduleId, date, statuses)
         == MarkAll(db, scheduleId, date, KnownEntries(statuses, db.students.Keys))
    decreases |statuses|
  {
    if statuses != [] {
      var (sid, status) := statuses[0];
      var next := MarkOne(db, scheduleId, date, sid, status);
      UnknownStudentsSkipped(next, scheduleId, date, statuses[1..]);
      var keep := (e: (int, string)) => e.0 in db.students.Keys;
      var known := KnownEntries(statuses, db.students.Keys);
      var rest := KnownEntries(statuses[1..], db.students.Keys);
      assert known == (if keep(statuses[0]) then [statuses[0]] else []) + rest;
      assert next.students.Keys == db.students.Keys;
      assert KnownEntries(statuses[1..], next.students.Keys) == rest;
      if sid in db.students {
        assert known[0] == statuses[0] && known[1..] == rest;
        assert MarkAll(db, scheduleId, date, known) == MarkAll(next, scheduleId, date, rest);
      } else {
        assert known == rest && next == db;
      }
    }
  }

  // ---------- 7) the monthly report ----------

  /** One row of `get_monthly_attendance_report`. */
  datatype ReportRow = ReportRow(date: Date, studentName: string, courseName: string,
                                 startTime: MinuteOfDay, endTime: MinuteOfDay,
                                 teacherName: string, status: string)

  /** The inner join of a record with its student, schedule, course and teacher. */
  function JoinRecord(db: Db, r: AttendanceRecord): Option<ReportRow>
  {
    if r.studentId in db.students && Joinable(db, r.courseScheduleId) then
      var s := db.schedules[r.courseScheduleId];
      var c := db.courses[s.courseId];
      Some(ReportRow(r.date, db.students[r.studentId].name, c.name, s.startTime, s.endTime,
                     db.teachers[c.teacherId].name, r.status))
    else None
  }

  function JoinedRows(db: Db, records: seq<AttendanceRecord>): (rows: seq<ReportRow>)
    ensures forall row :: row in rows <==> exists i :: 0 <= i < |records| && JoinRecord(db, records[i]) == Some(row)
  {
    if records == [] then []
    else
      var rest := JoinedRows(db, records[1..]);
      assert forall i :: 1 <= i < |records| ==> records[i] == records[1..][i - 1];
      assert forall row :: (exists i :: 0 <= i < |records[1..]| && JoinRecord(db, records[1..][i]) == Some(row))
                      ==> (exists i :: 0 <= i < |records| && JoinRecord(db, records[i]) == Some(row)) by {
        forall row | exists i :: 0 <= i < |records[1..]| && JoinRecord(db, records[1..][i]) == Some(row)
          ensures exists i :: 0 <= i < |records| && JoinRecord(db, records[i]) == Some(row)
        {
          var i :| 0 <= i < |records[1..]| && JoinRecord(db, records[1..][i]) == Some(row);
          assert JoinRecord(db, records[i + 1]) == Some(row);
        }
      }
      match JoinRecord(db, records[0])
      case Some(row) => [row] + rest
      case None => rest
  }

  /** The records that join into `row`. */
  function JoinsTo(db: Db, row: ReportRow): AttendanceRecord -> bool
  {
    (r: AttendanceRecord) => JoinRecord(db, r) == Some(row)
  }

  /** The inner join yields a row once for every record that joins into it. */
  lemma {:induction false} JoinedRowsCount(db: Db, records: seq<AttendanceRecord>, row: ReportRow)
    ensures multiset(JoinedRows(db, records))[row] == |Filter(records, JoinsTo(db, row))|
  {
    if records != [] {
      JoinedRowsCount(db, records[1..], row);
    }
  }

  /** In a valid database every record joins: one report row per record. */
  lemma {:induction false} EveryRecordJoins(db: Db, records: seq<AttendanceRecord>)
    requires Valid(db)
    requires forall i :: 0 <= i < |records| ==> records[i] in db.records
    ensures |JoinedRows(db, records)| == |records|
  {
    if records != [] {
      var r := records[0];
      assert r in db.records;
      assert Joinable(db, r.courseScheduleId);
      assert forall i :: 0 <= i < |records[1..]| ==> records[1..][i] == records[i + 1];
      EveryRecordJoins(db, records[1..]);
    }
  }

  /** The sort key `(date, student name)`. */
  predicate ReportBefore(a: ReportRow, b: ReportRow)
  {
    a.date < b.date || (a.date == b.date && Less(a.studentName, b.studentName))
  }

  lemma ReportBeforeIsStrictWeakOrder()
    ensures StrictWeakOrder(ReportBefore)
  {
    LessIsStrictWeakOrder();
    forall a, b, c | ReportBefore(a, b) && ReportBefore(b, c) ensures ReportBefore(a, c) {
      if a.date == b.date == c.date {
        assert Less(a.studentName, b.studentName) && Less(b.studentName, c.studentName);
      }
    }
    forall a, b, c | !ReportBefore(a, b) && !ReportBefore(b, c) ensures !ReportBefore(a, c) {
      if a.date == b.date == c.date {
        assert !Less(a.studentName, b.studentName) && !Less(b.studentName, c.studentName);
      }
    }
  }

  function InDates(first: int, last: int): ReportRow -> bool
  {
    (row: ReportRow) => first <= row.date <= last
  }

  /** `get_monthly_attendance_report`: the joined records dated within the
      month, ordered by date and then student name; None where the month or
      year is out of range (the exception propagates to the caller). */
  function MonthlyReport(db: Db, year: int, month: int): (r: Option<seq<ReportRow>>)
    ensures r.Some? <==> MonthRange(year, month).Some?
    ensures r.Some? ==> SortedBy(r.value, ReportBefore)
    ensures r.Some? ==>
      var (first, last) := MonthRange(year, month).value;
      forall row :: multiset(r.value)[row]
        == if first <= row.date <= last then multiset(JoinedRows(db, db.records))[row] else 0
  {
    match MonthRange(year, month)
    case None => None
    case Some((first, last)) =>
      var rows := Filter(JoinedRows(db, db.records), InDates(first, last));
      FilterMultiset(JoinedRows(db, db.records), InDates(first, last));
      ReportBeforeIsStrictWeakOrder();
      Some(SortBy(rows, ReportBefore))
  }

  /** A row is in the report of (year, month) iff it joins a record dated
      between the first and the last day of that calendar month. */
  lemma ReportRowsAreTheMonths(db: Db, year: int, month: int, row: ReportRow)
    requires MinYear <= year <= MaxYear && 1 <= month <= 12 && !(year == MaxYear && month == 12)
    ensures MonthlyReport(db, year, month).Some?
    ensures row in MonthlyReport(db, year, month).value
        <==> && ToOrdinal(CivilDate(year, month, 1)) <= row.date <= ToOrdinal(CivilDate(year, month, DaysInMonth(year, month)))
             && exists i :: 0 <= i < |db.records| && JoinRecord(db, db.records[i]) == Some(row)
  {
    var rows := MonthlyReport(db, year, month).value;
    assert row in rows <==> multiset(rows)[row] > 0;
    assert row in JoinedRows(db, db.records) <==> multiset(JoinedRows(db, db.records))[row] > 0;
  }

  // ---------- ordering students by name ----------

  function NameOf(students: map<int, Student>, id: int): string
  {
    if id in students then students[id].name else ""
  }

  /** `order_by(Student.name)` on student ids. */
  function ByName(students: map<int, Student>): (int, int) -> bool
  {
    (a: int, b: int) => Less(NameOf(students, a), NameOf(students, b))
  }

  lemma ByNameIsStrictWeakOrder(students: map<int, Student>)
    ensures StrictWeakOrder(ByName(students))
  {
    LessIsStrictWeakOrder();
    var lt := ByName(students);
    forall a ensures !lt(a, a) {
      assert !Less(NameOf(students, a), NameOf(students, a));
    }
    forall a, b, c | lt(a, b) && lt(b, c) ensures lt(a, c) {
      LessTransitive(NameOf(students, a), NameOf(students, b), NameOf(students, c));
    }
    forall a, b, c | !lt(a, b) && !lt(b, c) ensures !lt(a, c) {
      assert !Less(NameOf(students, a), NameOf(students, b)) && !Less(NameOf(students, b), NameOf(students, c));
    }
  }

  /** With unique names, ordering by name makes the names strictly increase. */
  lemma SortedByNameIsStrict(students: map<int, Student>, ids: seq<int>)
    requires UniqueStudentNames(students)
    requires SortedBy(ids, ByName(students))
    requires forall i :: 0 <= i < |ids| ==> ids[i] in students
    requires forall i, j :: 0 <= i < j < |ids| ==> ids[i] != ids[j]
    ensures forall i, j :: 0 <= i < j < |ids| ==> Less(students[ids[i]].name, students[ids[j]].name)
  {
    forall i, j | 0 <= i < j < |ids| ensures Less(students[ids[i]].name, students[ids[j]].name) {
      assert !ByName(students)(ids[j], ids[i]);
      assert students[ids[i]].name != students[ids[j]].name;
      LessTotal(students[ids[i]].name, students[ids[j]].name);
    }
  }
}
