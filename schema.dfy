/** The tables of the Python service (python/models.py): one datatype per
    row shape, the database as a value, the uniqueness and reference rules
    that hold of every database the service produces, and the delete
    cascades the relationships declare. */
module Schema {
  import opened Calendar
  import opened Seqs

  /** `registered_classes` and `remaining_classes` both default to 0. */
  const DefaultClasses: int := 0
  /** `duration_minutes` defaults to 60 and `break_minutes` to 10. */
  const DefaultDurationMinutes: int := 60
  const DefaultBreakMinutes: int := 10

  datatype Student = Student(name: string, phone: string, address: string,
                             registeredClasses: int, remainingClasses: int)

  datatype Teacher = Teacher(name: string, phone: string, address: string)

  datatype Course = Course(name: string, teacherId: int, durationMinutes: int, breakMinutes: int)

  /** A weekly slot: `dayOfWeek` is one of "MON" ... "SUN" when it is to match a date. */
  datatype CourseSchedule = CourseSchedule(courseId: int, dayOfWeek: string,
                                           startTime: MinuteOfDay, endTime: MinuteOfDay)

  datatype AttendanceRecord = AttendanceRecord(studentId: int, courseScheduleId: int, date: Date,
                                               status: string, classDeducted: bool)

  /** A row of the association table; its primary key is the whole row. */
  datatype Enrollment = Enrollment(studentId: int, courseId: int)

  /** The database. Tables with an integer primary key are maps from it; the
      association table is a set (its key is the whole row); attendance
      records are kept in insertion order. */
  datatype Db = Db(students: map<int, Student>,
                   teachers: map<int, Teacher>,
                   courses: map<int, Course>,
                   schedules: map<int, CourseSchedule>,
                   enrollments: set<Enrollment>,
                   records: seq<AttendanceRecord>)

  const EmptyDb: Db := Db(map[], map[], map[], map[], {}, [])

  // ---- integer columns ----

  /** SQLite stores an INTEGER in 64 bits; binding a larger Python int makes
      the driver raise OverflowError. */
  const MinInteger: int := -0x8000_0000_0000_0000
  const MaxInteger: int := 0x7FFF_FFFF_FFFF_FFFF

  predicate FitsInteger(x: int)
  {
    MinInteger <= x <= MaxInteger
  }

  // ---- primary keys ----

  lemma {:induction false} MaxExists(keys: set<int>)
    requires keys != {}
    ensures exists m :: m in keys && forall k :: k in keys ==> k <= m
  {
    var x := Choose(keys);
    var rest := keys - {x};
    if rest == {} {
      assert keys == {x};
      assert forall k :: k in keys ==> k <= x;
    } else {
      MaxExists(rest);
      var m :| m in rest && forall k :: k in rest ==> k <= m;
      var top := if x > m then x else m;
      assert forall k :: k in keys ==> k == x || k in rest;
      assert top in keys && forall k :: k in keys ==> k <= top;
    }
  }

  /** The key SQLite gives a new row of a table whose key is its rowid:
      one more than the largest key present, or 1 in an empty table. */
  function NextId(keys: set<int>): (id: int)
    ensures id >= 1 && id !in keys
    ensures forall k :: k in keys ==> k < id
    ensures id == 1 || id - 1 in keys
  {
    if keys == {} then 1
    else
      MaxExists(keys);
      var m :| m in keys && forall k :: k in keys ==> k <= m;
      if m >= 1 then m + 1 else 1
  }

  // ---- unique columns: the names of students, teachers and courses ----

  predicate StudentNameTaken(students: map<int, Student>, name: string)
  {
    exists k :: k in students && students[k].name == name
  }

  predicate TeacherNameTaken(teachers: map<int, Teacher>, name: string)
  {
    exists k :: k in teachers && teachers[k].name == name
  }

  predicate CourseNameTaken(courses: map<int, Course>, name: string)
  {
    exists k :: k in courses && courses[k].name == name
  }

  ghost predicate UniqueStudentNames(students: map<int, Student>)
  {
    forall a, b :: a in students && b in students && students[a].name == students[b].name ==> a == b
  }

  ghost predicate UniqueTeacherNames(teachers: map<int, Teacher>)
  {
    forall a, b :: a in teachers && b in teachers && teachers[a].name == teachers[b].name ==> a == b
  }

  ghost predicate UniqueCourseNames(courses: map<int, Course>)
  {
    forall a, b :: a in courses && b in courses && courses[a].name == courses[b].name ==> a == b
  }

  // ---- attendance record keys ----

  /** Records for the same student, the same schedule and the same date. */
  predicate SameKey(a: AttendanceRecord, b: AttendanceRecord)
  {
    a.studentId == b.studentId && a.courseScheduleId == b.courseScheduleId && a.date == b.date
  }

  predicate DistinctKeys(a: AttendanceRecord, b: AttendanceRecord)
  {
    !SameKey(a, b)
  }

  predicate IsRecordFor(r: AttendanceRecord, studentId: int, scheduleId: int, date: int)
  {
    r.studentId == studentId && r.courseScheduleId == scheduleId && r.date == date
  }

  /** The query `take_attendance` makes before it writes a record. */
  predicate HasRecord(records: seq<AttendanceRecord>, studentId: int, scheduleId: int, date: int)
  {
    exists i :: 0 <= i < |records| && IsRecordFor(records[i], studentId, scheduleId, date)
  }

  /** No two records share a (student, schedule, date) key. */
  ghost predicate OneRecordPerKey(records: seq<AttendanceRecord>)
  {
    Pairwise(records, DistinctKeys)
  }

  // ---- references ----

  ghost predicate CoursesHaveTeachers(db: Db)
  {
    forall c :: c in db.courses ==> db.courses[c].teacherId in db.teachers
  }

  ghost predicate SchedulesHaveCourses(db: Db)
  {
    forall k :: k in db.schedules ==> db.schedules[k].courseId in db.courses
  }

  /** The class counters were all written through the driver, so they fit
      the 64-bit column. */
  ghost predicate CountersFit(db: Db)
  {
    forall k :: k in db.students ==>
      FitsInteger(db.students[k].registeredClasses) && FitsInteger(db.students[k].remainingClasses)
  }

  ghost predicate RecordsResolve(db: Db)
  {
    forall i :: 0 <= i < |db.records| ==>
      db.records[i].studentId in db.students && db.records[i].courseScheduleId in db.schedules
  }

  /** What holds of every database the service builds. The association
      table has no constraint beyond its key: SQLite does not enforce
      foreign keys by default, so its rows may name ids of no student, and
      a deleted course can leave such rows behind. */
  ghost predicate Valid(db: Db)
  {
    && UniqueStudentNames(db.students)
    && UniqueTeacherNames(db.teachers)
    && UniqueCourseNames(db.courses)
    && CoursesHaveTeachers(db)
    && SchedulesHaveCourses(db)
    && CountersFit(db)
    && RecordsResolve(db)
    && OneRecordPerKey(db.records)
  }

  lemma EmptyDbValid()
    ensures Valid(EmptyDb)
  {
  }

  // ---- delete cascades ----

  function NotOfStudent(studentId: int): AttendanceRecord -> bool
  {
    (r: AttendanceRecord) => r.studentId != studentId
  }

  function NotOfSchedules(gone: set<int>): AttendanceRecord -> bool
  {
    (r: AttendanceRecord) => r.courseScheduleId !in gone
  }

  /** Deleting a student: its attendance records go with it (cascade
      "all, delete-orphan"). Of its association rows the ORM deletes those
      of the courses it loads through `Student.courses`, an inner join with
      the course table; a row naming no course stays. */
  function DeleteStudentCascade(db: Db, studentId: int): Db
  {
    db.(students := db.students - {studentId},
        enrollments := (set e | e in db.enrollments && !(e.studentId == studentId && e.courseId in db.courses)),
        records := Filter(db.records, NotOfStudent(studentId)))
  }

  /** The schedules of a course. */
  function SchedulesOf(db: Db, courseId: int): set<int>
  {
    set k | k in db.schedules && db.schedules[k].courseId == courseId
  }

  /** Deleting a course: its schedules go (cascade "all, delete-orphan") and
      each schedule takes its attendance records along. Of the course's
      association rows the ORM deletes those of the students it loads
      through `Course.students`, an inner join with the student table; a
      row naming no student stays. */
  function DeleteCourseCascade(db: Db, courseId: int): Db
  {
    var gone := SchedulesOf(db, courseId);
    db.(courses := db.courses - {courseId},
        schedules := db.schedules - gone,
        enrollments := (set e | e in db.enrollments && !(e.courseId == courseId && e.studentId in db.students)),
        records := Filter(db.records, NotOfSchedules(gone)))
  }

  lemma DeleteStudentRemovesItsRecords(db: Db, studentId: int)
    ensures var after := DeleteStudentCascade(db, studentId);
      && studentId !in after.students
      && (forall r :: r in after.records <==> r in db.records && r.studentId != studentId)
      && (forall e :: e in after.enrollments && e.studentId == studentId ==> e.courseId !in after.courses)
      && (forall e :: e in db.enrollments && (e.studentId != studentId || e.courseId !in db.courses) ==>
            e in after.enrollments)
      && after.enrollments <= db.enrollments
  {
  }

  lemma DeleteCourseRemovesItsRecords(db: Db, courseId: int)
    ensures var after := DeleteCourseCascade(db, courseId);
      && courseId !in after.courses
      && (forall k :: k in after.schedules ==> after.schedules[k].courseId != courseId)
      && (forall r :: r in after.records <==>
            r in db.records && !(r.courseScheduleId in db.schedules
                                 && db.schedules[r.courseScheduleId].courseId == courseId))
      && (forall e :: e in after.enrollments && e.courseId == courseId ==> e.studentId !in after.students)
      && (forall e :: e in db.enrollments && (e.courseId != courseId || e.studentId !in db.students) ==>
            e in after.enrollments)
      && after.enrollments <= db.enrollments
  {
  }

  lemma DeleteStudentKeepsValid(db: Db, studentId: int)
    requires Valid(db)
    ensures Valid(DeleteStudentCascade(db, studentId))
  {
    FilterKeepsPairwise(db.records, NotOfStudent(studentId), DistinctKeys);
    var after := DeleteStudentCascade(db, studentId);
    forall i | 0 <= i < |after.records|
      ensures after.records[i].studentId in after.students
      ensures after.records[i].courseScheduleId in after.schedules
    {
      assert after.records[i] in db.records;
    }
  }

  lemma DeleteCourseKeepsValid(db: Db, courseId: int)
    requires Valid(db)
    ensures Valid(DeleteCourseCascade(db, courseId))
  {
    var gone := SchedulesOf(db, courseId);
    FilterKeepsPairwise(db.records, NotOfSchedules(gone), DistinctKeys);
    var after := DeleteCourseCascade(db, courseId);
    forall i | 0 <= i < |after.records|
      ensures after.records[i].studentId in after.students
      ensures after.records[i].courseScheduleId in after.schedules
    {
      assert after.records[i] in db.records;
    }
  }
}
