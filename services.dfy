/** `AttendanceService` (python/services.py) over an in-memory copy of its
    six tables. Each method performs its operation on the tables in place
    and is proved to leave exactly the result and the tables that the
    matching rule of `ServiceRules` describes; the class invariant is the
    schema's `Valid`. */
module Services {
  import opened Wrappers
  import opened Calendar
  import opened Seqs
  import opened Text
  import opened Schema
  import ServiceRules

  class AttendanceService {
    var students: map<int, Student>
    var teachers: map<int, Teacher>
    var courses: map<int, Course>
    var schedules: map<int, CourseSchedule>
    var enrollments: set<Enrollment>
    var records: seq<AttendanceRecord>

    /** The tables as one database value. */
    function Tables(): Db
      reads this
    {
      Db(students, teachers, courses, schedules, enrollments, records)
    }

    ghost predicate Valid()
      reads this
    {
      Schema.Valid(Tables())
    }

    /** A fresh database: `create_all` on an empty file. */
    constructor()
      ensures Tables() == EmptyDb
      ensures Valid()
    {
      students, teachers, courses, schedules := map[], map[], map[], map[];
      enrollments, records := {}, [];
      EmptyDbValid();
    }

    // ---------- 1) students ----------

    /** `add_student`, step for step the rule `ServiceRules.AddStudent`. */
    method AddStudent(name: string, phone: string, address: string, registeredClasses: int := DefaultClasses)
      returns (id: Option<int>)
      requires Valid()
      modifies this
      ensures ServiceRules.Step(id, Tables()) == ServiceRules.AddStudent(old(Tables()), name, phone, address, registeredClasses)
      ensures Valid()
    {
      if StudentNameTaken(students, name) || !FitsInteger(registeredClasses) {
        return None;
      }
      var newId := NextId(students.Keys);
      students := students[newId := Student(name, phone, address, registeredClasses, registeredClasses)];
      id := Some(newId);
    }

    /** `add_classes_to_student`, as `ServiceRules.AddClassesToStudent` describes. */
    method AddClassesToStudent(studentId: int, numClasses: int) returns (ok: bool)
      requires Valid()
      modifies this
      ensures ServiceRules.Step(ok, Tables()) == ServiceRules.AddClassesToStudent(old(Tables()), studentId, numClasses)
      ensures Valid()
    {
      if studentId !in students || !ServiceRules.CanAddClasses(students[studentId], numClasses) {
        return false;
      }
      var s := students[studentId];
      s := s.(registeredClasses := s.registeredClasses + numClasses);
      s := s.(remainingClasses := s.remainingClasses + numClasses);
      students := students[studentId := s];
      ok := true;
    }

    /** `delete_student`: the cascade `Schema.DeleteStudentCascade`, table by table. */
    method DeleteStudent(studentId: int) returns (ok: bool)
      requires Valid()
      modifies this
      ensures ServiceRules.Step(ok, Tables()) == ServiceRules.DeleteStudent(old(Tables()), studentId)
      ensures Valid()
    {
      if studentId !in students {
        return false;
      }
      records := Filter(records, NotOfStudent(studentId));
      enrollments := set e | e in enrollments && !(e.studentId == studentId && e.courseId in courses);
      students := students - {studentId};
      ok := true;
    }

    // ---------- 2) teachers ----------

    /** `add_teacher`, step for step the rule `ServiceRules.AddTeacher`. */
    method AddTeacher(name: string, phone: string, address: string) returns (id: Option<int>)
      requires Valid()
      modifies this
      ensures ServiceRules.Step(id, Tables()) == ServiceRules.AddTeacher(old(Tables()), name, phone, address)
      ensures Valid()
    {
      if TeacherNameTaken(teachers, name) {
        return None;
      }
      var newId := NextId(teachers.Keys);
      teachers := teachers[newId := Teacher(name, phone, address)];
      id := Some(newId);
    }

    /** `delete_teacher`, step for step the rule `ServiceRules.DeleteTeacher`. */
    method DeleteTeacher(teacherId: int) returns (outcome: ServiceRules.TeacherDeletion)
      requires Valid()
      modifies this
      ensures ServiceRules.Step(outcome, Tables()) == ServiceRules.DeleteTeacher(old(Tables()), teacherId)
      ensures Valid()
    {
      if teacherId !in teachers {
        return ServiceRules.TeacherNotFound;
      }
      var teaching := ServiceRules.CoursesOf(Tables(), teacherId);
      if teaching != {} {
        return ServiceRules.StillTeaching(|teaching|);
      }
      teachers := teachers - {teacherId};
      outcome := ServiceRules.Deleted;
    }

    // ---------- 3) courses and schedules ----------

    /** `add_course`, step for step the rule `ServiceRules.AddCourse`. */
    method AddCourse(name: string, teacherId: int, durationMinutes: int := DefaultDurationMinutes,
                     breakMinutes: int := DefaultBreakMinutes)
      returns (id: Option<int>)
      requires Valid()
      modifies this
      ensures ServiceRules.Step(id, Tables())
           == ServiceRules.AddCourse(old(Tables()), name, teacherId, durationMinutes, breakMinutes)
      ensures Valid()
    {
      if || teacherId !in teachers || CourseNameTaken(courses, name)
         || !FitsInteger(durationMinutes) || !FitsInteger(breakMinutes)
      {
        return None;
      }
      var newId := NextId(courses.Keys);
      courses := courses[newId := Course(name, teacherId, durationMinutes, breakMinutes)];
      id := Some(newId);
    }

    /** `add_course_schedule`, step for step the rule `ServiceRules.AddCourseSchedule`. */
    method AddCourseSchedule(courseId: int, dayOfWeek: string, start: MinuteOfDay) returns (id: Option<int>)
      requires Valid()
      modifies this
      ensures ServiceRules.Step(id, Tables()) == ServiceRules.AddCourseSchedule(old(Tables()), courseId, dayOfWeek, start)
      ensures Valid()
    {
      if courseId !in courses {
        return None;
      }
      var end := EndTime(start, courses[courseId].durationMinutes);
      if end.None? || !ClearOfLunch(start, end.value) {
        return None;
      }
      var newId := NextId(schedules.Keys);
      schedules := schedules[newId := CourseSchedule(courseId, AsciiUpper(dayOfWeek), start, end.value)];
      id := Some(newId);
    }

    /** `delete_course`: the cascade `Schema.DeleteCourseCascade`, table by table. */
    method DeleteCourse(courseId: int) returns (ok: bool)
      requires Valid()
      modifies this
      ensures ServiceRules.Step(ok, Tables()) == ServiceRules.DeleteCourse(old(Tables()), courseId)
      ensures Valid()
    {
      if courseId !in courses {
        return false;
      }
      var gone := SchedulesOf(Tables(), courseId);
      records := Filter(records, NotOfSchedules(gone));
      schedules := schedules - gone;
      enrollments := set e | e in enrollments && !(e.courseId == courseId && e.studentId in students);
      courses := courses - {courseId};
      ok := true;
    }

    // ---------- 4) dated occurrences ----------

    /** `get_courses_for_period`: every schedule on every date of
        [first, last] whose weekday is the schedule's day, exactly once each,
        sorted by (date, start time). Stepping past the last representable
        date raises OverflowError, which the method does not catch: None. */
    method CoursesForPeriod(first: Date, last: Date) returns (r: Option<seq<ServiceRules.Occurrence>>)
      requires Valid()
      ensures r.None? <==> first <= last == MaxOrdinal
      ensures r.Some? ==> SortedBy(r.value, ServiceRules.OccursBefore)
      ensures r.Some? ==> forall o :: multiset(r.value)[o] == if ServiceRules.IsOccurrence(Tables(), first, last, o) then 1 else 0
    {
      var db := Tables();
      var keys := InKeyOrder(db.schedules.Keys);
      ServiceRules.ScheduleKeysJoin(db);
      var occ := ExpandPeriod(db, keys, first, last);
      if occ.None? {
        return None;
      }
      ServiceRules.PeriodOccurrencesExact(db, keys, first, last);
      ServiceRules.OccursBeforeIsStrictWeakOrder();
      r := Some(SortBy(occ.value, ServiceRules.OccursBefore));
    }

    /** The `while d <= end_date` loop over the schedules listed in `keys`. */
    static method ExpandPeriod(db: Db, keys: seq<int>, first: Date, last: Date)
      returns (occ: Option<seq<ServiceRules.Occurrence>>)
      requires forall i :: 0 <= i < |keys| ==> ServiceRules.Joinable(db, keys[i])
      ensures occ.None? <==> first <= last == MaxOrdinal
      ensures occ.Some? ==> occ.value == ServiceRules.PeriodOccurrences(db, keys, first, last)
    {
      var found: seq<ServiceRules.Occurrence> := [];
      var d: int := first;
      while d <= last
        invariant first <= d <= MaxOrdinal && (d <= last + 1 || d == first)
        invariant found == ServiceRules.PeriodOccurrences(db, keys, first, d - 1)
        decreases last - d
      {
        found := AppendDay(db, keys, d, found);
        if d == MaxOrdinal {
          return None;
        }
        d := d + 1;
      }
      occ := Some(found);
    }

    /** The body of the `while` loop: `for s in schedules`, appending each
        schedule that meets on `d`. */
    static method AppendDay(db: Db, keys: seq<int>, d: Date, occ: seq<ServiceRules.Occurrence>)
      returns (r: seq<ServiceRules.Occurrence>)
      requires forall i :: 0 <= i < |keys| ==> ServiceRules.Joinable(db, keys[i])
      ensures r == occ + ServiceRules.DayOccurrences(db, keys, d)
    {
      r := occ;
      var j := 0;
      while j < |keys|
        invariant 0 <= j <= |keys|
        invariant r == occ + ServiceRules.DayOccurrences(db, keys[..j], d)
      {
        var s := db.schedules[keys[j]];
        if s.dayOfWeek == DayName(d) {
          r := r + [ServiceRules.OccurrenceOf(db, d, keys[j])];
        }
        assert keys[..j + 1][..j] == keys[..j];
        j := j + 1;
      }
      assert keys[..|keys|] == keys;
    }

    // ---------- 5) enrollments ----------

    /** `update_course_enrollments`: delete the course's rows, then insert one
        row per distinct id. An id too wide for the column makes the insert
        raise, and the rollback restores the deleted rows, so the call then
        leaves the tables as they were. */
    method UpdateCourseEnrollments(courseId: int, studentIds: seq<int>) returns (ok: bool)
      requires Valid()
      modifies this
      ensures ServiceRules.Step(ok, Tables())
           == ServiceRules.UpdateCourseEnrollments(old(Tables()), courseId, studentIds)
      ensures Valid()
    {
      if courseId !in courses || !ServiceRules.IdsFit(studentIds) {
        return false;
      }
      enrollments := set e | e in enrollments && e.courseId != courseId;
      ghost var kept := enrollments;
      var toAdd := InKeyOrder(set i | i in studentIds);
      var j := 0;
      while j < |toAdd|
        invariant 0 <= j <= |toAdd|
        invariant enrollments == kept + set i | i in toAdd[..j] :: Enrollment(i, courseId)
        invariant Tables() == old(Tables()).(enrollments := enrollments)
      {
        enrollments := enrollments + {Enrollment(toAdd[j], courseId)};
        assert toAdd[..j + 1] == toAdd[..j] + [toAdd[j]];
        j := j + 1;
      }
      assert toAdd[..|toAdd|] == toAdd;
      assert forall i :: i in toAdd <==> i in studentIds by {
        forall i ensures i in toAdd <==> i in studentIds {
          assert i in toAdd <==> i in multiset(toAdd);
        }
      }
      ok := true;
    }

    // ---------- 6) taking attendance ----------

    /** `take_attendance`, the status dict given as its entries in iteration
        order. A student id too wide for the lookup raises, and the rollback
        undoes what the earlier entries wrote. */
    method TakeAttendance(scheduleId: int, date: Date, statuses: seq<(int, string)>) returns (ok: bool)
      requires Valid()
      modifies this
      ensures ServiceRules.Step(ok, Tables()) == ServiceRules.TakeAttendance(old(Tables()), scheduleId, date, statuses)
      ensures Valid()
    {
      if scheduleId !in schedules {
        return false;
      }
      var savedStudents, savedRecords := students, records;
      var i := 0;
      while i < |statuses|
        invariant 0 <= i <= |statuses|
        invariant forall k :: 0 <= k < i ==> FitsInteger(statuses[k].0)
        invariant savedStudents == old(students) && savedRecords == old(records)
        invariant ServiceRules.MarkAll(Tables(), scheduleId, date, statuses[i..])
               == ServiceRules.MarkAll(old(Tables()), scheduleId, date, statuses)
      {
        var (sid, status) := statuses[i];
        if !FitsInteger(sid) {
          // the lookup raises OverflowError: roll back what earlier entries wrote
          students, records := savedStudents, savedRecords;
          return false;
        }
        ghost var before := Tables();
        if sid in students && !HasRecord(records, sid, scheduleId, date) {
          var deducted := false;
          if status == ServiceRules.Attended || status == ServiceRules.Late {
            if students[sid].remainingClasses > 0 {
              students := students[sid := students[sid].(remainingClasses := students[sid].remainingClasses - 1)];
              deducted := true;
            }
          }
          records := records + [AttendanceRecord(sid, scheduleId, date, status, deducted)];
        }
        assert Tables() == ServiceRules.MarkOne(before, scheduleId, date, sid, status);
        assert statuses[i..][0] == statuses[i] && statuses[i..][1..] == statuses[i + 1..];
        i := i + 1;
      }
      ok := true;
    }
  }
}
