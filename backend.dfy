/** The Express/Prisma backend (backend/server.js): the attendance
    submission `POST /courses/:id/attendance`, its companion read
    `GET /courses/:id/attendance`, and `DELETE /students/:id`, as operations
    of an in-memory store holding the three tables they touch. */
module Backend {
  import opened Wrappers
  import opened Seqs

  datatype Student = Student(id: int, name: string, studentNumber: string, phone: string,
                             address: string, remainingHours: int)

  datatype Course = Course(name: string, date: int, time: string, teacherId: int)

  datatype Status = Present | Absent

  datatype AttendanceRecord = AttendanceRecord(courseId: int, studentId: int, status: Status,
                                               updatedBy: string, updatedAt: int)

  /** One element of the JSON list `GET /courses/:id/attendance` answers with. */
  datatype AttendanceRow = AttendanceRow(studentId: int, name: string, studentNumber: string, phone: string,
                                         remainingHours: int, status: Status, updatedAt: int)

  /** 201 "Attendance recorded successfully", 404 "Course not found", or
      500 "Failed to record attendance". */
  datatype Submission = Created | CourseNotFound | Failed

  /** Who the handler writes as the author of each record. */
  const Teacher: string := "teacher"

  predicate DifferentIds(a: Student, b: Student)
  {
    a.id != b.id
  }

  /** The student table's primary key. */
  ghost predicate DistinctIds(students: seq<Student>)
  {
    Pairwise(students, DifferentIds)
  }

  predicate HasStudent(students: seq<Student>, id: int)
  {
    exists k :: 0 <= k < |students| && students[k].id == id
  }

  /** The status written for a student: `present` iff its id is among the submitted ones. */
  function StatusFor(presentIds: seq<int>, id: int): Status
  {
    if id in presentIds then Present else Absent
  }

  /** The record the handler creates for one student. */
  function NewRecord(courseId: int, s: Student, presentIds: seq<int>, now: int): AttendanceRecord
  {
    AttendanceRecord(courseId, s.id, StatusFor(presentIds, s.id), Teacher, now)
  }

  /** The records one submission appends, one per student, in table order. */
  function SubmissionRecords(courseId: int, students: seq<Student>, presentIds: seq<int>, now: int)
    : (r: seq<AttendanceRecord>)
    ensures |r| == |students|
    ensures forall i :: 0 <= i < |students| ==>
      && r[i].courseId == courseId
      && r[i].studentId == students[i].id
      && (r[i].status == Present <==> students[i].id in presentIds)
      && r[i].updatedBy == Teacher
      && r[i].updatedAt == now
    decreases |students|
  {
    if students == [] then []
    else
      SubmissionRecords(courseId, students[..|students| - 1], presentIds, now)
        + [NewRecord(courseId, students[|students| - 1], presentIds, now)]
  }

  /** The student after the `decrement`: present with hours left means one hour less. */
  function Charge(s: Student, presentIds: seq<int>): Student
  {
    if s.id in presentIds && s.remainingHours > 0 then s.(remainingHours := s.remainingHours - 1) else s
  }

  /** The student table after one submission: only present students with a
      positive balance lose exactly one hour; no balance goes below zero that
      was not already; nothing else about any student changes. */
  function ChargedStudents(students: seq<Student>, presentIds: seq<int>): (r: seq<Student>)
    ensures |r| == |students|
    ensures forall i :: 0 <= i < |students| ==>
      && r[i] == students[i].(remainingHours := r[i].remainingHours)
      && (students[i].id in presentIds && students[i].remainingHours > 0 ==>
            r[i].remainingHours == students[i].remainingHours - 1)
      && (!(students[i].id in presentIds && students[i].remainingHours > 0) ==>
            r[i].remainingHours == students[i].remainingHours)
      && (students[i].remainingHours >= 0 ==> r[i].remainingHours >= 0)
  {
    seq(|students|, i requires 0 <= i < |students| => Charge(students[i], presentIds))
  }

  function OfStudentInCourse(id: int, courseId: int): AttendanceRecord -> bool
  {
    (r: AttendanceRecord) => r.studentId == id && r.courseId == courseId
  }

  /** Every student of the table gets exactly one new record for the course,
      and an id of no student gets none. */
  lemma {:induction false} OneNewRecordPerStudent(courseId: int, students: seq<Student>, presentIds: seq<int>,
                                                  now: int, id: int)
    requires DistinctIds(students)
    ensures |Filter(SubmissionRecords(courseId, students, presentIds, now), OfStudentInCourse(id, courseId))|
         == if HasStudent(students, id) then 1 else 0
    decreases |students|
  {
    if students != [] {
      var front := students[..|students| - 1];
      var last := students[|students| - 1];
      var keep := OfStudentInCourse(id, courseId);
      assert DistinctIds(front);
      OneNewRecordPerStudent(courseId, front, presentIds, now, id);
      var x := NewRecord(courseId, last, presentIds, now);
      FilterAppend(SubmissionRecords(courseId, front, presentIds, now), [x], keep);
      assert Filter([x], keep) == (if keep(x) then [x] else []) + Filter([x][1..], keep);
      assert HasStudent(students, id) <==> HasStudent(front, id) || last.id == id by {
        if HasStudent(students, id) {
          var k :| 0 <= k < |students| && students[k].id == id;
          if k < |front| {
            assert front[k] == students[k];
          }
        }
        if HasStudent(front, id) {
          var k :| 0 <= k < |front| && front[k].id == id;
          assert students[k] == front[k];
        }
      }
      forall k | 0 <= k < |front| ensures front[k].id != last.id {
        assert DifferentIds(students[k], students[|students| - 1]);
      }
    }
  }

  /** There is no de-duplication: a submission adds one record per student
      for the course to however many there were already. */
  lemma SubmissionAppendsRecords(records: seq<AttendanceRecord>, courseId: int, students: seq<Student>,
                                 presentIds: seq<int>, now: int, id: int)
    requires DistinctIds(students)
    ensures var after := records + SubmissionRecords(courseId, students, presentIds, now);
      |Filter(after, OfStudentInCourse(id, courseId))|
        == |Filter(records, OfStudentInCourse(id, courseId))| + if HasStudent(students, id) then 1 else 0
  {
    FilterAppend(records, SubmissionRecords(courseId, students, presentIds, now), OfStudentInCourse(id, courseId));
    OneNewRecordPerStudent(courseId, students, presentIds, now, id);
  }

  /** Submitted ids that match no student have no effect: the outcome is
      that of the list with them left out. */
  lemma UnknownIdsIgnored(courseId: int, students: seq<Student>, presentIds: seq<int>, now: int)
    ensures var known := Filter(presentIds, (x: int) => HasStudent(students, x));
      && SubmissionRecords(courseId, students, presentIds, now) == SubmissionRecords(courseId, students, known, now)
      && ChargedStudents(students, presentIds) == ChargedStudents(students, known)
  {
    var known := Filter(presentIds, (x: int) => HasStudent(students, x));
    assert forall i :: 0 <= i < |students| ==> (students[i].id in presentIds <==> students[i].id in known) by {
      forall i | 0 <= i < |students| ensures students[i].id in presentIds <==> students[i].id in known {
        assert HasStudent(students, students[i].id);
      }
    }
    var a := SubmissionRecords(courseId, students, presentIds, now);
    var b := SubmissionRecords(courseId, students, known, now);
    assert forall i :: 0 <= i < |a| ==> a[i] == b[i];
  }

  /** The row the handler maps a record and its student to. */
  function RowOf(s: Student, r: AttendanceRecord): AttendanceRow
  {
    AttendanceRow(s.id, s.name, s.studentNumber, s.phone, s.remainingHours, r.status, r.updatedAt)
  }

  function OfCourse(courseId: int): AttendanceRecord -> bool
  {
    (r: AttendanceRecord) => r.courseId == courseId
  }

  function NotOfStudent(id: int): AttendanceRecord -> bool
  {
    (r: AttendanceRecord) => r.studentId != id
  }

  function OtherStudent(id: int): Student -> bool
  {
    (s: Student) => s.id != id
  }

  /** The position of a student in the table. */
  function IndexOf(students: seq<Student>, id: int): (k: int)
    requires HasStudent(students, id)
    ensures 0 <= k < |students| && students[k].id == id
    decreases |students|
  {
    if students[0].id == id then 0
    else
      assert HasStudent(students[1..], id) by {
        var k :| 0 <= k < |students| && students[k].id == id;
        assert students[1..][k - 1] == students[k];
      }
      1 + IndexOf(students[1..], id)
  }

  /** Student ids are a key, and every record refers to an existing course
      and student (the foreign keys of the Prisma schema). */
  ghost predicate ValidTables(students: seq<Student>, courses: map<int, Course>, records: seq<AttendanceRecord>)
  {
    && DistinctIds(students)
    && forall i :: 0 <= i < |records| ==>
         records[i].courseId in courses && HasStudent(students, records[i].studentId)
  }

  lemma SubmissionKeepsValid(students: seq<Student>, courses: map<int, Course>, records: seq<AttendanceRecord>,
                             courseId: int, presentIds: seq<int>, now: int)
    requires ValidTables(students, courses, records) && courseId in courses
    ensures ValidTables(ChargedStudents(students, presentIds), courses,
                        records + SubmissionRecords(courseId, students, presentIds, now))
  {
    var charged := ChargedStudents(students, presentIds);
    var added := SubmissionRecords(courseId, students, presentIds, now);
    var after := records + added;
    assert DistinctIds(charged) by {
      forall i, j | 0 <= i < j < |charged| ensures DifferentIds(charged[i], charged[j]) {
        assert DifferentIds(students[i], students[j]);
      }
    }
    forall j | 0 <= j < |after| ensures after[j].courseId in courses && HasStudent(charged, after[j].studentId) {
      if j >= |records| {
        assert after[j] == added[j - |records|];
        assert charged[j - |records|].id == after[j].studentId;
      } else {
        assert after[j] == records[j];
        var k :| 0 <= k < |students| && students[k].id == records[j].studentId;
        assert charged[k].id == students[k].id;
      }
    }
  }

  lemma DeleteKeepsValid(students: seq<Student>, courses: map<int, Course>, records: seq<AttendanceRecord>, id: int)
    requires ValidTables(students, courses, records)
    ensures ValidTables(students, courses, Filter(records, NotOfStudent(id)))
    ensures ValidTables(Filter(students, OtherStudent(id)), courses, Filter(records, NotOfStudent(id)))
  {
    var kept := Filter(records, NotOfStudent(id));
    var others := Filter(students, OtherStudent(id));
    FilterKeepsPairwise(students, OtherStudent(id), DifferentIds);
    forall j | 0 <= j < |kept|
      ensures kept[j].courseId in courses && HasStudent(students, kept[j].studentId)
      ensures HasStudent(others, kept[j].studentId)
    {
      assert kept[j] in records;
      var i :| 0 <= i < |records| && records[i] == kept[j];
      var k :| 0 <= k < |students| && students[k].id == records[i].studentId;
      assert students[k] in others;
      var m :| 0 <= m < |others| && others[m] == students[k];
    }
  }

  lemma ChargedPointwise(students: seq<Student>, presentIds: seq<int>, charged: seq<Student>)
    requires |charged| == |students|
    requires forall k :: 0 <= k < |students| ==> charged[k] == Charge(students[k], presentIds)
    ensures charged == ChargedStudents(students, presentIds)
  {
  }

  class Store {
    var students: seq<Student>
    var courses: map<int, Course>
    var records: seq<AttendanceRecord>

    ghost predicate Valid()
      reads this
    {
      ValidTables(students, courses, records)
    }

    constructor()
      ensures students == [] && courses == map[] && records == []
      ensures Valid()
    {
      students, courses, records := [], map[], [];
    }

    /** `POST /courses/:id/attendance`; `presentIds` is the body's
        `presentStudentIds`, None when the body has none, and `now` is the
        time Prisma stamps on `updatedAt`. Without the list every callback
        throws at `includes` before it writes anything, so the handler answers
        500, or 201 when there is no student to call back. The per-student
        work runs one student after the other. */
    method RecordAttendance(courseId: int, presentIds: Option<seq<int>>, now: int) returns (outcome: Submission)
      requires Valid()
      modifies this
      ensures outcome == CourseNotFound <==> courseId !in old(courses)
      ensures outcome == Failed <==> courseId in old(courses) && presentIds.None? && old(students) != []
      ensures outcome != Created || presentIds.None? ==> unchanged(this)
      ensures outcome == Created && presentIds.Some? ==>
        && courses == old(courses)
        && students == ChargedStudents(old(students), presentIds.value)
        && records == old(records) + SubmissionRecords(courseId, old(students), presentIds.value, now)
      ensures Valid()
    {
      if courseId !in courses {
        return CourseNotFound;
      }
      if presentIds.None? {
        return if students == [] then Created else Failed;
      }
      var all := students;
      ghost var before := records;
      students, records := Submit(all, records, courseId, presentIds.value, now);
      SubmissionKeepsValid(all, courses, before, courseId, presentIds.value, now);
      outcome := Created;
    }

    /** The `allStudents.map` callback applied to each student in turn: the
        `decrement` of a present student with hours left, then the new record. */
    static method Submit(all: seq<Student>, records: seq<AttendanceRecord>, courseId: int,
                         presentIds: seq<int>, now: int)
      returns (charged: seq<Student>, written: seq<AttendanceRecord>)
      ensures charged == ChargedStudents(all, presentIds)
      ensures written == records + SubmissionRecords(courseId, all, presentIds, now)
    {
      charged, written := all, records;
      var i := 0;
      while i < |all|
        invariant 0 <= i <= |all|
        invariant |charged| == |all|
        invariant forall k :: 0 <= k < i ==> charged[k] == Charge(all[k], presentIds)
        invariant forall k :: i <= k < |all| ==> charged[k] == all[k]
        invariant written == records + SubmissionRecords(courseId, all[..i], presentIds, now)
      {
        var student := all[i];
        var isPresent := student.id in presentIds;
        if isPresent && student.remainingHours > 0 {
          charged := charged[i := student.(remainingHours := student.remainingHours - 1)];
        }
        written := written + [AttendanceRecord(courseId, student.id, if isPresent then Present else Absent,
                                               Teacher, now)];
        assert all[..i + 1][..i] == all[..i];
        i := i + 1;
      }
      assert all[..|all|] == all;
      ChargedPointwise(all, presentIds, charged);
    }

    /** `GET /courses/:id/attendance`: one row per record of the course, in
        table order, showing the record's student as it is now; no records
        give the empty list. */
    method CourseAttendance(courseId: int) returns (rows: seq<AttendanceRow>)
      requires Valid()
      ensures var recs := Filter(records, OfCourse(courseId));
        && |rows| == |recs|
        && forall i :: 0 <= i < |rows| ==>
             exists k :: 0 <= k < |students| && students[k].id == recs[i].studentId
                      && rows[i] == RowOf(students[k], recs[i])
    {
      var recs := Filter(records, OfCourse(courseId));
      rows := [];
      var j := 0;
      while j < |recs|
        invariant 0 <= j <= |recs|
        invariant |rows| == j
        invariant forall i :: 0 <= i < j ==>
          exists k :: 0 <= k < |students| && students[k].id == recs[i].studentId
                   && rows[i] == RowOf(students[k], recs[i])
      {
        assert recs[j] in records;
        var k := IndexOf(students, recs[j].studentId);
        rows := rows + [RowOf(students[k], recs[j])];
        j := j + 1;
      }
    }

    /** `DELETE /students/:id`: the student's records are deleted, then the
        student; deleting a missing student fails after the records are
        gone. */
    method DeleteStudent(id: int) returns (ok: bool)
      requires Valid()
      modifies this
      ensures ok <==> HasStudent(old(students), id)
      ensures records == Filter(old(records), NotOfStudent(id))
      ensures ok ==> students == Filter(old(students), OtherStudent(id))
      ensures !ok ==> students == old(students)
      ensures courses == old(courses)
      ensures Valid()
    {
      DeleteKeepsValid(students, courses, records, id);
      records := Filter(records, NotOfStudent(id));
      ok := HasStudent(students, id);
      if !ok {
        return;
      }
      students := Filter(students, OtherStudent(id));
    }
  }
}
