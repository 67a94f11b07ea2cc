/** The two serializers of api/serializer.py that carry logic: student
    registration with subjects, and the validation of a bulk-grading request.
    The error responses of the whole API are declared here too. */
module Serializers {
  import opened Wrappers
  import opened Models
  import opened Database
  import opened Eligibility

  /** The error responses the modelled operations can produce. */
  datatype Error =
    | MissingIds                 // 'Student ID and Subject IDs are required.' (400)
    | NotFound                   // the student, enrollment or professor does not exist (404)
    | Ineligible(subject: SubjectId)  // the prerequisite message naming the subject (400)
    | GradeRequired              // 'Grade is required.' (400)
    | InvalidGrade               // 'Invalid grade value.' (400)
    | GradeOutOfRange            // 'Grade must be between 0.0 and 5.0.' (400)
    | SubjectNotFound            // 'Materia no encontrada.' (400)
    | NoEnrollmentFor(student: int)  // no enrollment of that student in the subject (400)

  // ---------------------------------------------------------------------------
  // Registration

  /** `StudentRegistrationSerializer.create` (and the identical
      `StudentSerializer.create`): the student row is created first, then the
      requested subjects that exist are enrolled one by one under the
      prerequisite rule; the first ineligible subject raises a validation
      error naming it, and nothing created before it is undone. */
  method Register(st: Store, info: Student, subjectIds: seq<int>) returns (r: Result<StudentId, Error>)
    requires st.Valid()
    modifies st
    ensures st.Valid()
    ensures var id := old(st.nextStudentId);
            var loop := EnrollLoop(old(st.subjects), old(st.enrollments), id,
                                   SelectSubjects(old(st.subjects), subjectIds), old(st.nextEnrollmentId));
            && id !in old(st.students)
            && st.students == old(st.students)[id := info] && st.nextStudentId == id + 1
            && st.enrollments == loop.enrollments && st.nextEnrollmentId == loop.nextId
            && r == (if loop.stoppedAt.None? then Ok(id) else Err(Ineligible(loop.stoppedAt.value)))
    ensures st.subjects == old(st.subjects) && st.professors == old(st.professors)
  {
    var id := st.CreateStudent(info);
    var subs := SelectSubjects(st.subjects, subjectIds);
    var stoppedAt := EnrollEach(st, id, subs);
    r := if stoppedAt.None? then Ok(id) else Err(Ineligible(stoppedAt.value));
  }

  /** Registration keeps the student even when it fails, enrolls them in
      exactly the admitted prefix of the existing requested subjects, each once
      and ungraded, and changes no one's grades or averages. */
  lemma RegistrationOutcome(subjects: map<SubjectId, Subject>, es: seq<Enrollment>, id: StudentId,
                            subjectIds: seq<int>, nextId: nat, t: StudentId)
    requires forall i :: 0 <= i < |es| ==> es[i].student != id
    ensures var subs := SelectSubjects(subjects, subjectIds);
            var loop := EnrollLoop(subjects, es, id, subs, nextId);
            var admitted := subs[..|loop.enrollments| - |es|];
            && EnrolledSubjects(loop.enrollments, id) == admitted
            && PendingSubjects(loop.enrollments, id) == admitted
            && AverageGrade(loop.enrollments, t) == AverageGrade(es, t)
            && ApprovedSubjects(loop.enrollments, t) == ApprovedSubjects(es, t)
            && (loop.stoppedAt.None? ==> admitted == subs)
  {
    NewStudentLoopOutcome(subjects, es, id, SelectSubjects(subjects, subjectIds), nextId, t);
  }

  lemma NewStudentLoopOutcome(subjects: map<SubjectId, Subject>, es: seq<Enrollment>, id: StudentId,
                              subs: seq<SubjectId>, nextId: nat, t: StudentId)
    requires forall k :: 0 <= k < |subs| ==> subs[k] in subjects
    requires forall i :: 0 <= i < |es| ==> es[i].student != id
    ensures var loop := EnrollLoop(subjects, es, id, subs, nextId);
            var admitted := subs[..|loop.enrollments| - |es|];
            && EnrolledSubjects(loop.enrollments, id) == admitted
            && PendingSubjects(loop.enrollments, id) == admitted
            && AverageGrade(loop.enrollments, t) == AverageGrade(es, t)
            && ApprovedSubjects(loop.enrollments, t) == ApprovedSubjects(es, t)
            && (loop.stoppedAt.None? ==> admitted == subs)
  {
    EnrollLoopStatistics(subjects, es, id, subs, nextId, t);
    EnrollLoopStatistics(subjects, es, id, subs, nextId, id);
    NoOwnEnrollments(es, id);
    assert subs[..|subs|] == subs;
  }

  /** With no enrollment of `s`, the lists of `s` are empty. */
  lemma NoOwnEnrollments(es: seq<Enrollment>, s: StudentId)
    requires forall i :: 0 <= i < |es| ==> es[i].student != s
    ensures EnrolledSubjects(es, s) == [] && PendingSubjects(es, s) == []
  {
    GradesEmpty(es, s);
    var pending := (e: Enrollment) => e.student == s && e.grade.None?;
    if Where(es, pending) != [] {
      WhereContains(es, pending, Where(es, pending)[0]);
    }
  }

  /** Unknown requested ids change nothing: the selection is the same as for
      the known ids alone. */
  lemma {:induction false} SelectionIgnoresUnknownIds(subjects: map<SubjectId, Subject>, ids: seq<int>)
    ensures SelectSubjects(subjects, ids) ==
            SelectSubjects(subjects, Where(ids, (x: int) => x >= 0 && x as nat in subjects))
    decreases |ids|
  {
    if ids != [] {
      var known := (x: int) => x >= 0 && x as nat in subjects;
      var init, x := ids[..|ids| - 1], ids[|ids| - 1];
      SelectionIgnoresUnknownIds(subjects, init);
      var w := Where(init, known);
      assert ids == init + [x];
      if known(x) {
        assert Where(ids, known) == w + [x];
        assert (w + [x])[..|w + [x]| - 1] == w && (w + [x])[|w + [x]| - 1] == x;
      } else {
        assert Where(ids, known) == w;
      }
    }
  }

  /** Requesting a subject twice is the same as requesting it once. */
  lemma SelectionIgnoresRepeats(subjects: map<SubjectId, Subject>, ids: seq<int>, x: int)
    requires x in ids
    ensures SelectSubjects(subjects, ids + [x]) == SelectSubjects(subjects, ids)
  {
    assert (ids + [x])[..|ids + [x]| - 1] == ids;
    var prev := SelectSubjects(subjects, ids);
    if x >= 0 && x as nat in subjects {
      var i :| 0 <= i < |ids| && ids[i] == x;
      assert ids[i] in prev;
    }
  }

  // ---------------------------------------------------------------------------
  // Bulk-grade validation

  /** One `{student_id, grade}` item of a bulk-grading request. */
  datatype GradeEntry = GradeEntry(student: int, grade: real)

  /** `Enrollment.objects.filter(subject_id=sub, student_id=student).exists()` */
  predicate EnrolledIn(es: seq<Enrollment>, student: int, sub: int) {
    exists i :: 0 <= i < |es| && es[i].student == student && es[i].subject == sub
  }

  /** The position of the first entry whose student has no enrollment in `sub`. */
  function FirstUnenrolled(es: seq<Enrollment>, sub: int, entries: seq<GradeEntry>): (r: Option<nat>)
    ensures r.None? <==> forall k :: 0 <= k < |entries| ==> EnrolledIn(es, entries[k].student, sub)
    ensures r.Some? ==> && r.value < |entries|
                        && !EnrolledIn(es, entries[r.value].student, sub)
                        && forall k :: 0 <= k < r.value ==> EnrolledIn(es, entries[k].student, sub)
    decreases |entries|
  {
    if entries == [] then None
    else if !EnrolledIn(es, entries[0].student, sub) then Some(0)
    else match FirstUnenrolled(es, sub, entries[1..])
      case None => None
      case Some(k) => Some(k + 1)
  }

  /** `GradeSerializer.validate`: the subject must exist, then every listed
      student must have an enrollment in it; the first failure is reported.
      Grades themselves are not checked. */
  function ValidateGrades(subjects: map<SubjectId, Subject>, es: seq<Enrollment>, subjectId: int,
                          entries: seq<GradeEntry>): (r: Option<Error>)
    ensures r.None? <==> && subjectId >= 0 && subjectId as nat in subjects
                         && forall k :: 0 <= k < |entries| ==> EnrolledIn(es, entries[k].student, subjectId)
    ensures r == Some(SubjectNotFound) <==> subjectId < 0 || subjectId as nat !in subjects
    ensures r.Some? && r != Some(SubjectNotFound) ==>
              exists k :: && 0 <= k < |entries| && r == Some(NoEnrollmentFor(entries[k].student))
                          && !EnrolledIn(es, entries[k].student, subjectId)
                          && forall j :: 0 <= j < k ==> EnrolledIn(es, entries[j].student, subjectId)
  {
    if subjectId < 0 || subjectId as nat !in subjects then Some(SubjectNotFound)
    else match FirstUnenrolled(es, subjectId, entries)
      case None => None
      case Some(k) => Some(NoEnrollmentFor(entries[k].student))
  }

  /** Grades play no part in validation: the value of a grade, in range or
      not, never makes a request fail. */
  lemma ValidationIgnoresGradeValues(subjects: map<SubjectId, Subject>, es: seq<Enrollment>, subjectId: int,
                                     entries: seq<GradeEntry>, k: nat, g: real)
    requires k < |entries|
    ensures ValidateGrades(subjects, es, subjectId, entries[k := entries[k].(grade := g)]) ==
            ValidateGrades(subjects, es, subjectId, entries)
  {
    var entries' := entries[k := entries[k].(grade := g)];
    assert forall j :: 0 <= j < |entries| ==> entries'[j].student == entries[j].student;
    FirstUnenrolledSeesStudentsOnly(es, subjectId, entries, entries');
  }

  lemma {:induction false} FirstUnenrolledSeesStudentsOnly(es: seq<Enrollment>, sub: int,
                                                          a: seq<GradeEntry>, b: seq<GradeEntry>)
    requires |a| == |b| && forall j :: 0 <= j < |a| ==> a[j].student == b[j].student
    ensures FirstUnenrolled(es, sub, a) == FirstUnenrolled(es, sub, b)
    decreases |a|
  {
    if a != [] {
      FirstUnenrolledSeesStudentsOnly(es, sub, a[1..], b[1..]);
    }
  }
}
