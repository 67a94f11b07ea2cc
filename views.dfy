/** The actions of api/views.py that enroll students, grade them, and list a
    professor's subjects, students and grades. */
module Views {
  import opened Wrappers
  import opened Models
  import opened Database
  import opened Eligibility
  import opened Serializers

  // ---------------------------------------------------------------------------
  // EnrollmentViewSet.enroll

  /** `not student_id or not subject_ids`: an absent value, the id 0 and the
      empty list all count as missing. */
  predicate IdsMissing(studentId: Option<int>, subjectIds: Option<seq<int>>)
    ensures studentId == Some(0) ==> IdsMissing(studentId, subjectIds)
    ensures subjectIds == Some([]) ==> IdsMissing(studentId, subjectIds)
    ensures !IdsMissing(studentId, subjectIds) ==> studentId.Some? && subjectIds.Some?
  {
    studentId.None? || studentId.value == 0 || subjectIds.None? || subjectIds.value == []
  }

  /** `Student.objects.get(pk=id)` finds a row. */
  predicate KnownStudent(students: map<StudentId, Student>, id: int) {
    id >= 0 && id as nat in students
  }

  /** Enrolls an existing student in the existing requested subjects, one at a
      time, stopping at the first one whose prerequisites the student does not
      meet. The subjects enrolled before it stay enrolled. */
  method Enroll(st: Store, studentId: Option<int>, subjectIds: Option<seq<int>>) returns (failure: Option<Error>)
    requires st.Valid()
    modifies st
    ensures st.Valid()
    ensures st.subjects == old(st.subjects) && st.students == old(st.students)
    ensures st.professors == old(st.professors) && st.nextStudentId == old(st.nextStudentId)
    ensures IdsMissing(studentId, subjectIds) ==>
              failure == Some(MissingIds) &&
              st.enrollments == old(st.enrollments) && st.nextEnrollmentId == old(st.nextEnrollmentId)
    ensures !IdsMissing(studentId, subjectIds) && !KnownStudent(old(st.students), studentId.value) ==>
              failure == Some(NotFound) &&
              st.enrollments == old(st.enrollments) && st.nextEnrollmentId == old(st.nextEnrollmentId)
    ensures !IdsMissing(studentId, subjectIds) && KnownStudent(old(st.students), studentId.value) ==>
              var loop := EnrollLoop(old(st.subjects), old(st.enrollments), studentId.value as nat,
                                     SelectSubjects(old(st.subjects), subjectIds.value), old(st.nextEnrollmentId));
              && st.enrollments == loop.enrollments && st.nextEnrollmentId == loop.nextId
              && failure == (if loop.stoppedAt.None? then None else Some(Ineligible(loop.stoppedAt.value)))
  {
    if IdsMissing(studentId, subjectIds) {
      return Some(MissingIds);
    }
    if !KnownStudent(st.students, studentId.value) {
      return Some(NotFound);
    }
    var s := studentId.value as nat;
    var subs := SelectSubjects(st.subjects, subjectIds.value);
    var stoppedAt := EnrollEach(st, s, subs);
    failure := if stoppedAt.None? then None else Some(Ineligible(stoppedAt.value));
  }

  // ---------------------------------------------------------------------------
  // EnrollmentViewSet.update_grade

  /** The `grade` field of the request: absent, not a number, or a number. */
  datatype GradeInput = Absent | Malformed | Number(value: real)

  const MIN_GRADE: real := 0.0
  const MAX_GRADE: real := 5.0

  /** The range check of update_grade; both ends are accepted. */
  predicate InGradeRange(g: real)
    ensures InGradeRange(g) <==> MIN_GRADE <= g <= MAX_GRADE
  {
    !(g < MIN_GRADE || g > MAX_GRADE)
  }

  /** `Enrollment.objects.get(pk=id)`: the position of the enrollment with that id. */
  function IndexOfId(es: seq<Enrollment>, id: int): (r: Option<nat>)
    ensures r.Some? ==> r.value < |es| && es[r.value].id == id
    ensures r.None? <==> forall i :: 0 <= i < |es| ==> es[i].id != id
    decreases |es|
  {
    if es == [] then None
    else if es[0].id == id then Some(0)
    else match IndexOfId(es[1..], id)
      case None => None
      case Some(k) => Some(k + 1)
  }

  /** Sets the grade of one enrollment, after checking that it exists and that
      the grade is present, numeric and within [0.0, 5.0]. On any error
      nothing changes; on success only that enrollment's grade does. */
  method UpdateGrade(st: Store, id: int, grade: GradeInput) returns (r: Result<Enrollment, Error>)
    requires st.Valid()
    modifies st
    ensures st.Valid()
    ensures st.subjects == old(st.subjects) && st.students == old(st.students) && st.professors == old(st.professors)
    ensures st.nextStudentId == old(st.nextStudentId) && st.nextEnrollmentId == old(st.nextEnrollmentId)
    ensures IndexOfId(old(st.enrollments), id).None? ==> r == Err(NotFound) && st.enrollments == old(st.enrollments)
    ensures IndexOfId(old(st.enrollments), id).Some? ==>
              var k := IndexOfId(old(st.enrollments), id).value;
              match grade
              case Absent => r == Err(GradeRequired) && st.enrollments == old(st.enrollments)
              case Malformed => r == Err(InvalidGrade) && st.enrollments == old(st.enrollments)
              case Number(g) =>
                if InGradeRange(g) then
                  var e := old(st.enrollments)[k].(grade := Some(g));
                  r == Ok(e) && st.enrollments == old(st.enrollments)[k := e]
                else r == Err(GradeOutOfRange) && st.enrollments == old(st.enrollments)
  {
    var k := IndexOfId(st.enrollments, id);
    if k.None? {
      return Err(NotFound);
    }
    match grade
    case Absent =>
      r := Err(GradeRequired);
    case Malformed =>
      r := Err(InvalidGrade);
    case Number(g) =>
      if !InGradeRange(g) {
        r := Err(GradeOutOfRange);
      } else {
        st.SetGrade(k.value, g);
        r := Ok(st.enrollments[k.value]);
      }
  }

  /** Regrading an enrollment touches only its own student: every other
      student keeps their enrollments, approved and failed subjects and
      average, and who is enrolled where is unchanged, so no eligibility
      changes either. */
  lemma RegradeTouchesOnlyItsStudent(es: seq<Enrollment>, k: nat, g: real, t: StudentId)
    requires k < |es| && es[k].student != t
    ensures var es' := es[k := es[k].(grade := Some(g))];
            && SameRoster(es, es')
            && OwnEnrollments(es', t) == OwnEnrollments(es, t)
            && ApprovedSubjects(es', t) == ApprovedSubjects(es, t)
            && FailedSubjects(es', t) == FailedSubjects(es, t)
            && AverageGrade(es', t) == AverageGrade(es, t)
  {
    var x := es[k].(grade := Some(g));
    var es' := es[k := x];
    var before, after := es[..k], es[k + 1..];
    assert es == before + [es[k]] + after;
    assert es' == before + [x] + after;
    StatisticsAppend(before + [es[k]], after, t);
    StatisticsAppend(before, [es[k]], t);
    StatisticsAppend(before + [x], after, t);
    StatisticsAppend(before, [x], t);
    StatisticsOfOther(es[k], t);
    StatisticsOfOther(x, t);
    StatisticsDependOnlyOnOwnEnrollments(es, es', t);
  }

  /** With every grade in the store within [0.0, 5.0], as update_grade alone
      would leave it, every student's average lies within [0.0, 5.0] too. */
  lemma CheckedGradesKeepAverageInRange(es: seq<Enrollment>, s: StudentId)
    requires forall i :: 0 <= i < |es| && es[i].grade.Some? ==> InGradeRange(es[i].grade.value)
    ensures AverageGrade(es, s).Some? ==> InGradeRange(AverageGrade(es, s).value)
  {
    AverageWithinRange(es, s, MIN_GRADE, MAX_GRADE);
  }

  // ---------------------------------------------------------------------------
  // ProfessorViewSet.grade_subject

  /** `Enrollment.objects.get(subject_id=sub, student_id=student)`: the first
      enrollment of the student in the subject. */
  function FirstEnrollment(es: seq<Enrollment>, student: int, sub: int): (r: Option<nat>)
    ensures r.None? <==> !EnrolledIn(es, student, sub)
    ensures r.Some? ==> && r.value < |es| && es[r.value].student == student && es[r.value].subject == sub
                        && forall j :: 0 <= j < r.value ==> !(es[j].student == student && es[j].subject == sub)
    decreases |es|
  {
    if es == [] then None
    else if es[0].student == student && es[0].subject == sub then Some(0)
    else
      match FirstEnrollment(es[1..], student, sub)
      case None => None
      case Some(k) => Some(k + 1)
  }

  /** The write of one `{student_id, grade}` item. */
  function GradeOne(es: seq<Enrollment>, sub: SubjectId, p: GradeEntry): (r: seq<Enrollment>)
    ensures SameRoster(es, r)
    ensures forall i :: 0 <= i < |es| && r[i] != es[i] ==>
              es[i].student == p.student && es[i].subject == sub && r[i].grade == Some(p.grade)
  {
    match FirstEnrollment(es, p.student, sub)
    case None => es
    case Some(k) => es[k := es[k].(grade := Some(p.grade))]
  }

  /** The writes of all items, in list order. */
  function ApplyGrades(es: seq<Enrollment>, sub: SubjectId, ps: seq<GradeEntry>): (r: seq<Enrollment>)
    ensures SameRoster(es, r)
    decreases |ps|
  {
    if ps == [] then es else GradeOne(ApplyGrades(es, sub, ps[..|ps| - 1]), sub, ps[|ps| - 1])
  }

  /** The grade of the last item for the student, if any. */
  function LastGrade(ps: seq<GradeEntry>, student: int): (r: Option<real>)
    ensures r.Some? <==> exists k :: 0 <= k < |ps| && ps[k].student == student
    decreases |ps|
  {
    if ps == [] then None
    else if ps[|ps| - 1].student == student then Some(ps[|ps| - 1].grade)
    else LastGrade(ps[..|ps| - 1], student)
  }

  /** Validates the request first; if that fails nothing is written. Otherwise
      each item's grade is written to the student's enrollment in the
      subject, in list order, with no range check. */
  method GradeSubject(st: Store, subjectId: int, entries: seq<GradeEntry>) returns (failure: Option<Error>)
    requires st.Valid()
    modifies st
    ensures st.Valid()
    ensures st.subjects == old(st.subjects) && st.students == old(st.students) && st.professors == old(st.professors)
    ensures st.nextStudentId == old(st.nextStudentId) && st.nextEnrollmentId == old(st.nextEnrollmentId)
    ensures failure == ValidateGrades(old(st.subjects), old(st.enrollments), subjectId, entries)
    ensures failure.Some? ==> st.enrollments == old(st.enrollments)
    ensures failure.None? ==> st.enrollments == ApplyGrades(old(st.enrollments), subjectId as nat, entries)
  {
    failure := ValidateGrades(st.subjects, st.enrollments, subjectId, entries);
    if failure.Some? {
      return;
    }
    WriteGrades(st, subjectId as nat, entries);
  }

  /** The write loop of grade_subject: each item in turn sets the grade of the
      student's enrollment in the subject. */
  method WriteGrades(st: Store, sub: SubjectId, entries: seq<GradeEntry>)
    requires st.Valid()
    modifies st
    ensures st.Valid()
    ensures st.enrollments == ApplyGrades(old(st.enrollments), sub, entries)
    ensures st.subjects == old(st.subjects) && st.students == old(st.students) && st.professors == old(st.professors)
    ensures st.nextStudentId == old(st.nextStudentId) && st.nextEnrollmentId == old(st.nextEnrollmentId)
  {
    var i := 0;
    while i < |entries|
      invariant 0 <= i <= |entries|
      invariant st.Valid()
      invariant st.subjects == old(st.subjects) && st.students == old(st.students) && st.professors == old(st.professors)
      invariant st.nextStudentId == old(st.nextStudentId) && st.nextEnrollmentId == old(st.nextEnrollmentId)
      invariant st.enrollments == ApplyGrades(old(st.enrollments), sub, entries[..i])
    {
      assert entries[..i + 1][..i] == entries[..i];
      var k := FirstEnrollment(st.enrollments, entries[i].student, sub);
      if k.Some? {
        st.SetGrade(k.value, entries[i].grade);
      }
      i := i + 1;
    }
    assert entries[..|entries|] == entries;
  }

  /** Lists with the same roster find the same first enrollment. */
  lemma {:induction false} FirstEnrollmentOnSameRoster(es: seq<Enrollment>, es': seq<Enrollment>, student: int, sub: int)
    requires SameRoster(es, es')
    ensures FirstEnrollment(es, student, sub) == FirstEnrollment(es', student, sub)
    decreases |es|
  {
    if es != [] {
      assert SameRoster(es[1..], es'[1..]) by {
        forall i | 0 <= i < |es| - 1 ensures es[1..][i].student == es'[1..][i].student && es[1..][i].subject == es'[1..][i].subject {
          assert es[1..][i] == es[i + 1] && es'[1..][i] == es'[i + 1];
        }
      }
      FirstEnrollmentOnSameRoster(es[1..], es'[1..], student, sub);
    }
  }

  /** What bulk grading writes: the first enrollment of each listed student in
      the subject gets the grade of the LAST item for that student (a later
      item overwrites an earlier one), whatever its value; every other
      enrollment, and who is enrolled where, is unchanged. */
  lemma {:induction false} ApplyGradesResult(es: seq<Enrollment>, sub: SubjectId, ps: seq<GradeEntry>)
    ensures var r := ApplyGrades(es, sub, ps);
            && SameRoster(es, r)
            && forall i :: 0 <= i < |es| ==>
                 r[i] == if FirstEnrollment(es, es[i].student, sub) == Some(i) && LastGrade(ps, es[i].student).Some?
                         then es[i].(grade := LastGrade(ps, es[i].student))
                         else es[i]
    decreases |ps|
  {
    if ps != [] {
      var init, p := ps[..|ps| - 1], ps[|ps| - 1];
      ApplyGradesResult(es, sub, init);
      var prev := ApplyGrades(es, sub, init);
      FirstEnrollmentOnSameRoster(es, prev, p.student, sub);
      var r := ApplyGrades(es, sub, ps);
      assert r == GradeOne(prev, sub, p);
      forall i | 0 <= i < |es|
        ensures r[i] == if FirstEnrollment(es, es[i].student, sub) == Some(i) && LastGrade(ps, es[i].student).Some?
                        then es[i].(grade := LastGrade(ps, es[i].student))
                        else es[i]
      {
        if es[i].student != p.student {
          assert LastGrade(ps, es[i].student) == LastGrade(init, es[i].student);
        }
      }
    }
  }

  /** No range check on the bulk path: a grade of 7.0, which update_grade
      refuses, passes validation and is written. */
  lemma BulkGradingSkipsRangeCheck(s: StudentId, sub: SubjectId)
    ensures var subjects := map[sub := Subject("Calculus I", "", {})];
            var es := [Enrollment(1, s, sub, None)];
            var entries := [GradeEntry(s, 7.0)];
            && !InGradeRange(7.0)
            && ValidateGrades(subjects, es, sub, entries).None?
            && ApplyGrades(es, sub, entries) == [Enrollment(1, s, sub, Some(7.0))]
  {
    var es := [Enrollment(1, s, sub, None)];
    var entries := [GradeEntry(s, 7.0)];
    assert EnrolledIn(es, s, sub) by { assert es[0].student == s && es[0].subject == sub; }
    assert entries[..0] == [];
  }

  // ---------------------------------------------------------------------------
  // ProfessorViewSet.subjects, students_per_subject and student_grades

  /** `professor.subjects.all()` for the professor with key `p`. */
  function AssignedSubjects(professors: map<ProfessorId, Professor>, p: int): (r: Result<seq<SubjectId>, Error>)
    ensures r.Err? <==> p < 0 || p as nat !in professors
    ensures r.Err? ==> r.error == NotFound
    ensures r.Ok? ==> r.value == professors[p as nat].subjects
  {
    if p < 0 || p as nat !in professors then Err(NotFound) else Ok(professors[p as nat].subjects)
  }

  /** In a store whose catalog is closed, every subject a professor lists is a
      subject of the catalog. */
  lemma AssignedSubjectsExist(subjects: map<SubjectId, Subject>, professors: map<ProfessorId, Professor>, p: int)
    requires ClosedCatalog(subjects, professors)
    ensures var r := AssignedSubjects(professors, p);
            r.Ok? ==> forall k :: 0 <= k < |r.value| ==> r.value[k] in subjects
  {
  }

  /** One line of the gradebook: a student and the grade of one enrollment. */
  datatype GradeRow = GradeRow(student: StudentId, grade: Option<real>)

  /** `Enrollment.objects.filter(subject=sub)`, in id order. */
  function EnrollmentsIn(es: seq<Enrollment>, sub: SubjectId): seq<Enrollment> {
    Where(es, (e: Enrollment) => e.subject == sub)
  }

  /** `[enrollment.student for enrollment in enrollments]` */
  function StudentsOf(es: seq<Enrollment>, sub: SubjectId): (r: seq<StudentId>)
    ensures |r| == |EnrollmentsIn(es, sub)|
  {
    var ins := EnrollmentsIn(es, sub);
    seq(|ins|, i requires 0 <= i < |ins| => ins[i].student)
  }

  /** `[{'student': e.student, 'grade': e.grade} for e in enrollments]` */
  function GradebookOf(es: seq<Enrollment>, sub: SubjectId): (r: seq<GradeRow>)
    ensures |r| == |EnrollmentsIn(es, sub)|
  {
    var ins := EnrollmentsIn(es, sub);
    seq(|ins|, i requires 0 <= i < |ins| => GradeRow(ins[i].student, ins[i].grade))
  }

  /** `result[subject.name] = view(subject)` for each subject in turn: the
      dictionary both listings build. */
  function ByName<V>(subjects: map<SubjectId, Subject>, subs: seq<SubjectId>, view: SubjectId -> V): (r: map<string, V>)
    requires forall k :: 0 <= k < |subs| ==> subs[k] in subjects
    ensures forall name | name in r :: exists k :: 0 <= k < |subs| && subjects[subs[k]].name == name && r[name] == view(subs[k])
    decreases |subs|
  {
    if subs == [] then map[]
    else
      var last := subs[|subs| - 1];
      ByName(subjects, subs[..|subs| - 1], view)[subjects[last].name := view(last)]
  }

  /** The students of each of the professor's subjects, keyed by subject name. */
  function RosterByName(subjects: map<SubjectId, Subject>, es: seq<Enrollment>, subs: seq<SubjectId>): (r: map<string, seq<StudentId>>)
    requires forall k :: 0 <= k < |subs| ==> subs[k] in subjects
    ensures forall name | name in r :: exists k :: 0 <= k < |subs| && subjects[subs[k]].name == name && r[name] == StudentsOf(es, subs[k])
  {
    ByName(subjects, subs, (sub: SubjectId) => StudentsOf(es, sub))
  }

  /** The grades of each of the professor's subjects, keyed by subject name. */
  function GradebookByName(subjects: map<SubjectId, Subject>, es: seq<Enrollment>, subs: seq<SubjectId>): (r: map<string, seq<GradeRow>>)
    requires forall k :: 0 <= k < |subs| ==> subs[k] in subjects
    ensures forall name | name in r :: exists k :: 0 <= k < |subs| && subjects[subs[k]].name == name && r[name] == GradebookOf(es, subs[k])
  {
    ByName(subjects, subs, (sub: SubjectId) => GradebookOf(es, sub))
  }

  /** There is a key for a name exactly when one of the subjects bears it. */
  lemma {:induction false} ByNameKeys<V>(subjects: map<SubjectId, Subject>, subs: seq<SubjectId>,
                                         view: SubjectId -> V, name: string)
    requires forall k :: 0 <= k < |subs| ==> subs[k] in subjects
    ensures name in ByName(subjects, subs, view) <==> exists k :: 0 <= k < |subs| && subjects[subs[k]].name == name
    decreases |subs|
  {
    if subs != [] {
      var init := subs[..|subs| - 1];
      ByNameKeys(subjects, init, view, name);
      if exists k :: 0 <= k < |subs| && subjects[subs[k]].name == name {
        var k :| 0 <= k < |subs| && subjects[subs[k]].name == name;
        if k < |init| { assert init[k] == subs[k]; }
      }
      if exists k :: 0 <= k < |init| && subjects[init[k]].name == name {
        var k :| 0 <= k < |init| && subjects[init[k]].name == name;
        assert init[k] == subs[k];
      }
    }
  }

  /** A name shared by several subjects holds the value of the last of them:
      a later subject overwrites the key of an earlier one. */
  lemma {:induction false} ByNameLastWins<V>(subjects: map<SubjectId, Subject>, subs: seq<SubjectId>,
                                             view: SubjectId -> V, k: nat)
    requires forall j :: 0 <= j < |subs| ==> subs[j] in subjects
    requires k < |subs| && forall j :: k < j < |subs| ==> subjects[subs[j]].name != subjects[subs[k]].name
    ensures var m := ByName(subjects, subs, view);
            subjects[subs[k]].name in m && m[subjects[subs[k]].name] == view(subs[k])
    decreases |subs|
  {
    if k < |subs| - 1 {
      var init := subs[..|subs| - 1];
      assert init[k] == subs[k];
      forall j | k < j < |init| ensures subjects[init[j]].name != subjects[init[k]].name {
        assert init[j] == subs[j];
      }
      ByNameLastWins(subjects, init, view, k);
    }
  }

  /** `students_per_subject`: for a known professor, the students of every
      enrollment in each of their subjects, keyed by subject name; the store
      is only read. */
  method StudentsPerSubject(st: Store, p: int) returns (r: Result<map<string, seq<StudentId>>, Error>)
    requires st.Valid()
    ensures p < 0 || p as nat !in st.professors ==> r == Err(NotFound)
    ensures p >= 0 && p as nat in st.professors ==>
              var subs := st.professors[p as nat].subjects;
              && (forall k :: 0 <= k < |subs| ==> subs[k] in st.subjects)
              && r == Ok(RosterByName(st.subjects, st.enrollments, subs))
  {
    var listed := AssignedSubjects(st.professors, p);
    if listed.Err? {
      return Err(NotFound);
    }
    var subs := listed.value;
    var result: map<string, seq<StudentId>> := map[];
    var i := 0;
    while i < |subs|
      invariant 0 <= i <= |subs|
      invariant result == RosterByName(st.subjects, st.enrollments, subs[..i])
    {
      assert subs[..i + 1][..i] == subs[..i];
      var sub := subs[i];
      result := result[st.subjects[sub].name := StudentsOf(st.enrollments, sub)];
      i := i + 1;
    }
    assert subs[..|subs|] == subs;
    r := Ok(result);
  }

  /** `student_grades`: for a known professor, the student and grade of every
      enrollment in each of their subjects, keyed by subject name; the store is
      only read. */
  method StudentGrades(st: Store, p: int) returns (r: Result<map<string, seq<GradeRow>>, Error>)
    requires st.Valid()
    ensures p < 0 || p as nat !in st.professors ==> r == Err(NotFound)
    ensures p >= 0 && p as nat in st.professors ==>
              var subs := st.professors[p as nat].subjects;
              && (forall k :: 0 <= k < |subs| ==> subs[k] in st.subjects)
              && r == Ok(GradebookByName(st.subjects, st.enrollments, subs))
  {
    var listed := AssignedSubjects(st.professors, p);
    if listed.Err? {
      return Err(NotFound);
    }
    var subs := listed.value;
    var result: map<string, seq<GradeRow>> := map[];
    var i := 0;
    while i < |subs|
      invariant 0 <= i <= |subs|
      invariant result == GradebookByName(st.subjects, st.enrollments, subs[..i])
    {
      assert subs[..i + 1][..i] == subs[..i];
      var sub := subs[i];
      result := result[st.subjects[sub].name := GradebookOf(st.enrollments, sub)];
      i := i + 1;
    }
    assert subs[..|subs|] == subs;
    r := Ok(result);
  }

  /** Each listing has one line per enrollment in the subject: a student
      enrolled twice appears twice, and a student appears exactly when they
      have an enrollment in it. */
  lemma ListingsFollowEnrollments(es: seq<Enrollment>, sub: SubjectId, s: StudentId, g: Option<real>)
    ensures |StudentsOf(es, sub)| == |GradebookOf(es, sub)| == |EnrollmentsIn(es, sub)|
    ensures s in StudentsOf(es, sub) <==> EnrolledIn(es, s, sub)
    ensures GradeRow(s, g) in GradebookOf(es, sub) <==>
              exists i :: 0 <= i < |es| && es[i].student == s && es[i].subject == sub && es[i].grade == g
  {
    var p := (e: Enrollment) => e.subject == sub;
    var ins := EnrollmentsIn(es, sub);
    if s in StudentsOf(es, sub) {
      var i :| 0 <= i < |ins| && ins[i].student == s;
      WhereContains(es, p, ins[i]);
      var j :| 0 <= j < |es| && es[j] == ins[i];
    }
    if EnrolledIn(es, s, sub) {
      var j :| 0 <= j < |es| && es[j].student == s && es[j].subject == sub;
      WhereContains(es, p, es[j]);
      var i :| 0 <= i < |ins| && ins[i] == es[j];
      assert StudentsOf(es, sub)[i] == s;
    }
    GradebookLines(es, sub, s, g);
  }

  lemma GradebookLines(es: seq<Enrollment>, sub: SubjectId, s: StudentId, g: Option<real>)
    ensures GradeRow(s, g) in GradebookOf(es, sub) <==>
              exists i :: 0 <= i < |es| && es[i].student == s && es[i].subject == sub && es[i].grade == g
  {
    var p := (e: Enrollment) => e.subject == sub;
    var ins := EnrollmentsIn(es, sub);
    if GradeRow(s, g) in GradebookOf(es, sub) {
      var i :| 0 <= i < |ins| && GradebookOf(es, sub)[i] == GradeRow(s, g);
      WhereContains(es, p, ins[i]);
      var j :| 0 <= j < |es| && es[j] == ins[i];
    }
    if exists i :: 0 <= i < |es| && es[i].student == s && es[i].subject == sub && es[i].grade == g {
      var j :| 0 <= j < |es| && es[j].student == s && es[j].subject == sub && es[j].grade == g;
      WhereContains(es, p, es[j]);
      var i :| 0 <= i < |ins| && ins[i] == es[j];
      assert GradebookOf(es, sub)[i] == GradeRow(s, g);
    }
  }

  /** The listings of concatenated enrollment tables are the concatenated
      listings: each enrollment contributes its lines in table order. */
  lemma ListingsAppend(a: seq<Enrollment>, b: seq<Enrollment>, sub: SubjectId)
    ensures StudentsOf(a + b, sub) == StudentsOf(a, sub) + StudentsOf(b, sub)
    ensures GradebookOf(a + b, sub) == GradebookOf(a, sub) + GradebookOf(b, sub)
  {
    WhereAppend(a, b, (e: Enrollment) => e.subject == sub);
  }

  /** One enrollment gives one line in its own subject's listings and none in
      any other subject's: with `ListingsAppend`, every enrollment gives
      exactly one line, so duplicates are never removed. */
  lemma ListingsOfOne(e: Enrollment, sub: SubjectId)
    ensures StudentsOf([e], sub) == if e.subject == sub then [e.student] else []
    ensures GradebookOf([e], sub) == if e.subject == sub then [GradeRow(e.student, e.grade)] else []
  {
    assert [e][..0] == [];
  }

  /** Duplicates are kept: two enrollments of one student in a subject give
      two lines. */
  lemma ListingsKeepDuplicates(s: StudentId, sub: SubjectId)
    ensures StudentsOf([Enrollment(1, s, sub, Some(2.0)), Enrollment(2, s, sub, None)], sub) == [s, s]
  {
    var es := [Enrollment(1, s, sub, Some(2.0)), Enrollment(2, s, sub, None)];
    var p := (e: Enrollment) => e.subject == sub;
    assert es[..1] == [es[0]] && es[..1][..0] == [];
    assert Where(es[..1], p) == [es[0]];
    assert EnrollmentsIn(es, sub) == es;
  }
}
