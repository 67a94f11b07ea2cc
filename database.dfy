/** The in-memory store that stands in for the database behind api/models.py:
    the subject, student, professor and enrollment tables, their auto-increment
    keys, the foreign keys of `Enrollment` and what deleting a row cascades to. */
module Database {
  import opened Wrappers
  import opened Models

  /** Strictly increasing ids: the order in which an auto-increment key hands them out. */
  predicate IdsIncreasing(es: seq<Enrollment>) {
    forall i, j :: 0 <= i < j < |es| ==> es[i].id < es[j].id
  }

  /** Subject and professor keys start at 1, and every prerequisite and every
      assigned subject is a subject of the catalog. */
  predicate ClosedCatalog(subjects: map<SubjectId, Subject>, professors: map<ProfessorId, Professor>) {
    && 0 !in subjects && 0 !in professors
    && (forall k | k in subjects :: subjects[k].prerequisites <= subjects.Keys)
    && (forall p | p in professors :: forall j | 0 <= j < |professors[p].subjects| ::
          professors[p].subjects[j] in subjects)
  }

  /** Every enrollment references an existing student and subject, and its id
      was handed out before `nextId`. */
  predicate EnrollmentsReferToExisting(es: seq<Enrollment>, students: map<StudentId, Student>,
                                       subjects: map<SubjectId, Subject>, nextId: nat) {
    forall i | 0 <= i < |es| ::
      es[i].student in students && es[i].subject in subjects && 0 < es[i].id < nextId
  }

  /** `Subject.objects.filter(pk__in=ids)`: the existing subjects among the
      requested ids, each once, unknown ids dropped. */
  function SelectSubjects(subjects: map<SubjectId, Subject>, ids: seq<int>): (r: seq<SubjectId>)
    ensures forall k :: 0 <= k < |r| ==> r[k] in subjects && r[k] in ids
    ensures forall i :: 0 <= i < |ids| && ids[i] >= 0 && ids[i] as nat in subjects ==> ids[i] in r
    ensures forall j, k :: 0 <= j < k < |r| ==> r[j] != r[k]
    decreases |ids|
  {
    if ids == [] then []
    else
      var prev, x := SelectSubjects(subjects, ids[..|ids| - 1]), ids[|ids| - 1];
      assert forall k :: 0 <= k < |prev| ==> prev[k] in ids;
      if x >= 0 && x as nat in subjects && x !in prev then prev + [x as nat] else prev
  }

  /** The enrollments that survive deleting student `s`. */
  function WithoutStudent(es: seq<Enrollment>, s: StudentId): (r: seq<Enrollment>)
    ensures |r| <= |es| && forall i :: 0 <= i < |r| ==> r[i].student != s
  {
    Where(es, (e: Enrollment) => e.student != s)
  }

  /** The enrollments that survive deleting subject `sub`. */
  function WithoutSubject(es: seq<Enrollment>, sub: SubjectId): (r: seq<Enrollment>)
    ensures |r| <= |es| && forall i :: 0 <= i < |r| ==> r[i].subject != sub
  {
    Where(es, (e: Enrollment) => e.subject != sub)
  }

  /** A subject list with `sub` taken out (a many-to-many relation losing a row). */
  function WithoutId(ids: seq<SubjectId>, sub: SubjectId): seq<SubjectId> {
    Where(ids, (k: SubjectId) => k != sub)
  }

  /** Taking `sub` out of every assignment list keeps exactly the other subjects. */
  lemma AssignmentsWithout(professors: map<ProfessorId, Professor>, sub: SubjectId)
    ensures forall p, x | p in professors ::
              x in WithoutId(professors[p].subjects, sub) <==> x in professors[p].subjects && x != sub
  {
    forall p, x | p in professors
      ensures x in WithoutId(professors[p].subjects, sub) <==> x in professors[p].subjects && x != sub
    {
      WhereContains(professors[p].subjects, (k: SubjectId) => k != sub, x);
    }
  }

  class Store {
    var subjects: map<SubjectId, Subject>
    var students: map<StudentId, Student>
    var professors: map<ProfessorId, Professor>
    var enrollments: seq<Enrollment>
    var nextStudentId: nat
    var nextEnrollmentId: nat

    /** Foreign keys point at existing rows, deleted rows took their dependants
        with them, and keys start at 1 and are never reused. */
    ghost predicate Valid()
      reads this
    {
      && ClosedCatalog(subjects, professors)
      && 0 < nextStudentId && 0 < nextEnrollmentId
      && 0 !in students
      && (forall s | s in students :: s < nextStudentId)
      && EnrollmentsReferToExisting(enrollments, students, subjects, nextEnrollmentId)
      && IdsIncreasing(enrollments)
    }

    /** A store over a catalog of subjects and professors, with no students yet. */
    constructor (subjects: map<SubjectId, Subject>, professors: map<ProfessorId, Professor>)
      requires ClosedCatalog(subjects, professors)
      ensures Valid()
      ensures this.subjects == subjects && this.professors == professors
      ensures students == map[] && enrollments == []
    {
      this.subjects := subjects;
      this.professors := professors;
      students := map[];
      enrollments := [];
      nextStudentId := 1;
      nextEnrollmentId := 1;
    }

    /** `Student.objects.create`: a new row under the next key. */
    method CreateStudent(info: Student) returns (id: StudentId)
      requires Valid()
      modifies this
      ensures Valid()
      ensures id == old(nextStudentId) && id !in old(students) && id != 0
      ensures students == old(students)[id := info] && nextStudentId == id + 1
      ensures subjects == old(subjects) && professors == old(professors)
      ensures enrollments == old(enrollments) && nextEnrollmentId == old(nextEnrollmentId)
    {
      id := nextStudentId;
      students := students[id := info];
      nextStudentId := nextStudentId + 1;
    }

    /** `Enrollment.objects.create(student=s, subject=sub)`: ungraded, under the next key. */
    method CreateEnrollment(s: StudentId, sub: SubjectId) returns (e: Enrollment)
      requires Valid() && s in students && sub in subjects
      modifies this
      ensures Valid()
      ensures e == Enrollment(old(nextEnrollmentId), s, sub, None)
      ensures enrollments == old(enrollments) + [e] && nextEnrollmentId == old(nextEnrollmentId) + 1
      ensures subjects == old(subjects) && students == old(students) && professors == old(professors)
      ensures nextStudentId == old(nextStudentId)
    {
      e := Enrollment(nextEnrollmentId, s, sub, None);
      enrollments := enrollments + [e];
      nextEnrollmentId := nextEnrollmentId + 1;
    }

    /** `enrollment.grade = g; enrollment.save()` on the enrollment at position `k`. */
    method SetGrade(k: nat, g: real)
      requires Valid() && k < |enrollments|
      modifies this
      ensures Valid()
      ensures enrollments == old(enrollments)[k := old(enrollments)[k].(grade := Some(g))]
      ensures subjects == old(subjects) && students == old(students) && professors == old(professors)
      ensures nextStudentId == old(nextStudentId) && nextEnrollmentId == old(nextEnrollmentId)
    {
      enrollments := enrollments[k := enrollments[k].(grade := Some(g))];
    }

    /** Deleting a student: `on_delete=CASCADE` on `Enrollment.student` removes
        exactly the enrollments that reference it. */
    method DeleteStudent(s: StudentId) returns (found: bool)
      requires Valid()
      modifies this
      ensures Valid()
      ensures found == (s in old(students))
      ensures found ==> students == old(students) - {s} && enrollments == WithoutStudent(old(enrollments), s)
      ensures !found ==> students == old(students) && enrollments == old(enrollments)
      ensures subjects == old(subjects) && professors == old(professors)
      ensures nextStudentId == old(nextStudentId) && nextEnrollmentId == old(nextEnrollmentId)
    {
      found := s in students;
      if found {
        var es := WithoutStudent(enrollments, s);
        forall i | 0 <= i < |es|
          ensures es[i].student in students - {s} && es[i].subject in subjects && 0 < es[i].id < nextEnrollmentId
        {
          WhereContains(enrollments, (e: Enrollment) => e.student != s, es[i]);
        }
        WhereKeepsIdsIncreasing(enrollments, (e: Enrollment) => e.student != s);
        students := students - {s};
        enrollments := es;
      }
    }

    /** Deleting a subject: `on_delete=CASCADE` on `Enrollment.subject` removes
        exactly the enrollments that reference it; the rows of the prerequisite
        and professor relations that name it go too. */
    method DeleteSubject(sub: SubjectId) returns (found: bool)
      requires Valid()
      modifies this
      ensures Valid()
      ensures found == (sub in old(subjects))
      ensures found ==> && subjects == CatalogWithout(old(subjects), sub)
                        && professors == ProfessorsWithout(old(professors), sub)
                        && enrollments == WithoutSubject(old(enrollments), sub)
      ensures !found ==> subjects == old(subjects) && professors == old(professors) && enrollments == old(enrollments)
      ensures students == old(students)
      ensures nextStudentId == old(nextStudentId) && nextEnrollmentId == old(nextEnrollmentId)
    {
      found := sub in subjects;
      if found {
        DeleteSubjectKeepsIntegrity(subjects, professors, students, enrollments, nextEnrollmentId, sub);
        subjects, professors, enrollments :=
          CatalogWithout(subjects, sub), ProfessorsWithout(professors, sub), WithoutSubject(enrollments, sub);
      }
    }

    /** Deleting a professor takes no subject, student or enrollment with it. */
    method DeleteProfessor(p: ProfessorId) returns (found: bool)
      requires Valid()
      modifies this
      ensures Valid()
      ensures found == (p in old(professors))
      ensures professors == old(professors) - {p}
      ensures subjects == old(subjects) && students == old(students) && enrollments == old(enrollments)
      ensures nextStudentId == old(nextStudentId) && nextEnrollmentId == old(nextEnrollmentId)
    {
      found := p in professors;
      professors := professors - {p};
    }
  }

  /** The subject table after deleting `sub`: the row is gone, and so are the
      rows of the prerequisite relation that name it. */
  function CatalogWithout(subjects: map<SubjectId, Subject>, sub: SubjectId): (r: map<SubjectId, Subject>)
    ensures r.Keys == subjects.Keys - {sub}
    ensures forall k | k in r :: r[k].name == subjects[k].name && r[k].prerequisites == subjects[k].prerequisites - {sub}
    ensures forall k | k in r :: r[k] == subjects[k].(prerequisites := r[k].prerequisites)
  {
    map k | k in subjects && k != sub :: subjects[k].(prerequisites := subjects[k].prerequisites - {sub})
  }

  /** The professors after deleting subject `sub` from every assignment list. */
  function ProfessorsWithout(professors: map<ProfessorId, Professor>, sub: SubjectId): (r: map<ProfessorId, Professor>)
    ensures r.Keys == professors.Keys
    ensures forall p, j | p in r && 0 <= j < |r[p].subjects| :: r[p].subjects[j] != sub
    ensures forall p | p in r :: && r[p] == professors[p].(subjects := r[p].subjects)
                                 && forall x :: x in r[p].subjects <==> x in professors[p].subjects && x != sub
  {
    AssignmentsWithout(professors, sub);
    map p | p in professors :: professors[p].(subjects := WithoutId(professors[p].subjects, sub))
  }

  // ---------------------------------------------------------------------------
  // Properties of the cascades

  lemma DeleteSubjectKeepsIntegrity(subjects: map<SubjectId, Subject>, professors: map<ProfessorId, Professor>,
                                    students: map<StudentId, Student>, es: seq<Enrollment>, nextId: nat,
                                    sub: SubjectId)
    requires ClosedCatalog(subjects, professors)
    requires EnrollmentsReferToExisting(es, students, subjects, nextId) && IdsIncreasing(es)
    ensures ClosedCatalog(CatalogWithout(subjects, sub), ProfessorsWithout(professors, sub))
    ensures EnrollmentsReferToExisting(WithoutSubject(es, sub), students, CatalogWithout(subjects, sub), nextId)
    ensures IdsIncreasing(WithoutSubject(es, sub))
  {
    var subjects', professors' := CatalogWithout(subjects, sub), ProfessorsWithout(professors, sub);
    forall p, j | p in professors' && 0 <= j < |professors'[p].subjects|
      ensures professors'[p].subjects[j] in subjects'
    {
      var ids := professors[p].subjects;
      WhereContains(ids, (k: SubjectId) => k != sub, professors'[p].subjects[j]);
    }
    var es' := WithoutSubject(es, sub);
    forall i | 0 <= i < |es'|
      ensures es'[i].student in students && es'[i].subject in subjects' && 0 < es'[i].id < nextId
    {
      WhereContains(es, (e: Enrollment) => e.subject != sub, es'[i]);
    }
    WhereKeepsIdsIncreasing(es, (e: Enrollment) => e.subject != sub);
  }

  lemma {:induction false} WhereKeepsIdsIncreasing(es: seq<Enrollment>, p: Enrollment -> bool)
    requires IdsIncreasing(es)
    ensures IdsIncreasing(Where(es, p))
    decreases |es|
  {
    if es != [] {
      var init, e := es[..|es| - 1], es[|es| - 1];
      WhereKeepsIdsIncreasing(init, p);
      forall x | x in Where(init, p) ensures x.id < e.id {
        WhereContains(init, p, x);
      }
    }
  }

  /** Deleting a student removes exactly the enrollments that reference it. */
  lemma DeleteStudentRemovesExactly(es: seq<Enrollment>, s: StudentId, e: Enrollment)
    ensures e in WithoutStudent(es, s) <==> e in es && e.student != s
  {
    WhereContains(es, (e: Enrollment) => e.student != s, e);
  }

  /** Deleting a subject removes exactly the enrollments that reference it. */
  lemma DeleteSubjectRemovesExactly(es: seq<Enrollment>, sub: SubjectId, e: Enrollment)
    ensures e in WithoutSubject(es, sub) <==> e in es && e.subject != sub
  {
    WhereContains(es, (e: Enrollment) => e.subject != sub, e);
  }

  /** Deleting one student leaves every other student's enrollments, and so
      their approved and failed subjects and average, as they were. */
  lemma {:induction false} DeleteStudentKeepsOthers(es: seq<Enrollment>, s: StudentId, t: StudentId)
    requires s != t
    ensures OwnEnrollments(WithoutStudent(es, s), t) == OwnEnrollments(es, t)
    ensures ApprovedSubjects(WithoutStudent(es, s), t) == ApprovedSubjects(es, t)
    ensures FailedSubjects(WithoutStudent(es, s), t) == FailedSubjects(es, t)
    ensures AverageGrade(WithoutStudent(es, s), t) == AverageGrade(es, t)
    decreases |es|
  {
    if es != [] {
      var init, e := es[..|es| - 1], es[|es| - 1];
      DeleteStudentKeepsOthers(init, s, t);
      assert es == init + [e];
      var keep := (e: Enrollment) => e.student != s;
      WhereAppend(init, [e], keep);
      StatisticsAppend(init, [e], t);
      StatisticsAppend(Where(init, keep), Where([e], keep), t);
      assert [e][..0] == [];
      if e.student == s {
        assert Where([e], keep) == [];
        StatisticsOfOther(e, t);
      }
    }
    StatisticsDependOnlyOnOwnEnrollments(WithoutStudent(es, s), es, t);
  }

  /** Deleting a subject takes exactly that subject out of every student's
      enrolled, approved and failed lists, and nothing else. */
  lemma {:induction false} DeleteSubjectFromStatistics(es: seq<Enrollment>, sub: SubjectId, t: StudentId)
    ensures EnrolledSubjects(WithoutSubject(es, sub), t) == WithoutId(EnrolledSubjects(es, t), sub)
    ensures ApprovedSubjects(WithoutSubject(es, sub), t) == WithoutId(ApprovedSubjects(es, t), sub)
    ensures FailedSubjects(WithoutSubject(es, sub), t) == WithoutId(FailedSubjects(es, t), sub)
    decreases |es|
  {
    if es != [] {
      var init, e := es[..|es| - 1], es[|es| - 1];
      DeleteSubjectFromStatistics(init, sub, t);
      assert es == init + [e];
      var keep := (e: Enrollment) => e.subject != sub;
      var drop := (k: SubjectId) => k != sub;
      WhereAppend(init, [e], keep);
      StatisticsAppend(init, [e], t);
      StatisticsAppend(Where(init, keep), Where([e], keep), t);
      WhereAppend(EnrolledSubjects(init, t), EnrolledSubjects([e], t), drop);
      WhereAppend(ApprovedSubjects(init, t), ApprovedSubjects([e], t), drop);
      WhereAppend(FailedSubjects(init, t), FailedSubjects([e], t), drop);
      DeleteSubjectFromOne(e, sub, t);
    }
  }

  lemma DeleteSubjectFromOne(e: Enrollment, sub: SubjectId, t: StudentId)
    ensures EnrolledSubjects(WithoutSubject([e], sub), t) == WithoutId(EnrolledSubjects([e], t), sub)
    ensures ApprovedSubjects(WithoutSubject([e], sub), t) == WithoutId(ApprovedSubjects([e], t), sub)
    ensures FailedSubjects(WithoutSubject([e], sub), t) == WithoutId(FailedSubjects([e], t), sub)
  {
    assert [e][..0] == [] && [e.subject][..0] == [];
    if e.student == t { StatisticsOfOne(e); } else { StatisticsOfOther(e, t); }
  }
}
