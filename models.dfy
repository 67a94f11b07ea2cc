/** The entities of the academic-records API and the statistics derived from a
    student's enrollments (api/models.py). Everything here is a pure function of
    the enrollment records; the store that holds them is the Database module. */
module Models {
  import opened Wrappers

  type SubjectId = nat
  type StudentId = nat
  type ProfessorId = nat
  type EnrollmentId = nat

  /** A subject and its direct prerequisites. The prerequisite relation is
      directed and may contain cycles. */
  datatype Subject = Subject(name: string, description: string, prerequisites: set<SubjectId>)

  datatype Student = Student(firstName: string, lastName: string, email: string)

  /** A professor and the subjects assigned to them, in the order the
      many-to-many relation lists them. */
  datatype Professor = Professor(firstName: string, lastName: string, email: string,
                                 department: string, subjects: seq<SubjectId>)

  /** One attempt of one student at one subject; the grade is absent until assigned. */
  datatype Enrollment = Enrollment(id: EnrollmentId, student: StudentId, subject: SubjectId,
                                   grade: Option<real>)

  /** The lowest passing grade on the 0.0 to 5.0 scale. */
  const PASS_MARK: real := 3.0

  /** `Enrollment.is_passed`: graded, and at least the pass mark. */
  predicate IsPassed(e: Enrollment)
    ensures IsPassed(e) <==> GradeAtLeast(e.grade, PASS_MARK)
    ensures IsPassed(e) ==> !GradeBelow(e.grade, PASS_MARK)
  {
    e.grade.Some? && e.grade.value >= PASS_MARK
  }

  /** The ORM lookup `grade__gte=t`: an SQL comparison with NULL is never true. */
  predicate GradeAtLeast(g: Option<real>, t: real) {
    match g
    case None => false
    case Some(v) => v >= t
  }

  /** The ORM lookup `grade__lt=t`. */
  predicate GradeBelow(g: Option<real>, t: real) {
    match g
    case None => false
    case Some(v) => v < t
  }

  /** The elements of `xs` that satisfy `p`, in order: a queryset `filter`. */
  function Where<T>(xs: seq<T>, p: T -> bool): (r: seq<T>)
    ensures |r| <= |xs|
    ensures forall i :: 0 <= i < |r| ==> p(r[i])
    decreases |xs|
  {
    if xs == [] then []
    else Where(xs[..|xs| - 1], p) + (if p(xs[|xs| - 1]) then [xs[|xs| - 1]] else [])
  }

  /** `[enrollment.subject for enrollment in es]` */
  function SubjectsOf(es: seq<Enrollment>): (r: seq<SubjectId>)
    ensures |r| == |es|
  {
    seq(|es|, i requires 0 <= i < |es| => es[i].subject)
  }

  /** `Enrollment.objects.filter(student=s)` */
  function OwnEnrollments(es: seq<Enrollment>, s: StudentId): seq<Enrollment> {
    Where(es, (e: Enrollment) => e.student == s)
  }

  /** The subjects of all of a student's enrollments (the `enrolled_subjects` action). */
  function EnrolledSubjects(es: seq<Enrollment>, s: StudentId): (r: seq<SubjectId>)
    ensures |r| <= |es|
  {
    SubjectsOf(OwnEnrollments(es, s))
  }

  /** `Student.approved_subjects`: the subject of every enrollment of `s` whose
      grade satisfies `grade__gte=3.0`, one entry per enrollment. */
  function ApprovedSubjects(es: seq<Enrollment>, s: StudentId): (r: seq<SubjectId>)
    ensures |r| <= |es|
  {
    SubjectsOf(Where(es, (e: Enrollment) => e.student == s && GradeAtLeast(e.grade, PASS_MARK)))
  }

  /** `Student.failed_subjects`: the subject of every enrollment of `s` whose
      grade satisfies `grade__lt=3.0`, one entry per enrollment. */
  function FailedSubjects(es: seq<Enrollment>, s: StudentId): (r: seq<SubjectId>)
    ensures |r| <= |es|
  {
    SubjectsOf(Where(es, (e: Enrollment) => e.student == s && GradeBelow(e.grade, PASS_MARK)))
  }

  /** The subjects of a student's ungraded enrollments: the state that neither
      list above reports. */
  function PendingSubjects(es: seq<Enrollment>, s: StudentId): seq<SubjectId> {
    SubjectsOf(Where(es, (e: Enrollment) => e.student == s && e.grade.None?))
  }

  /** `[e.grade for e in enrollments if e.grade is not None]` over the
      enrollments of `s`, in order. */
  function Grades(es: seq<Enrollment>, s: StudentId): (r: seq<real>)
    ensures |r| <= |es|
    decreases |es|
  {
    if es == [] then []
    else
      var e := es[|es| - 1];
      Grades(es[..|es| - 1], s) + (if e.student == s && e.grade.Some? then [e.grade.value] else [])
  }

  function Sum(xs: seq<real>): real
    decreases |xs|
  {
    if xs == [] then 0.0 else Sum(xs[..|xs| - 1]) + xs[|xs| - 1]
  }

  /** `sum(grades) / len(grades)` for a non-empty list. */
  function Mean(xs: seq<real>): (m: real)
    requires xs != []
    ensures m * (|xs| as real) == Sum(xs)
  {
    var n := |xs| as real;
    assert n != 0.0;
    Sum(xs) / n
  }

  /** `Student.average_grade`: None when the student has no enrollments or none
      of them is graded; otherwise the mean of the non-null grades. */
  function AverageGrade(es: seq<Enrollment>, s: StudentId): (r: Option<real>)
    ensures r.None? <==> forall i :: 0 <= i < |es| && es[i].student == s ==> es[i].grade.None?
    ensures r.Some? ==> Grades(es, s) != [] && r.value == Mean(Grades(es, s))
  {
    GradesEmpty(es, s);
    if OwnEnrollments(es, s) == [] then None
    else
      var gs := Grades(es, s);
      if gs == [] then None else Some(Mean(gs))
  }

  // ---------------------------------------------------------------------------
  // Properties of the statistics

  lemma {:induction false} WhereAppend<T>(xs: seq<T>, ys: seq<T>, p: T -> bool)
    ensures Where(xs + ys, p) == Where(xs, p) + Where(ys, p)
    decreases |ys|
  {
    if ys == [] {
      assert xs + ys == xs;
    } else {
      var init := ys[..|ys| - 1];
      WhereAppend(xs, init, p);
      assert (xs + ys)[..|xs + ys| - 1] == xs + init;
      assert (xs + ys)[|xs + ys| - 1] == ys[|ys| - 1];
    }
  }

  /** A filter keeps exactly the elements that satisfy its condition. */
  lemma {:induction false} WhereContains<T>(xs: seq<T>, p: T -> bool, x: T)
    ensures x in Where(xs, p) <==> x in xs && p(x)
    decreases |xs|
  {
    if xs != [] {
      WhereContains(xs[..|xs| - 1], p, x);
      assert xs == xs[..|xs| - 1] + [xs[|xs| - 1]];
    }
  }

  lemma SubjectsOfAppend(a: seq<Enrollment>, b: seq<Enrollment>)
    ensures SubjectsOf(a + b) == SubjectsOf(a) + SubjectsOf(b)
  {
  }

  /** Every statistic distributes over the concatenation of two enrollment lists. */
  lemma StatisticsAppend(a: seq<Enrollment>, b: seq<Enrollment>, s: StudentId)
    ensures ApprovedSubjects(a + b, s) == ApprovedSubjects(a, s) + ApprovedSubjects(b, s)
    ensures FailedSubjects(a + b, s) == FailedSubjects(a, s) + FailedSubjects(b, s)
    ensures PendingSubjects(a + b, s) == PendingSubjects(a, s) + PendingSubjects(b, s)
    ensures EnrolledSubjects(a + b, s) == EnrolledSubjects(a, s) + EnrolledSubjects(b, s)
    ensures OwnEnrollments(a + b, s) == OwnEnrollments(a, s) + OwnEnrollments(b, s)
    ensures Grades(a + b, s) == Grades(a, s) + Grades(b, s)
  {
    var approved := (e: Enrollment) => e.student == s && GradeAtLeast(e.grade, PASS_MARK);
    var failed := (e: Enrollment) => e.student == s && GradeBelow(e.grade, PASS_MARK);
    var pending := (e: Enrollment) => e.student == s && e.grade.None?;
    var own := (e: Enrollment) => e.student == s;
    WhereAppend(a, b, approved);
    SubjectsOfAppend(Where(a, approved), Where(b, approved));
    WhereAppend(a, b, failed);
    SubjectsOfAppend(Where(a, failed), Where(b, failed));
    WhereAppend(a, b, pending);
    SubjectsOfAppend(Where(a, pending), Where(b, pending));
    WhereAppend(a, b, own);
    SubjectsOfAppend(Where(a, own), Where(b, own));
    GradesAppend(a, b, s);
  }

  lemma {:induction false} GradesAppend(a: seq<Enrollment>, b: seq<Enrollment>, s: StudentId)
    ensures Grades(a + b, s) == Grades(a, s) + Grades(b, s)
    decreases |b|
  {
    if b == [] {
      assert a + b == a;
    } else {
      var init, e := b[..|b| - 1], b[|b| - 1];
      GradesAppend(a, init, s);
      assert (a + b)[..|a + b| - 1] == a + init;
      assert (a + b)[|a + b| - 1] == e;
    }
  }

  /** What a single enrollment contributes to each statistic of its own student. */
  lemma StatisticsOfOne(e: Enrollment)
    ensures ApprovedSubjects([e], e.student) == if IsPassed(e) then [e.subject] else []
    ensures FailedSubjects([e], e.student) == if e.grade.Some? && !IsPassed(e) then [e.subject] else []
    ensures PendingSubjects([e], e.student) == if e.grade.None? then [e.subject] else []
    ensures EnrolledSubjects([e], e.student) == [e.subject]
  {
    assert [e][..0] == [];
  }

  /** The statistics of `s` do not see an enrollment of another student. */
  lemma StatisticsOfOther(e: Enrollment, s: StudentId)
    requires e.student != s
    ensures ApprovedSubjects([e], s) == FailedSubjects([e], s) == PendingSubjects([e], s) == []
    ensures OwnEnrollments([e], s) == [] && Grades([e], s) == []
  {
    assert [e][..0] == [];
  }

  /** The ORM filter `grade__gte=3.0` agrees with `is_passed`: a subject is
      approved exactly when some enrollment of the student in it is passed. */
  lemma {:induction false} ApprovedMeansPassed(es: seq<Enrollment>, s: StudentId, x: SubjectId)
    ensures x in ApprovedSubjects(es, s) <==>
            exists i :: 0 <= i < |es| && es[i].student == s && es[i].subject == x && IsPassed(es[i])
    decreases |es|
  {
    if es != [] {
      var init, e := es[..|es| - 1], es[|es| - 1];
      ApprovedMeansPassed(init, s, x);
      assert ApprovedSubjects(es, s) == ApprovedSubjects(init, s) + ApprovedSubjects([e], s) by {
        assert es == init + [e];
        StatisticsAppend(init, [e], s);
      }
      assert ApprovedSubjects([e], s) == if e.student == s && IsPassed(e) then [e.subject] else [] by {
        if e.student == s { StatisticsOfOne(e); } else { StatisticsOfOther(e, s); }
      }
      if exists i :: 0 <= i < |es| && es[i].student == s && es[i].subject == x && IsPassed(es[i]) {
        var i :| 0 <= i < |es| && es[i].student == s && es[i].subject == x && IsPassed(es[i]);
        if i < |init| { assert init[i] == es[i]; }
      }
    }
  }

  /** A subject is failed exactly when some enrollment of the student in it is
      graded and not passed. */
  lemma {:induction false} FailedMeansGradedNotPassed(es: seq<Enrollment>, s: StudentId, x: SubjectId)
    ensures x in FailedSubjects(es, s) <==>
            exists i :: 0 <= i < |es| && es[i].student == s && es[i].subject == x
                        && es[i].grade.Some? && !IsPassed(es[i])
    decreases |es|
  {
    if es != [] {
      var init, e := es[..|es| - 1], es[|es| - 1];
      FailedMeansGradedNotPassed(init, s, x);
      assert FailedSubjects(es, s) == FailedSubjects(init, s) + FailedSubjects([e], s) by {
        assert es == init + [e];
        StatisticsAppend(init, [e], s);
      }
      assert FailedSubjects([e], s) == if e.student == s && e.grade.Some? && !IsPassed(e) then [e.subject] else [] by {
        if e.student == s { StatisticsOfOne(e); } else { StatisticsOfOther(e, s); }
      }
      if exists i :: 0 <= i < |es| && es[i].student == s && es[i].subject == x
                     && es[i].grade.Some? && !IsPassed(es[i]) {
        var i :| 0 <= i < |es| && es[i].student == s && es[i].subject == x
                 && es[i].grade.Some? && !IsPassed(es[i]);
        if i < |init| { assert init[i] == es[i]; }
      }
    }
  }

  /** Each of a student's enrollments contributes exactly one entry to exactly
      one of approved, failed and pending: approved and failed never share an
      enrollment, and ungraded enrollments are in neither. */
  lemma {:induction false} StatusPartition(es: seq<Enrollment>, s: StudentId)
    ensures multiset(ApprovedSubjects(es, s)) + multiset(FailedSubjects(es, s))
            + multiset(PendingSubjects(es, s)) == multiset(EnrolledSubjects(es, s))
    decreases |es|
  {
    if es != [] {
      var init, e := es[..|es| - 1], es[|es| - 1];
      StatusPartition(init, s);
      assert es == init + [e];
      StatisticsAppend(init, [e], s);
      StatusOfOne(e, s);
    }
  }

  lemma StatusOfOne(e: Enrollment, s: StudentId)
    ensures multiset(ApprovedSubjects([e], s)) + multiset(FailedSubjects([e], s))
            + multiset(PendingSubjects([e], s)) == multiset(EnrolledSubjects([e], s))
  {
    if e.student == s { StatisticsOfOne(e); } else { StatisticsOfOther(e, s); }
  }

  /** A grade of exactly 3.0 approves the subject and does not fail it. */
  lemma ThresholdIsInclusive(es: seq<Enrollment>, e: Enrollment)
    requires e.grade == Some(3.0)
    ensures ApprovedSubjects(es + [e], e.student) == ApprovedSubjects(es, e.student) + [e.subject]
    ensures FailedSubjects(es + [e], e.student) == FailedSubjects(es, e.student)
  {
    StatisticsAppend(es, [e], e.student);
    StatisticsOfOne(e);
  }

  /** The statistics of `s` are those of the enrollments of `s` alone. */
  lemma {:induction false} StatisticsOfOwnEnrollments(es: seq<Enrollment>, s: StudentId)
    ensures ApprovedSubjects(OwnEnrollments(es, s), s) == ApprovedSubjects(es, s)
    ensures FailedSubjects(OwnEnrollments(es, s), s) == FailedSubjects(es, s)
    ensures Grades(OwnEnrollments(es, s), s) == Grades(es, s)
    ensures OwnEnrollments(OwnEnrollments(es, s), s) == OwnEnrollments(es, s)
    decreases |es|
  {
    if es != [] {
      var init, e := es[..|es| - 1], es[|es| - 1];
      StatisticsOfOwnEnrollments(init, s);
      assert es == init + [e];
      StatisticsAppend(init, [e], s);
      StatisticsAppend(OwnEnrollments(init, s), OwnEnrollments([e], s), s);
      if e.student == s {
        assert [e][..0] == [];
        assert OwnEnrollments([e], s) == [e];
      } else {
        StatisticsOfOther(e, s);
      }
    }
  }

  /** Two stores that agree on the enrollments of `s` give `s` the same statistics. */
  lemma StatisticsDependOnlyOnOwnEnrollments(es: seq<Enrollment>, es': seq<Enrollment>, s: StudentId)
    requires OwnEnrollments(es, s) == OwnEnrollments(es', s)
    ensures ApprovedSubjects(es, s) == ApprovedSubjects(es', s)
    ensures FailedSubjects(es, s) == FailedSubjects(es', s)
    ensures AverageGrade(es, s) == AverageGrade(es', s)
  {
    StatisticsOfOwnEnrollments(es, s);
    StatisticsOfOwnEnrollments(es', s);
    GradesEmpty(es, s);
    GradesEmpty(es', s);
  }

  lemma {:induction false} GradesEmpty(es: seq<Enrollment>, s: StudentId)
    ensures Grades(es, s) == [] <==> forall i :: 0 <= i < |es| && es[i].student == s ==> es[i].grade.None?
    ensures OwnEnrollments(es, s) == [] <==> forall i :: 0 <= i < |es| ==> es[i].student != s
    decreases |es|
  {
    if es != [] {
      var init, e := es[..|es| - 1], es[|es| - 1];
      GradesEmpty(init, s);
      assert es == init + [e];
      StatisticsAppend(init, [e], s);
      if e.student != s { StatisticsOfOther(e, s); } else { assert [e][..0] == []; }
      assert forall i :: 0 <= i < |init| ==> init[i] == es[i];
    }
  }

  /** Every grade the average is taken over lies in [lo, hi] when every graded
      enrollment of the student does. */
  lemma {:induction false} GradesWithin(es: seq<Enrollment>, s: StudentId, lo: real, hi: real)
    requires forall i :: 0 <= i < |es| && es[i].student == s && es[i].grade.Some? ==> lo <= es[i].grade.value <= hi
    ensures forall k :: 0 <= k < |Grades(es, s)| ==> lo <= Grades(es, s)[k] <= hi
    decreases |es|
  {
    if es != [] {
      GradesWithin(es[..|es| - 1], s, lo, hi);
    }
  }

  lemma {:induction false} SumBounds(xs: seq<real>, lo: real, hi: real)
    requires forall k :: 0 <= k < |xs| ==> lo <= xs[k] <= hi
    ensures lo * (|xs| as real) <= Sum(xs) <= hi * (|xs| as real)
    decreases |xs|
  {
    if xs != [] {
      var n := (|xs| - 1) as real;
      SumBounds(xs[..|xs| - 1], lo, hi);
      assert lo * (n + 1.0) == lo * n + lo;
      assert hi * (n + 1.0) == hi * n + hi;
    }
  }

  lemma MeanWithin(xs: seq<real>, lo: real, hi: real)
    requires xs != [] && forall k :: 0 <= k < |xs| ==> lo <= xs[k] <= hi
    ensures lo <= Mean(xs) <= hi
  {
    SumBounds(xs, lo, hi);
    var n, avg := |xs| as real, Mean(xs);
    assert lo * n <= avg * n <= hi * n;
    MeanBetween(avg, n, lo, hi);
  }

  lemma MeanBetween(avg: real, n: real, lo: real, hi: real)
    requires n > 0.0 && lo * n <= avg * n <= hi * n
    ensures lo <= avg <= hi
  {
  }

  /** The average lies in [lo, hi] when every grade of the student does; in
      particular it stays on the 0.0 to 5.0 scale when the grades do. */
  lemma AverageWithinRange(es: seq<Enrollment>, s: StudentId, lo: real, hi: real)
    requires forall i :: 0 <= i < |es| && es[i].student == s && es[i].grade.Some? ==> lo <= es[i].grade.value <= hi
    ensures AverageGrade(es, s).Some? ==> lo <= AverageGrade(es, s).value <= hi
  {
    if AverageGrade(es, s).Some? {
      var gs := Grades(es, s);
      GradesWithin(es, s, lo, hi);
      MeanWithin(gs, lo, hi);
    }
  }

  /** Grades 3.0, none and 5.0 average to 4.0: the ungraded enrollment is not counted. */
  lemma AverageSkipsUngraded(s: StudentId, a: SubjectId, b: SubjectId, c: SubjectId)
    ensures AverageGrade([Enrollment(1, s, a, Some(3.0)), Enrollment(2, s, b, None),
                          Enrollment(3, s, c, Some(5.0))], s) == Some(4.0)
  {
    var e1, e2, e3 := Enrollment(1, s, a, Some(3.0)), Enrollment(2, s, b, None), Enrollment(3, s, c, Some(5.0));
    var es := [e1, e2, e3];
    assert Grades(es, s) == [3.0, 5.0] by {
      assert es[..2] == [e1, e2] && [e1, e2][..1] == [e1] && [e1][..0] == [];
      assert Grades([e1], s) == [3.0];
      assert Grades([e1, e2], s) == [3.0];
    }
    assert Mean([3.0, 5.0]) == 4.0 by {
      assert [3.0, 5.0][..1] == [3.0] && [3.0][..0] == [];
      assert Sum([3.0, 5.0]) == 8.0;
    }
    GradesEmpty(es, s);
    assert es[0].student == s;
  }
}
