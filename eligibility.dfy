/** The prerequisite rule that direct enrollment (api/views.py:176-177) and
    registration (api/serializer.py:29-30) both apply, and the loop over the
    requested subjects that both run: enroll while eligible, stop at the first
    subject that is not. */
module Eligibility {
  import opened Wrappers
  import opened Models
  import opened Database

  /** The student holds some enrollment, graded or not, in one of `among`. */
  predicate HasEnrollmentIn(es: seq<Enrollment>, s: StudentId, among: set<SubjectId>) {
    exists i :: 0 <= i < |es| && es[i].student == s && es[i].subject in among
  }

  /** A subject without prerequisites is open to everyone; otherwise the
      student needs an enrollment in at least one of its direct prerequisites.
      Grades are not looked at and nothing is checked transitively. */
  predicate Eligible(subjects: map<SubjectId, Subject>, es: seq<Enrollment>, s: StudentId, sub: SubjectId)
    requires sub in subjects
    ensures Eligible(subjects, es, s, sub) <==>
              || subjects[sub].prerequisites == {}
              || exists i :: 0 <= i < |es| && es[i].student == s && es[i].subject in subjects[sub].prerequisites
  {
    var pre := subjects[sub].prerequisites;
    pre == {} || HasEnrollmentIn(es, s, pre)
  }

  /** The ungraded enrollments of `s` in `subs`, with consecutive ids from `firstId`. */
  function Fresh(s: StudentId, subs: seq<SubjectId>, firstId: nat): (r: seq<Enrollment>)
    ensures |r| == |subs|
  {
    seq(|subs|, k requires 0 <= k < |subs| => Enrollment(firstId + k, s, subs[k], None))
  }

  /** Where the loop over the requested subjects ends: the enrollments, the
      next free id, and the subject it stopped at, if any. */
  datatype LoopOutcome = LoopOutcome(enrollments: seq<Enrollment>, nextId: nat, stoppedAt: Option<SubjectId>)

  /** The loop of api/views.py:175-180 and api/serializer.py:28-35 over the
      subjects `subs`: each eligible subject gets an ungraded enrollment, and
      the first ineligible one ends the loop with nothing undone. */
  function EnrollLoop(subjects: map<SubjectId, Subject>, es: seq<Enrollment>, s: StudentId,
                      subs: seq<SubjectId>, nextId: nat): (r: LoopOutcome)
    requires forall k :: 0 <= k < |subs| ==> subs[k] in subjects
    ensures |es| <= |r.enrollments| <= |es| + |subs|
    ensures r.stoppedAt.None? <==> |r.enrollments| == |es| + |subs|
    decreases |subs|
  {
    if subs == [] then LoopOutcome(es, nextId, None)
    else if !Eligible(subjects, es, s, subs[0]) then LoopOutcome(es, nextId, Some(subs[0]))
    else EnrollLoop(subjects, es + [Enrollment(nextId, s, subs[0], None)], s, subs[1..], nextId + 1)
  }

  // ---------------------------------------------------------------------------
  // Properties of the rule

  /** A subject without prerequisites is open to every student. */
  lemma NoPrerequisitesAlwaysEligible(subjects: map<SubjectId, Subject>, es: seq<Enrollment>,
                                      s: StudentId, sub: SubjectId)
    requires sub in subjects && subjects[sub].prerequisites == {}
    ensures Eligible(subjects, es, s, sub)
  {
  }

  /** A subject with prerequisites is closed to a student with no enrollment in any of them. */
  lemma NoPrerequisiteEnrollmentNeverEligible(subjects: map<SubjectId, Subject>, es: seq<Enrollment>,
                                              s: StudentId, sub: SubjectId)
    requires sub in subjects && subjects[sub].prerequisites != {}
    requires forall i :: 0 <= i < |es| && es[i].student == s ==> es[i].subject !in subjects[sub].prerequisites
    ensures !Eligible(subjects, es, s, sub)
  {
  }

  /** Enrollments are never removed by enrolling, so eligibility once gained is kept. */
  lemma EligibilityPersists(subjects: map<SubjectId, Subject>, es: seq<Enrollment>, more: seq<Enrollment>,
                            s: StudentId, sub: SubjectId)
    requires sub in subjects && Eligible(subjects, es, s, sub)
    ensures Eligible(subjects, es + more, s, sub)
  {
    if subjects[sub].prerequisites != {} {
      var i :| 0 <= i < |es| && es[i].student == s && es[i].subject in subjects[sub].prerequisites;
      assert (es + more)[i] == es[i];
    }
  }

  /** Two enrollment lists that agree on who is enrolled in what, position by position. */
  predicate SameRoster(es: seq<Enrollment>, es': seq<Enrollment>) {
    |es| == |es'| && forall i :: 0 <= i < |es| ==> es[i].student == es'[i].student && es[i].subject == es'[i].subject
  }

  /** Grades play no part: lists that differ only in grades give the same answer. */
  lemma GradesDoNotAffectEligibility(subjects: map<SubjectId, Subject>, es: seq<Enrollment>, es': seq<Enrollment>,
                                     s: StudentId, sub: SubjectId)
    requires sub in subjects && SameRoster(es, es')
    ensures Eligible(subjects, es, s, sub) == Eligible(subjects, es', s, sub)
  {
    var pre := subjects[sub].prerequisites;
    if HasEnrollmentIn(es, s, pre) {
      var i :| 0 <= i < |es| && es[i].student == s && es[i].subject in pre;
      assert es'[i].student == s && es'[i].subject in pre;
    }
    if HasEnrollmentIn(es', s, pre) {
      var i :| 0 <= i < |es'| && es'[i].student == s && es'[i].subject in pre;
      assert es[i].student == s && es[i].subject in pre;
    }
  }

  /** Only direct prerequisites count: with subject 3 requiring 2 and 2
      requiring 1, an enrollment in 1 opens 2 but not 3. */
  lemma DirectPrerequisitesOnly(s: StudentId)
    ensures var subjects := map[1 := Subject("I", "", {}), 2 := Subject("II", "", {1}), 3 := Subject("III", "", {2})];
            var es := [Enrollment(1, s, 1, Some(5.0))];
            Eligible(subjects, es, s, 2) && !Eligible(subjects, es, s, 3)
  {
    var es := [Enrollment(1, s, 1, Some(5.0))];
    assert es[0].student == s && es[0].subject in {1};
  }

  // ---------------------------------------------------------------------------
  // Properties of the loop

  lemma FreshAppend(s: StudentId, a: seq<SubjectId>, b: seq<SubjectId>, firstId: nat)
    ensures Fresh(s, a + b, firstId) == Fresh(s, a, firstId) + Fresh(s, b, firstId + |a|)
  {
  }

  /** The student's enrollments after some fresh ones: a prerequisite is held
      when it was held before or is among the freshly enrolled subjects. */
  lemma HasEnrollmentInAfterFresh(es: seq<Enrollment>, s: StudentId, t: seq<SubjectId>, firstId: nat,
                                  among: set<SubjectId>)
    ensures HasEnrollmentIn(es + Fresh(s, t, firstId), s, among) <==>
            HasEnrollmentIn(es, s, among) || exists k :: 0 <= k < |t| && t[k] in among
  {
    var all := es + Fresh(s, t, firstId);
    if HasEnrollmentIn(all, s, among) {
      var i :| 0 <= i < |all| && all[i].student == s && all[i].subject in among;
      if i >= |es| {
        assert t[i - |es|] in among;
      }
    }
    if exists k :: 0 <= k < |t| && t[k] in among {
      var k :| 0 <= k < |t| && t[k] in among;
      assert all[|es| + k].student == s && all[|es| + k].subject in among;
    }
    if HasEnrollmentIn(es, s, among) {
      var i :| 0 <= i < |es| && es[i].student == s && es[i].subject in among;
      assert all[i] == es[i];
    }
  }

  /** The loop admits a prefix of `subs` (its length bounded by the contract
      of EnrollLoop): the admitted subjects got one ungraded enrollment each,
      with consecutive ids, and when the loop stopped it was at the first
      subject not admitted, which was not eligible, leaving the later ones
      untouched. */
  lemma {:induction false} EnrollLoopOutcome(subjects: map<SubjectId, Subject>, es: seq<Enrollment>, s: StudentId,
                                             subs: seq<SubjectId>, nextId: nat)
    requires forall k :: 0 <= k < |subs| ==> subs[k] in subjects
    ensures var r := EnrollLoop(subjects, es, s, subs, nextId);
            var n := |r.enrollments| - |es|;
            && r.enrollments == es + Fresh(s, subs[..n], nextId)
            && r.nextId == nextId + n
            && (r.stoppedAt.Some? ==> r.stoppedAt.value == subs[n] && !Eligible(subjects, r.enrollments, s, subs[n]))
    decreases |subs|
  {
    if subs == [] || !Eligible(subjects, es, s, subs[0]) {
      assert subs[..0] == [];
      assert es + Fresh(s, [], nextId) == es;
    } else {
      var e := Enrollment(nextId, s, subs[0], None);
      var rest := subs[1..];
      EnrollLoopOutcome(subjects, es + [e], s, rest, nextId + 1);
      var r := EnrollLoop(subjects, es + [e], s, rest, nextId + 1);
      var m := |r.enrollments| - |es + [e]|;
      assert [e] == Fresh(s, [subs[0]], nextId);
      FreshAppend(s, [subs[0]], rest[..m], nextId);
      assert [subs[0]] + rest[..m] == subs[..m + 1];
    }
  }

  /** Every subject the loop admitted was eligible when its turn came, that is
      given the enrollments before the request and those of the subjects
      admitted ahead of it. */
  lemma {:induction false} EnrollLoopAdmitsOnlyEligible(subjects: map<SubjectId, Subject>, es: seq<Enrollment>,
                                                        s: StudentId, subs: seq<SubjectId>, nextId: nat)
    requires forall k :: 0 <= k < |subs| ==> subs[k] in subjects
    ensures var n := |EnrollLoop(subjects, es, s, subs, nextId).enrollments| - |es|;
            forall j :: 0 <= j < n ==> Eligible(subjects, es + Fresh(s, subs[..j], nextId), s, subs[j])
    decreases |subs|
  {
    if subs != [] && Eligible(subjects, es, s, subs[0]) {
      var e := Enrollment(nextId, s, subs[0], None);
      var rest := subs[1..];
      EnrollLoopAdmitsOnlyEligible(subjects, es + [e], s, rest, nextId + 1);
      var m := |EnrollLoop(subjects, es + [e], s, rest, nextId + 1).enrollments| - |es + [e]|;
      assert [e] == Fresh(s, [subs[0]], nextId);
      forall j | 0 <= j < m + 1
        ensures Eligible(subjects, es + Fresh(s, subs[..j], nextId), s, subs[j])
      {
        if j == 0 {
          assert subs[..0] == [];
          assert es + Fresh(s, [], nextId) == es;
        } else {
          FreshAppend(s, [subs[0]], rest[..j - 1], nextId);
          assert [subs[0]] + rest[..j - 1] == subs[..j];
          assert es + [e] + Fresh(s, rest[..j - 1], nextId + 1) == es + Fresh(s, subs[..j], nextId);
        }
      }
    }
  }

  /** Registration runs the loop for a student who has no enrollment yet, so a
      subject with prerequisites is admitted only when one of them was admitted
      earlier in the same request, and the loop stops at the first subject with
      prerequisites none of which came earlier. */
  lemma NewStudentNeedsEarlierPrerequisite(subjects: map<SubjectId, Subject>, es: seq<Enrollment>, s: StudentId,
                                           subs: seq<SubjectId>, nextId: nat)
    requires forall k :: 0 <= k < |subs| ==> subs[k] in subjects
    requires forall i :: 0 <= i < |es| ==> es[i].student != s
    ensures var r := EnrollLoop(subjects, es, s, subs, nextId);
            var n := |r.enrollments| - |es|;
            && (forall j :: 0 <= j < n ==>
                  subjects[subs[j]].prerequisites == {} ||
                  exists k :: 0 <= k < j && subs[k] in subjects[subs[j]].prerequisites)
            && (r.stoppedAt.Some? ==>
                  subjects[subs[n]].prerequisites != {} &&
                  forall k :: 0 <= k < n ==> subs[k] !in subjects[subs[n]].prerequisites)
  {
    EnrollLoopOutcome(subjects, es, s, subs, nextId);
    EnrollLoopAdmitsOnlyEligible(subjects, es, s, subs, nextId);
    var r := EnrollLoop(subjects, es, s, subs, nextId);
    var n := |r.enrollments| - |es|;
    forall j | 0 <= j < n
      ensures subjects[subs[j]].prerequisites == {} ||
              exists k :: 0 <= k < j && subs[k] in subjects[subs[j]].prerequisites
    {
      var pre := subjects[subs[j]].prerequisites;
      HasEnrollmentInAfterFresh(es, s, subs[..j], nextId, pre);
      if exists k :: 0 <= k < |subs[..j]| && subs[..j][k] in pre {
        var k :| 0 <= k < |subs[..j]| && subs[..j][k] in pre;
        assert subs[k] in pre;
      }
    }
    if r.stoppedAt.Some? {
      var pre := subjects[subs[n]].prerequisites;
      HasEnrollmentInAfterFresh(es, s, subs[..n], nextId, pre);
      forall k | 0 <= k < n ensures subs[k] !in pre {
        assert subs[..n][k] == subs[k];
      }
    }
  }

  /** A set of subjects that each have prerequisites, all of them inside the
      set (two subjects that require each other, or any longer cycle), is
      closed to a new student: the loop admits none of its members, whatever
      the order in which it visits them. */
  lemma CycleBlocksNewStudent(subjects: map<SubjectId, Subject>, es: seq<Enrollment>, s: StudentId,
                               subs: seq<SubjectId>, nextId: nat, cycle: set<SubjectId>)
    requires forall k :: 0 <= k < |subs| ==> subs[k] in subjects
    requires forall i :: 0 <= i < |es| ==> es[i].student != s
    requires forall c | c in cycle :: c in subjects && subjects[c].prerequisites != {} &&
                                      subjects[c].prerequisites <= cycle
    ensures var n := |EnrollLoop(subjects, es, s, subs, nextId).enrollments| - |es|;
            forall j :: 0 <= j < n ==> subs[j] !in cycle
  {
    NewStudentNeedsEarlierPrerequisite(subjects, es, s, subs, nextId);
    var n := |EnrollLoop(subjects, es, s, subs, nextId).enrollments| - |es|;
    var j := 0;
    while j < n
      invariant 0 <= j <= n
      invariant forall k :: 0 <= k < j ==> subs[k] !in cycle
    {
      j := j + 1;
    }
  }

  /** Two subjects that require each other, visited in either order. */
  lemma MutualPrerequisitesBlockNewStudent(s: StudentId, nextId: nat)
    ensures var subjects := map[1 := Subject("A", "", {2}), 2 := Subject("B", "", {1})];
            && EnrollLoop(subjects, [], s, [1, 2], nextId) == LoopOutcome([], nextId, Some(1))
            && EnrollLoop(subjects, [], s, [2, 1], nextId) == LoopOutcome([], nextId, Some(2))
  {
  }

  /** The order in which the loop visits the subjects matters for a new
      student: Calculus II, which requires Calculus I, is admitted when the
      loop visits Calculus I first, and stops the loop when the loop visits
      Calculus II before Calculus I. The query that feeds the loop
      (`filter(pk__in=...)`) has no ordering, so either visit order can occur. */
  lemma LoopOrderMatters(s: StudentId, nextId: nat)
    ensures var subjects := map[1 := Subject("Calculus I", "", {}), 2 := Subject("Calculus II", "", {1})];
            && EnrollLoop(subjects, [], s, [1, 2], nextId).stoppedAt == None
            && EnrollLoop(subjects, [], s, [2, 1], nextId) == LoopOutcome([], nextId, Some(2))
  {
    var subjects := map[1 := Subject("Calculus I", "", {}), 2 := Subject("Calculus II", "", {1})];
    var es := [Enrollment(nextId, s, 1, None)];
    var none: seq<Enrollment> := [];
    assert [1, 2][1..] == [2] && [2][1..] == [] && none + [es[0]] == es;
    assert Eligible(subjects, none, s, 1) by { assert subjects[1].prerequisites == {}; }
    assert EnrollLoop(subjects, none, s, [1, 2], nextId) == EnrollLoop(subjects, es, s, [2], nextId + 1);
    assert Eligible(subjects, es, s, 2) by {
      assert es[0].student == s && es[0].subject in subjects[2].prerequisites;
    }
    assert EnrollLoop(subjects, es, s, [2], nextId + 1).stoppedAt == None;
  }

  /** What the loop adds belongs to the student it runs for: every other
      student's enrollments are as they were. */
  lemma EnrollLoopTouchesOnlyItsStudent(subjects: map<SubjectId, Subject>, es: seq<Enrollment>, s: StudentId,
                                        subs: seq<SubjectId>, nextId: nat, t: StudentId)
    requires forall k :: 0 <= k < |subs| ==> subs[k] in subjects
    requires t != s
    ensures OwnEnrollments(EnrollLoop(subjects, es, s, subs, nextId).enrollments, t) == OwnEnrollments(es, t)
  {
    EnrollLoopOutcome(subjects, es, s, subs, nextId);
    var r := EnrollLoop(subjects, es, s, subs, nextId);
    var n := |r.enrollments| - |es|;
    FreshStatistics(s, subs[..n], nextId, t);
    StatisticsAppend(es, Fresh(s, subs[..n], nextId), t);
  }

  /** Fresh enrollments are ungraded: for their student they add exactly their
      subjects to the enrolled and pending lists and nothing to any other
      statistic; for everyone else they add nothing. */
  lemma {:induction false} FreshStatistics(s: StudentId, subs: seq<SubjectId>, firstId: nat, t: StudentId)
    ensures ApprovedSubjects(Fresh(s, subs, firstId), t) == []
    ensures FailedSubjects(Fresh(s, subs, firstId), t) == []
    ensures Grades(Fresh(s, subs, firstId), t) == []
    ensures EnrolledSubjects(Fresh(s, subs, firstId), t) == (if t == s then subs else [])
    ensures PendingSubjects(Fresh(s, subs, firstId), t) == (if t == s then subs else [])
    ensures t != s ==> OwnEnrollments(Fresh(s, subs, firstId), t) == []
    decreases |subs|
  {
    if subs != [] {
      var init, x := subs[..|subs| - 1], subs[|subs| - 1];
      var e := Enrollment(firstId + |init|, s, x, None);
      var before := Fresh(s, init, firstId);
      FreshStatistics(s, init, firstId, t);
      assert init + [x] == subs;
      assert Fresh(s, subs, firstId) == before + [e] by {
        FreshAppend(s, init, [x], firstId);
        assert Fresh(s, [x], firstId + |init|) == [e];
      }
      StatisticsAppend(before, [e], t);
      FreshOneStatistics(e, t);
    }
  }

  lemma FreshOneStatistics(e: Enrollment, t: StudentId)
    requires e.grade.None?
    ensures ApprovedSubjects([e], t) == [] && FailedSubjects([e], t) == [] && Grades([e], t) == []
    ensures EnrolledSubjects([e], t) == (if t == e.student then [e.subject] else [])
    ensures PendingSubjects([e], t) == (if t == e.student then [e.subject] else [])
    ensures t != e.student ==> OwnEnrollments([e], t) == []
  {
    if t == e.student { StatisticsOfOne(e); assert [e][..0] == []; } else { StatisticsOfOther(e, t); }
  }

  /** Appending fresh enrollments of `s` changes no student's approved or
      failed subjects or average, and adds exactly their subjects, in order,
      to the enrolled and pending lists of `s`. */
  lemma AppendFreshStatistics(es: seq<Enrollment>, s: StudentId, subs: seq<SubjectId>, nextId: nat, t: StudentId)
    ensures var after := es + Fresh(s, subs, nextId);
            && ApprovedSubjects(after, t) == ApprovedSubjects(es, t)
            && FailedSubjects(after, t) == FailedSubjects(es, t)
            && AverageGrade(after, t) == AverageGrade(es, t)
            && EnrolledSubjects(after, s) == EnrolledSubjects(es, s) + subs
            && PendingSubjects(after, s) == PendingSubjects(es, s) + subs
  {
    var f := Fresh(s, subs, nextId);
    FreshStatistics(s, subs, nextId, t);
    FreshStatistics(s, subs, nextId, s);
    StatisticsAppend(es, f, t);
    StatisticsAppend(es, f, s);
    assert ApprovedSubjects(es, t) + [] == ApprovedSubjects(es, t);
    assert FailedSubjects(es, t) + [] == FailedSubjects(es, t);
    assert Grades(es, t) + [] == Grades(es, t);
    GradesEmpty(es, t);
    GradesEmpty(es + f, t);
  }

  /** The loop never changes any student's approved or failed subjects or
      average, since what it adds is ungraded; the student it runs for gains
      exactly the admitted subjects, in order, as enrolled and pending. */
  lemma EnrollLoopStatistics(subjects: map<SubjectId, Subject>, es: seq<Enrollment>, s: StudentId,
                             subs: seq<SubjectId>, nextId: nat, t: StudentId)
    requires forall k :: 0 <= k < |subs| ==> subs[k] in subjects
    ensures var r := EnrollLoop(subjects, es, s, subs, nextId);
            var admitted := subs[..|r.enrollments| - |es|];
            && ApprovedSubjects(r.enrollments, t) == ApprovedSubjects(es, t)
            && FailedSubjects(r.enrollments, t) == FailedSubjects(es, t)
            && AverageGrade(r.enrollments, t) == AverageGrade(es, t)
            && EnrolledSubjects(r.enrollments, s) == EnrolledSubjects(es, s) + admitted
            && PendingSubjects(r.enrollments, s) == PendingSubjects(es, s) + admitted
  {
    EnrollLoopOutcome(subjects, es, s, subs, nextId);
    var r := EnrollLoop(subjects, es, s, subs, nextId);
    AppendFreshStatistics(es, s, subs[..|r.enrollments| - |es|], nextId, t);
  }

  /** When the loop runs to the end, every requested subject has a new
      ungraded enrollment of the student. */
  lemma EnrollLoopSuccessCoversAll(subjects: map<SubjectId, Subject>, es: seq<Enrollment>, s: StudentId,
                                   subs: seq<SubjectId>, nextId: nat, x: SubjectId)
    requires forall k :: 0 <= k < |subs| ==> subs[k] in subjects
    requires EnrollLoop(subjects, es, s, subs, nextId).stoppedAt.None? && x in subs
    ensures exists i :: |es| <= i < |EnrollLoop(subjects, es, s, subs, nextId).enrollments| &&
                        EnrollLoop(subjects, es, s, subs, nextId).enrollments[i].student == s &&
                        EnrollLoop(subjects, es, s, subs, nextId).enrollments[i].subject == x &&
                        EnrollLoop(subjects, es, s, subs, nextId).enrollments[i].grade.None?
  {
    EnrollLoopOutcome(subjects, es, s, subs, nextId);
    var r := EnrollLoop(subjects, es, s, subs, nextId);
    var k :| 0 <= k < |subs| && subs[k] == x;
    assert subs[..|subs|] == subs;
    assert r.enrollments[|es| + k] == Fresh(s, subs, nextId)[k];
  }

  // ---------------------------------------------------------------------------
  // The loop on the store

  /** The loop itself, run on the store: both callers hand it the selected
      subjects, and it stops at the first one the student is not eligible for,
      keeping every enrollment it already created. */
  method EnrollEach(st: Store, s: StudentId, subs: seq<SubjectId>) returns (stoppedAt: Option<SubjectId>)
    requires st.Valid() && s in st.students
    requires forall k :: 0 <= k < |subs| ==> subs[k] in st.subjects
    modifies st
    ensures st.Valid()
    ensures var loop := EnrollLoop(old(st.subjects), old(st.enrollments), s, subs, old(st.nextEnrollmentId));
            && st.enrollments == loop.enrollments && st.nextEnrollmentId == loop.nextId
            && stoppedAt == loop.stoppedAt
    ensures st.subjects == old(st.subjects) && st.students == old(st.students)
    ensures st.professors == old(st.professors) && st.nextStudentId == old(st.nextStudentId)
  {
    ghost var goal := EnrollLoop(st.subjects, st.enrollments, s, subs, st.nextEnrollmentId);
    var i := 0;
    while i < |subs|
      invariant 0 <= i <= |subs|
      invariant st.Valid() && s in st.students
      invariant st.subjects == old(st.subjects) && st.students == old(st.students)
      invariant st.professors == old(st.professors) && st.nextStudentId == old(st.nextStudentId)
      invariant EnrollLoop(st.subjects, st.enrollments, s, subs[i..], st.nextEnrollmentId) == goal
    {
      var sub := subs[i];
      assert subs[i..][0] == sub && subs[i..][1..] == subs[i + 1..];
      if !Eligible(st.subjects, st.enrollments, s, sub) {
        return Some(sub);
      }
      var _ := st.CreateEnrollment(s, sub);
      i := i + 1;
    }
    stoppedAt := None;
  }
}
