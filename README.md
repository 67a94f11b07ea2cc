# Academic records API: enrollment and grading core

This project models the domain logic of a Django REST API for academic records.
The API keeps subjects with prerequisite graphs, students, professors, and
enrollments that link one student to one subject with an optional grade. The
model covers four parts:

- **Statistics** (`Models`, from `api/models.py`). These are pass status, the
  approved and failed subject lists, and the average grade. They are pure
  functions over the enrollment list.
- **The store** (`Database`). A `Store` class holds the subject, student and
  professor tables as maps and the enrollments as a sequence. It also holds
  the auto-increment keys. It covers row creation, grade writes, and the
  cascades that deleting a student, subject or professor triggers.
- **Eligibility and the enrollment loop** (`Eligibility`). This part holds the
  prerequisite rule. It also holds the loop that direct enrollment and
  registration both run: enroll while eligible, and stop at the first subject
  that is not eligible.
- **Requests** (`Serializers`, `Views`). These cover registration with
  subjects, direct enrollment, single and bulk grading, and the professor's
  subject list, roster and gradebook.

Each imperative action is a `method` of the store or a method that takes the
store. Its postcondition ties the new state to a specification function of the
old state, such as `EnrollLoop` or `ApplyGrades`. The properties the API
promises are proved as lemmas about those functions.

How the code behaves, as modelled:

- Grades are exact `real` numbers. Pass status means graded with a grade of at
  least 3.0. A grade of exactly 3.0 passes.
- An ungraded enrollment is neither approved nor failed. The ORM filters
  `grade__gte` and `grade__lt` never match SQL NULL.
- Eligibility needs just one enrollment of the student in any one direct
  prerequisite. The grade does not matter. Prerequisites are not followed
  transitively, and cycles are allowed.
- Direct enrollment (`api/views.py:161-182`) and registration
  (`api/serializer.py:23-37`) stop at the first ineligible subject and keep
  everything created before it. Registration also keeps the new student row.
- `api/serializer.py:49-63` (`StudentSerializer.create`) is the same code as
  `api/serializer.py:23-37`. However, `StudentSerializer` declares no
  `subject_ids` field (`api/serializer.py:39-47`), so its validated data never
  holds that key and the `pop` at line 50 always gives `[]`. That path is
  `Serializers.Register` with an empty id list: it creates the student and
  enrolls nothing.
- `student.subjects.add(subject)` at `api/views.py:180` names a relation that
  `api/models.py` does not define. It is modelled as creating an ungraded
  `Enrollment`, which is what the registration path does.
- Bulk grading (`api/views.py:139-153`) checks every item first and writes
  only afterwards. It applies no range check, and a later item for the same
  student overwrites an earlier one. The professor key in the URL is never
  looked up, so the model takes no professor for this action.
  As written, the serializer fails before validation. The line for
  `Views.GradeSubject` under "## Left out" describes this.
- The professor listings key their result by subject name. They report one
  line per enrollment, so a student enrolled twice appears twice.

The model follows the code where a reader might expect otherwise:

- The code is not atomic. Registration and enrollment keep whatever they
  created before the first ineligible subject.
- The prerequisite rule is not "all prerequisites passed". The code accepts
  any enrollment, graded or not, in any one prerequisite.
- The roster is not a list of distinct students. The code lists one line per
  enrollment.

Modules: `Wrappers` (`Option`, `Result`), `Models`, `Database`, `Eligibility`,
`Serializers`, `Views`. Each module is in its own file, lower-case.

## Model

| member | source | states |
|---|---|---|
| Models.IsPassed | api/models.py:55-56 | Passing is exactly the `grade__gte=3.0` lookup: graded, and at least 3.0. A passing enrollment never matches `grade__lt=3.0`. |
| Models.EnrolledSubjects | api/views.py:39-40 | One subject per enrollment of the student, so never more entries than enrollments. `Models.StatusPartition` splits it into approved, failed and ungraded. |
| Models.ApprovedSubjects | api/models.py:19-21 | One subject per enrollment of the student with `grade__gte=3.0`, so never more entries than enrollments. `Models.ApprovedMeansPassed` states which subjects appear. |
| Models.FailedSubjects | api/models.py:32-34 | One subject per enrollment of the student with `grade__lt=3.0`, so never more entries than enrollments. `Models.FailedMeansGradedNotPassed` states which subjects appear. |
| Models.Grades | api/models.py:27 | The non-null grades of the student's enrollments, at most one per enrollment. `Models.GradesEmpty` and `Models.GradesWithin` state when it is empty and its bounds. |
| Models.AverageGrade | api/models.py:23-30 | The average is None exactly when none of the student's enrollments is graded, including when the student has none. Otherwise it is the mean of the student's non-null grades. |
| Models.Mean | api/models.py:30 | `sum(grades) / len(grades)`: the mean times the count is the sum. |
| Models.ApprovedMeansPassed | api/models.py:19-21 | A subject is in approved_subjects exactly when some enrollment of that student in it is passed in the sense of `is_passed`. |
| Models.FailedMeansGradedNotPassed | api/models.py:32-34 | A subject is in failed_subjects exactly when some enrollment of that student in it is graded and not passed. |
| Models.StatusPartition | api/models.py:19-34 | Approved, failed and ungraded subjects together make up all enrolled subjects as a multiset. So no enrollment is both approved and failed, ungraded ones are in neither list, and each enrollment adds one entry. |
| Models.ThresholdIsInclusive | api/models.py:55-56 | An enrollment graded exactly 3.0 adds its subject to approved_subjects and nothing to failed_subjects. |
| Models.StatisticsOfOne | api/models.py:19-34 | One enrollment adds its subject to approved if passed, to failed if graded and not passed, and to pending if ungraded. |
| Models.StatisticsOfOther | api/models.py:20 | The statistics of a student ignore other students' enrollments. |
| Models.StatisticsAppend | api/models.py:19-34 | Every statistic of two concatenated enrollment lists is the concatenation of the statistics, because the filters keep order. |
| Models.StatisticsOfOwnEnrollments | api/models.py:20-33 | A student's statistics computed over `filter(student=self)` alone are the same as over the whole table. |
| Models.StatisticsDependOnlyOnOwnEnrollments | api/models.py:19-34 | Two stores with the same enrollments for a student give that student the same approved list, failed list and average. |
| Models.GradesEmpty | api/models.py:24-29 | The non-null grade list is empty exactly when every enrollment of the student is ungraded. The own-enrollment list is empty exactly when the student has none. |
| Models.AverageWithinRange | api/models.py:23-30 | When every grade of the student lies in [lo, hi], so does the average. |
| Models.AverageSkipsUngraded | api/models.py:27-30 | Grades 3.0, none and 5.0 average to 4.0. |
| Database.SelectSubjects | api/views.py:173 | `filter(pk__in=ids)` returns only existing requested subjects. It returns every existing requested subject, and each one once. |
| Database.Store.constructor | api/models.py:4-59 | An empty student and enrollment table over a catalog whose prerequisites and professor assignments are existing subjects. |
| Database.Store.CreateStudent | api/serializer.py:25 | A new student row under a fresh non-zero key. Nothing else changes. |
| Database.Store.CreateEnrollment | api/serializer.py:31 | Appends one ungraded enrollment under the next key. Nothing else changes. |
| Database.Store.SetGrade | api/views.py:203-204 | Only the grade of that enrollment changes. |
| Database.Store.DeleteStudent | api/models.py:50 | Removes the student and exactly the enrollments that reference it. The store invariant is kept. |
| Database.Store.DeleteSubject | api/models.py:51 | Removes the subject, the enrollments that reference it, and its rows in the prerequisite and professor relations. The store invariant is kept. |
| Database.Store.DeleteProfessor | api/models.py:44 | Removes the professor only. Subjects, students and enrollments stay. |
| Database.WithoutStudent | api/models.py:50 | The enrollments left after the cascade are no more than before, and none belongs to the deleted student. `Database.DeleteStudentRemovesExactly` states that all others survive. |
| Database.WithoutSubject | api/models.py:51 | The enrollments left after the cascade are no more than before, and none references the deleted subject. `Database.DeleteSubjectRemovesExactly` states that all others survive. |
| Database.CatalogWithout | api/models.py:7 | Deleting a subject removes its key and removes it from every other subject's prerequisites. Every other field of every other subject, and every other prerequisite, stays. |
| Database.ProfessorsWithout | api/models.py:44 | Deleting a subject keeps every professor and all of their other fields. Each assignment list keeps exactly the subjects other than the deleted one. |
| Database.DeleteSubjectKeepsIntegrity | api/models.py:49-51 | After a subject is deleted, every foreign key still points at an existing row and ids stay increasing. |
| Database.DeleteStudentRemovesExactly | api/models.py:50 | An enrollment survives deleting a student exactly when it belongs to another student. |
| Database.DeleteSubjectRemovesExactly | api/models.py:51 | An enrollment survives deleting a subject exactly when it is in another subject. |
| Database.DeleteStudentKeepsOthers | api/models.py:50 | Deleting one student leaves every other student's enrollments, approved and failed lists and average unchanged. |
| Database.DeleteSubjectFromStatistics | api/models.py:51 | Deleting a subject removes exactly that subject from every student's enrolled, approved and failed lists. |
| Eligibility.Eligible | api/views.py:176-177 | A subject is open exactly when it has no prerequisites, or when the student has one enrollment, graded or not, in any one of its direct prerequisites. |
| Eligibility.NoPrerequisitesAlwaysEligible | api/views.py:176-177 | A subject without prerequisites is open to every student. |
| Eligibility.NoPrerequisiteEnrollmentNeverEligible | api/views.py:176-177 | A subject with prerequisites is closed to a student who has no enrollment in any of them. |
| Eligibility.EligibilityPersists | api/serializer.py:30 | Adding enrollments never takes eligibility away. |
| Eligibility.GradesDoNotAffectEligibility | api/views.py:177 | Enrollment lists that differ only in grades give the same eligibility. |
| Eligibility.DirectPrerequisitesOnly | api/views.py:176-177 | With 3 requiring 2 and 2 requiring 1, an enrollment in 1 opens 2 but not 3. |
| Eligibility.EnrollLoop | api/views.py:175-180 | The loop admits between none and all of the subjects. It reports no stopping subject exactly when it admitted all of them. |
| Eligibility.EnrollLoopOutcome | api/views.py:175-180 | The admitted subjects are a prefix of the request, each with one new ungraded enrollment under consecutive ids. The loop stops at the first subject it does not admit, which is ineligible. Later subjects are not touched. |
| Eligibility.EnrollLoopAdmitsOnlyEligible | api/views.py:176-178 | Every admitted subject was eligible given the enrollments that existed when its turn came. |
| Eligibility.NewStudentNeedsEarlierPrerequisite | api/serializer.py:25-31 | For a student with no enrollments, a subject with prerequisites is admitted only if one of them was admitted earlier in the same request. The loop stops at the first subject none of whose prerequisites came earlier. |
| Eligibility.CycleBlocksNewStudent | api/models.py:7 | Take a set of subjects, each with at least one prerequisite and all of its prerequisites inside the set, such as two subjects that require each other. The loop admits a new student to none of them, in any visit order. |
| Eligibility.MutualPrerequisitesBlockNewStudent | api/models.py:7 | With A and B requiring each other, a new student's loop stops at its first subject and creates nothing, whichever of the two it visits first. |
| Eligibility.LoopOrderMatters | api/serializer.py:28-31 | When the loop visits Calculus I before Calculus II, both are admitted. When it visits Calculus II before Calculus I, it stops at Calculus II with nothing created. The unordered `filter(pk__in=...)` query decides which visit order occurs. |
| Eligibility.EnrollLoopTouchesOnlyItsStudent | api/views.py:180 | Other students' enrollments are unchanged by the loop. |
| Eligibility.FreshStatistics | api/serializer.py:31 | Newly created ungraded enrollments add their subjects to the student's enrolled and pending lists only. |
| Eligibility.AppendFreshStatistics | api/serializer.py:31 | Appending ungraded enrollments changes nobody's approved list, failed list or average. It extends the student's enrolled and pending lists by exactly those subjects. |
| Eligibility.EnrollLoopStatistics | api/views.py:175-180 | After the loop, the student's enrolled and pending lists are the old ones plus the admitted subjects, in order. Nobody's approved list, failed list or average changes. |
| Eligibility.EnrollLoopSuccessCoversAll | api/views.py:175-182 | When the loop completes, every requested subject has a new ungraded enrollment of the student. |
| Eligibility.EnrollEach | api/views.py:175-180 | Running the loop on the store leaves exactly the enrollments, next id and stopping subject of `EnrollLoop`. Nothing else changes. |
| Serializers.Register | api/serializer.py:23-37 | Creates the student under a fresh key before any enrollment, then runs the loop over the selected subjects. The result names the first ineligible subject, and nothing is undone on failure. |
| Serializers.RegistrationOutcome | api/serializer.py:24-37 | The new student is enrolled, ungraded, in exactly the admitted prefix, and in all selected subjects on success. Nobody's approved list or average changes. |
| Serializers.SelectionIgnoresUnknownIds | api/serializer.py:27 | Unknown requested ids change nothing: the selection equals that of the known ids alone. |
| Serializers.SelectionIgnoresRepeats | api/serializer.py:27 | Requesting a subject again does not change the selection. |
| Serializers.FirstUnenrolled | api/serializer.py:104-107 | Finds the first item whose student has no enrollment in the subject, with every earlier item enrolled. It finds none exactly when all are enrolled. |
| Serializers.ValidateGrades | api/serializer.py:97-109 | Validation passes exactly when the subject exists and every listed student is enrolled in it. It reports a missing subject exactly when the subject does not exist. Otherwise it reports the first listed student without an enrollment. |
| Serializers.ValidationIgnoresGradeValues | api/serializer.py:97-109 | Changing any grade value never changes the validation result, so no range check happens there. |
| Views.IdsMissing | api/views.py:165 | Python's `not` treats student id 0 and an empty subject list as missing. When nothing is missing, both values are present. |
| Views.Enroll | api/views.py:161-182 | A missing or empty id gives an error with no change. An unknown student gives NotFound with no change. Otherwise the loop runs over the selected subjects, and the error names the first ineligible one. Students, subjects and professors never change. |
| Views.IndexOfId | api/views.py:186-189 | Finds the enrollment with that key, or reports none exactly when no enrollment has it. |
| Views.InGradeRange | api/views.py:200 | The negated check accepts exactly the grades from 0.0 to 5.0, both ends included. |
| Views.UpdateGrade | api/views.py:185-207 | NotFound, missing, malformed and out-of-range grades leave the store unchanged. Otherwise only that enrollment's grade changes, and both 0.0 and 5.0 are accepted. |
| Views.RegradeTouchesOnlyItsStudent | api/views.py:203-204 | A grade write keeps who is enrolled where. It also keeps every other student's enrollments, approved list, failed list and average. |
| Views.CheckedGradesKeepAverageInRange | api/views.py:200-201 | When all stored grades pass the range check, every average is within [0.0, 5.0]. |
| Views.FirstEnrollment | api/views.py:148 | The first enrollment of the student in the subject. None exactly when there is no such enrollment. |
| Views.GradeOne | api/views.py:146-150 | One item's write keeps who is enrolled where. It changes only an enrollment of that student in that subject, and sets it to the item's grade. |
| Views.ApplyGrades | api/views.py:145-150 | Writing all items keeps the same students and subjects in the same positions. `Views.ApplyGradesResult` gives the final grades. |
| Views.GradeSubject | api/views.py:139-153 | The result is the validation result. A failed validation writes nothing. A passed one writes the items in order. Nothing but grades changes. |
| Views.WriteGrades | api/views.py:145-150 | The write loop leaves exactly the enrollments `ApplyGrades` describes. |
| Views.FirstEnrollmentOnSameRoster | api/views.py:148 | Grade writes never change which enrollment the lookup finds. |
| Views.ApplyGradesResult | api/views.py:145-150 | Each listed student's first enrollment in the subject gets the grade of the last item for that student, whatever its value. Every other enrollment, and who is enrolled where, is unchanged. |
| Views.BulkGradingSkipsRangeCheck | api/views.py:145-150 | A grade of 7.0, which update_grade refuses, passes validation and is written by bulk grading. |
| Views.AssignedSubjects | api/views.py:93-101 | NotFound exactly for an unknown professor. Otherwise the professor's subject list. |
| Views.AssignedSubjectsExist | api/views.py:99 | Every subject a professor lists is in the catalog. |
| Views.StudentsOf | api/views.py:112-113 | One student per enrollment in the subject. |
| Views.GradebookOf | api/views.py:125-132 | One (student, grade) line per enrollment in the subject. |
| Views.ByName | api/views.py:110-115 | Every key of the result is the name of one of the listed subjects and holds that subject's entry. |
| Views.RosterByName | api/views.py:110-115 | Every key is the name of one of the professor's subjects and holds the students enrolled in it. |
| Views.GradebookByName | api/views.py:123-134 | Every key is the name of one of the professor's subjects and holds the (student, grade) lines of that subject. |
| Views.ByNameKeys | api/views.py:110-115 | The result has a key exactly for the names of the professor's subjects. |
| Views.ByNameLastWins | api/views.py:115 | A name shared by several subjects holds the value of the last of them. |
| Views.StudentsPerSubject | api/views.py:104-117 | For an unknown professor, NotFound. Otherwise the roster keyed by subject name, over existing subjects. The store is only read. |
| Views.StudentGrades | api/views.py:120-136 | For an unknown professor, NotFound. Otherwise the gradebook keyed by subject name. The store is only read. |
| Views.ListingsFollowEnrollments | api/views.py:111-132 | Each listing has one line per enrollment in the subject. A student appears in the roster exactly when they have an enrollment in it. The gradebook holds the line (student, grade) exactly when that student has an enrollment in the subject with that grade. |
| Views.ListingsAppend | api/views.py:112-113 | The roster and gradebook of two concatenated enrollment tables are the concatenation of their rosters and gradebooks, in table order. |
| Views.ListingsOfOne | api/views.py:126-132 | One enrollment gives exactly one line, (student) or (student, grade), in its own subject's listings and none in any other. With `Views.ListingsAppend`, each student gets one line per enrollment, in table order. |
| Views.ListingsKeepDuplicates | api/views.py:113 | Two enrollments of one student in a subject give two lines. |

## Left out

- HTTP routing, request parsing, response bodies and status codes are left out. Errors are the `Serializers.Error` values instead.
- JWT authentication, the `IsAuthenticated` gate on the professor actions and `UserRegisterView` (api/views.py:69-70, 209-212) are left out. They are credential handling done by external libraries.
- The generic create/update/delete actions of the view sets and `get_serializer_class` are framework code. The store methods model only the row operations the core uses. Subjects and professors are fixed at construction apart from deletion.
- The student read actions `enrolled_subjects`, `stats` and `failed_subjects` (api/views.py:32-63) only look up the student and return the `Models` functions. Their 404 path is not modelled separately.
- Serializer field lists and output shapes are left out. The listings report students by key rather than as serialized rows.
- Serializers.Register: models `StudentRegistrationSerializer.create`. Through `StudentSerializer.create`, the id list is always empty, because that serializer declares no `subject_ids` field (api/serializer.py:39-47). `Register` with `[]` creates the student and enrolls nothing.
- Field validation of the registration payload is left out: required fields, email format and uniqueness, `date_of_birth`. `Serializers.Register` receives already validated student data.
- `date_of_birth` and the `auto_now_add` enrollment dates are left out, because they need a clock.
- Floating point is left out: `float(grade)` parsing, NaN passing the range check, and rounding in the average. Grades are exact reals, and a non-numeric grade is the `Malformed` input.
- Database.SelectSubjects: visits the selected subjects in first-request order. The query has no `ORDER BY`, so the database may return another order (commonly ascending key). Every lemma about `EnrollLoop` holds for whatever order the loop visits.
- Views.FirstEnrollment: writes the earliest matching enrollment when a student has several in the subject. The source raises `MultipleObjectsReturned` there, after the earlier items of the request are already saved.
- The bulk-grading items are modelled as (student key, grade) pairs. A missing `grade` key (a `KeyError`) and `student_id` arriving as a float from the `DictField` are left out.
- Transactions and concurrent requests are left out. Each operation runs alone against the store.
- Views.GradeSubject: models the evident intent, validation and then the writes. As written, `GradeSerializer` (api/serializer.py:91-109) is a `ModelSerializer` without a `Meta` class, so `is_valid()` raises an assertion error, which is a server error, before `validate` runs. Every `grade_subject` request then fails with nothing written.
- Views.Enroll: models `student.subjects.add(subject)` as creating an ungraded enrollment. As written, `Student` has no `subjects` attribute (api/models.py:12-37), so this line at api/views.py:180 raises `AttributeError`. An enroll request whose first selected subject is eligible then ends in a server error with nothing added. A request that fails the id, student or first prerequisite check answers as modelled.
- api/views.py:7 imports `UserRegisterSerializer`, which api/serializer.py never defines. As written, importing the views module fails. The model assumes the module loads.

Non-atomic enrollment and the missing range check in bulk grading are
modelled as the code behaves. `Eligibility.EnrollLoopOutcome` and
`Views.BulkGradingSkipsRangeCheck` exhibit them.
