# Classroom dashboard core, modelled in Dafny

This project models the computational core of an administrative web dashboard for an educational program. The dashboard manages classrooms, rosters, activities and attendance, project deliveries, grading, and meetings synchronised from Zoom. It is written in TypeScript with React and a hosted backend.

The model covers these parts:

- **Home dashboard.** The analytics of the classroom home page:
  - weekly attendance and pendency percentages with their trends;
  - the active project;
  - the ranked lists of consecutive absences and consecutive pendencies.
- **Shared utilities:**
  - the percentage, trend and date-window arithmetic;
  - presence by class type and the Coodesh grade lookup.
- **Activities feature:**
  - status maps, validators, submission rate, summary, sorts, filters and CSV;
  - the submission-status rule and the justification map updates;
  - the status grid, the table row and the table cell;
  - pagination and the pagination bar.
- **Layout:**
  - the grouped table header of the classroom overview;
  - the breadcrumb of the app bar;
  - the sidebar navigation and the path labels.
- **Authentication:**
  - the reset-password policy;
  - the resend-confirmation cooldown;
  - the decision sequence that handles confirmation links.
- **Cached lists.** The in-memory lists kept by the context modules:
  - Zoom meetings and their past instances;
  - classrooms;
  - user–classroom links;
  - the admin user/profile join.

Backend queries, the Zoom API, React state, timers and storage are not part of the model. Their answers are **parameters**: an `Option` that is `None` when the call fails, a `bool` for a yes/no answer, and a value of the returned shape otherwise.

Each core source file is one module:

- **Pure code.** Datatypes and functions, with lemmas relating them.
- **Code that changes state step by step.** Loops become `while` loops with invariants, proved against a specification function.
- **Handlers.** A handler that updates a cached list becomes a method of a class whose field is that list.
- **In-place sort.** The sidebar sorts its input array in place, so there the model keeps the `array`.

Numbers are handled as follows:

- Percentages are exact `real` arithmetic. JavaScript `Math.round` is `RoundHalfUp` (floor of x + 1/2).
- Times are integer milliseconds on a uniform local time line. Day 0 (the epoch) is a Thursday.
- Text is `seq<char>`. The length the password policy counts is the number of UTF-16 code units.

Shared helpers:

- `Seqs`: filter, count, stable insertion sort, replace-where.
- `Strings`: split, join, trim, order and so on.
- `Streaks`: the longest run of misses in a sequence of booleans.

The modules `ActivityTypes`, `ClassroomTypes` and `AuthTypes` hold the record types.

## Model

| member | source | states |
|---|---|---|
| MathUtils.RoundHalfUp | src/utils/math-utils.ts:3 | `Math.round` on exact values: the result is the integer within [x − 1/2, x + 1/2) |
| MathUtils.Percentage | src/utils/math-utils.ts:1-4 | 0 when the denominator is 0; otherwise the integer nearest to n·100/d, with halves rounded up |
| MathUtils.PercentageBounds | src/utils/math-utils.ts:1-4 | for 0 ≤ n ≤ d the percentage lies in [0, 100] |
| MathUtils.PercentageOfWhole | src/utils/math-utils.ts:3 | d of d is 100 and 0 of d is 0 |
| MathUtils.Trend | src/utils/math-utils.ts:6-9 | 0 when the previous value is 0; otherwise a multiple of 0.1 within 0.05 of c − p |
| MathUtils.TrendOfSame | src/utils/math-utils.ts:8 | the trend of a value against itself is 0 |
| MathUtils.AttendancePercentage | src/utils/math-utils.ts:11-23 | 0 for no meetings; otherwise (total participants)·100 / (meetings × students), with a missing participant list counting 0 |
| MathUtils.AttendanceBounds | src/utils/math-utils.ts:17-22 | when no meeting has more participants than students, the attendance percentage is in [0, 100] |
| DateUtils.WeekDay | src/utils/date-utils.ts:2 | `getDay()` is a weekday number in 0..6 |
| DateUtils.Midnight | src/utils/date-utils.ts:3 | local midnight is the start of the day that contains the instant |
| DateUtils.WeekStartAndEnd | src/utils/date-utils.ts:1-6 | the start is a Sunday midnight no later than the date and less than 7 days before it; the end is 6 days after the start |
| DateUtils.PreviousWeekStartAndEnd | src/utils/date-utils.ts:8-14 | the previous week starts exactly 7 days before the current start and ends 6 days after its own start |
| DateUtils.InRangeInclusive | src/utils/date-utils.ts:16-18 | both bounds are inside the range and their outer neighbours are not |
| DateUtils.LateSaturdayOutsideOwnWeek | src/utils/date-utils.ts:3-4 | an instant after midnight on a Saturday is outside its own week's range, because the end is Saturday 00:00 |
| DateUtils.OwnWeekContains | src/utils/date-utils.ts:2-4 | every other instant is inside its own week's range |
| DateUtils.PreviousWeekBefore | src/utils/date-utils.ts:8-13 | every instant of the previous week is before every instant of the current week, and the previous week starts on a Sunday |
| Streaks.LongestRun | src/app/actions/classrooms/home-dashboard.ts:378-392 | the streak counter's result is at least the run still open at the end and at most the number of events |
| Streaks.LongestRunIsUpperBound | src/app/actions/classrooms/home-dashboard.ts:378-392 | no run of consecutive misses is longer than the streak |
| Streaks.LongestRunIsAttained | src/app/actions/classrooms/home-dashboard.ts:378-392 | some run of consecutive misses is exactly as long as the streak |
| Streaks.LongestRunAllMisses | src/app/actions/classrooms/home-dashboard.ts:463-479 | when every event is a miss, the streak is the number of events |
| Streaks.ExtendRun | src/app/actions/classrooms/home-dashboard.ts:383-388 | one loop step: a miss extends the current run and a hit resets it to 0; the maximum absorbs the current run |
| HomeDashboard.ProcessedStudents | src/app/actions/classrooms/home-dashboard.ts:341-344 | exactly the roster rows that have a profile become students |
| HomeDashboard.ProcessedStudentsOrder | src/app/actions/classrooms/home-dashboard.ts:341-344 | the roster lists the rows with a profile in their original order: its k-th student is the k-th such row, and no other row appears |
| HomeDashboard.AbsenceMisses | src/app/actions/classrooms/home-dashboard.ts:379-381 | one entry per meeting: a miss exactly when no participant matches the student's id or email |
| HomeDashboard.AbsenceStreakIsLongestRun | src/app/actions/classrooms/home-dashboard.ts:370-399 | every run of meetings the student missed is at most the absence streak; the streak is at most the number of meetings; some run attains the streak |
| HomeDashboard.AnalyzeStudentAttendance | src/app/actions/classrooms/home-dashboard.ts:370-399 | the counting loop returns the longest run of missed meetings, so a run still open at the end counts |
| HomeDashboard.RankAbsences | src/app/actions/classrooms/home-dashboard.ts:134-142 | keeps exactly the streaks ≥ 2 (as a permutation of them) and sorts them by streak, descending |
| HomeDashboard.RankPendencies | src/app/actions/classrooms/home-dashboard.ts:211-224 | keeps exactly the pendency streaks ≥ 2 (as a permutation of them) and sorts them by streak, descending |
| HomeDashboard.StudentsWithConsecutiveAbsences | src/app/actions/classrooms/home-dashboard.ts:124-148 | empty when the roster or the meeting list is empty; otherwise the ranked absence of each student |
| HomeDashboard.DeliveredSetMembership | src/app/actions/classrooms/home-dashboard.ts:448-458 | a project is in a member's delivered set exactly when some delivery of that project lists the member |
| HomeDashboard.BuildDeliveryMap | src/app/actions/classrooms/home-dashboard.ts:448-458 | the map built in place has a key for exactly the user ids that some delivery mentions, each mapped to that member's delivered set |
| HomeDashboard.PendencyMisses | src/app/actions/classrooms/home-dashboard.ts:467-470 | one entry per ended project: a miss exactly when the project is not in the student's delivered set |
| HomeDashboard.UnlistedStudentPendsEverything | src/app/actions/classrooms/home-dashboard.ts:462-479 | a student whose user id no delivery mentions has a streak equal to the number of ended projects |
| HomeDashboard.PendencyStreakIsLongestRun | src/app/actions/classrooms/home-dashboard.ts:430-487 | every run of ended projects that the student delivered none of is at most the pendency streak, which is at most the number of projects |
| HomeDashboard.PendencyStreak | src/app/actions/classrooms/home-dashboard.ts:463-479 | the counting loop returns the longest run of undelivered projects |
| HomeDashboard.AnalyzeStudentDeliveries | src/app/actions/classrooms/home-dashboard.ts:430-487 | empty without students or without projects (435-437); otherwise one pendency per student, in roster order |
| HomeDashboard.EndedProjects | src/app/actions/classrooms/home-dashboard.ts:401-428 | at most 10 entries, each taken from the first 10 project rows and having an end date strictly before now |
| HomeDashboard.EndedProjectsSpec | src/app/actions/classrooms/home-dashboard.ts:401-428 | the answer lists exactly the ended rows among the first 10, in their order: one entry per such row, at increasing positions, and every ended row among the first 10 is listed |
| HomeDashboard.EndedLimitBeforeFilter | src/app/actions/classrooms/home-dashboard.ts:411-423 | the limit comes before the date filter: ten open projects hide an ended eleventh |
| HomeDashboard.FilterProjectsByDeadlineWeek | src/app/actions/classrooms/home-dashboard.ts:233-244 | a project is kept exactly when it has an end date inside the week's inclusive range |
| HomeDashboard.FindActiveProject | src/app/actions/classrooms/home-dashboard.ts:296-309 | None exactly when no project is in progress; otherwise the first project, in input order, that has both bounds and whose [start, end] contains now |
| HomeDashboard.ActiveProject | src/app/actions/classrooms/home-dashboard.ts:151-198 | None when the roster count is 0 or no project is active; otherwise the project's id, title and module with fallbacks, its delivery percentage, and pending = students − delivered |
| HomeDashboard.PendingNotClamped | src/app/actions/classrooms/home-dashboard.ts:186 | pending deliveries can be negative: one student with two deliveries gives −1 |
| HomeDashboard.ParticipantLists | src/app/actions/classrooms/home-dashboard.ts:49-59 | the participant list of each meeting, in order |
| HomeDashboard.WeeklyAttendance | src/app/actions/classrooms/home-dashboard.ts:13-68 | {0, 0} when the roster count is 0 (26-28); otherwise the rounded attendance of the current week, and the trend against the previous week |
| HomeDashboard.WeeklyAttendanceBounds | src/app/actions/classrooms/home-dashboard.ts:49-59 | the weekly attendance percentage is in [0, 100] when no meeting has more participants than students |
| HomeDashboard.WeeklyAttendanceNoPreviousWeek | src/app/actions/classrooms/home-dashboard.ts:49-59 | with no meeting in the previous week the trend is 0 |
| HomeDashboard.WeekPendencyBounds | src/app/actions/classrooms/home-dashboard.ts:274-281 | without deliveries a week with projects is 100 % pending, and the pendency is in [0, 100] while deliveries do not exceed the expected ones |
| HomeDashboard.CalculateWeeklyPendencies | src/app/actions/classrooms/home-dashboard.ts:246-294 | the counting map and the two reduce sums give the percentage of (expected − actual) over expected for each week |
| HomeDashboard.SumCounts | src/app/actions/classrooms/home-dashboard.ts:275-277 | summing the per-project counts read from the map (missing is 0) gives the week's actual deliveries |
| HomeDashboard.WeeklyPendencies | src/app/actions/classrooms/home-dashboard.ts:71-121 | {0, 0} without students (84-86) or without projects (95-97); otherwise the current week's pendency and its trend against the previous week |
| HomeDashboard.StudentsWithConsecutivePendencies | src/app/actions/classrooms/home-dashboard.ts:201-228 | empty when the roster or the ended-project list is empty; otherwise the ranked pendencies of the students |
| PresenceByType.Distinct | src/utils/calculate-presence-by-type.ts:13-19 | the group keys in order of first appearance: exactly the keys of the input |
| PresenceByType.DistinctNoRepeats | src/utils/calculate-presence-by-type.ts:13-19 | no key is listed twice |
| PresenceByType.Keys | src/utils/calculate-presence-by-type.ts:14 | each instance's key is its class type, or "undefined" when the type is missing |
| PresenceByType.GroupByType | src/utils/calculate-presence-by-type.ts:13-19 | the accumulator built in place has exactly the keys that occur, and each group holds all instances of its key, in order |
| PresenceByType.AddToGroup | src/utils/calculate-presence-by-type.ts:14-18 | a key seen for the first time gets an empty group and joins the key order; the instance is then appended to its own group and every other group is left as it was |
| PresenceByType.GroupNonEmpty | src/utils/calculate-presence-by-type.ts:13-19 | every group that exists has at least one instance |
| PresenceByType.PresenceOf | src/utils/calculate-presence-by-type.ts:22-34 | a type's presence is a percentage in [0, 100] |
| PresenceByType.PercentageOf | src/utils/calculate-presence-by-type.ts:22-34 | the counting loop counts an instance once when some participant's user id is the student's (email unused) and rounds attended/total·100 |
| PresenceByType.LastGeneralKey | src/utils/calculate-presence-by-type.ts:36-48 | None exactly when every key is programming, english or soft-skills; otherwise a key that is none of them |
| PresenceByType.Switch | src/utils/calculate-presence-by-type.ts:36-48 | the three named types write their own fields; every other key, community included, writes `general` |
| PresenceByType.CalculatePresenceByType | src/utils/calculate-presence-by-type.ts:5-49 | starting from four zeros, the loop assigns each group's presence in order of first appearance, so the last general key wins |
| PresenceByType.PresenceFields | src/utils/calculate-presence-by-type.ts:5-10 | all four fields are in [0, 100]; the programming field stays 0 without programming instances, and general stays 0 when only named types occur |
| CoodeshGrades.FindByEmail | src/utils/get-student-coodesh-grades.ts:9-12 | the first participant whose email is the student's, or None when there is none |
| CoodeshGrades.GradeOf | src/utils/get-student-coodesh-grades.ts:8-19 | None without participant data or without a matching participant; a grade is never 0 |
| CoodeshGrades.GradeOfSpec | src/utils/get-student-coodesh-grades.ts:8-19 | the grade is s exactly when the first participant with the student's email has a non-empty `results` whose first `assessmentScore` is s, and s is not 0 |
| CoodeshGrades.ZeroScoreNoGrade | src/utils/get-student-coodesh-grades.ts:16-17 | a score of 0 is falsy and produces no entry |
| CoodeshGrades.GradesSpec | src/utils/get-student-coodesh-grades.ts:5-33 | a key is in the result exactly when some assessment with that key has a grade; its value is the grade of the last such assessment |
| CoodeshGrades.GetStudentCoodeshGrades | src/utils/get-student-coodesh-grades.ts:2-36 | the dictionary filled in the loop is the grade map above; the student id is never consulted |
| ActivitiesUtils.StatusMapsInjective | src/features/activities/utils/activities.utils.ts:17-36 | the display name and the colour are defined for E, F and PJ, are non-empty, and tell the statuses apart |
| ActivitiesUtils.ClassTypeMapsInjective | src/features/activities/utils/activities.utils.ts:41-62 | the class-type labels and colours tell the types apart |
| ActivitiesUtils.IndexOf | src/features/activities/utils/activities.utils.ts:68 | the position of the first '@', or None when there is none |
| ActivitiesUtils.ValidateEmailIff | src/features/activities/utils/activities.utils.ts:67-70 | accepted exactly when the text is non-empty run, '@', non-empty run, '.', non-empty run, where no run has white space or '@' |
| ActivitiesUtils.ValidateScore | src/features/activities/utils/activities.utils.ts:72-74 | true exactly when the score is a number (not NaN) in [0, 10] |
| ActivitiesUtils.CalculateSubmissionRate | src/features/activities/utils/activities.utils.ts:106-108 | 0 when total ≤ 0; otherwise submitted/total·100 rounded to two decimals |
| ActivitiesUtils.SubmissionRateBounds | src/features/activities/utils/activities.utils.ts:106-108 | for 0 ≤ submitted ≤ total the rate is in [0, 100] |
| ActivitiesUtils.SubmissionRateColor | src/features/activities/utils/activities.utils.ts:110-114 | green exactly for rate ≥ 80, yellow exactly for 60 ≤ rate < 80, red exactly below 60 |
| ActivitiesUtils.StatusCountsPartition | src/features/activities/utils/activities.utils.ts:116-130 | the E, F and PJ counts add up to the number of statuses |
| ActivitiesUtils.GenerateSubmissionSummary | src/features/activities/utils/activities.utils.ts:116-130 | total is the input length; submitted, missing and justified are the E, F and PJ counts and partition the total; the rate is in [0, 100] |
| ActivitiesUtils.ByStatusThenNameTotal | src/features/activities/utils/activities.utils.ts:132-149 | the comparator orders any two entries one way or the other |
| ActivitiesUtils.SortStudentsByStatus | src/features/activities/utils/activities.utils.ts:132-149 | a permutation of the input ordered E < PJ < F, then by name |
| ActivitiesUtils.SortStudentsByName | src/features/activities/utils/activities.utils.ts:151-153 | a permutation of the input ordered by name |
| ActivitiesUtils.FilterByStatus | src/features/activities/utils/activities.utils.ts:158-160 | keeps exactly the entries with that status; its length is their count |
| ActivitiesUtils.FilterBySearch | src/features/activities/utils/activities.utils.ts:162-168 | keeps exactly the entries whose lower-cased name or email contains the lower-cased term |
| ActivitiesUtils.FilterBySearchEmpty | src/features/activities/utils/activities.utils.ts:162-168 | the empty term keeps every entry |
| ActivitiesUtils.CsvLines | src/features/activities/utils/activities.utils.ts:173-186 | the header followed by one line per status, in order |
| ActivitiesUtils.CSVContentLines | src/features/activities/utils/activities.utils.ts:173-186 | splitting the CSV text at '\n' gives back the header and the row of each status, when no row contains a line break |
| ActivitiesUtils.ActivityRoute | src/features/activities/utils/activities.utils.ts:199-202 | the activities route of the classroom, followed by "/" and the id when an id is given and non-empty |
| Submissions.StudentOf | src/app/actions/classrooms/activities/get-submissions.ts:23-31 | id and email come from the profile; the name is the full name, or the email when the full name is missing or empty |
| Submissions.Students | src/app/actions/classrooms/activities/get-submissions.ts:20-32 | rows without a profile are skipped; every other row yields its student, and only those students appear |
| Submissions.StudentsAllProfiles | src/app/actions/classrooms/activities/get-submissions.ts:20-32 | when every row has a profile, the students are the rows' students in roster order |
| Submissions.StudentStatus | src/app/actions/classrooms/activities/get-submissions.ts:68-91 | E exactly when the email is among the participants; PJ exactly when it is not but has a justification; F otherwise. The justification is attached exactly when one exists, even for E, and submitted_at is set exactly for E |
| Submissions.GetSubmissionStatusByActivity | src/app/actions/classrooms/activities/get-submissions.ts:41-98 | fails exactly when the activity or the roster fails; otherwise one status per student, in roster order |
| Submissions.GetActivitySubmissionSummary | src/app/actions/classrooms/activities/get-submissions.ts:114-126 | fails exactly when the statuses fail; otherwise the summary of the statuses |
| Submissions.StatusCountsOfRoster | src/app/actions/classrooms/activities/get-submissions.ts:68-79 | the E count is the number of students who delivered, and the PJ count the number of justified students who did not |
| Submissions.SummaryOfActivity | src/app/actions/classrooms/activities/get-submissions.ts:114-126 | the summary of an activity counts the whole roster as total, the deliverers as submitted, the justified as justified, and the rest as missing |
| Justifications.AddJustification | src/app/actions/classrooms/activities/manage-justifications.ts:35-43 | sets the email's entry, overwriting any existing one, with created_by defaulting to "system"; a null map counts as empty and the other keys are unchanged |
| Justifications.UpdateJustification | src/app/actions/classrooms/activities/manage-justifications.ts:80-95 | fails exactly when the email has no entry (82-84); otherwise it keeps the keys and created_at, replaces reason and created_by, and sets updated_at |
| Justifications.RemoveJustification | src/app/actions/classrooms/activities/manage-justifications.ts:131-140 | deletes only that key from a copy; stores null when no key remains |
| Justifications.GetActivityJustifications | src/app/actions/classrooms/activities/manage-justifications.ts:155-173 | fails exactly when the fetch fails; otherwise the map, with null read as empty |
| Justifications.GetJustificationByUserEmail | src/app/actions/classrooms/activities/manage-justifications.ts:175-188 | the email's entry, or null when the fetch fails or there is none |
| Justifications.GetAfterAdd | src/app/actions/classrooms/activities/manage-justifications.ts:35-43 | reading back an email just added gives the new entry |
| Justifications.RemoveAfterAdd | src/app/actions/classrooms/activities/manage-justifications.ts:131-140 | apart from the email's own key, add changes nothing |
| Justifications.UpdateAfterAdd | src/app/actions/classrooms/activities/manage-justifications.ts:80-95 | an update after an add keeps the add's created_at, takes the new reason and author, and leaves the other keys as they were |
| Justifications.UpdateTwice | src/app/actions/classrooms/activities/manage-justifications.ts:80-95 | a second update overrides the first: updating twice equals updating once with the second values |
| Justifications.AddedStudentIsNotMissing | src/app/actions/classrooms/activities/manage-justifications.ts:35-43 | after a justification is added, the student's status is no longer F; it is PJ exactly when the student did not deliver, and it carries the new justification |
| Justifications.RemoveKeepsOthers | src/app/actions/classrooms/activities/manage-justifications.ts:131-140 | removing one email's justification leaves every other student's status unchanged |
| ActivitiesTableHook.Row | src/features/activities/hooks/use-activities-table.ts:40-72 | one status per activity, each given by the submission-status rule |
| ActivitiesTableHook.GridIndex | src/features/activities/hooks/use-activities-table.ts:38-74 | the grid has students × activities cells, in student-major order, each given by the same status rule |
| ActivitiesTableHook.GridEmpty | src/features/activities/hooks/use-activities-table.ts:36 | no students or no activities gives an empty grid |
| ActivitiesTableHook.SubmissionStatuses | src/features/activities/hooks/use-activities-table.ts:35-75 | the nested loops push exactly the grid, empty when either list is empty |
| ActivitiesTableHook.JustifyReason | src/features/activities/hooks/use-activities-table.ts:106-110 | nothing is passed on for a null or whitespace-only reason; otherwise the trimmed reason, which is non-empty with no white space at either end |
| ActivitiesTableHook.FindActivity | src/features/activities/hooks/use-activities-table.ts:121 | the first activity with the id, or None when there is none |
| ActivitiesTableHook.ExistingJustification | src/features/activities/hooks/use-activities-table.ts:121-129 | present exactly when the activity exists and has an entry for the email |
| ActivitiesTableHook.EditReason | src/features/activities/hooks/use-activities-table.ts:117-140 | no edit without an existing justification (127-132); otherwise the same trimmed-reason guard as justify |
| ActivitiesTableRow.SortedActivities | src/features/activities/components/activities-table/activities-table-row.tsx:23-29 | a permutation of the activities, newest created_at first |
| ActivitiesTableRow.FirstOfStudent | src/features/activities/components/activities-table/activities-table-row.tsx:32-35 | the first status whose student id matches, or None |
| ActivitiesTableRow.StatusForActivityAsWritten | src/features/activities/components/activities-table/activities-table-row.tsx:31-70 | as written: None when the activity is unknown; otherwise the student's first status whatever its activity, with the fallback rule only when the student has no status |
| ActivitiesTableRow.AsWrittenShowsFirstActivity | src/features/activities/components/activities-table/activities-table-row.tsx:32-39 | a student who delivered the first activity and missed the second is shown as having delivered the second |
| ActivitiesTableRow.StatusForActivity | src/features/activities/components/activities-table/activities-table-row.tsx:41-70 | None exactly when no activity has the id; otherwise a status of this student |
| ActivitiesTableRow.StatusForActivityIsGridCell | src/features/activities/components/activities-table/activities-table-row.tsx:41-58 | for a known activity, the shown status is the grid cell of that student and activity |
| ActivitiesTableRow.RowCellsAsWritten | src/features/activities/components/activities-table/activities-table-row.tsx:89-106 | as written: one cell per sorted activity, each the as-written lookup for that activity's id |
| ActivitiesTableRow.RowCellsAsWrittenAllFirst | src/features/activities/components/activities-table/activities-table-row.tsx:89-106 | as written: with the student's own row of statuses, every cell shows the status of the first activity |
| ActivitiesTableRow.IntendedRowCells | src/features/activities/components/activities-table/activities-table-row.tsx:89-106 | intended: one cell per sorted activity, each the corrected lookup for that activity |
| ActivitiesTableRow.RowCellsPresent | src/features/activities/components/activities-table/activities-table-row.tsx:89-106 | intended: every cell of the row has a status |
| ActivitiesTableCell.GetStatusDisplay | src/features/activities/components/activities-table/activities-table-cell.tsx:26-72 | a null status shows "F" with the justify button; E shows no button, PJ only the edit button, F the justify button |
| ActivitiesTableCell.PencilClick | src/features/activities/components/activities-table/activities-table-cell.tsx:119-125 | justify exactly when the justify button shows; edit when it does not and an edit handler exists |
| ActivitiesTableCell.CellAction | src/features/activities/components/activities-table/activities-table-cell.tsx:87-125 | null and F lead to justify, E to nothing, PJ to edit exactly when there is an edit handler and never to justify |
| Pagination.TotalPages | src/features/activities/hooks/use-pagination.ts:17-18 | ceil(totalItems / pageSize): 0 exactly for no items, the smallest page count that covers the items |
| Pagination.JsSlice | src/features/activities/hooks/use-pagination.ts:20-32 | `Array.prototype.slice` semantics: the sub-sequence within bounds, empty past the end, never longer than the input |
| Pagination.PageItemsSpec | src/features/activities/hooks/use-pagination.ts:20-32 | the page holds items [(p−1)·s, min(p·s, n)), empty past the end, and at most pageSize items |
| Pagination.FirstPagesPrefix | src/features/activities/hooks/use-pagination.ts:20-32 | the first k pages, concatenated, are the first k·s items |
| Pagination.PagesCoverItems | src/features/activities/hooks/use-pagination.ts:17-32 | all pages, concatenated, give back exactly the item list |
| Pagination.PaginationState.constructor | src/features/activities/hooks/use-pagination.ts:10-15 | page 1 with the given page size (default 20) |
| Pagination.PaginationState.PaginatedItems | src/features/activities/hooks/use-pagination.ts:20-32 | the slice of the current page, at most pageSize items |
| Pagination.PaginationState.HandlePageChange | src/features/activities/hooks/use-pagination.ts:34-43 | the page is taken exactly when 1 ≤ page ≤ totalPages; otherwise nothing changes; the size never changes |
| Pagination.PaginationState.HandlePageSizeChange | src/features/activities/hooks/use-pagination.ts:45-48 | sets the size and resets the page to 1 |
| Pagination.PaginationState.ResetPagination | src/features/activities/hooks/use-pagination.ts:50-52 | the page goes back to 1 and the size is kept |
| Pagination.NoPageWithoutItems | src/features/activities/hooks/use-pagination.ts:34-43 | with no items, no page is accepted |
| ActivitiesPagination.ItemRange | src/features/activities/components/pagination/activities-pagination.tsx:47-52 | nothing is rendered exactly when there are no items; otherwise start = (p−1)·s + 1 and end = min(p·s, totalItems) |
| ActivitiesPagination.ItemRangeMatchesPage | src/features/activities/components/pagination/activities-pagination.tsx:51-52 | for a valid page, 1 ≤ start ≤ end ≤ n, and the range counts exactly the items of that page |
| ActivitiesPagination.RenderPageNumbers | src/features/activities/components/pagination/activities-pagination.tsx:54-70 | the loop and the three fixed patterns give the page window: 1..N when N ≤ 5; else [1,2,3,4,…,N] for p ≤ 3, [1,…,N−3..N] for p ≥ N−2, [1,…,p−1,p,p+1,…,N] otherwise |
| ActivitiesPagination.WindowSmall | src/features/activities/components/pagination/activities-pagination.tsx:58-61 | with at most five pages the window is exactly 1..totalPages |
| ActivitiesPagination.WindowWellFormed | src/features/activities/components/pagination/activities-pagination.tsx:62-69 | the window has at most 7 entries, starts at page 1 and ends at the last page, and its buttons are real pages in strictly increasing order |
| ActivitiesPagination.WindowShowsCurrent | src/features/activities/components/pagination/activities-pagination.tsx:54-70 | the current page always has a button |
| ActivitiesPagination.PageChangeGuard.constructor | src/features/activities/components/pagination/activities-pagination.tsx:31 | no change is in progress at first |
| ActivitiesPagination.PageChangeGuard.HandlePageChange | src/features/activities/components/pagination/activities-pagination.tsx:35-44 | a different page while idle is forwarded and marks a change in progress; the same page, or any page during a change, is ignored |
| ActivitiesPagination.PageChangeGuard.TimerElapsed | src/features/activities/components/pagination/activities-pagination.tsx:42 | the timer ends the change in progress |
| DataTable.HeaderName | src/features/classroom-overview/components/data-table.tsx:61 | the header when it is a string, else the column id |
| DataTable.GetColumnGroups | src/features/classroom-overview/components/data-table.tsx:51-126 | the forEach loop over the columns produces exactly the groups of the step-wise definition |
| DataTable.Visit | src/features/classroom-overview/components/data-table.tsx:58-122 | one iteration: a prefixed column joins the current group when it has the same kind, or else opens a new one; any other column is a group of its own and clears the current group |
| DataTable.ColspanIsColumnCount | src/features/classroom-overview/components/data-table.tsx:75-118 | every group's colspan equals its number of columns |
| DataTable.GroupsCoverColumns | src/features/classroom-overview/components/data-table.tsx:58-123 | the groups' columns, concatenated, are the input column ids in their original order, each exactly once |
| DataTable.ColspansSumToColumns | src/features/classroom-overview/components/data-table.tsx:58-123 | the colspans add up to the number of columns |
| DataTable.Labels | src/features/classroom-overview/components/data-table.tsx:66-116 | the label of each group, in order |
| DataTable.ColumnLabels | src/features/classroom-overview/components/data-table.tsx:64-116 | the label that each column's kind calls for, in order |
| DataTable.GroupsAreMaximalRuns | src/features/classroom-overview/components/data-table.tsx:64-122 | a run of consecutive columns of one prefixed kind becomes one group, and every other column becomes its own unlabelled group |
| DataTable.AdjacentLabelsDiffer | src/features/classroom-overview/components/data-table.tsx:64-122 | two neighbouring groups never carry the same label, so the groups are maximal |
| DataTable.StepShape | src/features/classroom-overview/components/data-table.tsx:64-122 | one step: a plain column adds an unlabelled group of colspan 1; a prefixed column extends the open group of its kind or opens a labelled one; its header is recorded when non-empty |
| AppBar.Segments | src/components/shared/app-bar.tsx:26 | the path split on '/' with empty parts dropped: every segment is non-empty and has no '/' |
| AppBar.SegmentsOfPath | src/components/shared/app-bar.tsx:26 | splitting a path built from '/'-free segments gives the segments back |
| AppBar.RoleAndPartsOfPath | src/components/shared/app-bar.tsx:26-30 | for /dashboard/role/parts…, role is the second segment and parts are the segments from index 2 |
| AppBar.PartLabel | src/components/shared/app-bar.tsx:36-41 | the label for "all" is read under "all_" + the previous part, any other part is read under itself; a missing or empty label falls back to the part |
| AppBar.Greeting | src/components/shared/app-bar.tsx:48 | the greeting of the home item is never empty |
| AppBar.BreadcrumbItems | src/components/shared/app-bar.tsx:33-52 | the reduce gives 1 + parts items: "Inicio" at /dashboard/role first, then one item per part |
| AppBar.HrefExtends | src/components/shared/app-bar.tsx:35 | each part's href is the previous item's href followed by '/' and the part |
| AppBar.HrefLeadsToPrefix | src/components/shared/app-bar.tsx:35 | parsing the href of item i+1 gives back the role and parts[0..i] |
| AppBar.Title | src/components/shared/app-bar.tsx:54-56 | the last item's title when it is non-empty, else its label |
| AppBar.TitleOfBreadcrumb | src/components/shared/app-bar.tsx:33-56 | the greeting is the title when there are no parts; otherwise the last part's label is; they coincide only when that label equals the greeting |
| SidebarData.ByCreatedAtTotal | src/utils/sidebar-data.tsx:18 | the created_at comparison orders any two classrooms one way or the other |
| SidebarData.ClassroomUrlInjective | src/utils/sidebar-data.tsx:22 | different classroom ids give different urls |
| SidebarData.Entry | src/utils/sidebar-data.tsx:19-33 | title = name, ref = id, url = /dashboard/admin/classrooms/{id}, icon = icons[period] when there is one, and exactly the two items at /attendance and /projects |
| SidebarData.EntryLinksUnderPage | src/utils/sidebar-data.tsx:24-33 | both item urls lie under the classroom's url |
| SidebarData.SortByCreatedAt | src/utils/sidebar-data.tsx:17-18 | the input array is sorted in place: a permutation ordered by created_at |
| SidebarData.CreateClassroomNavigation | src/utils/sidebar-data.tsx:7-35 | sorts the array in place and returns one entry per classroom, in the sorted order |
| SidebarData.CreateSidebarData | src/utils/sidebar-data.tsx:37-57 | user and role as given, team "Administrador", empty navMain and projects, and the classroom navigation |
| SidebarData.NavigationOrder | src/utils/sidebar-data.tsx:17-23 | in the navigation, earlier entries were created no later, and two entries share a url exactly when they share an id |
| PathLabels.FromEntries | src/utils/path-labels/create-path-labels.ts:6 | the keys are the classroom ids, and each id maps to the name of its last classroom |
| PathLabels.CreatePathLabels | src/utils/path-labels/create-path-labels.ts:4-7 | the keys are the base keys plus the classroom ids; classroom entries override the base, and the other base keys keep their labels |
| PathLabels.ClassroomLabel | src/utils/path-labels/create-path-labels.ts:4-7 | every classroom id maps to its name, the last duplicate winning |
| PathLabels.AppendClassroom | src/utils/path-labels/create-path-labels.ts:4-7 | adding a classroom at the end sets its id to its name and changes nothing else |
| ResetPassword.PatternIsPolicy | src/features/auth/components/reset-password-form.tsx:32-35 | the pattern matches exactly the non-empty passwords made of [A-Za-z0-9@$!%*?&] that contain a lower-case letter, an upper-case letter, a digit and a special character |
| ResetPassword.Utf16Length | src/features/auth/components/reset-password-form.tsx:31 | the length the minimum checks is at least the character count, and equals it for passwords of allowed characters |
| ResetPassword.Validate | src/features/auth/components/reset-password-form.tsx:27-41 | each issue is reported exactly when its rule fails: fewer than 8, the pattern, empty confirmation, and a mismatch reported on the confirmPassword path |
| ResetPassword.ValidIff | src/features/auth/components/reset-password-form.tsx:27-41 | the form validates exactly when the password has at least 8 characters, meets the policy, and equals the confirmation |
| ResetPassword.OnSubmit | src/features/auth/components/reset-password-form.tsx:63-82 | the update is sent exactly when there is a user; success exactly when it is also accepted, a root error otherwise |
| ResendConfirmation.Pad2 | src/features/auth/components/resend-confirmation-form.tsx:186 | `padStart(2, "0")`: short strings get leading zeros up to two characters, longer ones are kept |
| ResendConfirmation.FormatTimeReadsBack | src/features/auth/components/resend-confirmation-form.tsx:183-187 | the text is digits, ':' and two digits below 60 that read back as 60·minutes + seconds |
| ResendConfirmation.InitialEmail | src/features/auth/components/resend-confirmation-form.tsx:84-94 | the query email first, then the hash, then storage; empty exactly when all three are missing or empty |
| ResendConfirmation.Remaining | src/features/auth/components/resend-confirmation-form.tsx:108-111 | max(0, floor((endTime − now)/1000)) in whole seconds |
| ResendConfirmation.RemainingAfterStart | src/features/auth/components/resend-confirmation-form.tsx:108-113 | after a start the restored value is at most 120, is 120 at once, and stays positive for 119 seconds |
| ResendConfirmation.TickValue | src/features/auth/components/resend-confirmation-form.tsx:128-139 | a tick takes a positive cooldown down by 1, stopping at 0; a cooldown ≤ 0 does not tick |
| ResendConfirmation.TicksCountDown | src/features/auth/components/resend-confirmation-form.tsx:127-143 | after k ticks the cooldown is c − k, or 0 once k ≥ c |
| ResendConfirmation.ResendBlockedForCooldown | src/features/auth/components/resend-confirmation-form.tsx:145-152 | a started cooldown reaches 0 after exactly 120 ticks |
| ResendConfirmation.ResendForm.constructor | src/features/auth/components/resend-confirmation-form.tsx:41-53 | an empty form with cooldown 0 over the given storage |
| ResendConfirmation.ResendForm.LoadInitialEmail | src/features/auth/components/resend-confirmation-form.tsx:66-98 | a non-empty initial email becomes both the field and the last sent email; otherwise nothing changes |
| ResendConfirmation.ResendForm.LoadCooldown | src/features/auth/components/resend-confirmation-form.tsx:100-125 | restores the remaining seconds only when they are > 0 and the stored email is the current one; otherwise a stored entry is removed |
| ResendConfirmation.ResendForm.Tick | src/features/auth/components/resend-confirmation-form.tsx:130-139 | the cooldown ticks down, and storage is cleared when it reaches 0 |
| ResendConfirmation.ResendForm.StartCooldown | src/features/auth/components/resend-confirmation-form.tsx:145-153 | cooldown 120, endTime = now + 120000 stored with the email, and the pending email stored |
| ResendConfirmation.ResendForm.OnSubmit | src/features/auth/components/resend-confirmation-form.tsx:155-181 | without an email, or when the resend fails, an error and no change; otherwise the last sent email is updated and the cooldown started |
| AuthConfirmation.ParamsString | src/features/auth/hooks/use-auth-confirmation.ts:52-54 | the hash takes precedence over the query string |
| AuthConfirmation.ProcessAuthParams | src/features/auth/hooks/use-auth-confirmation.ts:50-125 | with no parameters nothing happens; otherwise the URL is cleared, then the expiry check (69-72) and the OTP check (75-80) stop in that order; a code with type recovery or no type starts a reset without returning (83-85); signup with both tokens and expires_at authenticates with redirect (113-119); another non-empty type with both tokens authenticates without one (122-124) |
| AuthConfirmation.ResetAndLogin | src/features/auth/hooks/use-auth-confirmation.ts:83-124 | a reset and a signup login never both fire; a reset and the other login fire together only for type recovery; the two logins exclude each other |
| AuthConfirmation.SignupNeedsExpiry | src/features/auth/hooks/use-auth-confirmation.ts:113-124 | a signup link without expires_at triggers neither login branch |
| AuthConfirmation.HandleAuthentication | src/features/auth/hooks/use-auth-confirmation.ts:87-110 | a session updates the auth state and then runs the redirect when one is asked for; a missing session gives one error toast |
| AuthConfirmation.HandleResetPassword | src/features/auth/hooks/use-auth-confirmation.ts:22-41 | a session updates the auth state and goes to /reset-password; otherwise one error toast |
| ZoomMeetings.Spread | src/context/modules/classrooms/zoom/meetings.ts:172 | `{ ...a, ...b }`: the union of the keys, the right-hand fields winning |
| ZoomMeetings.UpdateOccurrences | src/context/modules/classrooms/zoom/meetings.ts:168-174 | the fields are overlaid only on the occurrences whose occurrence_id matches; the others and the length are unchanged |
| ZoomMeetings.UpdateOccurrencesIdempotent | src/context/modules/classrooms/zoom/meetings.ts:168-174 | updates that do not touch occurrence_id keep every id, and applying them twice equals applying them once |
| ZoomMeetings.FindOccurrence | src/context/modules/classrooms/zoom/meetings.ts:229-232 | the first stored occurrence with the id, or None |
| ZoomMeetings.MergeOccurrences | src/context/modules/classrooms/zoom/meetings.ts:228-237 | absent exactly when the API sends no occurrences; otherwise one merged entry per API occurrence, in the API's order |
| ZoomMeetings.MergeOccurrencesSpec | src/context/modules/classrooms/zoom/meetings.ts:228-237 | a merged occurrence keeps the API's id; the stored occurrence with that id overrides the API fields, and without one the API occurrence is kept as is |
| ZoomMeetings.RefreshPayload | src/context/modules/classrooms/zoom/meetings.ts:225-239 | the API fields override the stored ones, the occurrences are merged, and synchronized_at is now |
| ZoomMeetings.FindByUuid | src/context/modules/classrooms/zoom/meetings.ts:252-254 | the first fetched instance with the uuid, or None |
| ZoomMeetings.UpdateFor | src/context/modules/classrooms/zoom/meetings.ts:243-281 | an update exactly when a fetched instance has the same uuid and either list changed (different length, or a new email); it carries the stored id and the fetched lists, falling back to the stored ones |
| ZoomMeetings.PastUpdates | src/context/modules/classrooms/zoom/meetings.ts:243-282 | at most one update per stored instance |
| ZoomMeetings.PastUpdatesSpec | src/context/modules/classrooms/zoom/meetings.ts:243-282 | the updates are exactly the non-null updates of the stored instances |
| ZoomMeetings.NewInstances | src/context/modules/classrooms/zoom/meetings.ts:292-294 | exactly the fetched instances with a uuid that no stored instance has |
| ZoomMeetings.NewOrMatched | src/context/modules/classrooms/zoom/meetings.ts:252-294 | a fetched instance with a uuid is either new or matched by a stored one, never both |
| ZoomMeetings.SyncPastInstances | src/context/modules/classrooms/zoom/meetings.ts:284-298 | the serial loop issues one update per changed instance, then one bulk create of the new ones when there are any |
| ZoomMeetings.SyncCallsTargets | src/context/modules/classrooms/zoom/meetings.ts:284-298 | every create targets only fetched instances that are not stored, and every update targets a stored instance |
| ZoomMeetings.CreateFields | src/context/modules/classrooms/zoom/meetings.ts:100-106 | the form data, then account, classroom and synchronized_at, then the API fields, each later source winning |
| ZoomMeetings.ZoomMeetingsStack.constructor | src/context/modules/classrooms/zoom/meetings.ts:39 | the list starts empty |
| ZoomMeetings.ZoomMeetingsStack.GetAllZoomMeetings | src/context/modules/classrooms/zoom/meetings.ts:42-57 | the answer replaces the list; a failure keeps it |
| ZoomMeetings.ZoomMeetingsStack.CreateZoomMeeting | src/context/modules/classrooms/zoom/meetings.ts:73-132 | refused when the meeting id or an account field is missing (79-88); on success the new meeting is prepended (122); past instances are created only for type 8 with some instances, each the API instance with the account id, the classroom id, the new meeting's id and the synchronisation time written over it (110-119) |
| ZoomMeetings.ZoomMeetingsStack.UpdateZoomMeeting | src/context/modules/classrooms/zoom/meetings.ts:134-157 | an id is required; the answer replaces the entries with that id |
| ZoomMeetings.ZoomMeetingsStack.FindMeeting | src/context/modules/classrooms/zoom/meetings.ts:168 | the first cached meeting with the id, or None |
| ZoomMeetings.ZoomMeetingsStack.UpdateZoomMeetingOccurrence | src/context/modules/classrooms/zoom/meetings.ts:159-193 | both ids are required; the sent occurrences are the cached meeting's, updated; the answer replaces the entries with the id |
| ZoomMeetings.ZoomMeetingsStack.RefreshAndUpdateZoomMeeting | src/context/modules/classrooms/zoom/meetings.ts:195-315 | needs the id, the credentials and a cached meeting with a meeting id; sends the refresh payload; syncs past instances only for type 8; the answer replaces the entry |
| ZoomMeetings.ZoomMeetingsStack.DeleteZoomMeeting | src/context/modules/classrooms/zoom/meetings.ts:317-336 | an id is required; on the answer every entry with that id goes |
| ZoomMeetings.DeleteRemovesAll | src/context/modules/classrooms/zoom/meetings.ts:324-326 | after a delete no entry has the id, and every other entry is kept |
| ClassroomsStack.Names | src/context/modules/classrooms/index.ts:37 | the names of the cached classrooms, in order |
| ClassroomsStack.NameAcceptedIff | src/context/modules/classrooms/index.ts:34-42 | a name is refused exactly when it is missing, all white space, or exactly the name of a cached classroom |
| ClassroomsStack.AcceptedKeepsNamesDistinct | src/context/modules/classrooms/index.ts:34-51 | creating only under accepted names keeps the cached names distinct |
| ClassroomsStack.DeleteUndoesCreate | src/context/modules/classrooms/index.ts:51-96 | deleting a classroom just created under a new id gives back the previous list |
| ClassroomsStack.UpdateReplacesOnlyId | src/context/modules/classrooms/index.ts:73-77 | the update replaces exactly the entries with the id and keeps the length and the others in place |
| ClassroomsStack.DeleteRemovesId | src/context/modules/classrooms/index.ts:94-96 | after a delete no entry has the id, and every other entry is kept |
| ClassroomsStack.DeleteKeepsOrder | src/context/modules/classrooms/index.ts:94-96 | the kept entries keep their relative order |
| ClassroomsStack.ClassroomStack.constructor | src/context/modules/classrooms/index.ts:11-13 | the list starts empty |
| ClassroomsStack.ClassroomStack.GetAllClassrooms | src/context/modules/classrooms/index.ts:15-28 | the answer replaces the list; a failure keeps it |
| ClassroomsStack.ClassroomStack.CreateClassroom | src/context/modules/classrooms/index.ts:30-59 | sent exactly when the name is accepted and a period is given (34-46); on the answer the classroom is appended at the end and its id returned |
| ClassroomsStack.ClassroomStack.UpdateClassroom | src/context/modules/classrooms/index.ts:61-85 | an id and updates are required; the answer replaces the entries with that id |
| ClassroomsStack.ClassroomStack.DeleteClassroom | src/context/modules/classrooms/index.ts:87-104 | an id is required; on the answer every entry with that id goes |
| UserClassrooms.WithLinks | src/context/modules/users/classrooms.ts:34-43 | replaces only the links of the profile, creating an empty profile when there is none; id, email and the other profile fields are kept |
| UserClassrooms.NewClassrooms | src/context/modules/users/classrooms.ts:30-33 | exactly the classroom ids of the answer's rows for that user |
| UserClassrooms.NewClassroomsOrder | src/context/modules/users/classrooms.ts:30-33 | the new links follow the answer's order: the k-th link is the k-th row for that user, and no other row contributes |
| UserClassrooms.InsertedForSpec | src/context/modules/users/classrooms.ts:27-46 | the old links stay in front, in order; every row of the user is linked; a user without rows keeps exactly its links |
| UserClassrooms.DeleteAsWrittenNeverShrinks | src/context/modules/users/classrooms.ts:68-84 | as written, the list becomes the old list followed by its filtered copy, so no link is ever removed |
| UserClassrooms.DeleteAsWrittenKeepsDeletedLink | src/context/modules/users/classrooms.ts:68-84 | deleting the only classroom of a user linked to it leaves the link in place |
| UserClassrooms.InsertThenDeleteAsWrittenKeeps | src/context/modules/users/classrooms.ts:31-78 | a classroom just linked by an insert is stored as a bare id, which the delete filter never matches |
| UserClassrooms.DeletedForSpec | src/context/modules/users/classrooms.ts:68-84 | the intended delete leaves exactly the links to other classrooms, and never adds any |
| UserClassrooms.InsertThenDeleteRemoves | src/context/modules/users/classrooms.ts:27-84 | with the intended delete, deleting a classroom just inserted leaves no link to it |
| UserClassrooms.UserClassroomStack.constructor | src/context/modules/users/classrooms.ts:13-15 | the stack starts over the given users list |
| UserClassrooms.UserClassroomStack.InsertUserClassrooms | src/context/modules/users/classrooms.ts:16-55 | refused for an empty selection (20-23); on the answer every user gets the new links of its rows |
| UserClassrooms.UserClassroomStack.DeleteUserClassroom | src/context/modules/users/classrooms.ts:57-94 | refused without a user id or without classroom ids (62-64); on the answer the matching user's links are rewritten as written, and the other users are unchanged |
| AuthAdmin.FindProfile | src/app/actions/auth_admin.ts:26 | the first profile with the user's id, or None |
| AuthAdmin.FindUser | src/app/actions/auth_admin.ts:46 | the first user with the profile's id, or None |
| AuthAdmin.Paired | src/app/actions/auth_admin.ts:25-33 | no more entries than users, each pairing a user with a profile of the same id |
| AuthAdmin.PairedSpec | src/app/actions/auth_admin.ts:25-33 | an entry is in the join exactly when its user is listed and has a profile, and the profile is the first one with that id |
| AuthAdmin.Matched | src/app/actions/auth_admin.ts:44-55 | no more entries than profiles, each pairing a profile with a user of the same id |
| AuthAdmin.MatchedSpec | src/app/actions/auth_admin.ts:44-55 | an entry is in the join exactly when its profile is listed and has a user, and the user is the first one with that id |
| AuthAdmin.ByCreatedAtTotal | src/app/actions/auth_admin.ts:34 | the created_at comparison orders any two entries one way or the other |
| AuthAdmin.GetAllUsers | src/app/actions/auth_admin.ts:11-64 | false exactly when a query fails; otherwise sorted by created_at, every profile id equal to its user id, a permutation of the join, and no longer than the users (no role) or the profiles (role) |
| AuthAdmin.GetAllUsersWithoutRole | src/app/actions/auth_admin.ts:21-36 | without a role, a user with a profile is in the answer with that profile, and a user without one is not in it |
| AuthAdmin.GetAllUsersWithRole | src/app/actions/auth_admin.ts:37-58 | with a role, a profile with a user is in the answer with that user, and a profile without one is not in it |

## Left out

- I/O is outside the model. This covers every backend query, insert, update and delete, the Zoom API, sessions, storage, toasts, router pushes, loading flags, `console` output and React rendering. Their results are method parameters, and `false`/`null` answers are `None`.
- The patterns `Promise.all` and React `cache` are left out. They are concurrency and memoisation and do not change results.
- Floating point is not modelled. Percentages and trends are exact, so results can differ from IEEE doubles. This includes `toFixed`, and the .5 boundaries after a float multiply.
- Dates are integer milliseconds on a local time line without DST or time zones. `new Date(string)` parsing and `getTime()` are a parameter `timeOf: string -> int`. Timestamp formatting is a parameter `formatTimestamp`/`formatDate`.
- `localeCompare` and string `>` are modelled by plain code-point order (`Strings.StrLe`). Lower-casing covers ASCII letters only.
- `URLSearchParams`, `parseInt`, `JSON.parse` and `Date.now()` are parameters. `parse`, `parseInt` and `now` map the parameter string, and a stored cooldown entry that does not parse is a separate case.
- Zod implements the password form's checks. The model states each rule directly and reports all failing rules at once. It does not model how many issues zod reports or in what order.
- The regex engine is left out. `ResetPassword.MatchesPattern` and `ActivitiesUtils.ValidateEmail` are the predicates the regular expressions describe, and their lemmas tie them to that shape.
- The email validator of the resend form is zod's `email()` and is not part of this model.
- The base path labels (`path-labels/base`) are not part of this model. They are a parameter map.
- Sidebar icons are opaque values of a type parameter. The team logo and the avatar element are rendering.
- JavaScript prototype keys of plain objects are not modelled.
- The Zoom records are maps from field names to opaque values (`JsValue`). Only the fields the handlers read have their own types.
- The Zoom create payload's own occurrence handling is not modelled. The payload carries the API's occurrences unchanged.
- The poll-result email in the Zoom diff reads `p.email`, a field the record type does not declare. The model reads that field as given.
- `handleGetZoomMeetingByID` is a plain backend fetch with no local logic.
- The `if (!user)` guard of the users' insert handler is not modelled. Cached users are always records in the model.
- The user–classroom link type file (`UserClassroomT`'s declaration in src/types/auth) is not part of this model. Its shape is given in `AuthTypes`.
- The individual admin actions `getUserByID`, `createUser`, `updateUser` and `deleteUser` are backend calls and are left out.
- AuthAdmin.GetAllUsers: the comparator `a > b ? 1 : -1` is not a consistent order on equal timestamps. The model sorts stably, so the contract fixes only the order by created_at and the multiset of entries, not the order of ties.
- HomeDashboard.RankAbsences: `Array.prototype.sort` is stable, so equal streaks keep their roster order. The contract states the descending order and the permutation, not the order of ties.
- HomeDashboard.RankPendencies: the same holds for equal pendency streaks. The contract does not state the order of ties.
- ActivitiesUtils.SortStudentsByName: students with equal names keep their input order under the stable sort. The contract does not state the order of ties.
- HomeDashboard.IsStudent: `null` and `undefined` are one missing value (`None`). Two missing emails therefore match, as with `===` on two `undefined`s, but a `null` against an `undefined` also matches.
- PresenceByType.KeyOf: a missing class type is the key "undefined". A `null` class type, which JavaScript would key as "null", is not a separate value in the model.
- ActivitiesUtils.SortStudentsByStatus: ties on name keep no promised order. The contract states only the status-then-name order and the permutation.
- MathUtils.AttendancePercentage: requires a non-zero student count when there are meetings. JavaScript would give Infinity or NaN there, and its callers never pass 0.
- Pagination.TotalPages: requires a positive page size. `Math.ceil(n / 0)` and `slice` with NaN bounds are not modelled.
- Pagination.PaginationState.constructor: requires a positive initial page size, for the same reason.
- Pagination.PaginationState.HandlePageSizeChange: requires a positive size, for the same reason.
- ActivitiesUtils.ValidateScore: models JavaScript numbers as NaN, the two infinities, or an exact real. Numeric strings coerced by `isNaN` are not modelled.
- The thin CRUD hooks are left out. These are projects, deliveries, Zoom accounts, past instances, Coodesh assessments, activities, users and roles. They repeat the prepend/replace-by-id/filter-by-id list updates modelled for classrooms and meetings.
- The duplicates of the sidebar, the path labels and the activity utilities in the stack context, the activities service and the activities page are left out.
- These files hold no modelled logic:
  - `get-student-project.ts` is serial fetches;
  - `columns.tsx` and `classroom-overview.ts` are column configuration and mock data;
  - CSV parsing and `csv-preview.tsx` are left out;
  - the login and request-reset forms are form glue;
  - the background animation uses randomness and floats;
  - the scroll-gradient hook is layout.

## Findings

| source | as written | input that shows it | evidently intended | confidence | as-written member | corrected member |
|---|---|---|---|---|---|---|
| src/features/activities/components/activities-table/activities-table-row.tsx:32-39 | `getSubmissionStatusForActivity` returns the first status of the student, without comparing the activity | a student who delivered activity a1 but not a2; the a2 cell shows a1's status E | the status of this student for this activity | high, not executed | ActivitiesTableRow.AsWrittenShowsFirstActivity | ActivitiesTableRow.StatusForActivityIsGridCell |
| src/context/modules/users/classrooms.ts:68-84 | the delete handler sets the links to the old list followed by its filtered copy | user u1 linked by row (u1, c1); deleting ["c1"] leaves [(u1, c1)] | the list without the links to the removed classrooms | high, not executed | UserClassrooms.DeleteAsWrittenKeepsDeletedLink | UserClassrooms.DeletedForSpec |
| src/context/modules/users/classrooms.ts:31-78 | insert stores bare classroom ids, while delete's filter reads `.classroom_id` of each entry | insert (u1, c) and then delete [c]: the bare id c stays | one link shape, so that a delete matches an inserted link | high, not executed | UserClassrooms.InsertThenDeleteAsWrittenKeeps | UserClassrooms.InsertThenDeleteRemoves |
