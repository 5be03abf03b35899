/** One student's row of the activities table: the activities newest first
    and, for each, the status shown in its cell. */
module ActivitiesTableRow {
  import opened Wrappers
  import opened Seqs
  import opened ActivityTypes
  import opened Submissions
  import opened ActivitiesTableHook

  /** The comparator of `sortedActivities`: newer first. `timeOf` stands for
      `new Date(created_at).getTime()`. */
  function NewerFirst(timeOf: string -> int): (Activity, Activity) -> bool
  {
    (a: Activity, b: Activity) => timeOf(a.createdAt) >= timeOf(b.createdAt)
  }

  /** `sortedActivities`: a permutation of the activities ordered by creation
      time, newest first. */
  function SortedActivities(activities: seq<Activity>, timeOf: string -> int): (r: seq<Activity>)
    ensures multiset(r) == multiset(activities)
    ensures forall i :: 0 < i < |r| ==> timeOf(r[i - 1].createdAt) >= timeOf(r[i].createdAt)
  {
    assert Total(NewerFirst(timeOf));
    SortByCorrect(activities, NewerFirst(timeOf));
    SortBy(activities, NewerFirst(timeOf))
  }

  /** The first status with the student's id (`submissionStatuses.find`). */
  function FirstOfStudent(statuses: seq<SubmissionStatus>, studentId: string): (r: Option<nat>)
    ensures r.None? <==> forall i :: 0 <= i < |statuses| ==> statuses[i].student.id != studentId
    ensures r.Some? ==> (r.value < |statuses| && statuses[r.value].student.id == studentId
      && forall k :: 0 <= k < r.value ==> statuses[k].student.id != studentId)
  {
    if statuses == [] then None
    else if statuses[0].student.id == studentId then Some(0)
    else
      var r := FirstOfStudent(statuses[1..], studentId);
      assert forall i :: 1 <= i < |statuses| ==> statuses[i] == statuses[1..][i - 1];
      if r.Some? then Some(r.value + 1) else None
  }

  /** `getSubmissionStatusForActivity` as written: the search for a stored
      status checks that the activity exists but not that the status belongs
      to it, so whenever the activity exists the student's first status is
      returned, whatever activity it was computed for. */
  function StatusForActivityAsWritten(student: Student, activities: seq<Activity>,
                                      statuses: seq<SubmissionStatus>, activityId: string)
    : (r: Option<SubmissionStatus>)
    ensures FindActivity(activities, activityId).None? ==> r.None?
    ensures FindActivity(activities, activityId).Some? && FirstOfStudent(statuses, student.id).Some? ==>
      r == Some(statuses[FirstOfStudent(statuses, student.id).value])
    ensures FindActivity(activities, activityId).Some? && FirstOfStudent(statuses, student.id).None? ==>
      r == Some(StudentStatus(student, FindActivity(activities, activityId).value))
  {
    match FindActivity(activities, activityId)
    case None => None
    case Some(a) =>
      match FirstOfStudent(statuses, student.id)
      case Some(i) => Some(statuses[i])
      case None => Some(StudentStatus(student, a))
  }

  /** With the row's statuses taken from the grid, a student who delivered
      only the first of two activities is shown as having delivered the
      second one as well. */
  lemma AsWrittenShowsFirstActivity()
    ensures var s := Student("id", "Ana", "ana@example.com");
      var first := Activity("a1", Some(["ana@example.com"]), None, "t1");
      var second := Activity("a2", None, None, "t2");
      var statuses := Row(s, [first, second]);
      StudentStatus(s, second).status == F && StudentStatus(s, first).status == E
      && StatusForActivityAsWritten(s, [first, second], statuses, "a2") == Some(StudentStatus(s, first))
  {
    var s := Student("id", "Ana", "ana@example.com");
    var first := Activity("a1", Some(["ana@example.com"]), None, "t1");
    var second := Activity("a2", None, None, "t2");
    var activities := [first, second];
    assert FindActivity(activities, "a2") == Some(second) by {
      assert activities[1..] == [second];
    }
    var statuses := Row(s, activities);
    assert statuses[0] == StudentStatus(s, first);
    assert FirstOfStudent(statuses, s.id) == Some(0);
  }

  /** The status the cell evidently means to show: the student's status for
      the activity with that id, or `None` when there is no such activity. */
  function StatusForActivity(student: Student, activities: seq<Activity>, activityId: string)
    : (r: Option<SubmissionStatus>)
    ensures r.None? <==> forall i :: 0 <= i < |activities| ==> activities[i].id != activityId
    ensures r.Some? ==> r.value.student == student
  {
    match FindActivity(activities, activityId)
    case None => None
    case Some(a) => Some(StudentStatus(student, a))
  }

  /** The corrected lookup agrees with the grid: for the first activity with
      the id, it is the student's cell of the status grid. */
  lemma StatusForActivityIsGridCell(student: Student, activities: seq<Activity>, j: int)
    requires 0 <= j < |activities|
    requires forall k :: 0 <= k < j ==> activities[k].id != activities[j].id
    ensures StatusForActivity(student, activities, activities[j].id) == Some(Row(student, activities)[j])
  {
    var r := FindActivity(activities, activities[j].id);
    var i :| 0 <= i < |activities| && activities[i] == r.value
      && r.value.id == activities[j].id && forall k :: 0 <= k < i ==> activities[k].id != activities[j].id;
    assert i == j;
  }

  /** The cells of the row as rendered: one per activity, newest first, each
      the as-written lookup of that activity's id in the row's statuses. */
  function RowCellsAsWritten(student: Student, activities: seq<Activity>, statuses: seq<SubmissionStatus>,
                             timeOf: string -> int)
    : (r: seq<Option<SubmissionStatus>>)
    ensures |r| == |activities|
    ensures forall i :: 0 <= i < |r| ==>
      r[i] == StatusForActivityAsWritten(student, activities, statuses, SortedActivities(activities, timeOf)[i].id)
  {
    var sorted := SortedActivities(activities, timeOf);
    assert |sorted| == |multiset(sorted)| == |multiset(activities)| == |activities|;
    seq(|sorted|, i requires 0 <= i < |sorted| => StatusForActivityAsWritten(student, activities, statuses, sorted[i].id))
  }

  /** With the row's statuses taken from the grid, every cell of the rendered
      row shows the status of the first activity. */
  lemma RowCellsAsWrittenAllFirst(student: Student, activities: seq<Activity>, timeOf: string -> int)
    requires |activities| > 0
    ensures forall i :: 0 <= i < |activities| ==>
      RowCellsAsWritten(student, activities, Row(student, activities), timeOf)[i]
        == Some(StudentStatus(student, activities[0]))
  {
    var statuses := Row(student, activities);
    var sorted := SortedActivities(activities, timeOf);
    var r := RowCellsAsWritten(student, activities, statuses, timeOf);
    assert FirstOfStudent(statuses, student.id) == Some(0);
    forall i | 0 <= i < |activities| ensures r[i] == Some(StudentStatus(student, activities[0])) {
      assert sorted[i] in multiset(activities) by {
        assert sorted[i] in multiset(sorted);
      }
      var j :| 0 <= j < |activities| && activities[j] == sorted[i];
      assert FindActivity(activities, sorted[i].id).Some?;
    }
  }

  /** The cells the row evidently means to show: one per activity, newest
      first, each with the student's status for that activity. */
  function IntendedRowCells(student: Student, activities: seq<Activity>, timeOf: string -> int)
    : (r: seq<Option<SubmissionStatus>>)
    ensures |r| == |activities|
    ensures forall i :: 0 <= i < |r| ==>
      r[i] == StatusForActivity(student, activities, SortedActivities(activities, timeOf)[i].id)
  {
    var sorted := SortedActivities(activities, timeOf);
    assert |sorted| == |multiset(sorted)| == |multiset(activities)| == |activities|;
    seq(|sorted|, i requires 0 <= i < |sorted| => StatusForActivity(student, activities, sorted[i].id))
  }

  /** Every cell of the row has a status: each sorted activity is one of the
      activities, so the lookup finds it. */
  lemma RowCellsPresent(student: Student, activities: seq<Activity>, timeOf: string -> int, i: int)
    requires 0 <= i < |activities|
    ensures IntendedRowCells(student, activities, timeOf)[i].Some?
  {
    var sorted := SortedActivities(activities, timeOf);
    assert |sorted| == |multiset(sorted)| == |multiset(activities)| == |activities|;
    assert sorted[i] in multiset(sorted);
    assert sorted[i] in activities;
  }
}
