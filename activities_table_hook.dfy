/** The activities table state: the student-by-activity status grid and the
    guards of the justify and edit handlers. */
module ActivitiesTableHook {
  import opened Wrappers
  import opened Strings
  import opened ActivityTypes
  import opened Submissions

  /** One student's statuses, one per activity in order. */
  function Row(s: Student, activities: seq<Activity>): (r: seq<SubmissionStatus>)
    ensures |r| == |activities|
    ensures forall j :: 0 <= j < |activities| ==> r[j] == StudentStatus(s, activities[j])
  {
    seq(|activities|, j requires 0 <= j < |activities| => StudentStatus(s, activities[j]))
  }

  /** The rows of the students, concatenated in student order. */
  function Grid(students: seq<Student>, activities: seq<Activity>): seq<SubmissionStatus>
  {
    if students == [] then []
    else Grid(students[..|students| - 1], activities) + Row(students[|students| - 1], activities)
  }

  /** The grid holds one status per student and activity, student-major: the
      status of student `i` for activity `j` is at `i * |activities| + j`. */
  lemma {:induction false} GridIndex(students: seq<Student>, activities: seq<Activity>)
    ensures |Grid(students, activities)| == |students| * |activities|
    ensures forall i, j :: 0 <= i < |students| && 0 <= j < |activities| ==>
      Grid(students, activities)[i * |activities| + j] == StudentStatus(students[i], activities[j])
  {
    GridLength(students, activities);
    var g := Grid(students, activities);
    var m := |activities|;
    forall i, j | 0 <= i < |students| && 0 <= j < m
      ensures i * m + j < |g| && g[i * m + j] == StudentStatus(students[i], activities[j])
    {
      GridCell(students, activities, i, j);
    }
  }

  lemma {:induction false} GridLength(students: seq<Student>, activities: seq<Activity>)
    ensures |Grid(students, activities)| == |students| * |activities|
  {
    if students != [] {
      GridLength(students[..|students| - 1], activities);
      LastRowBound(|students| - 1, |activities|);
    }
  }

  lemma {:induction false} GridCell(students: seq<Student>, activities: seq<Activity>, i: nat, j: nat)
    requires i < |students| && j < |activities|
    ensures i * |activities| + j < |Grid(students, activities)|
    ensures Grid(students, activities)[i * |activities| + j] == StudentStatus(students[i], activities[j])
  {
    var n := |students| - 1;
    var m := |activities|;
    var front := students[..n];
    GridLength(front, activities);
    var before := Grid(front, activities);
    var row := Row(students[n], activities);
    var g := Grid(students, activities);
    assert g == before + row;
    LastRowBound(n, m);
    if i < n {
      RowBound(i, j, n, m);
      GridCell(front, activities, i, j);
      assert g[i * m + j] == before[i * m + j];
      assert students[i] == front[i];
    } else {
      assert g[n * m + j] == row[j];
    }
  }

  lemma RowBound(i: int, j: int, n: int, m: int)
    requires 0 <= i < n && 0 <= j < m
    ensures i * m + j < n * m
  {
    assert (i + 1) * m <= n * m;
  }

  lemma LastRowBound(n: int, m: int)
    ensures (n + 1) * m == n * m + m
  {
  }

  lemma GridEmpty(students: seq<Student>, activities: seq<Activity>)
    requires students == [] || activities == []
    ensures Grid(students, activities) == []
  {
    GridIndex(students, activities);
  }

  lemma GridStep(students: seq<Student>, activities: seq<Activity>, i: int)
    requires 0 <= i < |students|
    ensures Grid(students[..i + 1], activities) == Grid(students[..i], activities) + Row(students[i], activities)
  {
    assert students[..i + 1][..i] == students[..i];
  }

  lemma RowStep(s: Student, activities: seq<Activity>, j: int)
    requires 0 <= j < |activities|
    ensures Row(s, activities[..j + 1]) == Row(s, activities[..j]) + [StudentStatus(s, activities[j])]
  {
  }

  /** The `submissionStatuses` memo: for each student, for each activity,
      push that student's status for that activity. */
  method SubmissionStatuses(students: seq<Student>, activities: seq<Activity>)
    returns (statuses: seq<SubmissionStatus>)
    ensures students == [] || activities == [] ==> statuses == []
    ensures statuses == Grid(students, activities)
  {
    if |students| == 0 || |activities| == 0 {
      GridEmpty(students, activities);
      return [];
    }
    statuses := [];
    var i := 0;
    while i < |students|
      invariant 0 <= i <= |students|
      invariant statuses == Grid(students[..i], activities)
    {
      var student := students[i];
      var base := statuses;
      var j := 0;
      while j < |activities|
        invariant 0 <= j <= |activities|
        invariant statuses == base + Row(student, activities[..j])
      {
        RowStep(student, activities, j);
        statuses := statuses + [StudentStatus(student, activities[j])];
        j := j + 1;
      }
      assert activities[..j] == activities;
      GridStep(students, activities, i);
      i := i + 1;
    }
    assert students[..i] == students;
  }

  // ---------------------------------------------------------------------------
  // handlers

  /** The reason `handleJustifyPendency` passes on: nothing when the prompt
      was cancelled or left blank, the trimmed text otherwise. */
  function JustifyReason(reason: Option<string>): (r: Option<string>)
    ensures r.None? <==> reason.None? || AllWhitespace(reason.value)
    ensures r.Some? ==> (r.value == Trim(reason.value) && r.value != []
      && !IsJsWhitespace(r.value[0]) && !IsJsWhitespace(r.value[|r.value| - 1]))
  {
    if reason.None? then None
    else
      var t := Trim(reason.value);
      TrimEmptyIffBlank(reason.value);
      TrimEdges(reason.value);
      if t == [] then None else Some(t)
  }

  /** The first activity with the id (`activities.find`). */
  function FindActivity(activities: seq<Activity>, id: string): (r: Option<Activity>)
    ensures r.None? <==> forall i :: 0 <= i < |activities| ==> activities[i].id != id
    ensures r.Some? ==> exists i :: (0 <= i < |activities| && activities[i] == r.value
      && r.value.id == id && forall k :: 0 <= k < i ==> activities[k].id != id)
  {
    if activities == [] then None
    else if activities[0].id == id then Some(activities[0])
    else
      var r := FindActivity(activities[1..], id);
      assert forall i :: 1 <= i < |activities| ==> activities[i] == activities[1..][i - 1];
      if r.Some? then
        var i :| 0 <= i < |activities[1..]| && activities[1..][i] == r.value
          && r.value.id == id && forall k :: 0 <= k < i ==> activities[1..][k].id != id;
        assert activities[i + 1] == r.value;
        r
      else None
  }

  /** The justification `handleEditJustification` starts from, if any. */
  function ExistingJustification(activities: seq<Activity>, activityId: string, email: string)
    : (r: Option<Justification>)
    ensures r.Some? <==> (FindActivity(activities, activityId).Some?
      && email in JustificationsOf(FindActivity(activities, activityId).value))
  {
    match FindActivity(activities, activityId)
    case None => None
    case Some(a) => if email in JustificationsOf(a) then Some(JustificationsOf(a)[email]) else None
  }

  /** The reason `handleEditJustification` passes on: nothing when the
      student has no justification for the activity (the prompt is not even
      shown), or when the edited text is cancelled or blank. */
  function EditReason(activities: seq<Activity>, activityId: string, email: string, newReason: Option<string>)
    : (r: Option<string>)
    ensures ExistingJustification(activities, activityId, email).None? ==> r.None?
    ensures ExistingJustification(activities, activityId, email).Some? ==> r == JustifyReason(newReason)
  {
    if ExistingJustification(activities, activityId, email).None? then None
    else JustifyReason(newReason)
  }
}
