/** The submission status of every student of a classroom for one activity:
    delivered when the email is among the activity's participants, justified
    when a justification is stored under the email, missing otherwise. */
module Submissions {
  import opened Wrappers
  import opened Strings
  import opened Seqs
  import opened ActivityTypes
  import opened ActivitiesUtils

  /** A `profiles` record joined to a `user_classrooms` row. */
  datatype Profile = Profile(id: string, email: string, fullName: Option<string>)

  /** A `user_classrooms` row; `profile` is `None` when the join is null. */
  datatype RosterRow = RosterRow(profile: Option<Profile>)

  /** The name falls back to the email when the full name is missing or empty. */
  function StudentOf(p: Profile): (r: Student)
    ensures r.id == p.id && r.email == p.email
    ensures p.fullName.Some? && p.fullName.value != "" ==> r.name == p.fullName.value
    ensures p.fullName.None? || p.fullName.value == "" ==> r.name == p.email
  {
    Student(p.id, StrOr(p.fullName, p.email), p.email)
  }

  function HasProfile(row: RosterRow): bool
  {
    row.profile.Some?
  }

  /** The students of `getStudentsByClassroomId`: rows without a profile are
      skipped, the others become students in roster order. */
  function Students(rows: seq<RosterRow>): (r: seq<Student>)
    ensures |r| == Count(rows, HasProfile)
    ensures forall s :: s in r ==> exists i :: 0 <= i < |rows| && rows[i].profile.Some? && s == StudentOf(rows[i].profile.value)
    ensures forall i :: 0 <= i < |rows| && rows[i].profile.Some? ==> StudentOf(rows[i].profile.value) in r
  {
    if rows == [] then []
    else
      var rest := Students(rows[1..]);
      assert forall i :: 1 <= i < |rows| ==> rows[i] == rows[1..][i - 1];
      if rows[0].profile.Some? then [StudentOf(rows[0].profile.value)] + rest else rest
  }

  /** Every row with a profile yields a student exactly when no row lacks one. */
  lemma {:induction false} StudentsAllProfiles(rows: seq<RosterRow>)
    requires forall i :: 0 <= i < |rows| ==> rows[i].profile.Some?
    ensures |Students(rows)| == |rows|
    ensures forall i :: 0 <= i < |rows| ==> Students(rows)[i] == StudentOf(rows[i].profile.value)
  {
    if rows != [] {
      StudentsAllProfiles(rows[1..]);
    }
  }

  function Info(j: Justification): JustificationInfo
  {
    JustificationInfo(j.reason, j.createdBy, j.createdAt)
  }

  /** The participant list with null read as empty. */
  function Participants(a: Activity): seq<string>
  {
    a.participantsEmail.GetOr([])
  }

  /** The justification dictionary with null read as empty. */
  function JustificationsOf(a: Activity): map<string, Justification>
  {
    a.justifications.GetOr(map[])
  }

  /** The status of one student for one activity. */
  function StudentStatus(student: Student, a: Activity): (r: SubmissionStatus)
    ensures r.student == student
    ensures r.status == E <==> student.email in Participants(a)
    ensures r.status == PJ <==> student.email !in Participants(a) && student.email in JustificationsOf(a)
    ensures r.status == F <==> student.email !in Participants(a) && student.email !in JustificationsOf(a)
    ensures r.justification.Some? <==> student.email in JustificationsOf(a)
    ensures r.justification.Some? ==> r.justification.value == Info(JustificationsOf(a)[student.email])
    ensures r.submittedAt.Some? <==> r.status == E
    ensures r.submittedAt.Some? ==> r.submittedAt.value == a.createdAt
  {
    var pe := Participants(a);
    var js := JustificationsOf(a);
    var status := if student.email in pe then E else if student.email in js then PJ else F;
    SubmissionStatus(student, status,
                     if student.email in js then Some(Info(js[student.email])) else None,
                     if student.email in pe then Some(a.createdAt) else None)
  }

  /** `getSubmissionStatusByActivity`: `None` when the activity or the roster
      could not be read, otherwise one status per student in roster order. */
  function GetSubmissionStatusByActivity(activity: Option<Activity>, students: Option<seq<Student>>)
    : (r: Option<seq<SubmissionStatus>>)
    ensures r.Some? <==> activity.Some? && students.Some?
    ensures r.Some? ==> |r.value| == |students.value|
    ensures r.Some? ==> forall i :: 0 <= i < |r.value| ==> r.value[i] == StudentStatus(students.value[i], activity.value)
  {
    match (activity, students)
    case (Some(a), Some(ss)) =>
      Some(seq(|ss|, i requires 0 <= i < |ss| => StudentStatus(ss[i], a)))
    case _ => None
  }

  /** `getActivitySubmissionSummary`: the summary of the statuses, or `None`
      when they could not be read. */
  function GetActivitySubmissionSummary(statuses: Option<seq<SubmissionStatus>>): (r: Option<Summary>)
    ensures r.Some? <==> statuses.Some?
    ensures r.Some? ==> r.value == GenerateSubmissionSummary(statuses.value)
  {
    match statuses
    case Some(s) => Some(GenerateSubmissionSummary(s))
    case None => None
  }

  function Delivered(a: Activity): Student -> bool
  {
    (s: Student) => s.email in Participants(a)
  }

  function Justified(a: Activity): Student -> bool
  {
    (s: Student) => s.email !in Participants(a) && s.email in JustificationsOf(a)
  }

  /** The status counts of the statuses of a roster are the roster counts of
      students who delivered and who are justified without delivering. */
  lemma {:induction false} StatusCountsOfRoster(ss: seq<Student>, a: Activity)
    ensures var xs := seq(|ss|, i requires 0 <= i < |ss| => StudentStatus(ss[i], a));
      Count(xs, HasStatus(E)) == Count(ss, Delivered(a))
      && Count(xs, HasStatus(PJ)) == Count(ss, Justified(a))
  {
    var xs := seq(|ss|, i requires 0 <= i < |ss| => StudentStatus(ss[i], a));
    if ss != [] {
      StatusCountsOfRoster(ss[1..], a);
      var ys := seq(|ss[1..]|, i requires 0 <= i < |ss[1..]| => StudentStatus(ss[1..][i], a));
      assert xs[1..] == ys;
    }
  }

  /** The end-to-end summary: the total is the roster size, submitted counts
      the students among the participants, justified those outside them with
      a stored justification, and missing the rest. */
  lemma SummaryOfActivity(a: Activity, ss: seq<Student>)
    ensures var r := GetActivitySubmissionSummary(GetSubmissionStatusByActivity(Some(a), Some(ss)));
      r.Some?
      && r.value.total == |ss|
      && r.value.submitted == Count(ss, Delivered(a))
      && r.value.justified == Count(ss, Justified(a))
      && r.value.missing == |ss| - Count(ss, Delivered(a)) - Count(ss, Justified(a))
  {
    var xs := GetSubmissionStatusByActivity(Some(a), Some(ss)).value;
    assert xs == seq(|ss|, i requires 0 <= i < |ss| => StudentStatus(ss[i], a));
    StatusCountsOfRoster(ss, a);
  }
}
