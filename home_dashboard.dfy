/** The classroom home dashboard: weekly attendance and pendency indicators with
    their trends, the active project, and the rankings of students with
    consecutive absences and consecutive missing deliveries. Every backend
    query is an input sequence and "now" is a parameter. */
module HomeDashboard {
  import opened Wrappers
  import opened Strings
  import opened Seqs
  import opened Streaks
  import opened MathUtils
  import opened DateUtils

  // ---------------------------------------------------------------------------
  // data

  datatype Profile = Profile(fullName: Option<string>, email: Option<string>)

  /** A `user_classrooms` row joined with its profile. */
  datatype StudentRow = StudentRow(userId: string, profile: Option<Profile>)

  datatype Student = Student(userId: string, profile: Profile)

  datatype Participant = Participant(userId: Option<string>, email: Option<string>)

  /** A visible past meeting instance of the classroom. */
  datatype PastInstance = PastInstance(startTime: int, participants: Option<seq<Participant>>)

  datatype Schedule = Schedule(startDate: Option<int>, endDate: Option<int>)

  /** A classroom project with its (optional) schedule window. */
  datatype Project = Project(id: string, title: Option<string>, moduleName: Option<string>,
                             schedule: Option<Schedule>)

  /** A project delivery: the project and the ids of the members who delivered. */
  datatype Delivery = Delivery(projectId: string, members: Option<seq<string>>)

  datatype EndedProject = EndedProject(id: string, title: string)

  datatype StudentAbsence = StudentAbsence(name: string, email: string, consecutiveAbsences: nat)
  datatype StudentPendency = StudentPendency(name: string, email: string, consecutivePendencies: nat)

  /** `{ percentage, trend }` of the weekly cards. */
  datatype Indicator = Indicator(percentage: int, trend: real)

  datatype ActiveProjectData = ActiveProjectData(id: string, title: string, moduleName: string,
                                                 deliveryPercentage: int, pendingDeliveries: int)

  const NoName := "Nome não informado"
  const NoEmail := "Email não informado"
  const NoTitle := "Projeto sem título"
  const NoModule := "Módulo não informado"
  const RecentLimit := 10

  predicate HasProfile(x: StudentRow)
  {
    x.profile.Some?
  }

  /** The roster: the rows with a profile, each as a student, order kept. */
  function ProcessedStudents(rows: seq<StudentRow>): (r: seq<Student>)
    ensures |r| <= |rows|
    ensures forall i :: 0 <= i < |r| ==> StudentRow(r[i].userId, Some(r[i].profile)) in rows
    ensures forall i :: 0 <= i < |rows| && rows[i].profile.Some? ==>
      Student(rows[i].userId, rows[i].profile.value) in r
  {
    var f := Filter(rows, HasProfile);
    var r := seq(|f|, k requires 0 <= k < |f| => Student(f[k].userId, f[k].profile.value));
    forall i | 0 <= i < |rows| && rows[i].profile.Some? ensures Student(rows[i].userId, rows[i].profile.value) in r {
      assert rows[i] in f;
      var k :| 0 <= k < |f| && f[k] == rows[i];
      assert r[k] == Student(rows[i].userId, rows[i].profile.value);
    }
    forall i | 0 <= i < |r| ensures StudentRow(r[i].userId, Some(r[i].profile)) in rows {
      assert f[i] == StudentRow(r[i].userId, Some(r[i].profile));
    }
    r
  }

  /** The roster is the rows with a profile, in order: `idx` lists their
      positions, increasing. */
  lemma ProcessedStudentsOrder(rows: seq<StudentRow>) returns (idx: seq<nat>)
    ensures |idx| == |ProcessedStudents(rows)|
    ensures forall k :: 0 <= k < |idx| ==>
      (idx[k] < |rows| && rows[idx[k]].profile.Some?
       && ProcessedStudents(rows)[k] == Student(rows[idx[k]].userId, rows[idx[k]].profile.value))
    ensures forall k, l :: 0 <= k < l < |idx| ==> idx[k] < idx[l]
    ensures forall i {:trigger i in idx} :: 0 <= i < |rows| ==> (rows[i].profile.Some? <==> i in idx)
  {
    idx := FilterIndices(rows, HasProfile);
    ghost var f := Filter(rows, HasProfile);
    assert IndicesOf(rows, HasProfile, f, idx);
    forall k | 0 <= k < |idx| ensures rows[idx[k]].profile.Some? {
      assert HasProfile(f[k]);
    }
  }

  // ---------------------------------------------------------------------------
  // consecutive absences

  /** A participant is the student when the user ids or the emails agree
      (`===`, so two missing emails agree too). */
  predicate IsStudent(p: Participant, s: Student)
  {
    p.userId == Some(s.userId) || p.email == s.profile.email
  }

  predicate Attended(s: Student, m: PastInstance)
  {
    m.participants.Some? &&
    exists k :: 0 <= k < |m.participants.value| && IsStudent(m.participants.value[k], s)
  }

  /** `true` for each meeting, in list order, that the student missed. */
  function AbsenceMisses(s: Student, meetings: seq<PastInstance>): (r: seq<bool>)
    ensures |r| == |meetings|
    ensures forall i :: 0 <= i < |meetings| ==> (r[i] <==> !Attended(s, meetings[i]))
  {
    seq(|meetings|, i requires 0 <= i < |meetings| => !Attended(s, meetings[i]))
  }

  /** What `analyzeStudentAttendance` reports for a student. */
  function AbsenceOf(s: Student, meetings: seq<PastInstance>): StudentAbsence
  {
    StudentAbsence(StrOr(s.profile.fullName, NoName), StrOr(s.profile.email, NoEmail),
                   LongestRun(AbsenceMisses(s, meetings)))
  }

  /** The absence streak is the length of the longest run of consecutive
      missed meetings (a run still open at the end counts): every run is at
      most that long, one run reaches it, and it never exceeds the number of
      meetings. */
  lemma AbsenceStreakIsLongestRun(s: Student, meetings: seq<PastInstance>, i: int, j: int)
    requires 0 <= i <= j <= |meetings|
    requires forall k :: i <= k < j ==> !Attended(s, meetings[k])
    ensures j - i <= AbsenceOf(s, meetings).consecutiveAbsences <= |meetings|
    ensures exists a :: RunAt(AbsenceMisses(s, meetings), a, AbsenceOf(s, meetings).consecutiveAbsences)
  {
    var ms := AbsenceMisses(s, meetings);
    assert AllMisses(ms, i, j);
    LongestRunIsUpperBound(ms, i, j);
    LongestRunIsAttained(ms);
  }

  /** `analyzeStudentAttendance`: scans the meetings keeping the current and
      the longest run of absences. */
  method AnalyzeStudentAttendance(s: Student, meetings: seq<PastInstance>) returns (r: StudentAbsence)
    ensures r == AbsenceOf(s, meetings)
  {
    ghost var ms := AbsenceMisses(s, meetings);
    var consecutive: nat := 0;
    var maxConsecutive: nat := 0;
    var i := 0;
    while i < |meetings|
      invariant 0 <= i <= |meetings|
      invariant consecutive == TrailingRun(ms[..i])
      invariant maxConsecutive <= LongestRun(ms[..i])
      invariant Max(maxConsecutive, consecutive) == LongestRun(ms[..i])
    {
      var attended := Attended(s, meetings[i]);
      assert ms[i] == !attended;
      ExtendRun(ms[..i], !attended);
      assert ms[..i + 1] == ms[..i] + [!attended];
      if !attended {
        consecutive := consecutive + 1;
      } else {
        maxConsecutive := Max(maxConsecutive, consecutive);
        consecutive := 0;
      }
      i := i + 1;
    }
    assert ms[..i] == ms;
    maxConsecutive := Max(maxConsecutive, consecutive);
    r := StudentAbsence(StrOr(s.profile.fullName, NoName), StrOr(s.profile.email, NoEmail),
                        maxConsecutive);
  }

  // ---------------------------------------------------------------------------
  // ranking

  function AbsenceLe(a: StudentAbsence, b: StudentAbsence): bool
  {
    a.consecutiveAbsences >= b.consecutiveAbsences
  }

  function PendencyLe(a: StudentPendency, b: StudentPendency): bool
  {
    a.consecutivePendencies >= b.consecutivePendencies
  }

  function HasAbsenceStreak(a: StudentAbsence): bool
  {
    a.consecutiveAbsences >= 2
  }

  function HasPendencyStreak(a: StudentPendency): bool
  {
    a.consecutivePendencies >= 2
  }

  /** `.filter(r => r.consecutiveAbsences >= 2).sort((a, b) => b - a)`: exactly
      the streaks of at least 2, longest first. */
  function RankAbsences(rs: seq<StudentAbsence>): (r: seq<StudentAbsence>)
    ensures multiset(r) == multiset(Filter(rs, HasAbsenceStreak))
    ensures forall x :: x in r <==> x in rs && x.consecutiveAbsences >= 2
    ensures forall i :: 0 < i < |r| ==> r[i - 1].consecutiveAbsences >= r[i].consecutiveAbsences
  {
    var kept := Filter(rs, HasAbsenceStreak);
    assert Total(AbsenceLe) by {
      forall a, b ensures AbsenceLe(a, b) || AbsenceLe(b, a) { }
    }
    SortByCorrect(kept, AbsenceLe);
    var sorted := SortBy(kept, AbsenceLe);
    assert forall x :: x in sorted <==> x in kept by {
      forall x ensures x in sorted <==> x in kept {
        assert x in sorted <==> x in multiset(sorted);
        assert x in kept <==> x in multiset(kept);
      }
    }
    sorted
  }

  function RankPendencies(rs: seq<StudentPendency>): (r: seq<StudentPendency>)
    ensures multiset(r) == multiset(Filter(rs, HasPendencyStreak))
    ensures forall x :: x in r <==> x in rs && x.consecutivePendencies >= 2
    ensures forall i :: 0 < i < |r| ==> r[i - 1].consecutivePendencies >= r[i].consecutivePendencies
  {
    var kept := Filter(rs, HasPendencyStreak);
    assert Total(PendencyLe) by {
      forall a, b ensures PendencyLe(a, b) || PendencyLe(b, a) { }
    }
    SortByCorrect(kept, PendencyLe);
    var sorted := SortBy(kept, PendencyLe);
    assert forall x :: x in sorted <==> x in kept by {
      forall x ensures x in sorted <==> x in kept {
        assert x in sorted <==> x in multiset(sorted);
        assert x in kept <==> x in multiset(kept);
      }
    }
    sorted
  }

  /** `getStudentsWithConsecutiveAbsences`: empty when the roster or the
      recent meetings are empty, otherwise the ranked reports. */
  method StudentsWithConsecutiveAbsences(rows: seq<StudentRow>, meetings: seq<PastInstance>)
    returns (r: seq<StudentAbsence>)
    ensures var students := ProcessedStudents(rows);
      r == if students == [] || meetings == [] then []
           else RankAbsences(seq(|students|, k requires 0 <= k < |students| => AbsenceOf(students[k], meetings)))
  {
    var students := ProcessedStudents(rows);
    if |students| == 0 || |meetings| == 0 {
      return [];
    }
    var reports: seq<StudentAbsence> := [];
    var i := 0;
    while i < |students|
      invariant 0 <= i <= |students|
      invariant |reports| == i
      invariant forall k :: 0 <= k < i ==> reports[k] == AbsenceOf(students[k], meetings)
    {
      var a := AnalyzeStudentAttendance(students[i], meetings);
      reports := reports + [a];
      i := i + 1;
    }
    assert reports == seq(|students|, k requires 0 <= k < |students| => AbsenceOf(students[k], meetings));
    r := RankAbsences(reports);
  }

  // ---------------------------------------------------------------------------
  // consecutive pendencies

  predicate MemberOf(d: Delivery, u: string)
  {
    d.members.Some? && u in d.members.value
  }

  /** The user appears among the members of some delivery. */
  predicate Mentioned(ds: seq<Delivery>, u: string)
  {
    exists i :: 0 <= i < |ds| && MemberOf(ds[i], u)
  }

  /** The projects delivered by user `u`. */
  function DeliveredSet(ds: seq<Delivery>, u: string): set<string>
  {
    if ds == [] then {}
    else DeliveredSet(ds[..|ds| - 1], u)
         + (if MemberOf(ds[|ds| - 1], u) then {ds[|ds| - 1].projectId} else {})
  }

  /** A project is in a user's delivered set exactly when some delivery of
      that project lists the user as a member. */
  lemma {:induction false} DeliveredSetMembership(ds: seq<Delivery>, u: string, p: string)
    ensures p in DeliveredSet(ds, u) <==>
      exists i :: 0 <= i < |ds| && MemberOf(ds[i], u) && ds[i].projectId == p
  {
    if ds != [] {
      var q := ds[..|ds| - 1];
      DeliveredSetMembership(q, u, p);
      assert forall i :: 0 <= i < |q| ==> q[i] == ds[i];
    }
  }

  lemma {:induction false} DeliveredSetEmpty(ds: seq<Delivery>, u: string)
    requires !Mentioned(ds, u)
    ensures DeliveredSet(ds, u) == {}
  {
    if ds != [] {
      var q := ds[..|ds| - 1];
      assert !Mentioned(q, u) by {
        assert forall i :: 0 <= i < |q| ==> q[i] == ds[i];
      }
      DeliveredSetEmpty(q, u);
    }
  }

  lemma MentionedExtend(ds: seq<Delivery>, i: int, u: string)
    requires 0 <= i < |ds|
    ensures Mentioned(ds[..i + 1], u) <==> Mentioned(ds[..i], u) || MemberOf(ds[i], u)
    ensures DeliveredSet(ds[..i + 1], u)
      == DeliveredSet(ds[..i], u) + (if MemberOf(ds[i], u) then {ds[i].projectId} else {})
  {
    assert ds[..i + 1][..i] == ds[..i];
    if Mentioned(ds[..i + 1], u) && !MemberOf(ds[i], u) {
      var k :| 0 <= k < i + 1 && MemberOf(ds[..i + 1][k], u);
      assert MemberOf(ds[..i][k], u);
    }
    if Mentioned(ds[..i], u) {
      var k :| 0 <= k < i && MemberOf(ds[..i][k], u);
      assert MemberOf(ds[..i + 1][k], u);
    }
    if MemberOf(ds[i], u) {
      assert MemberOf(ds[..i + 1][i], u);
    }
  }

  /** The member → delivered-projects map, built delivery by delivery. */
  method BuildDeliveryMap(ds: seq<Delivery>) returns (m: map<string, set<string>>)
    ensures forall u :: u in m <==> Mentioned(ds, u)
    ensures forall u :: u in m ==> m[u] == DeliveredSet(ds, u)
  {
    m := map[];
    var i := 0;
    while i < |ds|
      invariant 0 <= i <= |ds|
      invariant forall u :: u in m <==> Mentioned(ds[..i], u)
      invariant forall u :: u in m ==> m[u] == DeliveredSet(ds[..i], u)
    {
      var d := ds[i];
      if d.members.Some? {
        var members := d.members.value;
        var j := 0;
        while j < |members|
          invariant 0 <= j <= |members|
          invariant forall u :: u in m <==> Mentioned(ds[..i], u) || u in members[..j]
          invariant forall u :: u in m ==>
            m[u] == DeliveredSet(ds[..i], u) + (if u in members[..j] then {d.projectId} else {})
        {
          var u := members[j];
          assert members[..j + 1] == members[..j] + [u];
          if u !in m {
            DeliveredSetEmpty(ds[..i], u);
            m := m[u := {}];
          }
          m := m[u := m[u] + {d.projectId}];
          j := j + 1;
        }
        assert members[..j] == members;
      }
      forall u ensures Mentioned(ds[..i + 1], u) <==> Mentioned(ds[..i], u) || MemberOf(ds[i], u)
        ensures DeliveredSet(ds[..i + 1], u)
          == DeliveredSet(ds[..i], u) + (if MemberOf(ds[i], u) then {ds[i].projectId} else {})
      {
        MentionedExtend(ds, i, u);
      }
      i := i + 1;
    }
    assert ds[..i] == ds;
  }

  /** `true` for each project, in list order, that the student did not deliver. */
  function PendencyMisses(delivered: set<string>, projects: seq<EndedProject>): (r: seq<bool>)
    ensures |r| == |projects|
    ensures forall i :: 0 <= i < |projects| ==> (r[i] <==> projects[i].id !in delivered)
  {
    seq(|projects|, i requires 0 <= i < |projects| => projects[i].id !in delivered)
  }

  /** What `analyzeStudentDeliveries` reports for a student: the delivered
      set is looked up by the student's user id only. */
  function PendencyOf(s: Student, projects: seq<EndedProject>, ds: seq<Delivery>): StudentPendency
  {
    StudentPendency(StrOr(s.profile.fullName, NoName), StrOr(s.profile.email, NoEmail),
                    LongestRun(PendencyMisses(DeliveredSet(ds, s.userId), projects)))
  }

  /** A student whose user id no delivery lists (for example one who only
      appears by email) is pending on every ended project. */
  lemma UnlistedStudentPendsEverything(s: Student, projects: seq<EndedProject>, ds: seq<Delivery>)
    requires !Mentioned(ds, s.userId)
    ensures PendencyOf(s, projects, ds).consecutivePendencies == |projects|
  {
    DeliveredSetEmpty(ds, s.userId);
    LongestRunAllMisses(PendencyMisses(DeliveredSet(ds, s.userId), projects));
  }

  /** The pendency streak is the longest run of consecutive undelivered
      projects, and never more than the number of projects. */
  lemma PendencyStreakIsLongestRun(s: Student, projects: seq<EndedProject>, ds: seq<Delivery>, i: int, j: int)
    requires 0 <= i <= j <= |projects|
    requires forall k :: i <= k < j ==>
      forall t :: 0 <= t < |ds| && ds[t].projectId == projects[k].id ==> !MemberOf(ds[t], s.userId)
    ensures j - i <= PendencyOf(s, projects, ds).consecutivePendencies <= |projects|
  {
    var delivered := DeliveredSet(ds, s.userId);
    var ms := PendencyMisses(delivered, projects);
    forall k | i <= k < j ensures ms[k] {
      DeliveredSetMembership(ds, s.userId, projects[k].id);
    }
    LongestRunIsUpperBound(ms, i, j);
  }

  /** The streak scan of `analyzeStudentDeliveries` for one student. */
  method PendencyStreak(delivered: set<string>, projects: seq<EndedProject>) returns (n: nat)
    ensures n == LongestRun(PendencyMisses(delivered, projects))
  {
    ghost var ms := PendencyMisses(delivered, projects);
    var consecutive: nat := 0;
    n := 0;
    var i := 0;
    while i < |projects|
      invariant 0 <= i <= |projects|
      invariant consecutive == TrailingRun(ms[..i])
      invariant Max(n, consecutive) == LongestRun(ms[..i])
    {
      var isDelivered := projects[i].id in delivered;
      ExtendRun(ms[..i], !isDelivered);
      assert ms[..i + 1] == ms[..i] + [!isDelivered];
      if !isDelivered {
        consecutive := consecutive + 1;
      } else {
        n := Max(n, consecutive);
        consecutive := 0;
      }
      i := i + 1;
    }
    assert ms[..i] == ms;
    n := Max(n, consecutive);
  }

  /** `analyzeStudentDeliveries`: one report per student, in roster order. */
  method AnalyzeStudentDeliveries(students: seq<Student>, projects: seq<EndedProject>, ds: seq<Delivery>)
    returns (r: seq<StudentPendency>)
    ensures students == [] || projects == [] ==> r == []
    ensures students != [] && projects != [] ==>
      |r| == |students| && forall k :: 0 <= k < |students| ==> r[k] == PendencyOf(students[k], projects, ds)
  {
    if |students| == 0 || |projects| == 0 {
      return [];
    }
    var deliveryMap := BuildDeliveryMap(ds);
    r := [];
    var i := 0;
    while i < |students|
      invariant 0 <= i <= |students|
      invariant |r| == i
      invariant forall k :: 0 <= k < i ==> r[k] == PendencyOf(students[k], projects, ds)
    {
      var s := students[i];
      var delivered: set<string> := {};
      if s.userId in deliveryMap {
        delivered := deliveryMap[s.userId];
      } else {
        DeliveredSetEmpty(ds, s.userId);
      }
      var streak := PendencyStreak(delivered, projects);
      r := r + [StudentPendency(StrOr(s.profile.fullName, NoName), StrOr(s.profile.email, NoEmail), streak)];
      i := i + 1;
    }
  }

  // ---------------------------------------------------------------------------
  // projects

  predicate HasEnded(p: Project, now: int)
  {
    p.schedule.Some? && p.schedule.value.endDate.Some? && p.schedule.value.endDate.value < now
  }

  function HasEndedBy(now: int): Project -> bool
  {
    (p: Project) => HasEnded(p, now)
  }

  function ToEnded(p: Project): EndedProject
  {
    EndedProject(p.id, StrOr(p.title, NoTitle))
  }

  /** The post-filter of `getEndedProjects` over the scheduled projects in
      decreasing creation order: the limit of 10 is applied first, then the
      projects whose end date lies strictly before now are kept. */
  function EndedProjects(rows: seq<Project>, now: int): (r: seq<EndedProject>)
    ensures |r| <= RecentLimit
    ensures forall k :: 0 <= k < |r| ==>
      exists i :: 0 <= i < |rows| && i < RecentLimit && HasEnded(rows[i], now) && r[k] == ToEnded(rows[i])
  {
    var recent := if |rows| <= RecentLimit then rows else rows[..RecentLimit];
    var ended := Filter(recent, HasEndedBy(now));
    var r := seq(|ended|, k requires 0 <= k < |ended| => ToEnded(ended[k]));
    assert forall k :: 0 <= k < |r| ==> ended[k] in recent && HasEnded(ended[k], now);
    r
  }

  /** The ended projects are exactly the ended rows among the first ten, in
      their order: `idx` lists those rows' positions, increasing. */
  lemma EndedProjectsSpec(rows: seq<Project>, now: int) returns (idx: seq<nat>)
    ensures var r := EndedProjects(rows, now);
      |idx| == |r|
      && (forall k :: 0 <= k < |idx| ==> idx[k] < |rows| && idx[k] < RecentLimit && r[k] == ToEnded(rows[idx[k]]))
      && (forall k, l :: 0 <= k < l < |idx| ==> idx[k] < idx[l])
      && (forall i :: 0 <= i < |rows| && i < RecentLimit ==> (HasEnded(rows[i], now) <==> i in idx))
  {
    var recent := if |rows| <= RecentLimit then rows else rows[..RecentLimit];
    idx := FilterIndices(recent, HasEndedBy(now));
    ghost var ended := Filter(recent, HasEndedBy(now));
    assert IndicesOf(recent, HasEndedBy(now), ended, idx);
    forall i | 0 <= i < |rows| && i < RecentLimit ensures recent[i] == rows[i] {
    }
  }

  /** The limit comes before the date filter: ten recent projects that have
      not ended hide an older one that has. */
  lemma EndedLimitBeforeFilter()
    ensures var open := Project("p", None, None, Some(Schedule(None, Some(100))));
      var old_ := Project("q", None, None, Some(Schedule(None, Some(0))));
      EndedProjects(seq(10, _ => open) + [old_], 50) == []
  {
    var open := Project("p", None, None, Some(Schedule(None, Some(100))));
    var old_ := Project("q", None, None, Some(Schedule(None, Some(0))));
    var rows := seq(10, _ => open) + [old_];
    assert rows[..RecentLimit] == seq(10, _ => open);
    FilterNone(seq(10, _ => open), HasEndedBy(50));
  }

  predicate EndsIn(p: Project, w: Week)
  {
    p.schedule.Some? && p.schedule.value.endDate.Some?
    && IsDateInRange(p.schedule.value.endDate.value, w.start, w.end)
  }

  function EndsInWeek(w: Week): Project -> bool
  {
    (p: Project) => EndsIn(p, w)
  }

  /** `filterProjectsByDeadlineWeek`: the projects, in order, whose end date
      exists and falls in the week's inclusive range. */
  function FilterProjectsByDeadlineWeek(projects: seq<Project>, w: Week): (r: seq<Project>)
    ensures forall p :: p in r <==>
      (p in projects && p.schedule.Some? && p.schedule.value.endDate.Some?
       && w.start <= p.schedule.value.endDate.value <= w.end)
  {
    Filter(projects, EndsInWeek(w))
  }

  predicate InProgress(p: Project, now: int)
  {
    p.schedule.Some? && p.schedule.value.startDate.Some? && p.schedule.value.endDate.Some?
    && IsDateInRange(now, p.schedule.value.startDate.value, p.schedule.value.endDate.value)
  }

  /** `findActiveProject`: the first project, in input order, with both dates
      whose window contains now; none when there is no such project. */
  function FindActiveProject(projects: seq<Project>, now: int): (r: Option<Project>)
    ensures r.None? <==> forall i :: 0 <= i < |projects| ==> !InProgress(projects[i], now)
    ensures r.Some? ==> exists i :: (0 <= i < |projects| && projects[i] == r.value
      && InProgress(r.value, now) && forall j :: 0 <= j < i ==> !InProgress(projects[j], now))
  {
    if projects == [] then None
    else if InProgress(projects[0], now) then Some(projects[0])
    else
      var r := FindActiveProject(projects[1..], now);
      assert forall i :: 1 <= i < |projects| ==> projects[i] == projects[1..][i - 1];
      if r.Some? then
        var i :| 0 <= i < |projects[1..]| && projects[1..][i] == r.value
          && InProgress(r.value, now) && forall j :: 0 <= j < i ==> !InProgress(projects[1..][j], now);
        assert projects[i + 1] == r.value;
        r
      else r
  }

  function IsProject(id: string): string -> bool
  {
    (x: string) => x == id
  }

  /** `getActiveProjectData`: `students` is the roster count and `deliveries`
      the project ids of all deliveries. */
  function ActiveProject(projects: seq<Project>, now: int, students: nat, deliveries: seq<string>)
    : (r: Option<ActiveProjectData>)
    ensures r.Some? <==> students != 0 && FindActiveProject(projects, now).Some?
    ensures r.Some? ==>
      var p := FindActiveProject(projects, now).value;
      var delivered := Count(deliveries, IsProject(p.id));
      && r.value.id == p.id
      && r.value.title == StrOr(p.title, NoTitle)
      && r.value.moduleName == StrOr(p.moduleName, NoModule)
      && r.value.deliveryPercentage == Percentage(delivered, students)
      && r.value.pendingDeliveries + delivered == students
  {
    if projects == [] then None
    else match FindActiveProject(projects, now)
      case None => None
      case Some(p) =>
        if students == 0 then None
        else
          var delivered := Count(deliveries, IsProject(p.id));
          Some(ActiveProjectData(p.id, StrOr(p.title, NoTitle), StrOr(p.moduleName, NoModule),
                                 Percentage(delivered, students), students - delivered))
  }

  /** The pending count is not clamped: more delivery rows than students make
      it negative. */
  lemma PendingNotClamped()
    ensures var p := Project("p", None, None, Some(Schedule(Some(0), Some(10))));
      var r := ActiveProject([p], 5, 1, ["p", "p"]);
      r.Some? && r.value.pendingDeliveries == -1
  {
    var p := Project("p", None, None, Some(Schedule(Some(0), Some(10))));
    assert Filter(["p", "p"], IsProject("p")) == ["p", "p"];
  }

  // ---------------------------------------------------------------------------
  // weekly indicators

  function IsInWeek(w: Week): PastInstance -> bool
  {
    (m: PastInstance) => IsDateInRange(m.startTime, w.start, w.end)
  }

  function ParticipantLists(ms: seq<PastInstance>): (r: seq<Option<seq<Participant>>>)
    ensures |r| == |ms|
    ensures forall i :: 0 <= i < |ms| ==> r[i] == ms[i].participants
  {
    seq(|ms|, i requires 0 <= i < |ms| => ms[i].participants)
  }

  /** Attendance of the meetings held in week `w`. */
  function WeekAttendance(instances: seq<PastInstance>, w: Week, students: nat): real
    requires students > 0
  {
    AttendancePercentage(ParticipantLists(Filter(instances, IsInWeek(w))), students)
  }

  /** `getWeeklyAttendanceData`: the rounded attendance of the current week and
      its trend against the previous week; `{0, 0}` for an empty roster. */
  function WeeklyAttendance(now: int, students: nat, instances: seq<PastInstance>): (r: Indicator)
    ensures students == 0 ==> r == Indicator(0, 0.0)
    ensures students > 0 ==>
      var cur := WeekStartAndEnd(now);
      var prev := PreviousWeekStartAndEnd(cur.start);
      r == Indicator(RoundHalfUp(WeekAttendance(instances, cur, students)),
                     Trend(WeekAttendance(instances, cur, students), WeekAttendance(instances, prev, students)))
  {
    if students == 0 then Indicator(0, 0.0)
    else
      var cur := WeekStartAndEnd(now);
      var prev := PreviousWeekStartAndEnd(cur.start);
      var c := WeekAttendance(instances, cur, students);
      var p := WeekAttendance(instances, prev, students);
      Indicator(RoundHalfUp(c), Trend(c, p))
  }

  /** When no meeting lists more participants than the roster the percentage
      is between 0 and 100. */
  lemma WeeklyAttendanceBounds(now: int, students: nat, instances: seq<PastInstance>)
    requires students > 0
    requires forall i :: 0 <= i < |instances| ==>
      (instances[i].participants.Some? ==> |instances[i].participants.value| <= students)
    ensures 0 <= WeeklyAttendance(now, students, instances).percentage <= 100
  {
    var cur := WeekStartAndEnd(now);
    var ms := Filter(instances, IsInWeek(cur));
    var lists := ParticipantLists(ms);
    forall i | 0 <= i < |lists| ensures lists[i].Some? ==> |lists[i].value| <= students {
      assert ms[i] in instances;
    }
    AttendanceBounds(lists, students);
  }

  /** With no meeting in the previous week there is no trend. */
  lemma WeeklyAttendanceNoPreviousWeek(now: int, students: nat, instances: seq<PastInstance>)
    requires students > 0
    requires var prev := PreviousWeekStartAndEnd(WeekStartAndEnd(now).start);
      forall i :: 0 <= i < |instances| ==> !IsDateInRange(instances[i].startTime, prev.start, prev.end)
    ensures WeeklyAttendance(now, students, instances).trend == 0.0
  {
  }

  function CountOf(deliveries: seq<string>, id: string): nat
  {
    Count(deliveries, IsProject(id))
  }

  /** Sum over the week's projects of their delivery counts. */
  function ActualDeliveries(week: seq<Project>, deliveries: seq<string>): nat
  {
    if week == [] then 0
    else ActualDeliveries(week[..|week| - 1], deliveries) + CountOf(deliveries, week[|week| - 1].id)
  }

  /** The pendency of one week: the undelivered share of the expected
      deliveries (one per student per project). */
  function WeekPendency(week: seq<Project>, students: nat, deliveries: seq<string>): int
  {
    var expected := |week| * students;
    Percentage(expected - ActualDeliveries(week, deliveries), expected)
  }

  /** Without any delivery a week with projects and students is 100% pending;
      with at most one delivery per student and project it is between 0 and
      100. */
  lemma WeekPendencyBounds(week: seq<Project>, students: nat, deliveries: seq<string>)
    ensures deliveries == [] && |week| * students > 0 ==> WeekPendency(week, students, deliveries) == 100
    ensures ActualDeliveries(week, deliveries) <= |week| * students ==>
      0 <= WeekPendency(week, students, deliveries) <= 100
  {
    var expected := |week| * students;
    if deliveries == [] {
      ActualDeliveriesNone(week);
      if expected > 0 {
        PercentageOfWhole(expected);
      }
    }
    if ActualDeliveries(week, deliveries) <= expected {
      PercentageBounds(expected - ActualDeliveries(week, deliveries), expected);
    }
  }

  lemma {:induction false} ActualDeliveriesNone(week: seq<Project>)
    ensures ActualDeliveries(week, []) == 0
  {
    if week != [] {
      ActualDeliveriesNone(week[..|week| - 1]);
    }
  }

  /** The delivery counts as the source reads them from its map. */
  function CountFromMap(counts: map<string, nat>, id: string): nat
  {
    if id in counts then counts[id] else 0
  }

  lemma {:induction false} CountOfAppend(ds: seq<string>, d: string, id: string)
    ensures CountOf(ds + [d], id) == CountOf(ds, id) + (if d == id then 1 else 0)
  {
    FilterAppend(ds, [d], IsProject(id));
  }

  /** `calculateWeeklyPendencies`: counts the deliveries per project in a map,
      then the pendency of each week. */
  method CalculateWeeklyPendencies(current: seq<Project>, previous: seq<Project>,
                                   students: nat, deliveries: seq<string>)
    returns (c: int, p: int)
    ensures c == WeekPendency(current, students, deliveries)
    ensures p == WeekPendency(previous, students, deliveries)
  {
    if |current| + |previous| == 0 {
      return 0, 0;
    }
    var counts: map<string, nat> := map[];
    var i := 0;
    while i < |deliveries|
      invariant 0 <= i <= |deliveries|
      invariant forall id :: CountFromMap(counts, id) == CountOf(deliveries[..i], id)
    {
      var d := deliveries[i];
      var n := if d in counts then counts[d] else 0;
      ghost var before := counts;
      counts := counts[d := n + 1];
      forall id ensures CountFromMap(counts, id) == CountOf(deliveries[..i + 1], id) {
        assert deliveries[..i + 1] == deliveries[..i] + [d];
        CountOfAppend(deliveries[..i], d, id);
        assert CountFromMap(counts, id) == CountFromMap(before, id) + (if d == id then 1 else 0);
      }
      i := i + 1;
    }
    assert deliveries[..i] == deliveries;
    var actualCurrent := SumCounts(current, counts, deliveries);
    var actualPrevious := SumCounts(previous, counts, deliveries);
    c := Percentage(|current| * students - actualCurrent, |current| * students);
    p := Percentage(|previous| * students - actualPrevious, |previous| * students);
  }

  /** The `reduce` summing the map's counts over a week's projects. */
  method SumCounts(week: seq<Project>, counts: map<string, nat>, ghost deliveries: seq<string>)
    returns (total: nat)
    requires forall id :: CountFromMap(counts, id) == CountOf(deliveries, id)
    ensures total == ActualDeliveries(week, deliveries)
  {
    total := 0;
    var i := 0;
    while i < |week|
      invariant 0 <= i <= |week|
      invariant total == ActualDeliveries(week[..i], deliveries)
    {
      assert week[..i + 1][..i] == week[..i];
      total := total + CountFromMap(counts, week[i].id);
      i := i + 1;
    }
    assert week[..i] == week;
  }

  /** `getWeeklyPendenciesData`: `{0, 0}` for an empty roster or no scheduled
      project, otherwise the rounded current-week pendency and its trend. */
  method WeeklyPendencies(now: int, students: nat, projects: seq<Project>, deliveries: seq<string>)
    returns (r: Indicator)
    ensures students == 0 || projects == [] ==> r == Indicator(0, 0.0)
    ensures students != 0 && projects != [] ==>
      var cur := WeekStartAndEnd(now);
      var prev := PreviousWeekStartAndEnd(cur.start);
      var c := WeekPendency(FilterProjectsByDeadlineWeek(projects, cur), students, deliveries);
      var p := WeekPendency(FilterProjectsByDeadlineWeek(projects, prev), students, deliveries);
      r == Indicator(c, Trend(c as real, p as real))
  {
    if students == 0 || |projects| == 0 {
      return Indicator(0, 0.0);
    }
    var cur := WeekStartAndEnd(now);
    var prev := PreviousWeekStartAndEnd(cur.start);
    var c, p := CalculateWeeklyPendencies(FilterProjectsByDeadlineWeek(projects, cur),
                                          FilterProjectsByDeadlineWeek(projects, prev), students, deliveries);
    assert RoundHalfUp(c as real) == c;
    r := Indicator(RoundHalfUp(c as real), Trend(c as real, p as real));
  }

  /** `getStudentsWithConsecutivePendencies`: the ended projects come from the
      scheduled projects in decreasing creation order. */
  method StudentsWithConsecutivePendencies(rows: seq<StudentRow>, projectRows: seq<Project>, now: int,
                                           ds: seq<Delivery>)
    returns (r: seq<StudentPendency>)
    ensures var students := ProcessedStudents(rows);
      var ended := EndedProjects(projectRows, now);
      r == if students == [] || ended == [] then []
           else RankPendencies(seq(|students|, k requires 0 <= k < |students| => PendencyOf(students[k], ended, ds)))
  {
    var students := ProcessedStudents(rows);
    var ended := EndedProjects(projectRows, now);
    if |students| == 0 || |ended| == 0 {
      return [];
    }
    var reports := AnalyzeStudentDeliveries(students, ended, ds);
    assert reports == seq(|students|, k requires 0 <= k < |students| => PendencyOf(students[k], ended, ds));
    r := RankPendencies(reports);
  }
}
