/** Helpers of the activities feature: display maps, validators, submission
    statistics, sorting, filtering, CSV export and routes. */
module ActivitiesUtils {
  import opened Wrappers
  import opened Strings
  import opened Seqs
  import opened MathUtils
  import opened ActivityTypes

  // ---------------------------------------------------------------------------
  // display maps

  /** `getStatusDisplayName`. */
  function StatusDisplayName(s: Status): string
  {
    match s
    case E => "Entregue"
    case F => "Falta"
    case PJ => "Pendência Justificada"
  }

  /** `getStatusColor`. */
  function StatusColor(s: Status): string
  {
    match s
    case E => "text-green-600 bg-green-50"
    case F => "text-red-600 bg-red-50"
    case PJ => "text-yellow-600 bg-yellow-50"
  }

  /** Both status maps are defined for every status and tell the statuses
      apart. */
  lemma StatusMapsInjective(a: Status, b: Status)
    ensures StatusDisplayName(a) != "" && StatusColor(a) != ""
    ensures StatusDisplayName(a) == StatusDisplayName(b) ==> a == b
    ensures StatusColor(a) == StatusColor(b) ==> a == b
  {
    if a != b {
      assert StatusDisplayName(a)[0] != StatusDisplayName(b)[0];
      assert StatusColor(a)[5] != StatusColor(b)[5];
    }
  }

  datatype ClassType = Programming | English | SoftSkills | Community

  /** `getClassTypeDisplayName`. */
  function ClassTypeDisplayName(t: ClassType): string
  {
    match t
    case Programming => "Programação"
    case English => "Inglês"
    case SoftSkills => "Soft Skills"
    case Community => "Comunidade"
  }

  /** `getClassTypeColor`. */
  function ClassTypeColor(t: ClassType): string
  {
    match t
    case Programming => "text-blue-600 bg-blue-50"
    case English => "text-purple-600 bg-purple-50"
    case SoftSkills => "text-orange-600 bg-orange-50"
    case Community => "text-green-600 bg-green-50"
  }

  lemma ClassTypeMapsInjective(a: ClassType, b: ClassType)
    ensures ClassTypeDisplayName(a) == ClassTypeDisplayName(b) ==> a == b
    ensures ClassTypeColor(a) == ClassTypeColor(b) ==> a == b
  {
    if a != b {
      ClassTypeNamesDiffer(a, b);
      ClassTypeColorsDiffer(a, b);
    }
  }

  lemma ClassTypeNamesDiffer(a: ClassType, b: ClassType)
    requires a != b
    ensures ClassTypeDisplayName(a) != ClassTypeDisplayName(b)
  {
    assert ClassTypeDisplayName(a)[0] != ClassTypeDisplayName(b)[0];
  }

  lemma ClassTypeColorsDiffer(a: ClassType, b: ClassType)
    requires a != b
    ensures ClassTypeColor(a) != ClassTypeColor(b)
  {
    assert ClassTypeColor(a)[5] != ClassTypeColor(b)[5];
  }

  // ---------------------------------------------------------------------------
  // validators

  /** A character `[^\s@]` accepts. */
  predicate PlainChar(c: char)
  {
    !IsJsWhitespace(c) && c != '@'
  }

  predicate AllPlain(s: string)
  {
    forall k :: 0 <= k < |s| ==> PlainChar(s[k])
  }

  function IndexOf(s: string, c: char): (r: Option<nat>)
    ensures r.None? <==> c !in s
    ensures r.Some? ==> r.value < |s| && s[r.value] == c && c !in s[..r.value]
  {
    if s == [] then None
    else if s[0] == c then Some(0)
    else
      var r := IndexOf(s[1..], c);
      assert forall x :: x in s <==> x == s[0] || x in s[1..];
      if r.Some? then
        assert s[..r.value + 1] == [s[0]] + s[1..][..r.value];
        Some(r.value + 1)
      else None
  }

  /** The first occurrence is found wherever it is. */
  lemma {:induction false} IndexOfAt(s: string, c: char, i: nat)
    requires i < |s| && s[i] == c && c !in s[..i]
    ensures IndexOf(s, c) == Some(i)
  {
    if i > 0 {
      assert s[..i][0] == s[0];
      assert s[1..][..i - 1] == s[..i][1..];
      IndexOfAt(s[1..], c, i - 1);
    }
  }

  /** A '.' with at least one character on each side. */
  predicate HasInnerDot(t: string)
  {
    exists j :: 0 < j < |t| - 1 && t[j] == '.'
  }

  /** `validateEmail`: the text before the first '@' is a non-empty run of
      plain characters, and the text after it is plain and has an inner dot. */
  predicate ValidateEmail(s: string)
  {
    match IndexOf(s, '@')
    case None => false
    case Some(i) => i > 0 && AllPlain(s[..i]) && AllPlain(s[i + 1..]) && HasInnerDot(s[i + 1..])
  }

  /** The shape `/^[^\s@]+@[^\s@]+\.[^\s@]+$/` describes, with the '@' at `i`
      and the '.' at `j`. */
  predicate EmailShapeAt(s: string, i: int, j: int)
  {
    0 < i && i + 1 < j && j + 1 < |s| && s[i] == '@' && s[j] == '.'
    && AllPlain(s[..i]) && AllPlain(s[i + 1..j]) && AllPlain(s[j + 1..])
  }

  /** The validator accepts exactly the strings of the regular expression's
      shape. */
  lemma ValidateEmailIff(s: string)
    ensures ValidateEmail(s) <==> exists i, j :: EmailShapeAt(s, i, j)
  {
    if ValidateEmail(s) {
      var i, j := ValidateEmailShape(s);
    }
    if exists i, j :: EmailShapeAt(s, i, j) {
      var i, j :| EmailShapeAt(s, i, j);
      ShapeValidates(s, i, j);
    }
  }

  /** An accepted address has the shape, at its first '@' and an inner dot
      after it. */
  lemma ValidateEmailShape(s: string) returns (i: int, j: int)
    requires ValidateEmail(s)
    ensures EmailShapeAt(s, i, j)
  {
    i := IndexOf(s, '@').value;
    var t := s[i + 1..];
    var d :| 0 < d < |t| - 1 && t[d] == '.';
    assert s[i + 1..i + 1 + d] == t[..d];
    assert s[i + 1 + d + 1..] == t[d + 1..];
    j := i + 1 + d;
  }

  /** A string of the shape is accepted. */
  lemma ShapeValidates(s: string, i: int, j: int)
    requires EmailShapeAt(s, i, j)
    ensures ValidateEmail(s)
  {
    assert '@' !in s[..i];
    IndexOfAt(s, '@', i);
    var t := s[i + 1..];
    assert AllPlain(t) by {
      forall k | 0 <= k < |t| ensures PlainChar(t[k]) {
        if k < j - i - 1 { assert t[k] == s[i + 1..j][k]; }
        else if k > j - i - 1 { assert t[k] == s[j + 1..][k - (j - i)]; }
      }
    }
    assert t[j - i - 1] == '.';
  }

  /** A JavaScript number, with NaN and the infinities. */
  datatype Number = NaN | PosInfinity | NegInfinity | Num(value: real)

  /** `validateScore`: not NaN and within [0, 10]. */
  function ValidateScore(x: Number): (r: bool)
    ensures r <==> x.Num? && 0.0 <= x.value <= 10.0
  {
    match x
    case NaN => false
    case PosInfinity => false
    case NegInfinity => false
    case Num(v) => v >= 0.0 && v <= 10.0
  }

  // ---------------------------------------------------------------------------
  // statistics

  /** `calculateSubmissionRate`: the submitted share in percent rounded to two
      decimals; 0 when the total is not positive. */
  function CalculateSubmissionRate(submitted: int, total: int): (r: real)
    ensures total <= 0 ==> r == 0.0
    ensures total > 0 ==> (r * 100.0).Floor as real == r * 100.0
    ensures total > 0 ==>
      submitted as real * 100.0 / total as real - 0.005 < r <= submitted as real * 100.0 / total as real + 0.005
  {
    if total > 0 then
      var x := (submitted as real / total as real) * 100.0 * 100.0;
      var k := RoundHalfUp(x);
      assert (k as real / 100.0) * 100.0 == k as real;
      assert x == (submitted as real * 100.0 / total as real) * 100.0;
      k as real / 100.0
    else 0.0
  }

  lemma SubmissionRateBounds(submitted: int, total: int)
    requires 0 <= submitted <= total
    ensures 0.0 <= CalculateSubmissionRate(submitted, total) <= 100.0
  {
    if total > 0 {
      var x := (submitted as real / total as real) * 100.0 * 100.0;
      assert 0.0 <= x <= 10000.0 by {
        assert submitted as real / total as real <= 1.0;
      }
      var k := RoundHalfUp(x);
      assert 0 <= k <= 10000;
    }
  }

  /** `getSubmissionRateColor`: green from 80, yellow from 60, red below. */
  function SubmissionRateColor(rate: real): (r: string)
    ensures r == "text-green-600" <==> rate >= 80.0
    ensures r == "text-yellow-600" <==> 60.0 <= rate < 80.0
    ensures r == "text-red-600" <==> rate < 60.0
  {
    if rate >= 80.0 then "text-green-600"
    else if rate >= 60.0 then "text-yellow-600"
    else "text-red-600"
  }

  function HasStatus(s: Status): SubmissionStatus -> bool
  {
    (x: SubmissionStatus) => x.status == s
  }

  /** Every status is exactly one of E, F and PJ, so the three counts add up
      to the number of statuses. */
  lemma {:induction false} StatusCountsPartition(xs: seq<SubmissionStatus>)
    ensures Count(xs, HasStatus(E)) + Count(xs, HasStatus(F)) + Count(xs, HasStatus(PJ)) == |xs|
  {
    if xs != [] {
      StatusCountsPartition(xs[1..]);
    }
  }

  /** `generateSubmissionSummary`. */
  function GenerateSubmissionSummary(xs: seq<SubmissionStatus>): (r: Summary)
    ensures r.total == |xs|
    ensures r.submitted + r.missing + r.justified == r.total
    ensures r.submitted == Count(xs, HasStatus(E)) && r.missing == Count(xs, HasStatus(F))
      && r.justified == Count(xs, HasStatus(PJ))
    ensures r.submissionRate == CalculateSubmissionRate(r.submitted, r.total)
    ensures 0.0 <= r.submissionRate <= 100.0
  {
    StatusCountsPartition(xs);
    var submitted := Count(xs, HasStatus(E));
    SubmissionRateBounds(submitted, |xs|);
    Summary(|xs|, submitted, Count(xs, HasStatus(F)), Count(xs, HasStatus(PJ)),
            CalculateSubmissionRate(submitted, |xs|))
  }

  // ---------------------------------------------------------------------------
  // sorting (on copies)

  function StatusRank(s: Status): nat
  {
    match s
    case E => 1
    case PJ => 2
    case F => 3
  }

  /** The comparator of `sortStudentsByStatus`: E before PJ before F, then by
      name. */
  function ByStatusThenName(a: SubmissionStatus, b: SubmissionStatus): bool
  {
    StatusRank(a.status) < StatusRank(b.status)
    || (StatusRank(a.status) == StatusRank(b.status) && StrLe(a.student.name, b.student.name))
  }

  function ByName(a: SubmissionStatus, b: SubmissionStatus): bool
  {
    StrLe(a.student.name, b.student.name)
  }

  lemma ByStatusThenNameTotal()
    ensures Total(ByStatusThenName)
  {
    forall a, b ensures ByStatusThenName(a, b) || ByStatusThenName(b, a) {
      StrLeTotal(a.student.name, b.student.name);
    }
  }

  /** `sortStudentsByStatus`: a permutation of the statuses ordered by rank
      and then by name. */
  function SortStudentsByStatus(xs: seq<SubmissionStatus>): (r: seq<SubmissionStatus>)
    ensures multiset(r) == multiset(xs)
    ensures forall i :: 0 < i < |r| ==>
      StatusRank(r[i - 1].status) < StatusRank(r[i].status)
      || (StatusRank(r[i - 1].status) == StatusRank(r[i].status) && StrLe(r[i - 1].student.name, r[i].student.name))
  {
    ByStatusThenNameTotal();
    SortByCorrect(xs, ByStatusThenName);
    SortBy(xs, ByStatusThenName)
  }

  /** `sortStudentsByName`: a permutation of the statuses ordered by name. */
  function SortStudentsByName(xs: seq<SubmissionStatus>): (r: seq<SubmissionStatus>)
    ensures multiset(r) == multiset(xs)
    ensures forall i :: 0 < i < |r| ==> StrLe(r[i - 1].student.name, r[i].student.name)
  {
    assert Total(ByName) by {
      forall a, b ensures ByName(a, b) || ByName(b, a) {
        StrLeTotal(a.student.name, b.student.name);
      }
    }
    SortByCorrect(xs, ByName);
    SortBy(xs, ByName)
  }

  // ---------------------------------------------------------------------------
  // filters

  /** `filterByStatus`. */
  function FilterByStatus(xs: seq<SubmissionStatus>, s: Status): (r: seq<SubmissionStatus>)
    ensures forall x :: x in r <==> x in xs && x.status == s
    ensures |r| == Count(xs, HasStatus(s))
  {
    Filter(xs, HasStatus(s))
  }

  predicate Matches(x: SubmissionStatus, term: string)
  {
    Contains(Lower(x.student.name), term) || Contains(Lower(x.student.email), term)
  }

  function MatchesTerm(term: string): SubmissionStatus -> bool
  {
    (x: SubmissionStatus) => Matches(x, term)
  }

  /** `filterBySearch`: the statuses, in order, whose lower-cased name or
      email contains the lower-cased term. */
  function FilterBySearch(xs: seq<SubmissionStatus>, searchTerm: string): (r: seq<SubmissionStatus>)
    ensures forall x :: x in r <==> (x in xs &&
      (Contains(Lower(x.student.name), Lower(searchTerm)) || Contains(Lower(x.student.email), Lower(searchTerm))))
  {
    Filter(xs, MatchesTerm(Lower(searchTerm)))
  }

  /** The empty search keeps everything. */
  lemma FilterBySearchEmpty(xs: seq<SubmissionStatus>)
    ensures FilterBySearch(xs, "") == xs
  {
    forall i | 0 <= i < |xs| ensures Matches(xs[i], "") {
      ContainsEmpty(Lower(xs[i].student.name));
    }
    FilterAll(xs, MatchesTerm(Lower("")));
  }

  // ---------------------------------------------------------------------------
  // CSV export

  /** "Nome,Email,Status,Data de Entrega,Justificativa". */
  const CsvHeader := "Nome," + "Email," + "Status," + "Data de Entrega," + "Justificativa"

  /** One CSV line; `formatTimestamp` (a locale rendering) is a parameter. */
  function CsvRow(x: SubmissionStatus, formatTimestamp: string -> string): string
  {
    var submittedAt := if x.submittedAt.Some? && x.submittedAt.value != "" then formatTimestamp(x.submittedAt.value) else "-";
    var justification := if x.justification.Some? then StrOr(Some(x.justification.value.reason), "-") else "-";
    "\"" + x.student.name + "\",\"" + x.student.email + "\",\"" + StatusDisplayName(x.status)
      + "\",\"" + submittedAt + "\",\"" + justification + "\""
  }

  function CsvLines(xs: seq<SubmissionStatus>, formatTimestamp: string -> string): (r: seq<string>)
    ensures |r| == |xs| + 1 && r[0] == CsvHeader
    ensures forall i :: 0 <= i < |xs| ==> r[i + 1] == CsvRow(xs[i], formatTimestamp)
  {
    [CsvHeader] + seq(|xs|, i requires 0 <= i < |xs| => CsvRow(xs[i], formatTimestamp))
  }

  /** `generateCSVContent`: the header and one line per status, joined by
      newlines. */
  function GenerateCSVContent(xs: seq<SubmissionStatus>, formatTimestamp: string -> string): string
  {
    Join(CsvLines(xs, formatTimestamp), "\n")
  }

  /** When no line contains a newline, splitting the content at newlines
      gives back the header followed by one line per status. */
  lemma CSVContentLines(xs: seq<SubmissionStatus>, formatTimestamp: string -> string)
    requires forall i :: 0 <= i < |xs| ==> '\n' !in CsvRow(xs[i], formatTimestamp)
    ensures var lines := Split(GenerateCSVContent(xs, formatTimestamp), '\n');
      |lines| == |xs| + 1 && lines[0] == CsvHeader
      && forall i :: 0 <= i < |xs| ==> lines[i + 1] == CsvRow(xs[i], formatTimestamp)
  {
    var lines := CsvLines(xs, formatTimestamp);
    forall i | 0 <= i < |lines| ensures '\n' !in lines[i] {
      if i > 0 { assert lines[i] == CsvRow(xs[i - 1], formatTimestamp); }
    }
    SplitJoin(lines, '\n');
  }

  // ---------------------------------------------------------------------------
  // routes

  /** `getClassroomRoute`. */
  function ClassroomRoute(classroomId: string): string
  {
    "/dashboard/admin/classrooms/" + classroomId
  }

  /** `getActivityRoute`: the activities page, or one activity when an id is
      given (an empty id counts as none). */
  function ActivityRoute(classroomId: string, activityId: Option<string>): (r: string)
    ensures StartsWith(r, ClassroomRoute(classroomId) + "/activities")
    ensures activityId.Some? && activityId.value != "" ==>
      r == ClassroomRoute(classroomId) + "/activities/" + activityId.value
    ensures activityId.None? || activityId.value == "" ==> r == ClassroomRoute(classroomId) + "/activities"
  {
    var base := "/dashboard/admin/classrooms/" + classroomId + "/activities";
    var r := if activityId.Some? && activityId.value != "" then base + "/" + activityId.value else base;
    assert r[..|base|] == base;
    r
  }
}
