/** A student's Coodesh grades: for each assessment the score of the student's
    first attempt, keyed by the assessment id. */
module CoodeshGrades {
  import opened Wrappers

  datatype AttemptResult = AttemptResult(assessmentScore: Option<real>)

  /** An entry of `participants_data`; `results` is `None` when it is missing
      or not an array. */
  datatype ParticipantData = ParticipantData(email: Option<string>, results: Option<seq<AttemptResult>>)

  /** An assessment; `participantsData` is `None` when missing or not an array. */
  datatype Assessment = Assessment(id: Option<string>, participantsData: Option<seq<ParticipantData>>)

  /** The property key `coodeshGrades[assessment.id]` uses: a missing id
      becomes the key "undefined". */
  function KeyOf(a: Assessment): string
  {
    a.id.GetOr("undefined")
  }

  /** `participants_data.find(p => p.email === studentEmail)`. */
  function FindByEmail(ps: seq<ParticipantData>, email: string): (r: Option<nat>)
    ensures r.None? <==> forall i :: 0 <= i < |ps| ==> ps[i].email != Some(email)
    ensures r.Some? ==> (r.value < |ps| && ps[r.value].email == Some(email)
      && forall j :: 0 <= j < r.value ==> ps[j].email != Some(email))
  {
    if ps == [] then None
    else if ps[0].email == Some(email) then Some(0)
    else
      var r := FindByEmail(ps[1..], email);
      assert forall i :: 1 <= i < |ps| ==> ps[i] == ps[1..][i - 1];
      if r.Some? then Some(r.value + 1) else None
  }

  /** The grade one assessment yields, if any: the first score of the first
      participant with the student's email, when that score is truthy. */
  function GradeOf(a: Assessment, email: string): (r: Option<real>)
    ensures a.participantsData.None? ==> r.None?
    ensures a.participantsData.Some? && FindByEmail(a.participantsData.value, email).None? ==> r.None?
    ensures r.Some? ==> r.value != 0.0
  {
    match a.participantsData
    case None => None
    case Some(ps) =>
      match FindByEmail(ps, email)
      case None => None
      case Some(i) =>
        var p := ps[i];
        if p.results.Some? && |p.results.value| > 0 then
          match p.results.value[0].assessmentScore
          case Some(s) => if s != 0.0 then Some(s) else None
          case None => None
        else None
  }

  /** `s` is the first score of the first participant with the student's
      email. */
  ghost predicate FirstMatchScore(a: Assessment, email: string, s: real)
  {
    a.participantsData.Some? &&
    var ps := a.participantsData.value;
    exists i :: 0 <= i < |ps| && ps[i].email == Some(email)
      && (forall j :: 0 <= j < i ==> ps[j].email != Some(email))
      && ps[i].results.Some? && |ps[i].results.value| > 0
      && ps[i].results.value[0].assessmentScore == Some(s)
  }

  /** An assessment gives the grade `s` exactly when `s` is the first score
      of the first participant with the student's email and is truthy. */
  lemma GradeOfSpec(a: Assessment, email: string, s: real)
    ensures GradeOf(a, email) == Some(s) <==> FirstMatchScore(a, email, s) && s != 0.0
  {
    if FirstMatchScore(a, email, s) && s != 0.0 {
      var ps := a.participantsData.value;
      var i :| 0 <= i < |ps| && ps[i].email == Some(email)
        && (forall j :: 0 <= j < i ==> ps[j].email != Some(email))
        && ps[i].results.Some? && |ps[i].results.value| > 0
        && ps[i].results.value[0].assessmentScore == Some(s);
      var r := FindByEmail(ps, email);
      assert r.Some?;
      assert r.value == i;
    }
  }

  /** A score of 0 is falsy, so it produces no grade. */
  lemma ZeroScoreNoGrade(id: string, email: string)
    ensures GradeOf(Assessment(Some(id), Some([ParticipantData(Some(email), Some([AttemptResult(Some(0.0))]))])), email).None?
  {
    var a := Assessment(Some(id), Some([ParticipantData(Some(email), Some([AttemptResult(Some(0.0))]))]));
    assert FindByEmail(a.participantsData.value, email) == Some(0);
  }

  /** A dictionary filled entry by entry: `dict[key(x)] = v` for each `x`
      in order that has a value `v`. */
  function Collect<T>(xs: seq<T>, key: T -> string, value: T -> Option<real>): map<string, real>
  {
    if xs == [] then map[]
    else
      var m := Collect(xs[..|xs| - 1], key, value);
      var x := xs[|xs| - 1];
      match value(x)
      case Some(v) => m[key(x) := v]
      case None => m
  }

  /** The dictionary after processing the assessments in order. */
  function Grades(assessments: seq<Assessment>, email: string): map<string, real>
  {
    Collect(assessments, KeyOf, (a: Assessment) => GradeOf(a, email))
  }

  /** Every key of the result comes from an assessment with a grade, and its
      value is the grade of the last such assessment with that key. */
  lemma GradesSpec(assessments: seq<Assessment>, email: string, k: string)
    ensures k in Grades(assessments, email) <==>
      exists i :: 0 <= i < |assessments| && KeyOf(assessments[i]) == k && GradeOf(assessments[i], email).Some?
    ensures k in Grades(assessments, email) ==>
      exists i :: 0 <= i < |assessments| && KeyOf(assessments[i]) == k && GradeOf(assessments[i], email) == Some(Grades(assessments, email)[k])
        && forall j :: i < j < |assessments| ==> KeyOf(assessments[j]) != k || GradeOf(assessments[j], email).None?
  {
    var value := (a: Assessment) => GradeOf(a, email);
    CollectKeys(assessments, KeyOf, value, k);
    if k in Grades(assessments, email) {
      var i := CollectLast(assessments, KeyOf, value, k);
    }
  }

  /** A key is present exactly when some entry with a value has it. */
  lemma {:induction false} CollectKeys<T>(xs: seq<T>, key: T -> string, value: T -> Option<real>, k: string)
    ensures k in Collect(xs, key, value) <==> exists i :: 0 <= i < |xs| && key(xs[i]) == k && value(xs[i]).Some?
  {
    if xs != [] {
      var n := |xs| - 1;
      var q := xs[..n];
      CollectKeys(q, key, value, k);
      if !(key(xs[n]) == k && value(xs[n]).Some?) {
        if k in Collect(q, key, value) {
          var i :| 0 <= i < |q| && key(q[i]) == k && value(q[i]).Some?;
          assert xs[i] == q[i];
        }
        if exists i :: 0 <= i < |xs| && key(xs[i]) == k && value(xs[i]).Some? {
          var i :| 0 <= i < |xs| && key(xs[i]) == k && value(xs[i]).Some?;
          if i < n {
            assert q[i] == xs[i];
          }
        }
      }
    }
  }

  /** The entry a present key's value comes from: the last one with a value
      under that key. */
  lemma {:induction false} CollectLast<T>(xs: seq<T>, key: T -> string, value: T -> Option<real>, k: string)
    returns (i: nat)
    requires k in Collect(xs, key, value)
    ensures i < |xs| && key(xs[i]) == k && value(xs[i]) == Some(Collect(xs, key, value)[k])
    ensures forall j :: i < j < |xs| ==> key(xs[j]) != k || value(xs[j]).None?
  {
    var n := |xs| - 1;
    var q := xs[..n];
    if key(xs[n]) == k && value(xs[n]).Some? {
      i := n;
    } else {
      i := CollectLast(q, key, value, k);
      assert q[i] == xs[i];
      forall j | i < j < |xs| ensures key(xs[j]) != k || value(xs[j]).None? {
        if j < n {
          assert q[j] == xs[j];
        }
      }
    }
  }

  /** `getStudentCoodeshGrades`: fills the dictionary assessment by
      assessment. The student id is not consulted. */
  method GetStudentCoodeshGrades(studentId: string, assessments: seq<Assessment>, email: string)
    returns (grades: map<string, real>)
    ensures grades == Grades(assessments, email)
  {
    grades := map[];
    var i := 0;
    while i < |assessments|
      invariant 0 <= i <= |assessments|
      invariant grades == Grades(assessments[..i], email)
    {
      var a := assessments[i];
      assert assessments[..i + 1][..i] == assessments[..i];
      if a.participantsData.Some? {
        var found := FindByEmail(a.participantsData.value, email);
        if found.Some? {
          var p := a.participantsData.value[found.value];
          if p.results.Some? && |p.results.value| > 0 {
            var score := p.results.value[0].assessmentScore;
            if score.Some? && score.value != 0.0 {
              grades := grades[KeyOf(a) := score.value];
            }
          }
        }
      }
      i := i + 1;
    }
    assert assessments[..i] == assessments;
  }
}
