/** The dashboard's arithmetic: rounded percentages, one-decimal trends and the
    average attendance of a list of meetings. Numbers are exact (`real`);
    JavaScript's `Math.round` is round-half-up. */
module MathUtils {
  import opened Wrappers

  /** `Math.round(x)`: the integer nearest to `x`, halves rounded up. */
  function RoundHalfUp(x: real): (r: int)
    ensures r as real - 0.5 <= x < r as real + 0.5
  {
    (x + 0.5).Floor
  }

  /** `calculatePercentage(n, d)`: 0 for a zero denominator, otherwise `n` as a
      whole percentage of `d`, rounded half up. */
  function Percentage(n: int, d: int): (r: int)
    ensures d == 0 ==> r == 0
    ensures d != 0 ==> r as real - 0.5 <= (n * 100) as real / d as real < r as real + 0.5
  {
    if d == 0 then 0 else RoundHalfUp((n * 100) as real / d as real)
  }

  /** A share of a positive whole is a percentage between 0 and 100. */
  lemma PercentageBounds(n: int, d: int)
    requires 0 <= n <= d
    ensures 0 <= Percentage(n, d) <= 100
  {
    if d != 0 {
      var x := (n * 100) as real / d as real;
      assert 0.0 <= x <= 100.0 by {
        assert (n * 100) as real <= (d * 100) as real;
      }
    }
  }

  lemma PercentageOfWhole(d: int)
    requires d != 0
    ensures Percentage(d, d) == 100 && Percentage(0, d) == 0
  {
    assert (d * 100) as real / d as real == 100.0;
  }

  /** `calculateTrend(c, p)`: 0 when there is no previous value, otherwise the
      difference `c - p` rounded to one decimal. */
  function Trend(c: real, p: real): (r: real)
    ensures p == 0.0 ==> r == 0.0
    ensures p != 0.0 ==> (r * 10.0).Floor as real == r * 10.0
    ensures p != 0.0 ==> (c - p) - 0.05 < r <= (c - p) + 0.05
  {
    if p == 0.0 then 0.0
    else
      var k := RoundHalfUp((c - p) * 10.0);
      assert (k as real / 10.0) * 10.0 == k as real;
      k as real / 10.0
  }

  /** An unchanged value has no trend. */
  lemma TrendOfSame(c: real)
    ensures Trend(c, c) == 0.0
  {
  }

  /** Number of participants over a list of meetings; a missing list counts 0. */
  function TotalAttendances<P>(lists: seq<Option<seq<P>>>): (r: nat)
  {
    if lists == [] then 0
    else TotalAttendances(lists[..|lists| - 1]) + match lists[|lists| - 1]
      case Some(ps) => |ps|
      case None => 0
  }

  /** `calculateAttendancePercentage`: 0 for no meetings, otherwise the mean
      share of the roster present per meeting, in percent (not rounded). */
  function AttendancePercentage<P>(lists: seq<Option<seq<P>>>, totalStudents: int): (r: real)
    requires lists == [] || totalStudents != 0
    ensures lists == [] ==> r == 0.0
    ensures lists != [] ==>
      r * (|lists| * totalStudents) as real == (TotalAttendances(lists) * 100) as real
  {
    if lists == [] then 0.0
    else (TotalAttendances(lists) as real / (|lists| * totalStudents) as real) * 100.0
  }

  /** A meeting without a participant list adds nothing. */
  lemma {:induction false} TotalAttendancesNone<P>(lists: seq<Option<seq<P>>>)
    ensures TotalAttendances(lists + [None]) == TotalAttendances(lists)
  {
    assert (lists + [None])[..|lists|] == lists;
  }

  /** When no meeting lists more participants than the roster, attendance lies
      between 0 and 100 percent. */
  lemma AttendanceBounds<P>(lists: seq<Option<seq<P>>>, totalStudents: int)
    requires totalStudents > 0
    requires forall i :: 0 <= i < |lists| ==> (lists[i].Some? ==> |lists[i].value| <= totalStudents)
    ensures 0.0 <= AttendancePercentage(lists, totalStudents) <= 100.0
  {
    if lists != [] {
      TotalAttendancesBound(lists, totalStudents);
      ProductPositive(|lists|, totalStudents);
      RatioBounds(TotalAttendances(lists), |lists| * totalStudents);
    }
  }

  lemma ProductPositive(a: int, b: int)
    requires a > 0 && b > 0
    ensures a * b > 0
  {
  }

  /** A part of a positive whole is between 0 and 100 percent of it. */
  lemma RatioBounds(t: int, m: int)
    requires 0 <= t <= m && m > 0
    ensures 0.0 <= (t as real / m as real) * 100.0 <= 100.0
  {
    assert t as real / m as real <= 1.0;
  }

  lemma {:induction false} TotalAttendancesBound<P>(lists: seq<Option<seq<P>>>, k: nat)
    requires forall i :: 0 <= i < |lists| ==> (lists[i].Some? ==> |lists[i].value| <= k)
    ensures TotalAttendances(lists) <= |lists| * k
  {
    if lists != [] {
      TotalAttendancesBound(lists[..|lists| - 1], k);
      ProductStep(|lists| - 1, k);
    }
  }

  lemma ProductStep(n: int, k: int)
    ensures (n + 1) * k == n * k + k
  {
  }
}
