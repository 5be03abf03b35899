/** The longest run of consecutive misses in a sequence of events: the value
    both streak scans of the dashboard compute. `true` marks a miss. */
module Streaks {

  function Max(a: int, b: int): int
  {
    if a >= b then a else b
  }

  /** Length of the run of misses at the end of `s` (the run still open when
      the scan stops). */
  function TrailingRun(s: seq<bool>): (r: nat)
    ensures r <= |s|
  {
    if s == [] || !s[|s| - 1] then 0 else TrailingRun(s[..|s| - 1]) + 1
  }

  /** Length of the longest run of misses in `s`, the trailing run included. */
  function LongestRun(s: seq<bool>): (r: nat)
    ensures TrailingRun(s) <= r <= |s|
  {
    if s == [] then 0 else Max(LongestRun(s[..|s| - 1]), TrailingRun(s))
  }

  /** Every event in `s[i..j]` is a miss. */
  predicate AllMisses(s: seq<bool>, i: int, j: int)
    requires 0 <= i <= j <= |s|
  {
    forall k :: i <= k < j ==> s[k]
  }

  /** `s[i..i + n]` is a run of misses. */
  predicate RunAt(s: seq<bool>, i: int, n: int)
  {
    0 <= i && 0 <= n && i + n <= |s| && AllMisses(s, i, i + n)
  }

  lemma {:induction false} TrailingRunIsRun(s: seq<bool>)
    ensures AllMisses(s, |s| - TrailingRun(s), |s|)
  {
    if s != [] && s[|s| - 1] {
      var p := s[..|s| - 1];
      TrailingRunIsRun(p);
      assert forall k :: |p| - TrailingRun(p) <= k < |p| ==> s[k] == p[k];
    }
  }

  lemma {:induction false} TrailingRunCovers(s: seq<bool>, i: int)
    requires 0 <= i <= |s| && AllMisses(s, i, |s|)
    ensures |s| - i <= TrailingRun(s)
  {
    if i < |s| {
      var p := s[..|s| - 1];
      assert AllMisses(p, i, |p|) by {
        assert forall k :: i <= k < |p| ==> p[k] == s[k];
      }
      TrailingRunCovers(p, i);
    }
  }

  /** No run of misses is longer than the longest run. */
  lemma {:induction false} LongestRunIsUpperBound(s: seq<bool>, i: int, j: int)
    requires 0 <= i <= j <= |s| && AllMisses(s, i, j)
    ensures j - i <= LongestRun(s)
  {
    if j == |s| {
      TrailingRunCovers(s, i);
    } else {
      var p := s[..|s| - 1];
      assert AllMisses(p, i, j) by {
        assert forall k :: i <= k < j ==> p[k] == s[k];
      }
      LongestRunIsUpperBound(p, i, j);
    }
  }

  /** Some run of misses is as long as the longest run. */
  lemma {:induction false} LongestRunIsAttained(s: seq<bool>)
    ensures exists i :: RunAt(s, i, LongestRun(s))
  {
    if s != [] {
      var p := s[..|s| - 1];
      if LongestRun(p) >= TrailingRun(s) {
        LongestRunIsAttained(p);
        var i :| RunAt(p, i, LongestRun(p));
        assert forall k :: i <= k < i + LongestRun(p) ==> s[k] == p[k];
        assert RunAt(s, i, LongestRun(s));
      } else {
        TrailingRunIsRun(s);
        assert RunAt(s, |s| - LongestRun(s), LongestRun(s));
      }
    } else {
      assert LongestRun(s) == 0;
      assert RunAt(s, 0, LongestRun(s));
    }
  }

  /** With no hit at all the streak is the number of events. */
  lemma {:induction false} LongestRunAllMisses(s: seq<bool>)
    requires forall k :: 0 <= k < |s| ==> s[k]
    ensures LongestRun(s) == |s|
  {
    assert AllMisses(s, 0, |s|);
    LongestRunIsUpperBound(s, 0, |s|);
  }

  /** One step of the scan: extending the prefix by one event. */
  lemma ExtendRun(s: seq<bool>, b: bool)
    ensures (s + [b])[..|s|] == s
    ensures TrailingRun(s + [b]) == if b then TrailingRun(s) + 1 else 0
    ensures LongestRun(s + [b]) == Max(LongestRun(s), TrailingRun(s + [b]))
  {
    assert (s + [b])[..|s|] == s;
  }
}
