/** Sequence helpers: filtering, counting, and a stable insertion sort that
    stands in for JavaScript's (stable) `Array.prototype.sort`. */
module Seqs {
  import opened Wrappers

  /** `s.filter(p)`. */
  function Filter<T(!new)>(s: seq<T>, p: T -> bool): (r: seq<T>)
    ensures |r| <= |s|
    ensures forall i :: 0 <= i < |r| ==> p(r[i])
    ensures forall x :: x in r <==> x in s && p(x)
  {
    if s == [] then []
    else
      var rest := Filter(s[1..], p);
      assert forall x :: x in s <==> x == s[0] || x in s[1..];
      if p(s[0]) then [s[0]] + rest else rest
  }

  /** `s.findIndex(p)`, with `None` for "not found": the first index
      whose element satisfies `p`. */
  function FindIndex<T>(s: seq<T>, p: T -> bool): (r: Option<nat>)
    ensures r.None? <==> forall i :: 0 <= i < |s| ==> !p(s[i])
    ensures r.Some? ==> r.value < |s| && p(s[r.value]) && forall k :: 0 <= k < r.value ==> !p(s[k])
  {
    if s == [] then None
    else if p(s[0]) then Some(0)
    else
      var r := FindIndex(s[1..], p);
      assert forall i :: 1 <= i < |s| ==> s[i] == s[1..][i - 1];
      if r.Some? then Some(r.value + 1) else None
  }

  /** `s.filter(p).length`. */
  function Count<T(!new)>(s: seq<T>, p: T -> bool): nat
  {
    |Filter(s, p)|
  }

  lemma {:induction false} FilterAppend<T(!new)>(a: seq<T>, b: seq<T>, p: T -> bool)
    ensures Filter(a + b, p) == Filter(a, p) + Filter(b, p)
  {
    if a != [] {
      var x, rest := a[0], a[1..];
      assert a == [x] + rest && a + b == [x] + (rest + b);
      FilterAppend(rest, b, p);
      FilterCons(x, rest, p);
      FilterCons(x, rest + b, p);
    } else {
      assert a + b == b;
    }
  }

  lemma FilterCons<T(!new)>(x: T, s: seq<T>, p: T -> bool)
    ensures Filter([x] + s, p) == (if p(x) then [x] else []) + Filter(s, p)
  {
    assert ([x] + s)[1..] == s;
  }

  /** The filter keeps exactly the elements at the indices `idx` that
      satisfy `p`, in increasing order. */
  lemma {:induction false} FilterIndices<T(!new)>(s: seq<T>, p: T -> bool) returns (idx: seq<nat>)
    ensures IndicesOf(s, p, Filter(s, p), idx)
  {
    if s == [] {
      idx := [];
    } else {
      var rest := FilterIndices(s[1..], p);
      FilterCons(s[0], s[1..], p);
      assert [s[0]] + s[1..] == s;
      idx := ConsIndices(s[0], s[1..], p, Filter(s[1..], p), rest);
    }
  }

  /** `f` lists the elements of `s` at the increasing positions `idx`, which
      are exactly the positions whose element satisfies `p`. */
  ghost predicate IndicesOf<T>(s: seq<T>, p: T -> bool, f: seq<T>, idx: seq<nat>)
  {
    |idx| == |f|
    && (forall k :: 0 <= k < |idx| ==> idx[k] < |s| && f[k] == s[idx[k]])
    && (forall k, l :: 0 <= k < l < |idx| ==> idx[k] < idx[l])
    && (forall i {:trigger i in idx} :: 0 <= i < |s| ==> (p(s[i]) <==> i in idx))
  }

  /** One element in front: the positions of `t` move up by one, and 0
      joins them when `x` satisfies `p`. */
  lemma ConsIndices<T>(x: T, t: seq<T>, p: T -> bool, f: seq<T>, rest: seq<nat>) returns (idx: seq<nat>)
    requires IndicesOf(t, p, f, rest)
    ensures IndicesOf([x] + t, p, (if p(x) then [x] else []) + f, idx)
  {
    var shifted := ShiftIndices(x, t, p, f, rest);
    if p(x) {
      idx := [0] + shifted;
      KeepIndices(x, t, p, f, shifted);
    } else {
      idx := shifted;
      assert [] + f == f;
    }
  }

  /** The positions of `t` moved up by one, as positions of `[x] + t`. */
  lemma ShiftIndices<T>(x: T, t: seq<T>, p: T -> bool, f: seq<T>, rest: seq<nat>) returns (shifted: seq<nat>)
    requires IndicesOf(t, p, f, rest)
    ensures |shifted| == |f|
    ensures forall k :: 0 <= k < |shifted| ==> 0 < shifted[k] <= |t| && f[k] == ([x] + t)[shifted[k]]
    ensures forall k, l :: 0 <= k < l < |shifted| ==> shifted[k] < shifted[l]
    ensures forall i {:trigger i in shifted} :: 0 < i <= |t| ==> (p(([x] + t)[i]) <==> i in shifted)
    ensures 0 !in shifted
  {
    var s := [x] + t;
    shifted := seq(|rest|, k requires 0 <= k < |rest| => rest[k] + 1);
    forall k | 0 <= k < |shifted| ensures 0 < shifted[k] <= |t| && f[k] == s[shifted[k]] {
      assert s[rest[k] + 1] == t[rest[k]];
    }
    forall i | 0 < i <= |t| ensures p(s[i]) <==> i in shifted {
      assert s[i] == t[i - 1];
      if i - 1 in rest {
        var k :| 0 <= k < |rest| && rest[k] == i - 1;
        assert shifted[k] == i;
      }
      if i in shifted {
        var k :| 0 <= k < |shifted| && shifted[k] == i;
      }
    }
  }

  /** With `x` kept, position 0 comes first. */
  lemma KeepIndices<T>(x: T, t: seq<T>, p: T -> bool, f: seq<T>, shifted: seq<nat>)
    requires p(x)
    requires |shifted| == |f|
    requires forall k :: 0 <= k < |shifted| ==> 0 < shifted[k] <= |t| && f[k] == ([x] + t)[shifted[k]]
    requires forall k, l :: 0 <= k < l < |shifted| ==> shifted[k] < shifted[l]
    requires forall i {:trigger i in shifted} :: 0 < i <= |t| ==> (p(([x] + t)[i]) <==> i in shifted)
    ensures IndicesOf([x] + t, p, [x] + f, [0] + shifted)
  {
    var s, g, idx := [x] + t, [x] + f, [0] + shifted;
    forall k | 0 <= k < |idx| ensures idx[k] < |s| && g[k] == s[idx[k]] {
      if k > 0 {
        assert idx[k] == shifted[k - 1] && g[k] == f[k - 1];
      }
    }
    forall k, l | 0 <= k < l < |idx| ensures idx[k] < idx[l] {
      assert idx[l] == shifted[l - 1];
      if k > 0 {
        assert idx[k] == shifted[k - 1];
      }
    }
    forall i | 0 <= i < |s| ensures p(s[i]) <==> i in idx {
      assert i in idx <==> i == 0 || i in shifted;
    }
  }

  lemma {:induction false} FilterAll<T(!new)>(s: seq<T>, p: T -> bool)
    requires forall i :: 0 <= i < |s| ==> p(s[i])
    ensures Filter(s, p) == s
  {
    if s != [] { FilterAll(s[1..], p); }
  }

  lemma {:induction false} FilterNone<T(!new)>(s: seq<T>, p: T -> bool)
    requires forall i :: 0 <= i < |s| ==> !p(s[i])
    ensures Filter(s, p) == []
  {
    if s != [] { FilterNone(s[1..], p); }
  }

  // ---------------------------------------------------------------------------
  // sorting

  ghost predicate Total<T(!new)>(le: (T, T) -> bool)
  {
    forall a, b :: le(a, b) || le(b, a)
  }

  /** Each element is `le` its successor. */
  predicate Sorted<T>(s: seq<T>, le: (T, T) -> bool)
  {
    forall i :: 0 < i < |s| ==> le(s[i - 1], s[i])
  }

  /** Inserts `x` before the first element it is `le` to; for an `x` taken from
      earlier in the input this keeps equal elements in input order. */
  function Insert<T>(x: T, s: seq<T>, le: (T, T) -> bool): (r: seq<T>)
    ensures multiset(r) == multiset(s) + multiset{x}
    ensures |r| == |s| + 1
    ensures r[0] == x || (s != [] && r[0] == s[0])
  {
    if s == [] then [x]
    else if le(x, s[0]) then [x] + s
    else
      var rest := Insert(x, s[1..], le);
      assert s == [s[0]] + s[1..];
      [s[0]] + rest
  }

  /** Stable sort of `s` by the total preorder `le`. */
  function SortBy<T>(s: seq<T>, le: (T, T) -> bool): (r: seq<T>)
    ensures multiset(r) == multiset(s)
    ensures |r| == |s|
  {
    if s == [] then []
    else
      assert s == [s[0]] + s[1..];
      Insert(s[0], SortBy(s[1..], le), le)
  }

  lemma {:induction false} InsertSorted<T(!new)>(x: T, s: seq<T>, le: (T, T) -> bool)
    requires Total(le)
    requires Sorted(s, le)
    ensures Sorted(Insert(x, s, le), le)
  {
    if s != [] && !le(x, s[0]) {
      InsertSorted(x, s[1..], le);
      var rest := Insert(x, s[1..], le);
      assert le(s[0], x);
      assert rest[0] == x || rest[0] == s[1];
    }
  }

  /** The sort's result is ordered and is a permutation of its input. */
  lemma {:induction false} SortByCorrect<T(!new)>(s: seq<T>, le: (T, T) -> bool)
    requires Total(le)
    ensures Sorted(SortBy(s, le), le)
    ensures multiset(SortBy(s, le)) == multiset(s)
  {
    if s != [] {
      SortByCorrect(s[1..], le);
      InsertSorted(s[0], SortBy(s[1..], le), le);
    }
  }

  // ---------------------------------------------------------------------------
  // lists of records keyed by id (cache updates)

  /** `s.map(x => idOf(x) == id ? y : x)`. */
  function ReplaceWhere<T>(s: seq<T>, matches: T -> bool, y: T): (r: seq<T>)
    ensures |r| == |s|
    ensures forall i :: 0 <= i < |s| ==> r[i] == if matches(s[i]) then y else s[i]
  {
    seq(|s|, i requires 0 <= i < |s| => if matches(s[i]) then y else s[i])
  }
}
