/** A student's presence percentage per class type over the past Zoom meeting
    instances of a classroom. */
module PresenceByType {
  import opened Wrappers
  import opened Seqs
  import opened MathUtils

  datatype ZoomParticipant = ZoomParticipant(userId: Option<string>, email: Option<string>)

  /** A past meeting instance; `classType` is optional. */
  datatype Instance = Instance(uuid: string, classType: Option<string>,
                               participants: Option<seq<ZoomParticipant>>)

  datatype PresenceData = PresenceData(general: int, programming: int, english: int, softSkills: int)

  /** The object key an instance is grouped under: a missing class type
      becomes the key "undefined". */
  function KeyOf(x: Instance): string
  {
    x.classType.GetOr("undefined")
  }

  function HasKey(k: string): Instance -> bool
  {
    (x: Instance) => KeyOf(x) == k
  }

  /** The keys of a sequence, each once, in order of first occurrence (the
      order of `Object.keys` for non-numeric keys). */
  function Distinct(ks: seq<string>): (r: seq<string>)
    ensures forall k :: k in r <==> k in ks
  {
    if ks == [] then []
    else
      var d := Distinct(ks[..|ks| - 1]);
      assert forall k :: k in ks <==> k in ks[..|ks| - 1] || k == ks[|ks| - 1] by {
        assert ks == ks[..|ks| - 1] + [ks[|ks| - 1]];
      }
      if ks[|ks| - 1] in d then d else d + [ks[|ks| - 1]]
  }

  /** No key is listed twice. */
  lemma {:induction false} DistinctNoRepeats(ks: seq<string>)
    ensures forall i, j :: 0 <= i < j < |Distinct(ks)| ==> Distinct(ks)[i] != Distinct(ks)[j]
  {
    if ks != [] {
      var front := ks[..|ks| - 1];
      DistinctNoRepeats(front);
      var d := Distinct(front);
      var k := ks[|ks| - 1];
      assert Distinct(ks) == if k in d then d else d + [k];
      if k !in d {
        var r := d + [k];
        forall i, j | 0 <= i < j < |r| ensures r[i] != r[j] {
          if j == |d| {
            assert r[i] == d[i] && d[i] in d && r[j] == k;
          } else {
            assert r[i] == d[i] && r[j] == d[j];
          }
        }
      }
    }
  }

  function Keys(xs: seq<Instance>): (r: seq<string>)
    ensures |r| == |xs|
    ensures forall i :: 0 <= i < |xs| ==> r[i] == KeyOf(xs[i])
  {
    seq(|xs|, i requires 0 <= i < |xs| => KeyOf(xs[i]))
  }

  /** The instances grouped under key `k`, in input order. */
  function Group(xs: seq<Instance>, k: string): seq<Instance>
  {
    Filter(xs, HasKey(k))
  }

  predicate AttendedBy(x: Instance, studentId: string)
  {
    x.participants.Some? &&
    exists i :: 0 <= i < |x.participants.value| && x.participants.value[i].userId == Some(studentId)
  }

  function IsAttendedBy(studentId: string): Instance -> bool
  {
    (x: Instance) => AttendedBy(x, studentId)
  }

  /** The rounded share of the instances the student attended (by user id;
      the email is not consulted). */
  function PresenceOf(group: seq<Instance>, studentId: string): (r: int)
    ensures 0 <= r <= 100
  {
    PercentageBounds(Count(group, IsAttendedBy(studentId)), |group|);
    Percentage(Count(group, IsAttendedBy(studentId)), |group|)
  }

  predicate IsSpecial(k: string)
  {
    k == "programming" || k == "english" || k == "soft-skills"
  }

  /** The last key in `ks` with no field of its own; such keys all write
      `general`, so the last one processed wins. */
  function LastGeneralKey(ks: seq<string>): (r: Option<string>)
    ensures r.None? <==> forall k :: k in ks ==> IsSpecial(k)
    ensures r.Some? ==> r.value in ks && !IsSpecial(r.value)
  {
    if ks == [] then None
    else if !IsSpecial(ks[|ks| - 1]) then Some(ks[|ks| - 1])
    else
      assert ks == ks[..|ks| - 1] + [ks[|ks| - 1]];
      LastGeneralKey(ks[..|ks| - 1])
  }

  /** The presence fields after processing the keys `ks`. */
  function PresenceAfter(xs: seq<Instance>, studentId: string, ks: seq<string>): PresenceData
  {
    var f := (k: string) => if k in ks then PresenceOf(Group(xs, k), studentId) else 0;
    PresenceData(
      match LastGeneralKey(ks) case Some(k) => PresenceOf(Group(xs, k), studentId) case None => 0,
      f("programming"), f("english"), f("soft-skills"))
  }

  lemma {:induction false} FilterKeyAppend(xs: seq<Instance>, x: Instance, k: string)
    ensures Group(xs + [x], k) == Group(xs, k) + (if KeyOf(x) == k then [x] else [])
  {
    FilterAppend(xs, [x], HasKey(k));
  }

  /** The reduce into `instancesByType`: the keys in order of first
      occurrence, each with all of its instances. */
  method GroupByType(xs: seq<Instance>) returns (groups: map<string, seq<Instance>>, keys: seq<string>)
    ensures keys == Distinct(Keys(xs))
    ensures forall k :: k in groups <==> k in keys
    ensures forall k :: k in groups ==> groups[k] == Group(xs, k)
  {
    groups := map[];
    keys := [];
    var i := 0;
    while i < |xs|
      invariant 0 <= i <= |xs|
      invariant Grouped(xs[..i], groups, keys)
    {
      ghost var groups0, keys0 := groups, keys;
      groups, keys := AddToGroup(groups, keys, xs[i]);
      GroupingNext(xs, i, groups0, keys0, groups, keys);
      i := i + 1;
    }
    assert xs[..i] == xs;
  }

  /** The reducer's body: a new key gets an empty group (and its place in
      the key order), then the instance is pushed onto its group. */
  method AddToGroup(groups: map<string, seq<Instance>>, keys: seq<string>, x: Instance)
    returns (groups': map<string, seq<Instance>>, keys': seq<string>)
    ensures keys' == if KeyOf(x) in groups then keys else keys + [KeyOf(x)]
    ensures groups' == groups[KeyOf(x) := (if KeyOf(x) in groups then groups[KeyOf(x)] else []) + [x]]
  {
    var k := KeyOf(x);
    groups', keys' := groups, keys;
    if k !in groups' {
      groups' := groups'[k := []];
      keys' := keys' + [k];
    }
    groups' := groups'[k := groups'[k] + [x]];
  }

  /** Extending the instances by one adds its key if new, and a new key has
      had no instances so far. */
  lemma GroupStep(p: seq<Instance>, x: Instance)
    ensures Distinct(Keys(p + [x])) ==
      var d := Distinct(Keys(p)); if KeyOf(x) in d then d else d + [KeyOf(x)]
    ensures KeyOf(x) !in Distinct(Keys(p)) ==> Group(p, KeyOf(x)) == []
  {
    var ks := Keys(p + [x]);
    assert ks[..|ks| - 1] == Keys(p);
    assert ks[|ks| - 1] == KeyOf(x);
    if KeyOf(x) !in Distinct(Keys(p)) {
      forall j | 0 <= j < |p| ensures KeyOf(p[j]) != KeyOf(x) {
        assert Keys(p)[j] == KeyOf(p[j]);
      }
      FilterNone(p, HasKey(KeyOf(x)));
    }
  }

  /** What the reduce holds after the instances `p`. */
  ghost predicate Grouped(p: seq<Instance>, groups: map<string, seq<Instance>>, keys: seq<string>)
  {
    keys == Distinct(Keys(p))
    && (forall k :: k in groups <==> k in keys)
    && (forall k :: k in groups ==> groups[k] == Group(p, k))
  }

  /** One step of the reduce keeps the grouping. */
  lemma GroupingStep(p: seq<Instance>, x: Instance, groups: map<string, seq<Instance>>, keys: seq<string>,
                     groups': map<string, seq<Instance>>, keys': seq<string>)
    requires Grouped(p, groups, keys)
    requires keys' == if KeyOf(x) in groups then keys else keys + [KeyOf(x)]
    requires groups' == groups[KeyOf(x) := (if KeyOf(x) in groups then groups[KeyOf(x)] else []) + [x]]
    ensures Grouped(p + [x], groups', keys')
  {
    GroupStep(p, x);
    KeysStep(groups, keys, KeyOf(x), x, groups', keys');
    GroupsStepValues(p, x, groups, groups');
  }

  /** The same step, stated on the prefixes of the input. */
  lemma GroupingNext(xs: seq<Instance>, i: int, groups: map<string, seq<Instance>>, keys: seq<string>,
                     groups': map<string, seq<Instance>>, keys': seq<string>)
    requires 0 <= i < |xs| && Grouped(xs[..i], groups, keys)
    requires keys' == if KeyOf(xs[i]) in groups then keys else keys + [KeyOf(xs[i])]
    requires groups' == groups[KeyOf(xs[i]) := (if KeyOf(xs[i]) in groups then groups[KeyOf(xs[i])] else []) + [xs[i]]]
    ensures Grouped(xs[..i + 1], groups', keys')
  {
    GroupingStep(xs[..i], xs[i], groups, keys, groups', keys');
    assert xs[..i + 1] == xs[..i] + [xs[i]];
  }

  /** The map's keys stay the listed keys when a key is added to both. */
  lemma KeysStep(groups: map<string, seq<Instance>>, keys: seq<string>, k: string, x: Instance,
                 groups': map<string, seq<Instance>>, keys': seq<string>)
    requires forall k' :: k' in groups <==> k' in keys
    requires keys' == if k in groups then keys else keys + [k]
    requires groups' == groups[k := (if k in groups then groups[k] else []) + [x]]
    ensures forall k' :: k' in groups' <==> k' in keys'
  {
  }

  /** Each group gains the new instance exactly when it is of its key. */
  lemma GroupsStepValues(p: seq<Instance>, x: Instance, groups: map<string, seq<Instance>>,
                         groups': map<string, seq<Instance>>)
    requires forall k :: k in groups ==> groups[k] == Group(p, k)
    requires KeyOf(x) !in groups ==> Group(p, KeyOf(x)) == []
    requires groups' == groups[KeyOf(x) := (if KeyOf(x) in groups then groups[KeyOf(x)] else []) + [x]]
    ensures forall k :: k in groups' ==> groups'[k] == Group(p + [x], k)
  {
    forall k | k in groups' ensures groups'[k] == Group(p + [x], k) {
      FilterKeyAppend(p, x, k);
      if k != KeyOf(x) {
        assert groups'[k] == groups[k];
      }
    }
  }

  /** A key that occurs has a non-empty group. */
  lemma GroupNonEmpty(xs: seq<Instance>, k: string)
    requires k in Distinct(Keys(xs))
    ensures |Group(xs, k)| > 0
  {
    var ks := Keys(xs);
    var i :| 0 <= i < |ks| && ks[i] == k;
    assert xs[i] in Group(xs, k);
  }

  /** The `switch` on the class type: the field the key writes. */
  function Assign(r: PresenceData, k: string, p: int): PresenceData
  {
    if k == "programming" then r.(programming := p)
    else if k == "english" then r.(english := p)
    else if k == "soft-skills" then r.(softSkills := p)
    else r.(general := p)
  }

  /** Processing one more key writes its field and nothing else. */
  lemma PresenceAfterStep(xs: seq<Instance>, studentId: string, ks: seq<string>, k: string)
    ensures PresenceAfter(xs, studentId, ks + [k])
      == Assign(PresenceAfter(xs, studentId, ks), k, PresenceOf(Group(xs, k), studentId))
  {
    LastGeneralKeySnoc(ks, k);
    var before := PresenceAfter(xs, studentId, ks);
    var after := PresenceAfter(xs, studentId, ks + [k]);
    var p := PresenceOf(Group(xs, k), studentId);
    InSnoc(ks, k, "programming");
    InSnoc(ks, k, "english");
    InSnoc(ks, k, "soft-skills");
    assert after.general == if !IsSpecial(k) then p else before.general;
    assert after.programming == if k == "programming" then p else before.programming;
    assert after.english == if k == "english" then p else before.english;
    assert after.softSkills == if k == "soft-skills" then p else before.softSkills;
  }

  lemma InSnoc(ks: seq<string>, k: string, k': string)
    ensures k' in ks + [k] <==> k' in ks || k' == k
  {
  }

  lemma LastGeneralKeySnoc(ks: seq<string>, k: string)
    ensures LastGeneralKey(ks + [k]) == if !IsSpecial(k) then Some(k) else LastGeneralKey(ks)
  {
    assert (ks + [k])[..|ks|] == ks;
  }

  lemma PresenceAfterPrefix(xs: seq<Instance>, studentId: string, ks: seq<string>, j: int)
    requires 0 <= j < |ks|
    ensures PresenceAfter(xs, studentId, ks[..j + 1])
      == Assign(PresenceAfter(xs, studentId, ks[..j]), ks[j], PresenceOf(Group(xs, ks[j]), studentId))
  {
    assert ks[..j + 1] == ks[..j] + [ks[j]];
    PresenceAfterStep(xs, studentId, ks[..j], ks[j]);
  }

  /** `calculatePresenceByType`: groups the instances by class type and
      writes one presence percentage per key. */
  method CalculatePresenceByType(studentId: string, xs: seq<Instance>) returns (r: PresenceData)
    ensures r == PresenceAfter(xs, studentId, Distinct(Keys(xs)))
  {
    var groups, keys := GroupByType(xs);
    r := PresenceData(0, 0, 0, 0);
    var j := 0;
    while j < |keys|
      invariant 0 <= j <= |keys|
      invariant r == PresenceAfter(xs, studentId, keys[..j])
    {
      var k := keys[j];
      var instances := groups[k];
      PresenceAfterPrefix(xs, studentId, keys, j);
      GroupNonEmpty(xs, k);
      if |instances| != 0 {
        var p := PercentageOf(instances, studentId);
        r := Switch(r, k, p);
      }
      j := j + 1;
    }
    assert keys[..j] == keys;
  }

  /** The `switch (classType)` writing one field. */
  method Switch(r: PresenceData, k: string, p: int) returns (r': PresenceData)
    ensures r' == Assign(r, k, p)
  {
    r' := r;
    if k == "programming" {
      r' := r'.(programming := p);
    } else if k == "english" {
      r' := r'.(english := p);
    } else if k == "soft-skills" {
      r' := r'.(softSkills := p);
    } else {
      r' := r'.(general := p);
    }
  }

  /** The attended count of one group (the filter) and its rounded share. */
  method PercentageOf(instances: seq<Instance>, studentId: string) returns (p: int)
    ensures p == PresenceOf(instances, studentId)
  {
    p := Percentage(Count(instances, IsAttendedBy(studentId)), |instances|);
  }

  /** Every field is a percentage between 0 and 100; a field whose class type
      has no instance stays 0. */
  lemma PresenceFields(xs: seq<Instance>, studentId: string)
    ensures var r := PresenceAfter(xs, studentId, Distinct(Keys(xs)));
      && 0 <= r.general <= 100 && 0 <= r.programming <= 100
      && 0 <= r.english <= 100 && 0 <= r.softSkills <= 100
    ensures (forall i :: 0 <= i < |xs| ==> xs[i].classType != Some("programming"))
      ==> PresenceAfter(xs, studentId, Distinct(Keys(xs))).programming == 0
    ensures (forall i :: 0 <= i < |xs| ==> IsSpecial(KeyOf(xs[i])))
      ==> PresenceAfter(xs, studentId, Distinct(Keys(xs))).general == 0
  {
    if forall i :: 0 <= i < |xs| ==> xs[i].classType != Some("programming") {
      AbsentKey(xs, "programming");
    }
    if forall i :: 0 <= i < |xs| ==> IsSpecial(KeyOf(xs[i])) {
      OnlySpecialKeys(xs);
    }
  }

  /** A key no instance has is not among the keys. */
  lemma AbsentKey(xs: seq<Instance>, k: string)
    requires forall i :: 0 <= i < |xs| ==> KeyOf(xs[i]) != k
    ensures k !in Distinct(Keys(xs))
  {
  }

  /** With only named class types there is no key writing `general`. */
  lemma OnlySpecialKeys(xs: seq<Instance>)
    requires forall i :: 0 <= i < |xs| ==> IsSpecial(KeyOf(xs[i]))
    ensures LastGeneralKey(Distinct(Keys(xs))).None?
  {
    var ks := Keys(xs);
    forall k | k in Distinct(ks) ensures IsSpecial(k) {
      var i :| 0 <= i < |ks| && ks[i] == k;
    }
  }
}
