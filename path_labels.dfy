/** The breadcrumb labels: the fixed labels of the application's routes
    with one entry per classroom, from its id to its name. */
module PathLabels {
  import opened ClassroomTypes

  /** The ids of the classrooms. */
  function Ids(classrooms: seq<Classroom>): set<string>
  {
    set i | 0 <= i < |classrooms| :: classrooms[i].id
  }

  /** Classroom `i` is the last one with its id. */
  predicate LastWithId(classrooms: seq<Classroom>, i: int)
  {
    0 <= i < |classrooms| && forall j :: i < j < |classrooms| ==> classrooms[j].id != classrooms[i].id
  }

  /** `Object.fromEntries(classrooms.map(c => [c.id, c.name]))`: entries are
      inserted in order, so a later classroom with the same id overwrites an
      earlier one. */
  function FromEntries(classrooms: seq<Classroom>): (r: map<string, string>)
    ensures r.Keys == Ids(classrooms)
    ensures forall i :: LastWithId(classrooms, i) ==> r[classrooms[i].id] == classrooms[i].name
  {
    if classrooms == [] then map[]
    else
      var init := classrooms[..|classrooms| - 1];
      var last := classrooms[|classrooms| - 1];
      assert classrooms == init + [last];
      IdsSnoc(init, last);
      LastWithIdSnoc(init, last);
      FromEntries(init)[last.id := last.name]
  }

  lemma IdsSnoc(init: seq<Classroom>, last: Classroom)
    ensures Ids(init + [last]) == Ids(init) + {last.id}
  {
    var cs := init + [last];
    forall x | x in Ids(cs) ensures x in Ids(init) + {last.id} {
      var i :| 0 <= i < |cs| && cs[i].id == x;
      if i < |init| { assert init[i].id == x; }
    }
    forall x | x in Ids(init) ensures x in Ids(cs) {
      var i :| 0 <= i < |init| && init[i].id == x;
      assert cs[i].id == x;
    }
    assert cs[|init|].id == last.id;
  }

  lemma LastWithIdSnoc(init: seq<Classroom>, last: Classroom)
    ensures forall i :: LastWithId(init + [last], i) && i < |init| ==> LastWithId(init, i) && init[i].id != last.id
  {
    var cs := init + [last];
    forall i | LastWithId(cs, i) && i < |init| ensures LastWithId(init, i) && init[i].id != last.id {
      assert cs[|init|] == last;
      assert forall j :: i < j < |init| ==> cs[j] == init[j];
    }
  }

  /** `createPathLabels`: the base labels overlaid with the classroom
      entries. `base` stands for the application's fixed route labels. */
  function CreatePathLabels(base: map<string, string>, classrooms: seq<Classroom>): (r: map<string, string>)
    ensures r.Keys == base.Keys + Ids(classrooms)
    ensures forall k :: k in base && k !in Ids(classrooms) ==> r[k] == base[k]
    ensures forall k :: k in Ids(classrooms) ==> r[k] == FromEntries(classrooms)[k]
  {
    base + FromEntries(classrooms)
  }

  /** Every classroom's label is its own name, unless a later classroom
      shares its id; classroom names win over base labels. */
  lemma ClassroomLabel(base: map<string, string>, classrooms: seq<Classroom>, i: int)
    requires LastWithId(classrooms, i)
    ensures CreatePathLabels(base, classrooms)[classrooms[i].id] == classrooms[i].name
  {
    assert classrooms[i].id in Ids(classrooms);
  }

  /** Adding one classroom at the end gives its id its name and changes no
      other label. */
  lemma {:induction false} AppendClassroom(base: map<string, string>, classrooms: seq<Classroom>, c: Classroom)
    ensures var before := CreatePathLabels(base, classrooms);
      var after := CreatePathLabels(base, classrooms + [c]);
      after == before[c.id := c.name]
  {
    var cs := classrooms + [c];
    assert cs[..|cs| - 1] == classrooms;
  }
}
