/** The two-row header of the classroom overview table: consecutive
    presence, Coodesh and project columns are grouped under one label, every
    other column stands alone. */
module DataTable {
  import opened Wrappers
  import opened Strings

  /** A table column: its id, the accessor key if any, and the header when
      that is a string. */
  datatype Column = Column(id: string, accessorKey: Option<string>, header: Option<string>)

  /** `caption` (the label) is `None` for a column standing alone. */
  datatype ColumnGroup = ColumnGroup(id: string, caption: Option<string>, colspan: nat, columns: seq<string>,
                                     columnHeaders: map<string, string>)

  datatype Kind = Presence | Coodesh | Projects | Single

  /** The accessor key is looked at first, then the id. */
  function KindOf(c: Column): Kind
  {
    if c.accessorKey.Some? && StartsWith(c.accessorKey.value, "presence.") then Presence
    else if StartsWith(c.id, "coodesh-") then Coodesh
    else if StartsWith(c.id, "project-") then Projects
    else Single
  }

  function GroupId(k: Kind): string
    requires k != Single
  {
    match k
    case Presence => "presence"
    case Coodesh => "coodesh"
    case Projects => "projects"
  }

  function GroupLabel(k: Kind): string
    requires k != Single
  {
    match k
    case Presence => "Presença"
    case Coodesh => "Coodesh"
    case Projects => "Projetos"
  }

  /** `headerName`: the header when it is a string, else the column id. */
  function HeaderName(c: Column): (r: string)
    ensures c.header.Some? ==> r == c.header.value
    ensures c.header.None? ==> r == c.id
  {
    if c.header.Some? then c.header.value else c.id
  }

  /** The id a column is listed under; an empty id falls back to
      `column-<number of groups so far>`. */
  function EffectiveId(c: Column, groupCount: nat): string
  {
    if c.id != "" then c.id else "column-" + NatToString(groupCount)
  }

  /** The group a lone column becomes. */
  function Individual(c: Column, groupCount: nat): ColumnGroup
  {
    var id := EffectiveId(c, groupCount);
    var name := if HeaderName(c) != "" then HeaderName(c) else id;
    ColumnGroup(id, None, 1, [id], map[id := name])
  }

  /** Adds a grouped column to a group: one more column and its header when
      the header name is not empty. */
  function Extend(g: ColumnGroup, c: Column): ColumnGroup
  {
    g.(colspan := g.colspan + 1, columns := g.columns + [c.id],
       columnHeaders := if HeaderName(c) != "" then g.columnHeaders[c.id := HeaderName(c)] else g.columnHeaders)
  }

  /** `currentGroup` is the last group exactly when that group has a label:
      a lone column resets it to null. */
  predicate ContinuesGroup(groups: seq<ColumnGroup>, k: Kind)
  {
    k != Single && groups != [] && groups[|groups| - 1].caption == Some(GroupLabel(k))
  }

  /** One step of the `forEach`. */
  function Step(groups: seq<ColumnGroup>, c: Column): seq<ColumnGroup>
  {
    var k := KindOf(c);
    if k == Single then groups + [Individual(c, |groups|)]
    else if ContinuesGroup(groups, k) then
      groups[..|groups| - 1] + [Extend(groups[|groups| - 1], c)]
    else groups + [Extend(ColumnGroup(GroupId(k), Some(GroupLabel(k)), 0, [], map[]), c)]
  }

  /** The groups after the first columns. */
  function Groups(cols: seq<Column>): seq<ColumnGroup>
  {
    if cols == [] then [] else Step(Groups(cols[..|cols| - 1]), cols[|cols| - 1])
  }

  /** `getColumnGroups`: the current group is updated in place, which here is
      the last element of `groups`. */
  method GetColumnGroups(cols: seq<Column>) returns (groups: seq<ColumnGroup>)
    ensures groups == Groups(cols)
  {
    groups := [];
    var current: Option<string> := None;
    var i := 0;
    while i < |cols|
      invariant 0 <= i <= |cols|
      invariant groups == Groups(cols[..i])
      invariant CurrentIsLast(groups, current)
    {
      GroupsStep(cols, i);
      groups, current := Visit(groups, current, cols[i]);
      i := i + 1;
    }
    assert cols[..i] == cols;
  }

  /** The id of `currentGroup`, when it is not null, is that of the last
      group, which then has a label. */
  predicate CurrentIsLast(groups: seq<ColumnGroup>, current: Option<string>)
  {
    (current.Some? <==> groups != [] && groups[|groups| - 1].caption.Some?)
    && (current.Some? ==> LabeledConsistent(groups[|groups| - 1]) && groups[|groups| - 1].id == current.value)
  }

  /** The body of the `forEach` for one column. */
  method Visit(groups: seq<ColumnGroup>, current: Option<string>, c: Column)
    returns (groups': seq<ColumnGroup>, current': Option<string>)
    requires CurrentIsLast(groups, current)
    ensures groups' == Step(groups, c)
    ensures CurrentIsLast(groups', current')
  {
    var k := KindOf(c);
    if k == Single {
      groups' := groups + [Individual(c, |groups|)];
      current' := None;
    } else {
      groups' := groups;
      current' := current;
      if current.None? || current.value != GroupId(k) {
        groups' := groups' + [ColumnGroup(GroupId(k), Some(GroupLabel(k)), 0, [], map[])];
        current' := Some(GroupId(k));
      }
      var last := groups'[|groups'| - 1];
      groups' := groups'[..|groups'| - 1] + [Extend(last, c)];
    }
  }

  /** A labeled group's id and label belong to the same kind. */
  predicate LabeledConsistent(g: ColumnGroup)
  {
    (g.id == "presence" && g.caption == Some("Presença"))
    || (g.id == "coodesh" && g.caption == Some("Coodesh"))
    || (g.id == "projects" && g.caption == Some("Projetos"))
  }

  lemma GroupsStep(cols: seq<Column>, i: int)
    requires 0 <= i < |cols|
    ensures Groups(cols[..i + 1]) == Step(Groups(cols[..i]), cols[i])
  {
    assert cols[..i + 1][..i] == cols[..i];
  }

  // ---------------------------------------------------------------------------
  // properties

  /** The column ids of the groups, concatenated in order. */
  function Flatten(groups: seq<ColumnGroup>): seq<string>
  {
    if groups == [] then [] else Flatten(groups[..|groups| - 1]) + groups[|groups| - 1].columns
  }

  function SumColspans(groups: seq<ColumnGroup>): nat
  {
    if groups == [] then 0 else SumColspans(groups[..|groups| - 1]) + groups[|groups| - 1].colspan
  }

  lemma FlattenReplaceLast(gs: seq<ColumnGroup>, g: ColumnGroup)
    requires gs != []
    ensures Flatten(gs[..|gs| - 1] + [g]) == Flatten(gs[..|gs| - 1]) + g.columns
    ensures SumColspans(gs[..|gs| - 1] + [g]) == SumColspans(gs[..|gs| - 1]) + g.colspan
  {
    assert (gs[..|gs| - 1] + [g])[..|gs| - 1] == gs[..|gs| - 1];
  }

  lemma FlattenAppend(gs: seq<ColumnGroup>, g: ColumnGroup)
    ensures Flatten(gs + [g]) == Flatten(gs) + g.columns
    ensures SumColspans(gs + [g]) == SumColspans(gs) + g.colspan
  {
    assert (gs + [g])[..|gs|] == gs;
  }

  /** Each group's colspan is its number of columns. */
  lemma {:induction false} ColspanIsColumnCount(cols: seq<Column>)
    ensures forall j :: 0 <= j < |Groups(cols)| ==> Groups(cols)[j].colspan == |Groups(cols)[j].columns|
  {
    if cols != [] {
      var n := |cols| - 1;
      ColspanIsColumnCount(cols[..n]);
    }
  }

  /** One step lists one more column id. */
  lemma FlattenStep(gs: seq<ColumnGroup>, c: Column)
    ensures Flatten(Step(gs, c)) == Flatten(gs) + [if KindOf(c) == Single then EffectiveId(c, |gs|) else c.id]
  {
    var k := KindOf(c);
    if k == Single {
      FlattenAppend(gs, Individual(c, |gs|));
    } else if ContinuesGroup(gs, k) {
      FlattenExtendLast(gs, c);
    } else {
      FlattenAppend(gs, Extend(ColumnGroup(GroupId(k), Some(GroupLabel(k)), 0, [], map[]), c));
    }
  }

  lemma FlattenExtendLast(gs: seq<ColumnGroup>, c: Column)
    requires gs != []
    ensures Flatten(gs[..|gs| - 1] + [Extend(gs[|gs| - 1], c)]) == Flatten(gs) + [c.id]
  {
    var last := gs[|gs| - 1];
    FlattenReplaceLast(gs, Extend(last, c));
    assert Flatten(gs) == Flatten(gs[..|gs| - 1]) + last.columns;
  }

  /** The columns of all groups, read in order, are the columns of the table
      (by id; an empty id of a lone column is replaced by its fallback). */
  lemma {:induction false} GroupsCoverColumns(cols: seq<Column>)
    ensures |Flatten(Groups(cols))| == |cols|
    ensures forall i :: 0 <= i < |cols| && cols[i].id != "" ==> Flatten(Groups(cols))[i] == cols[i].id
  {
    if cols != [] {
      var n := |cols| - 1;
      GroupsCoverColumns(cols[..n]);
      var before := Flatten(Groups(cols[..n]));
      var after := Flatten(Groups(cols));
      var x := FlattenGroupsSnoc(cols);
      assert |before| == n;
      assert after == before + [x];
      assert |after| == |cols|;
      forall i | 0 <= i < |cols| && cols[i].id != "" ensures after[i] == cols[i].id {
        if i < n {
          assert after[i] == before[i] && cols[..n][i] == cols[i];
        } else {
          assert i == n;
          assert after[n] == x;
        }
      }
    }
  }

  /** The last column adds one id, its own when it has one. */
  lemma FlattenGroupsSnoc(cols: seq<Column>) returns (x: string)
    requires cols != []
    ensures Flatten(Groups(cols)) == Flatten(Groups(cols[..|cols| - 1])) + [x]
    ensures cols[|cols| - 1].id != "" ==> x == cols[|cols| - 1].id
  {
    var c := cols[|cols| - 1];
    var gs := Groups(cols[..|cols| - 1]);
    FlattenStep(gs, c);
    x := if KindOf(c) == Single then EffectiveId(c, |gs|) else c.id;
  }

  lemma {:induction false} SumColspansIsFlattenLength(gs: seq<ColumnGroup>)
    requires forall j :: 0 <= j < |gs| ==> gs[j].colspan == |gs[j].columns|
    ensures SumColspans(gs) == |Flatten(gs)|
  {
    if gs != [] {
      SumColspansIsFlattenLength(gs[..|gs| - 1]);
    }
  }

  /** The colspans add up to the number of columns. */
  lemma ColspansSumToColumns(cols: seq<Column>)
    ensures SumColspans(Groups(cols)) == |cols|
  {
    ColspanIsColumnCount(cols);
    GroupsCoverColumns(cols);
    SumColspansIsFlattenLength(Groups(cols));
  }

  /** The label each column asks for: its group's label, or none. */
  function LabelOf(c: Column): Option<string>
  {
    if KindOf(c) == Single then None else Some(GroupLabel(KindOf(c)))
  }

  /** Runs of equal labels collapse into one; unlabeled entries never do. */
  function Collapse(ls: seq<Option<string>>): seq<Option<string>>
  {
    if ls == [] then []
    else
      var front := Collapse(ls[..|ls| - 1]);
      var l := ls[|ls| - 1];
      if l.Some? && front != [] && front[|front| - 1] == l then front else front + [l]
  }

  function Labels(groups: seq<ColumnGroup>): (r: seq<Option<string>>)
    ensures |r| == |groups|
    ensures forall i :: 0 <= i < |groups| ==> r[i] == groups[i].caption
  {
    seq(|groups|, i requires 0 <= i < |groups| => groups[i].caption)
  }

  function ColumnLabels(cols: seq<Column>): (r: seq<Option<string>>)
    ensures |r| == |cols|
    ensures forall i :: 0 <= i < |cols| ==> r[i] == LabelOf(cols[i])
  {
    seq(|cols|, i requires 0 <= i < |cols| => LabelOf(cols[i]))
  }

  /** The groups are the maximal runs of consecutive columns of one group
      kind, and one group per lone column: their labels are the columns'
      labels with runs of equal labels collapsed. */
  lemma {:induction false} GroupsAreMaximalRuns(cols: seq<Column>)
    ensures Labels(Groups(cols)) == Collapse(ColumnLabels(cols))
  {
    if cols != [] {
      var n := |cols| - 1;
      var front := cols[..n];
      GroupsAreMaximalRuns(front);
      var ls := ColumnLabels(cols);
      assert ls[..n] == ColumnLabels(front);
      assert Groups(cols) == Step(Groups(front), cols[n]);
      LabelsStep(Groups(front), cols[n]);
    }
  }

  /** One step adds the column's label, unless it continues the last
      group, which then already carries that label. */
  lemma LabelsStep(gs: seq<ColumnGroup>, c: Column)
    ensures var l := LabelOf(c);
      if l.Some? && Labels(gs) != [] && Labels(gs)[|gs| - 1] == l then Labels(Step(gs, c)) == Labels(gs)
      else Labels(Step(gs, c)) == Labels(gs) + [l]
  {
    var k := KindOf(c);
    if k != Single && ContinuesGroup(gs, k) {
      assert Labels(Step(gs, c)) == Labels(gs);
    } else if k != Single {
      assert Labels(Step(gs, c)) == Labels(gs) + [LabelOf(c)];
      if gs != [] {
        assert Labels(gs)[|gs| - 1] == gs[|gs| - 1].caption;
      }
    } else {
      assert Labels(Step(gs, c)) == Labels(gs) + [None];
    }
  }

  predicate AdjacentDiffer(gs: seq<ColumnGroup>)
  {
    forall i :: 0 < i < |gs| && gs[i].caption.Some? ==> gs[i - 1].caption != gs[i].caption
  }

  /** Two adjacent groups never carry the same label: runs are merged
      maximally, and a lone column in between starts a new run. */
  lemma {:induction false} AdjacentLabelsDiffer(cols: seq<Column>)
    ensures AdjacentDiffer(Groups(cols))
  {
    if cols != [] {
      var n := |cols| - 1;
      AdjacentLabelsDiffer(cols[..n]);
      var gs := Groups(cols[..n]);
      var c := cols[n];
      var k := KindOf(c);
      if k != Single && ContinuesGroup(gs, k) {
        ExtendLastKeepsAdjacent(gs, c);
      } else if k != Single {
        AppendKeepsAdjacent(gs, Extend(ColumnGroup(GroupId(k), Some(GroupLabel(k)), 0, [], map[]), c));
      } else {
        AppendKeepsAdjacent(gs, Individual(c, |gs|));
      }
    }
  }

  lemma ExtendLastKeepsAdjacent(gs: seq<ColumnGroup>, c: Column)
    requires gs != [] && AdjacentDiffer(gs)
    ensures AdjacentDiffer(gs[..|gs| - 1] + [Extend(gs[|gs| - 1], c)])
  {
    var r := gs[..|gs| - 1] + [Extend(gs[|gs| - 1], c)];
    assert forall i :: 0 <= i < |r| ==> r[i].caption == gs[i].caption;
  }

  lemma AppendKeepsAdjacent(gs: seq<ColumnGroup>, g: ColumnGroup)
    requires AdjacentDiffer(gs)
    requires gs != [] && g.caption.Some? ==> gs[|gs| - 1].caption != g.caption
    ensures AdjacentDiffer(gs + [g])
  {
    var r := gs + [g];
    assert forall i :: 0 <= i < |gs| ==> r[i] == gs[i];
  }

  /** A lone column is one group with no label and a single column; a grouped
      column extends the last group when that has its label and opens a new
      group otherwise; its header is recorded when not empty. */
  lemma StepShape(groups: seq<ColumnGroup>, c: Column)
    ensures var r := Step(groups, c); var g := r[|r| - 1];
      (KindOf(c) == Single ==> (r == groups + [g] && g.caption.None? && g.colspan == 1
         && g.columns == [EffectiveId(c, |groups|)]))
      && (KindOf(c) != Single && ContinuesGroup(groups, KindOf(c)) ==> (|r| == |groups|
         && g.columns == groups[|groups| - 1].columns + [c.id]))
      && (KindOf(c) != Single && !ContinuesGroup(groups, KindOf(c)) ==> (|r| == |groups| + 1
         && g.caption == Some(GroupLabel(KindOf(c))) && g.columns == [c.id]))
      && (KindOf(c) != Single && HeaderName(c) != "" ==> c.id in g.columnHeaders && g.columnHeaders[c.id] == HeaderName(c))
  {
  }
}
