/** The cached list of classrooms of the admin dashboard: loading it,
    creating a classroom after checking its name and period, replacing the
    entries with an id by the backend's answer, and removing them. */
module ClassroomsStack {
  import opened Wrappers
  import opened Strings
  import opened Seqs
  import opened ClassroomTypes

  /** The form's `Partial<ClassroomT>`: the fields the checks read. */
  datatype ClassroomDraft = ClassroomDraft(name: Option<string>, period: Option<Period>, status: Option<ClassroomStatus>)

  /** `classrooms.map(t => t.name)`. */
  function Names(classrooms: seq<Classroom>): (r: seq<string>)
    ensures |r| == |classrooms|
    ensures forall i :: 0 <= i < |classrooms| ==> r[i] == classrooms[i].name
  {
    seq(|classrooms|, i requires 0 <= i < |classrooms| => classrooms[i].name)
  }

  /** The name check of `handleCreateClassroom`: given, not blank once
      trimmed, and not exactly the name of a cached classroom. */
  predicate NameAccepted(classrooms: seq<Classroom>, name: Option<string>)
  {
    name.Some? && name.value != "" && |Trim(name.value)| != 0
    && forall i :: 0 <= i < |classrooms| ==> classrooms[i].name != name.value
  }

  /** A name is refused exactly when it is missing, all white space, or
      already taken. */
  lemma NameAcceptedIff(classrooms: seq<Classroom>, name: Option<string>)
    ensures NameAccepted(classrooms, name) <==>
      (name.Some? && !AllWhitespace(name.value)
       && forall i :: 0 <= i < |classrooms| ==> classrooms[i].name != name.value)
  {
    if name.Some? {
      TrimEmptyIffBlank(name.value);
    }
  }

  /** Both checks of `handleCreateClassroom`. */
  predicate DraftAccepted(classrooms: seq<Classroom>, draft: ClassroomDraft)
  {
    NameAccepted(classrooms, draft.name) && draft.period.Some?
  }

  /** No two cached classrooms share a name. */
  predicate DistinctNames(classrooms: seq<Classroom>)
  {
    forall i, j :: 0 <= i < j < |classrooms| ==> classrooms[i].name != classrooms[j].name
  }

  /** Creating only under an accepted name keeps the names distinct, when
      the backend stores the name it was given. */
  lemma AcceptedKeepsNamesDistinct(classrooms: seq<Classroom>, c: Classroom)
    requires DistinctNames(classrooms)
    requires NameAccepted(classrooms, Some(c.name))
    ensures DistinctNames(classrooms + [c])
  {
    var after := classrooms + [c];
    forall i, j | 0 <= i < j < |after| ensures after[i].name != after[j].name {
      if j == |classrooms| {
        assert after[i] == classrooms[i];
      } else {
        assert after[i] == classrooms[i] && after[j] == classrooms[j];
      }
    }
  }

  /** Removing the id of a classroom just appended gives back the list as
      it was, when the id was new. */
  lemma DeleteUndoesCreate(classrooms: seq<Classroom>, c: Classroom)
    requires forall i :: 0 <= i < |classrooms| ==> classrooms[i].id != c.id
    ensures Filter(classrooms + [c], (x: Classroom) => x.id != c.id) == classrooms
  {
    var keep := (x: Classroom) => x.id != c.id;
    FilterAppend(classrooms, [c], keep);
    FilterAll(classrooms, keep);
    assert Filter([c], keep) == [];
  }

  /** Replacing by id changes only the entries with that id; afterwards
      every entry with the id is the answer, and the others are as before. */
  lemma UpdateReplacesOnlyId(classrooms: seq<Classroom>, id: string, answer: Classroom)
    ensures var after := ReplaceWhere(classrooms, (x: Classroom) => x.id == id, answer);
      |after| == |classrooms|
      && (forall i :: 0 <= i < |classrooms| && classrooms[i].id == id ==> after[i] == answer)
      && (forall i :: 0 <= i < |classrooms| && classrooms[i].id != id ==> after[i] == classrooms[i])
  {
  }

  /** After a removal no classroom with the id is left, and the others are
      kept in their order. */
  lemma DeleteRemovesId(classrooms: seq<Classroom>, id: string)
    ensures var after := Filter(classrooms, (x: Classroom) => x.id != id);
      (forall i :: 0 <= i < |after| ==> after[i].id != id)
      && (forall x :: x in after <==> x in classrooms && x.id != id)
  {
  }

  /** Filtering keeps the relative order: the kept entries are a
      subsequence of the list. */
  lemma DeleteKeepsOrder(classrooms: seq<Classroom>, id: string, i: nat, j: nat)
    requires i < j < |classrooms| && classrooms[i].id != id && classrooms[j].id != id
    ensures var kept := Filter(classrooms, (x: Classroom) => x.id != id);
      exists a, b :: (0 <= a < b < |kept| && kept[a] == classrooms[i] && kept[b] == classrooms[j])
  {
    var a, b := FilterPositions(classrooms, (x: Classroom) => x.id != id, i, j);
  }

  /** Where two kept entries land in the filtered list, in their order. */
  lemma {:induction false} FilterPositions<T(!new)>(s: seq<T>, p: T -> bool, i: nat, j: nat) returns (a: nat, b: nat)
    requires i < j < |s| && p(s[i]) && p(s[j])
    ensures a < b < |Filter(s, p)| && Filter(s, p)[a] == s[i] && Filter(s, p)[b] == s[j]
  {
    var rest := Filter(s[1..], p);
    assert Filter(s, p) == if p(s[0]) then [s[0]] + rest else rest;
    if i == 0 {
      assert s[j] == s[1..][j - 1];
      var b' :| 0 <= b' < |rest| && rest[b'] == s[j];
      a, b := 0, b' + 1;
    } else {
      assert s[i] == s[1..][i - 1] && s[j] == s[1..][j - 1];
      var a', b'' := FilterPositions(s[1..], p, i - 1, j - 1);
      if p(s[0]) {
        a, b := a' + 1, b'' + 1;
      } else {
        a, b := a', b'';
      }
    }
  }

  /** `ClassroomStack`: the cached classrooms. */
  class ClassroomStack {
    var classrooms: seq<Classroom>

    constructor ()
      ensures classrooms == []
    {
      classrooms := [];
    }

    /** `handleGetAllClassrooms`: the backend's list replaces the cache; a
        missing answer fails and keeps it. */
    method GetAllClassrooms(response: Option<seq<Classroom>>) returns (ok: bool)
      modifies this
      ensures ok <==> response.Some?
      ensures ok ==> classrooms == response.value
      ensures !ok ==> classrooms == old(classrooms)
    {
      if response.None? {
        return false;
      }
      classrooms := response.value;
      ok := true;
    }

    /** `handleCreateClassroom`: `created` is the backend's answer. The
        draft goes to the backend (`sent`) only when its name and period
        pass; on an answer the classroom is appended and its id returned. */
    method CreateClassroom(draft: ClassroomDraft, created: Option<Classroom>)
      returns (newId: Option<string>, sent: Option<ClassroomDraft>)
      modifies this
      ensures sent.Some? <==> DraftAccepted(old(classrooms), draft)
      ensures sent.Some? ==> sent.value == draft
      ensures newId.Some? <==> sent.Some? && created.Some?
      ensures newId.Some? ==> newId.value == created.value.id && classrooms == old(classrooms) + [created.value]
      ensures newId.None? ==> classrooms == old(classrooms)
    {
      newId, sent := None, None;
      var name := draft.name;
      if name.None? || name.value == "" || |Trim(name.value)| == 0 || name.value in Names(classrooms) {
        return;
      }
      if draft.period.None? {
        return;
      }
      sent := Some(draft);
      if created.None? {
        return;
      }
      classrooms := classrooms + [created.value];
      newId := Some(created.value.id);
    }

    /** `handleUpdateClassroom`: an id and updates are required; the answer
        replaces every cached classroom with that id. */
    method UpdateClassroom(id: string, updates: Option<ClassroomDraft>, answer: Option<Classroom>)
      returns (ok: bool, sent: bool)
      modifies this
      ensures sent <==> id != "" && updates.Some?
      ensures ok <==> sent && answer.Some?
      ensures ok ==> classrooms == ReplaceWhere(old(classrooms), (x: Classroom) => x.id == id, answer.value)
      ensures !ok ==> classrooms == old(classrooms)
    {
      if id == "" || updates.None? {
        return false, false;
      }
      sent := true;
      if answer.None? {
        return false, sent;
      }
      classrooms := ReplaceWhere(classrooms, (x: Classroom) => x.id == id, answer.value);
      ok := true;
    }

    /** `handleDeleteClassroom`: an id is required; on the backend's answer
        every cached classroom with that id goes. */
    method DeleteClassroom(id: string, deleted: bool) returns (ok: bool)
      modifies this
      ensures ok <==> id != "" && deleted
      ensures ok ==> classrooms == Filter(old(classrooms), (x: Classroom) => x.id != id)
      ensures !ok ==> classrooms == old(classrooms)
    {
      if id == "" || !deleted {
        return false;
      }
      classrooms := Filter(classrooms, (x: Classroom) => x.id != id);
      ok := true;
    }
  }
}
