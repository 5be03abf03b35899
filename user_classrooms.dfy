/** The user–classroom links on the admin users page: after the backend
    stores or removes links, each user's `profile.classrooms` in the cached
    user list is rewritten. */
module UserClassrooms {
  import opened Wrappers
  import opened Seqs
  import opened AuthTypes

  /** An entry of the cached list (`Partial<AuthUserWithProfileT>`): the id
      and the profile may be missing. */
  datatype UserEntry = UserEntry(id: Option<string>, email: Option<string>, profile: Option<Profile>)

  /** `user.profile?.classrooms || []`. */
  function Links(u: UserEntry): seq<Link>
  {
    if u.profile.Some? && u.profile.value.classrooms.Some? then u.profile.value.classrooms.value else []
  }

  /** `{ ...user, profile: { ...(user.profile || {}), classrooms: links } }`. */
  function WithLinks(u: UserEntry, links: seq<Link>): (r: UserEntry)
    ensures r.id == u.id && r.email == u.email && Links(r) == links
    ensures r.profile.Some?
    ensures u.profile.Some? ==> (r.profile.value.id == u.profile.value.id
      && r.profile.value.email == u.profile.value.email && r.profile.value.fullName == u.profile.value.fullName)
  {
    var p := if u.profile.Some? then u.profile.value else EmptyProfile;
    UserEntry(u.id, u.email, Some(p.(classrooms := Some(links))))
  }

  // ---------------------------------------------------------------------------
  // insert

  /** `newClassrooms`: the classroom ids of the rows of this user, in the
      order of the answer. */
  /** `uc.user_id === user.id`. */
  function RowFor(id: Option<string>): UserClassroomRow -> bool
  {
    (row: UserClassroomRow) => Some(row.userId) == id
  }

  function NewClassrooms(response: seq<UserClassroomRow>, id: Option<string>): (r: seq<Link>)
    ensures |r| <= |response|
    ensures forall l :: l in r <==>
      (exists i :: 0 <= i < |response| && Some(response[i].userId) == id && l == LinkId(response[i].classroomId))
  {
    var f := Filter(response, RowFor(id));
    var r := seq(|f|, k requires 0 <= k < |f| => LinkId(f[k].classroomId));
    forall l | l in r ensures exists i :: 0 <= i < |response| && Some(response[i].userId) == id && l == LinkId(response[i].classroomId) {
      var k :| 0 <= k < |r| && r[k] == l;
      assert f[k] in response && RowFor(id)(f[k]);
      var i :| 0 <= i < |response| && response[i] == f[k];
    }
    forall i | 0 <= i < |response| && Some(response[i].userId) == id ensures LinkId(response[i].classroomId) in r {
      assert RowFor(id)(response[i]);
      assert response[i] in f;
      var k :| 0 <= k < |f| && f[k] == response[i];
      assert r[k] == LinkId(response[i].classroomId);
    }
    r
  }

  /** The new links follow the answer's order: `idx` lists, increasing, the
      positions of exactly the rows for that user. */
  lemma NewClassroomsOrder(response: seq<UserClassroomRow>, id: Option<string>) returns (idx: seq<nat>)
    ensures |idx| == |NewClassrooms(response, id)|
    ensures forall k :: 0 <= k < |idx| ==>
      (idx[k] < |response| && Some(response[idx[k]].userId) == id
       && NewClassrooms(response, id)[k] == LinkId(response[idx[k]].classroomId))
    ensures forall k, l :: 0 <= k < l < |idx| ==> idx[k] < idx[l]
    ensures forall i {:trigger i in idx} :: 0 <= i < |response| ==> (Some(response[i].userId) == id <==> i in idx)
  {
    idx := FilterIndices(response, RowFor(id));
    ghost var f := Filter(response, RowFor(id));
    assert IndicesOf(response, RowFor(id), f, idx);
    forall k | 0 <= k < |idx| ensures Some(response[idx[k]].userId) == id {
      assert RowFor(id)(f[k]);
    }
  }

  /** One user after an insert: its links followed by the new ones. */
  function InsertedFor(u: UserEntry, response: seq<UserClassroomRow>): UserEntry
  {
    WithLinks(u, Links(u) + NewClassrooms(response, u.id))
  }

  lemma NoRowsNoClassrooms(response: seq<UserClassroomRow>, id: Option<string>)
    requires forall i :: 0 <= i < |response| ==> Some(response[i].userId) != id
    ensures NewClassrooms(response, id) == []
  {
    FilterNone(response, RowFor(id));
  }

  /** After an insert a user keeps all its links, in order, in front; every
      row of the answer for that user is linked; and a user without rows
      keeps exactly the links it had. */
  lemma InsertedForSpec(u: UserEntry, response: seq<UserClassroomRow>)
    ensures var after := Links(InsertedFor(u, response));
      |after| >= |Links(u)| && after[..|Links(u)|] == Links(u)
      && (forall i :: 0 <= i < |response| && Some(response[i].userId) == u.id ==>
            LinkId(response[i].classroomId) in after)
      && ((forall i :: 0 <= i < |response| ==> Some(response[i].userId) != u.id) ==> after == Links(u))
  {
    var after := Links(InsertedFor(u, response));
    assert after == Links(u) + NewClassrooms(response, u.id);
    assert after[..|Links(u)|] == Links(u);
    if forall i :: 0 <= i < |response| ==> Some(response[i].userId) != u.id {
      NoRowsNoClassrooms(response, u.id);
    }
  }

  // ---------------------------------------------------------------------------
  // delete

  /** The filter of `handleDeleteUserClassroom` as written: it reads
      `classroom_id` of each entry, which a bare id does not have, so bare
      ids are always kept. */
  predicate KeptAsWritten(ids: seq<string>, l: Link)
  {
    match l
    case LinkId(_) => true
    case LinkRow(row) => row.classroomId !in ids
  }

  /** The user after a delete as written: the old links followed by their
      filtered copy. */
  function DeletedForAsWritten(u: UserEntry, ids: seq<string>): UserEntry
  {
    WithLinks(u, Links(u) + Filter(Links(u), (l: Link) => KeptAsWritten(ids, l)))
  }

  /** As written, a delete never removes a link: the old links stay in
      front and the list grows by the kept ones. */
  lemma DeleteAsWrittenNeverShrinks(u: UserEntry, ids: seq<string>)
    ensures var after := Links(DeletedForAsWritten(u, ids));
      |after| >= |Links(u)| && after[..|Links(u)|] == Links(u)
      && (forall l :: l in Links(u) ==> l in after)
  {
    var after := Links(DeletedForAsWritten(u, ids));
    assert after[..|Links(u)|] == Links(u);
  }

  /** A user linked to one classroom still has that link after deleting
      it. */
  lemma DeleteAsWrittenKeepsDeletedLink()
    ensures var row := UserClassroomRow("u1", "c1");
      var u := UserEntry(Some("u1"), None, Some(Profile(Some("u1"), None, None, Some([LinkRow(row)]))));
      Links(DeletedForAsWritten(u, ["c1"])) == [LinkRow(row)]
  {
    var row := UserClassroomRow("u1", "c1");
    var u := UserEntry(Some("u1"), None, Some(Profile(Some("u1"), None, None, Some([LinkRow(row)]))));
    var keep := (l: Link) => KeptAsWritten(["c1"], l);
    assert !keep(LinkRow(row));
    assert Filter([LinkRow(row)], keep) == [];
  }

  /** A classroom just linked by an insert survives a delete of it as
      written, because the insert stored a bare id. */
  lemma InsertThenDeleteAsWrittenKeeps(u: UserEntry, uid: string, c: string)
    requires u.id == Some(uid)
    ensures LinkId(c) in Links(DeletedForAsWritten(InsertedFor(u, [UserClassroomRow(uid, c)]), [c]))
  {
    var v := InsertedFor(u, [UserClassroomRow(uid, c)]);
    InsertedForSpec(u, [UserClassroomRow(uid, c)]);
    assert LinkId(c) in Links(v);
    DeleteAsWrittenNeverShrinks(v, [c]);
  }

  /** The classroom a link names, whichever form it has. */
  function LinkClassroom(l: Link): string
  {
    match l
    case LinkId(c) => c
    case LinkRow(row) => row.classroomId
  }

  /** The evidently intended delete: the user's links without those of the
      removed classrooms. */
  function DeletedFor(u: UserEntry, ids: seq<string>): UserEntry
  {
    WithLinks(u, Filter(Links(u), (l: Link) => LinkClassroom(l) !in ids))
  }

  /** After the intended delete the user has exactly its links to other
      classrooms. */
  lemma DeletedForSpec(u: UserEntry, ids: seq<string>)
    ensures forall l :: l in Links(DeletedFor(u, ids)) <==> l in Links(u) && LinkClassroom(l) !in ids
    ensures |Links(DeletedFor(u, ids))| <= |Links(u)|
  {
  }

  /** With the intended delete, deleting a classroom just linked by an
      insert leaves no link to it. */
  lemma InsertThenDeleteRemoves(u: UserEntry, uid: string, c: string)
    requires u.id == Some(uid)
    ensures forall l :: l in Links(DeletedFor(InsertedFor(u, [UserClassroomRow(uid, c)]), [c])) ==> LinkClassroom(l) != c
  {
    DeletedForSpec(InsertedFor(u, [UserClassroomRow(uid, c)]), [c]);
  }

  // ---------------------------------------------------------------------------
  // the handlers

  /** `UserClassroomStack` over the users list it is given the setter of. */
  class UserClassroomStack {
    var users: seq<UserEntry>

    constructor (users: seq<UserEntry>)
      ensures this.users == users
    {
      this.users := users;
    }

    /** `handleInsertUserClassrooms`: an empty selection is refused; on the
        backend's answer each user gets the classrooms of its rows. */
    method InsertUserClassrooms(rows: seq<UserClassroomRow>, response: Option<seq<UserClassroomRow>>)
      returns (ok: bool, sent: bool)
      modifies this
      ensures sent <==> |rows| > 0
      ensures ok <==> sent && response.Some?
      ensures ok ==> (|users| == |old(users)|
        && forall i :: 0 <= i < |users| ==> users[i] == InsertedFor(old(users)[i], response.value))
      ensures !ok ==> users == old(users)
    {
      if |rows| == 0 {
        return false, false;
      }
      sent := true;
      if response.None? {
        return false, sent;
      }
      var answer := response.value;
      users := seq(|users|, i requires 0 <= i < |users| reads this => InsertedFor(users[i], answer));
      ok := true;
    }

    /** `handleDeleteUserClassroom` as written: a user id and at least one
        classroom id are required; on the backend's answer the matching
        user's links are rewritten, the other users are untouched. */
    method DeleteUserClassroom(userId: string, classroomIds: seq<string>, deleted: bool)
      returns (ok: bool, sent: bool)
      modifies this
      ensures sent <==> userId != "" && |classroomIds| > 0
      ensures ok <==> sent && deleted
      ensures ok ==> (|users| == |old(users)|
        && (forall i :: 0 <= i < |users| && old(users)[i].id == Some(userId) ==>
              users[i] == DeletedForAsWritten(old(users)[i], classroomIds))
        && (forall i :: 0 <= i < |users| && old(users)[i].id != Some(userId) ==> users[i] == old(users)[i]))
      ensures !ok ==> users == old(users)
    {
      if userId == "" || |classroomIds| == 0 {
        return false, false;
      }
      sent := true;
      if !deleted {
        return false, sent;
      }
      users := seq(|users|, i requires 0 <= i < |users| reads this =>
        if users[i].id == Some(userId) then DeletedForAsWritten(users[i], classroomIds) else users[i]);
      ok := true;
    }
  }
}
