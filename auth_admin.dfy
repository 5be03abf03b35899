/** `getAllUsers` of the admin actions: the authentication users joined
    with their profiles by id, either all of them or those of the profiles
    of one role, ordered by creation time. */
module AuthAdmin {
  import opened Wrappers
  import opened Strings
  import opened Seqs
  import opened AuthTypes

  /** `profiles.find(profile => profile.id === id)`; a profile without an
      id matches no user. */
  function FindProfile(profiles: seq<Profile>, id: string): (r: Option<nat>)
    ensures r.None? <==> forall i :: 0 <= i < |profiles| ==> profiles[i].id != Some(id)
    ensures r.Some? ==> (r.value < |profiles| && profiles[r.value].id == Some(id)
      && forall k :: 0 <= k < r.value ==> profiles[k].id != Some(id))
  {
    if profiles == [] then None
    else if profiles[0].id == Some(id) then Some(0)
    else
      var r := FindProfile(profiles[1..], id);
      assert forall i :: 1 <= i < |profiles| ==> profiles[i] == profiles[1..][i - 1];
      if r.Some? then Some(r.value + 1) else None
  }

  /** `users.find(user => user.id === id)` for a profile's (possibly
      missing) id. */
  function FindUser(users: seq<AuthUser>, id: Option<string>): (r: Option<nat>)
    ensures r.None? <==> forall i :: 0 <= i < |users| ==> Some(users[i].id) != id
    ensures r.Some? ==> (r.value < |users| && Some(users[r.value].id) == id
      && forall k :: 0 <= k < r.value ==> Some(users[k].id) != id)
  {
    if users == [] then None
    else if Some(users[0].id) == id then Some(0)
    else
      var r := FindUser(users[1..], id);
      assert forall i :: 1 <= i < |users| ==> users[i] == users[1..][i - 1];
      if r.Some? then Some(r.value + 1) else None
  }

  /** Without a role: each user with the first profile of its id, users
      without a profile dropped, in the users' order. */
  function Paired(users: seq<AuthUser>, profiles: seq<Profile>): (r: seq<UserWithProfile>)
    ensures |r| <= |users|
    ensures forall k :: 0 <= k < |r| ==> r[k].profile.id == Some(r[k].user.id)
  {
    if users == [] then []
    else
      var rest := Paired(users[1..], profiles);
      match FindProfile(profiles, users[0].id)
      case None => rest
      case Some(j) => [UserWithProfile(users[0], profiles[j])] + rest
  }

  /** An entry is in the join exactly when its user is listed, has a
      profile, and the profile is the first one with the user's id. */
  lemma {:induction false} PairedSpec(users: seq<AuthUser>, profiles: seq<Profile>, e: UserWithProfile)
    ensures e in Paired(users, profiles) <==>
      (e.user in users && FindProfile(profiles, e.user.id).Some?
       && e.profile == profiles[FindProfile(profiles, e.user.id).value])
  {
    if users != [] {
      PairedSpec(users[1..], profiles, e);
      assert users == [users[0]] + users[1..];
    }
  }

  /** With a role: each profile of the role with the first user of its id,
      profiles without a user dropped, in the profiles' order. */
  function Matched(profiles: seq<Profile>, users: seq<AuthUser>): (r: seq<UserWithProfile>)
    ensures |r| <= |profiles|
    ensures forall k :: 0 <= k < |r| ==> r[k].profile.id == Some(r[k].user.id)
  {
    if profiles == [] then []
    else
      var rest := Matched(profiles[1..], users);
      match FindUser(users, profiles[0].id)
      case None => rest
      case Some(j) => [UserWithProfile(users[j], profiles[0])] + rest
  }

  /** An entry is in the join exactly when its profile is one of the role's
      and its user is the first user with the profile's id. */
  lemma {:induction false} MatchedSpec(profiles: seq<Profile>, users: seq<AuthUser>, e: UserWithProfile)
    ensures e in Matched(profiles, users) <==>
      (e.profile in profiles && FindUser(users, e.profile.id).Some?
       && e.user == users[FindUser(users, e.profile.id).value])
  {
    if profiles != [] {
      MatchedSpec(profiles[1..], users, e);
      assert profiles == [profiles[0]] + profiles[1..];
    }
  }

  /** The order of `sort((a, b) => a.created_at > b.created_at ? 1 : -1)`. */
  function ByCreatedAt(): (UserWithProfile, UserWithProfile) -> bool
  {
    (a: UserWithProfile, b: UserWithProfile) => StrLe(a.user.createdAt, b.user.createdAt)
  }

  lemma ByCreatedAtTotal()
    ensures Total(ByCreatedAt())
  {
    forall a: UserWithProfile, b: UserWithProfile ensures ByCreatedAt()(a, b) || ByCreatedAt()(b, a) {
      StrLeTotal(a.user.createdAt, b.user.createdAt);
    }
  }

  /** `!role`: no role, or the empty string. */
  predicate NoRole(role: Option<string>)
  {
    role.None? || role.value == ""
  }

  /** `getAllUsers(role)`. `users` is the list of authentication users
      (`None` when listing them fails) and `profiles` the profile query's
      answer (all profiles without a role, those of the role with one;
      `None` when it fails). `None` stands for the `false` of a failure. */
  function GetAllUsers(role: Option<string>, users: Option<seq<AuthUser>>, profiles: Option<seq<Profile>>)
    : (r: Option<seq<UserWithProfile>>)
    ensures r.None? <==> users.None? || profiles.None?
    ensures r.Some? ==> Sorted(r.value, ByCreatedAt())
    ensures r.Some? ==> forall k :: 0 <= k < |r.value| ==> r.value[k].profile.id == Some(r.value[k].user.id)
    ensures r.Some? && NoRole(role) ==>
      (multiset(r.value) == multiset(Paired(users.value, profiles.value)) && |r.value| <= |users.value|)
    ensures r.Some? && !NoRole(role) ==>
      (multiset(r.value) == multiset(Matched(profiles.value, users.value)) && |r.value| <= |profiles.value|)
  {
    if users.None? || profiles.None? then None
    else
      var joined := if NoRole(role) then Paired(users.value, profiles.value) else Matched(profiles.value, users.value);
      var sorted := SortBy(joined, ByCreatedAt());
      ByCreatedAtTotal();
      SortByCorrect(joined, ByCreatedAt());
      assert forall k :: 0 <= k < |sorted| ==> sorted[k] in multiset(joined);
      Some(sorted)
  }

  /** Each user of the answer without a role is a listed user with its own
      profile, and a listed user with a profile is in the answer. */
  lemma GetAllUsersWithoutRole(users: seq<AuthUser>, profiles: seq<Profile>, u: AuthUser)
    requires u in users
    ensures var r := GetAllUsers(None, Some(users), Some(profiles)).value;
      (FindProfile(profiles, u.id).Some? ==>
         UserWithProfile(u, profiles[FindProfile(profiles, u.id).value]) in r)
      && (FindProfile(profiles, u.id).None? ==> forall k :: 0 <= k < |r| ==> r[k].user != u)
  {
    var r := GetAllUsers(None, Some(users), Some(profiles)).value;
    var joined := Paired(users, profiles);
    assert multiset(r) == multiset(joined);
    match FindProfile(profiles, u.id)
    case Some(j) =>
      PairedSpec(users, profiles, UserWithProfile(u, profiles[j]));
      assert UserWithProfile(u, profiles[j]) in multiset(joined);
    case None =>
      forall k | 0 <= k < |r| ensures r[k].user != u {
        assert r[k] in multiset(joined);
        PairedSpec(users, profiles, r[k]);
      }
  }

  /** Each profile of the role that has a user is in the answer with that
      user, and a profile without a user is not. */
  lemma GetAllUsersWithRole(role: string, users: seq<AuthUser>, profiles: seq<Profile>, p: Profile)
    requires role != "" && p in profiles
    ensures var r := GetAllUsers(Some(role), Some(users), Some(profiles)).value;
      (FindUser(users, p.id).Some? ==> UserWithProfile(users[FindUser(users, p.id).value], p) in r)
      && (FindUser(users, p.id).None? ==> forall k :: 0 <= k < |r| ==> r[k].profile != p)
  {
    var r := GetAllUsers(Some(role), Some(users), Some(profiles)).value;
    var joined := Matched(profiles, users);
    assert multiset(r) == multiset(joined);
    match FindUser(users, p.id)
    case Some(j) =>
      MatchedSpec(profiles, users, UserWithProfile(users[j], p));
      assert UserWithProfile(users[j], p) in multiset(joined);
    case None =>
      forall k | 0 <= k < |r| ensures r[k].profile != p {
        assert r[k] in multiset(joined);
        MatchedSpec(profiles, users, r[k]);
      }
  }
}
