/** The per-email justification dictionary of an activity: adding, updating,
    removing and reading justifications. Each operation reads the stored
    dictionary (a null column counts as empty) and produces the value to be
    written back. */
module Justifications {
  import opened Wrappers
  import opened Strings
  import opened ActivityTypes
  import opened Submissions

  /** The stored dictionary with null read as empty (`|| {}`). */
  function Current(stored: Option<map<string, Justification>>): map<string, Justification>
  {
    stored.GetOr(map[])
  }

  /** `created_by || "system"`. */
  function Author(createdBy: Option<string>): string
  {
    StrOr(createdBy, "system")
  }

  /** `addActivityJustification`: the entry for the email is (re)written with
      the message, the author and the current time; every other entry is
      kept. */
  function AddJustification(stored: Option<map<string, Justification>>, email: string, message: string,
                            createdBy: Option<string>, now: string): (r: map<string, Justification>)
    ensures email in r && r[email] == Justification(message, Author(createdBy), now, None)
    ensures r.Keys == Current(stored).Keys + {email}
    ensures forall k :: k in r && k != email ==> r[k] == Current(stored)[k]
  {
    Current(stored)[email := Justification(message, Author(createdBy), now, None)]
  }

  /** `updateActivityJustification`: `None` (the thrown "not found") when the
      email has no entry; otherwise the entry keeps its creation time and gets
      the new message, author and update time, and nothing else changes. */
  function UpdateJustification(stored: Option<map<string, Justification>>, email: string, message: string,
                               createdBy: Option<string>, now: string): (r: Option<map<string, Justification>>)
    ensures r.None? <==> email !in Current(stored)
    ensures r.Some? ==> r.value.Keys == Current(stored).Keys
    ensures r.Some? ==> r.value[email] == Justification(message, Author(createdBy), Current(stored)[email].createdAt, Some(now))
    ensures r.Some? ==> forall k :: k in r.value && k != email ==> r.value[k] == Current(stored)[k]
  {
    var current := Current(stored);
    if email !in current then None
    else
      var prev := current[email];
      Some(current[email := prev.(reason := message, createdBy := Author(createdBy), updatedAt := Some(now))])
  }

  /** `removeActivityJustification`: a copy of the dictionary loses the
      email's entry; an empty result is stored as null. */
  method RemoveJustification(stored: Option<map<string, Justification>>, email: string)
    returns (r: Option<map<string, Justification>>)
    ensures r.None? <==> Current(stored).Keys <= {email}
    ensures r.Some? ==> r.value.Keys == Current(stored).Keys - {email}
    ensures r.Some? ==> forall k :: k in r.value ==> r.value[k] == Current(stored)[k]
  {
    var updated := Current(stored);
    updated := updated - {email};
    if |updated.Keys| > 0 {
      r := Some(updated);
    } else {
      r := None;
    }
  }

  /** `getActivityJustifications`: `None` when the read fails (the outer
      option), the dictionary otherwise, with null read as empty. */
  function GetActivityJustifications(fetched: Option<Option<map<string, Justification>>>)
    : (r: Option<map<string, Justification>>)
    ensures r.None? <==> fetched.None?
    ensures r.Some? ==> r.value == Current(fetched.value)
  {
    match fetched
    case None => None
    case Some(stored) => Some(Current(stored))
  }

  /** `getJustificationByUserEmail`: the entry for the email, or `None`. */
  function GetJustificationByUserEmail(fetched: Option<Option<map<string, Justification>>>, email: string)
    : (r: Option<Justification>)
    ensures r.Some? <==> fetched.Some? && email in Current(fetched.value)
    ensures r.Some? ==> r.value == Current(fetched.value)[email]
  {
    match GetActivityJustifications(fetched)
    case None => None
    case Some(js) => if email in js then Some(js[email]) else None
  }

  /** Reading back an added justification gives the entry just written. */
  lemma GetAfterAdd(stored: Option<map<string, Justification>>, email: string, message: string,
                    createdBy: Option<string>, now: string)
    ensures GetJustificationByUserEmail(Some(Some(AddJustification(stored, email, message, createdBy, now))), email)
      == Some(Justification(message, Author(createdBy), now, None))
  {
  }

  /** Adding and then removing a justification leaves the other entries as
      they were. */
  lemma RemoveAfterAdd(stored: Option<map<string, Justification>>, email: string, message: string,
                       createdBy: Option<string>, now: string)
    ensures AddJustification(stored, email, message, createdBy, now) - {email} == Current(stored) - {email}
  {
    var a := AddJustification(stored, email, message, createdBy, now);
    assert (a - {email}).Keys == (Current(stored) - {email}).Keys;
  }

  /** Updating an added justification succeeds and keeps the time of the
      addition as its creation time. */
  lemma UpdateAfterAdd(stored: Option<map<string, Justification>>, email: string, m1: string, c1: Option<string>,
                       t1: string, m2: string, c2: Option<string>, t2: string)
    ensures var u := UpdateJustification(Some(AddJustification(stored, email, m1, c1, t1)), email, m2, c2, t2);
      u.Some? && u.value[email] == Justification(m2, Author(c2), t1, Some(t2))
      && u.value - {email} == Current(stored) - {email}
  {
    var u := UpdateJustification(Some(AddJustification(stored, email, m1, c1, t1)), email, m2, c2, t2);
    assert (u.value - {email}).Keys == (Current(stored) - {email}).Keys;
  }

  /** An updated justification can be updated again, and the second update
      overrides the first while the creation time stays. */
  lemma UpdateTwice(stored: Option<map<string, Justification>>, email: string, m1: string, c1: Option<string>,
                    t1: string, m2: string, c2: Option<string>, t2: string)
    requires email in Current(stored)
    ensures var u := UpdateJustification(stored, email, m1, c1, t1);
      u.Some? && UpdateJustification(u, email, m2, c2, t2) == UpdateJustification(stored, email, m2, c2, t2)
  {
    var u := UpdateJustification(stored, email, m1, c1, t1);
    var v := UpdateJustification(u, email, m2, c2, t2);
    var w := UpdateJustification(stored, email, m2, c2, t2);
    assert v.value.Keys == w.value.Keys;
    assert v.value[email] == w.value[email];
    forall k | k in v.value ensures v.value[k] == w.value[k] {
      if k != email { assert v.value[k] == u.value[k] == Current(stored)[k]; }
    }
    assert v.value == w.value;
  }

  /** After a justification is added for a student, the student is no longer
      missing: delivered if among the participants, justified otherwise. */
  lemma AddedStudentIsNotMissing(s: Student, a: Activity, message: string, createdBy: Option<string>, now: string)
    ensures var a' := a.(justifications := Some(AddJustification(a.justifications, s.email, message, createdBy, now)));
      StudentStatus(s, a').status != F
      && (StudentStatus(s, a').status == PJ <==> s.email !in Participants(a))
      && StudentStatus(s, a').justification == Some(JustificationInfo(message, Author(createdBy), now))
  {
  }

  /** Removing a student's justification leaves every other student's status
      as it was. */
  lemma RemoveKeepsOthers(a: Activity, email: string, r: Option<map<string, Justification>>, s: Student)
    requires r.None? <==> Current(a.justifications).Keys <= {email}
    requires r.Some? ==> r.value.Keys == Current(a.justifications).Keys - {email}
    requires r.Some? ==> forall k :: k in r.value ==> r.value[k] == Current(a.justifications)[k]
    requires s.email != email
    ensures StudentStatus(s, a.(justifications := r)) == StudentStatus(s, a)
  {
    var a' := a.(justifications := r);
    if s.email in JustificationsOf(a) {
      assert s.email in JustificationsOf(a');
    }
  }
}
