/** The Zoom meetings of a classroom: the cached list, the occurrence
    overlay, the refresh merge with the Zoom API's answer, and the diff of
    past instances sent back to the backend. Records whose fields the code
    only copies are maps from field names to values, so that object spread
    is map union. */
module ZoomMeetings {
  import opened Wrappers
  import opened Seqs

  /** A field value as the code compares it; `JOther` stands for any value
      it never inspects. */
  datatype JsValue = JStr(s: string) | JNum(n: int) | JBool(b: bool) | JNull | JUndefined | JOther(tag: nat)

  type Rec = map<string, JsValue>

  /** `r[k]`, `undefined` for a missing key. */
  function Read(r: Rec, k: string): JsValue
  {
    if k in r then r[k] else JUndefined
  }

  /** `{ ...a, ...b }`: the keys of both, the right-hand value winning. */
  function Spread(a: Rec, b: Rec): (r: Rec)
    ensures r.Keys == a.Keys + b.Keys
    ensures forall k :: k in b ==> r[k] == b[k]
    ensures forall k :: k in a && k !in b ==> r[k] == a[k]
  {
    a + b
  }

  // ---------------------------------------------------------------------------
  // occurrences

  function OccurrenceId(o: Rec): JsValue
  {
    Read(o, "occurrence_id")
  }

  /** The overlay of `handleUpdateZoomMeetingOccurrence`: the updates are
      spread over the occurrence with that id only. */
  function UpdateOccurrences(occs: seq<Rec>, occurrenceId: string, updates: Rec): (r: seq<Rec>)
    ensures |r| == |occs|
    ensures forall i :: 0 <= i < |occs| ==>
      r[i] == if OccurrenceId(occs[i]) == JStr(occurrenceId) then Spread(occs[i], updates) else occs[i]
  {
    seq(|occs|, i requires 0 <= i < |occs| =>
      if OccurrenceId(occs[i]) == JStr(occurrenceId) then Spread(occs[i], updates) else occs[i])
  }

  /** Updates that do not touch the id leave every id in place, and
      applying them a second time changes nothing. */
  lemma UpdateOccurrencesIdempotent(occs: seq<Rec>, occurrenceId: string, updates: Rec)
    requires "occurrence_id" !in updates
    ensures forall i :: 0 <= i < |occs| ==>
      OccurrenceId(UpdateOccurrences(occs, occurrenceId, updates)[i]) == OccurrenceId(occs[i])
    ensures UpdateOccurrences(UpdateOccurrences(occs, occurrenceId, updates), occurrenceId, updates)
         == UpdateOccurrences(occs, occurrenceId, updates)
  {
    var once := UpdateOccurrences(occs, occurrenceId, updates);
    var twice := UpdateOccurrences(once, occurrenceId, updates);
    forall i | 0 <= i < |occs| ensures twice[i] == once[i] {
      if OccurrenceId(occs[i]) == JStr(occurrenceId) {
        assert Spread(Spread(occs[i], updates), updates) == Spread(occs[i], updates);
      }
    }
  }

  /** The first occurrence whose id equals `id` (`find`; two missing ids
      compare equal, as `undefined === undefined`). */
  function FindOccurrence(occs: seq<Rec>, id: JsValue): (r: Option<nat>)
    ensures r.None? <==> forall i :: 0 <= i < |occs| ==> OccurrenceId(occs[i]) != id
    ensures r.Some? ==> (r.value < |occs| && OccurrenceId(occs[r.value]) == id
      && forall k :: 0 <= k < r.value ==> OccurrenceId(occs[k]) != id)
  {
    FindIndex(occs, (o: Rec) => OccurrenceId(o) == id)
  }

  /** One occurrence of the API's answer on refresh: the stored occurrence
      with the same id, if any, is spread over it. */
  function MergeOccurrence(o: Rec, stored: Option<seq<Rec>>): Rec
  {
    if stored.None? then o
    else
      match FindOccurrence(stored.value, OccurrenceId(o))
      case None => o
      case Some(j) => Spread(o, stored.value[j])
  }

  /** The occurrences sent on refresh: one per occurrence of the API's
      answer, in its order; none when the answer has none. */
  function MergeOccurrences(api: Option<seq<Rec>>, stored: Option<seq<Rec>>): (r: Option<seq<Rec>>)
    ensures r.None? <==> api.None?
    ensures r.Some? ==> (|r.value| == |api.value|
      && forall i :: 0 <= i < |api.value| ==> r.value[i] == MergeOccurrence(api.value[i], stored))
  {
    match api
    case None => None
    case Some(occs) => Some(seq(|occs|, i requires 0 <= i < |occs| => MergeOccurrence(occs[i], stored)))
  }

  /** The API's list fixes which occurrences there are and their order: the
      merged list has the API's ids, position by position; every key of the
      stored twin takes the stored value and the other keys the API's. */
  lemma MergeOccurrencesSpec(api: seq<Rec>, stored: Option<seq<Rec>>, i: int)
    requires 0 <= i < |api|
    ensures var m := MergeOccurrences(Some(api), stored).value[i];
      OccurrenceId(m) == OccurrenceId(api[i])
      && (stored.Some? && FindOccurrence(stored.value, OccurrenceId(api[i])).Some? ==>
            var c := stored.value[FindOccurrence(stored.value, OccurrenceId(api[i])).value];
            m.Keys == api[i].Keys + c.Keys
            && (forall k :: k in c ==> m[k] == c[k])
            && (forall k :: k in api[i] && k !in c ==> m[k] == api[i][k]))
      && (stored.None? || FindOccurrence(stored.value, OccurrenceId(api[i])).None? ==> m == api[i])
  {
  }

  // ---------------------------------------------------------------------------
  // meetings and accounts

  /** A cached meeting: the fields the code reads, the occurrences, and the
      rest of the record. */
  datatype Meeting = Meeting(id: string, meetingId: int, meetingType: int, occurrences: Option<seq<Rec>>, fields: Rec)

  /** What the Zoom API answers for a meeting (it has no backend id). */
  datatype ApiMeeting = ApiMeeting(meetingId: int, meetingType: int, occurrences: Option<seq<Rec>>, fields: Rec,
                                   pastInstances: seq<PastInstance>)

  /** A Zoom account's credentials; fields may be missing or empty. */
  datatype Account = Account(id: string, accountId: Option<string>, clientId: Option<string>,
                             clientSecret: Option<string>, classroomId: Option<string>)

  predicate Given(s: Option<string>)
  {
    s.Some? && s.value != ""
  }

  /** The recurring meeting with fixed times, the only type whose past
      instances are tracked. */
  const RecurringFixedTime := 8

  /** The meeting sent on refresh: the stored meeting under the API's
      answer, with the merged occurrences and the synchronisation time. */
  function RefreshPayload(current: Meeting, api: ApiMeeting, now: string): (r: Meeting)
    ensures r.id == current.id && r.meetingId == api.meetingId && r.meetingType == api.meetingType
    ensures r.occurrences == MergeOccurrences(api.occurrences, current.occurrences)
    ensures r.fields.Keys == current.fields.Keys + api.fields.Keys + {"synchronized_at"}
    ensures Read(r.fields, "synchronized_at") == JStr(now)
    ensures forall k :: k in api.fields && k != "synchronized_at" ==> r.fields[k] == api.fields[k]
    ensures forall k :: k in current.fields && k !in api.fields && k != "synchronized_at" ==> r.fields[k] == current.fields[k]
  {
    Meeting(current.id, api.meetingId, api.meetingType, MergeOccurrences(api.occurrences, current.occurrences),
            Spread(Spread(current.fields, api.fields), map["synchronized_at" := JStr(now)]))
  }

  // ---------------------------------------------------------------------------
  // past instances

  datatype Participant = Participant(userEmail: Option<string>, details: Rec)
  datatype PollResult = PollResult(email: Option<string>, details: Rec)

  datatype PastInstance = PastInstance(id: int, uuid: Option<string>, participants: Option<seq<Participant>>,
                                       pollResults: Option<seq<PollResult>>)

  /** A past instance as the bulk create after a meeting's creation sends
      it: the instance spread, then the account, the classroom, the new
      meeting's id and the synchronisation time written over it. */
  datatype LinkedPastInstance = LinkedPastInstance(instance: PastInstance, accountId: string,
                                                   classroomId: Option<string>, meetingId: string,
                                                   synchronizedAt: string)

  /** The update sent for a stored past instance. */
  datatype PastUpdate = PastUpdate(id: int, participants: Option<seq<Participant>>, pollResults: Option<seq<PollResult>>)

  /** `list?.length`, `None` for `undefined`. */
  function LengthOf<T>(s: Option<seq<T>>): Option<nat>
  {
    if s.Some? then Some(|s.value|) else None
  }

  function ParticipantEmails(ps: Option<seq<Participant>>): set<Option<string>>
  {
    if ps.None? then {} else set i | 0 <= i < |ps.value| :: ps.value[i].userEmail
  }

  function PollEmails(ps: Option<seq<PollResult>>): set<Option<string>>
  {
    if ps.None? then {} else set i | 0 <= i < |ps.value| :: ps.value[i].email
  }

  /** The fetched participants differ in number, or one of them has an
      e-mail that no stored participant has. */
  predicate ParticipantsChanged(fetched: PastInstance, stored: PastInstance)
  {
    LengthOf(fetched.participants) != LengthOf(stored.participants)
    || (fetched.participants.Some? &&
        exists i :: (0 <= i < |fetched.participants.value|
                     && Given(fetched.participants.value[i].userEmail)
                     && fetched.participants.value[i].userEmail !in ParticipantEmails(stored.participants)))
  }

  predicate PollResultsChanged(fetched: PastInstance, stored: PastInstance)
  {
    LengthOf(fetched.pollResults) != LengthOf(stored.pollResults)
    || (fetched.pollResults.Some? &&
        exists i :: (0 <= i < |fetched.pollResults.value|
                     && Given(fetched.pollResults.value[i].email)
                     && fetched.pollResults.value[i].email !in PollEmails(stored.pollResults)))
  }

  /** The first fetched instance with the stored one's uuid (a missing
      uuid matches a missing uuid). */
  function FindByUuid(fetched: seq<PastInstance>, uuid: Option<string>): (r: Option<nat>)
    ensures r.None? <==> forall i :: 0 <= i < |fetched| ==> fetched[i].uuid != uuid
    ensures r.Some? ==> (r.value < |fetched| && fetched[r.value].uuid == uuid
      && forall k :: 0 <= k < r.value ==> fetched[k].uuid != uuid)
  {
    FindIndex(fetched, (m: PastInstance) => m.uuid == uuid)
  }

  /** The update for one stored instance: only when a fetched twin exists
      and its participants or poll results changed; each list is the
      fetched one when present, else the stored one. */
  function UpdateFor(stored: PastInstance, fetched: seq<PastInstance>): (r: Option<PastUpdate>)
    ensures r.Some? <==> (FindByUuid(fetched, stored.uuid).Some?
      && (ParticipantsChanged(fetched[FindByUuid(fetched, stored.uuid).value], stored)
          || PollResultsChanged(fetched[FindByUuid(fetched, stored.uuid).value], stored)))
    ensures r.Some? ==> r.value.id == stored.id
    ensures r.Some? ==> var m := fetched[FindByUuid(fetched, stored.uuid).value];
      r.value.participants == (if m.participants.Some? then m.participants else stored.participants)
      && r.value.pollResults == (if m.pollResults.Some? then m.pollResults else stored.pollResults)
  {
    match FindByUuid(fetched, stored.uuid)
    case None => None
    case Some(j) =>
      var m := fetched[j];
      if !ParticipantsChanged(m, stored) && !PollResultsChanged(m, stored) then None
      else Some(PastUpdate(stored.id,
                           if m.participants.Some? then m.participants else stored.participants,
                           if m.pollResults.Some? then m.pollResults else stored.pollResults))
  }

  /** `updatedPastInstances`: the updates, in the order of the stored
      instances, with the unchanged ones dropped. */
  function PastUpdates(stored: seq<PastInstance>, fetched: seq<PastInstance>): (r: seq<PastUpdate>)
    ensures |r| <= |stored|
  {
    if stored == [] then []
    else
      (match UpdateFor(stored[0], fetched) case None => [] case Some(u) => [u])
      + PastUpdates(stored[1..], fetched)
  }

  /** Exactly the stored instances that changed have an update. */
  lemma {:induction false} PastUpdatesSpec(stored: seq<PastInstance>, fetched: seq<PastInstance>)
    ensures forall u :: u in PastUpdates(stored, fetched) <==>
      exists i :: 0 <= i < |stored| && UpdateFor(stored[i], fetched) == Some(u)
  {
    if stored != [] {
      PastUpdatesSpec(stored[1..], fetched);
      forall u ensures u in PastUpdates(stored, fetched) <==>
        exists i :: 0 <= i < |stored| && UpdateFor(stored[i], fetched) == Some(u)
      {
        if u in PastUpdates(stored, fetched) && UpdateFor(stored[0], fetched) != Some(u) {
          assert u in PastUpdates(stored[1..], fetched);
          var i :| 0 <= i < |stored[1..]| && UpdateFor(stored[1..][i], fetched) == Some(u);
          assert stored[1..][i] == stored[i + 1];
        }
        if exists i :: 0 <= i < |stored| && UpdateFor(stored[i], fetched) == Some(u) {
          var i :| 0 <= i < |stored| && UpdateFor(stored[i], fetched) == Some(u);
          if i > 0 {
            assert stored[1..][i - 1] == stored[i];
          }
        }
      }
    }
  }

  /** A fetched instance with a uuid no stored instance has. */
  function IsNewIn(stored: seq<PastInstance>): PastInstance -> bool
  {
    (m: PastInstance) => Given(m.uuid) && forall k :: 0 <= k < |stored| ==> stored[k].uuid != m.uuid
  }

  /** `newInstances`: the fetched instances not yet stored, in fetched
      order. */
  function NewInstances(fetched: seq<PastInstance>, stored: seq<PastInstance>): (r: seq<PastInstance>)
    ensures forall m :: m in r <==> m in fetched && Given(m.uuid) && forall k :: 0 <= k < |stored| ==> stored[k].uuid != m.uuid
  {
    Filter(fetched, IsNewIn(stored))
  }

  /** An instance is either new or has a stored twin: the new instances and
      the matched ones split the fetched list. */
  lemma NewOrMatched(fetched: seq<PastInstance>, stored: seq<PastInstance>, m: PastInstance)
    requires m in fetched && Given(m.uuid)
    ensures m in NewInstances(fetched, stored) <==> FindByUuid(stored, m.uuid).None?
  {
  }

  /** A call made to the backend while syncing past instances. */
  datatype PastCall = UpdatePast(id: int, participants: Option<seq<Participant>>, pollResults: Option<seq<PollResult>>)
                    | CreateMany(instances: seq<PastInstance>)

  /** The calls of the sync, in order: one update per changed instance,
      then one creation of all new instances when there are any. */
  function SyncCalls(stored: seq<PastInstance>, fetched: seq<PastInstance>): seq<PastCall>
  {
    seq(|PastUpdates(stored, fetched)|, i requires 0 <= i < |PastUpdates(stored, fetched)| =>
      UpdatePast(PastUpdates(stored, fetched)[i].id, PastUpdates(stored, fetched)[i].participants,
                 PastUpdates(stored, fetched)[i].pollResults))
    + (if |NewInstances(fetched, stored)| > 0 then [CreateMany(NewInstances(fetched, stored))] else [])
  }

  /** The serial loop over the updates, then the creation of the new
      instances. */
  method SyncPastInstances(stored: seq<PastInstance>, fetched: seq<PastInstance>) returns (calls: seq<PastCall>)
    ensures calls == SyncCalls(stored, fetched)
  {
    var updates := PastUpdates(stored, fetched);
    calls := [];
    var i := 0;
    while i < |updates|
      invariant 0 <= i <= |updates|
      invariant calls == seq(i, k requires 0 <= k < i => UpdatePast(updates[k].id, updates[k].participants, updates[k].pollResults))
    {
      var u := updates[i];
      calls := calls + [UpdatePast(u.id, u.participants, u.pollResults)];
      i := i + 1;
    }
    var newInstances := NewInstances(fetched, stored);
    if |newInstances| > 0 {
      calls := calls + [CreateMany(newInstances)];
    }
  }

  /** Every creation the sync asks for is of instances not yet stored, and
      every update is of a stored instance. */
  lemma {:induction false} SyncCallsTargets(stored: seq<PastInstance>, fetched: seq<PastInstance>, c: PastCall)
    requires c in SyncCalls(stored, fetched)
    ensures c.CreateMany? ==> forall m :: m in c.instances ==> m in fetched && FindByUuid(stored, m.uuid).None?
    ensures c.UpdatePast? ==> exists i :: 0 <= i < |stored| && stored[i].id == c.id
  {
    var us := PastUpdates(stored, fetched);
    var calls := SyncCalls(stored, fetched);
    var j :| 0 <= j < |calls| && calls[j] == c;
    if j < |us| {
      var u := us[j];
      assert c == UpdatePast(u.id, u.participants, u.pollResults);
      PastUpdatesSpec(stored, fetched);
      assert u in us;
      var i :| 0 <= i < |stored| && UpdateFor(stored[i], fetched) == Some(u);
      assert stored[i].id == c.id;
    } else {
      assert c == CreateMany(NewInstances(fetched, stored));
    }
  }

  // ---------------------------------------------------------------------------
  // the cached list

  /** The payload of a creation: the form's fields, the account and time,
      then the API's fields over them. */
  datatype CreatePayload = CreatePayload(meetingId: int, meetingType: int, occurrences: Option<seq<Rec>>, fields: Rec)

  /** The creation's field order: what the API answers wins over the
      account and time, which win over the form. */
  function CreateFields(meetingData: Rec, account: Account, api: ApiMeeting, now: string): (r: Rec)
    ensures r.Keys == meetingData.Keys + {"account_id", "classroom_id", "synchronized_at"} + api.fields.Keys
    ensures forall k :: k in api.fields ==> r[k] == api.fields[k]
    ensures "account_id" !in api.fields ==> r["account_id"] == JStr(account.id)
    ensures "synchronized_at" !in api.fields ==> r["synchronized_at"] == JStr(now)
    ensures forall k :: k in meetingData && k !in api.fields && k !in {"account_id", "classroom_id", "synchronized_at"} ==>
      r[k] == meetingData[k]
  {
    var classroom := if account.classroomId.Some? then JStr(account.classroomId.value) else JUndefined;
    Spread(Spread(meetingData, map["account_id" := JStr(account.id), "classroom_id" := classroom,
                                   "synchronized_at" := JStr(now)]), api.fields)
  }

  /** The checks of `handleCreateZoomMeeting`: a meeting number and all of
      the account's fields. */
  predicate CreateAllowed(meetingId: Option<int>, account: Account)
  {
    meetingId.Some? && meetingId.value != 0 && Given(account.accountId) && Given(account.clientId)
    && Given(account.clientSecret) && Given(account.classroomId)
  }

  class ZoomMeetingsStack {
    var meetings: seq<Meeting>

    constructor ()
      ensures meetings == []
    {
      meetings := [];
    }

    /** `handleGetAllZoomMeetings`: the backend's list replaces the cache. */
    method GetAllZoomMeetings(response: Option<seq<Meeting>>) returns (ok: bool)
      modifies this
      ensures ok <==> response.Some?
      ensures ok ==> meetings == response.value
      ensures !ok ==> meetings == old(meetings)
    {
      if response.None? {
        return false;
      }
      meetings := response.value;
      ok := true;
    }

    /** `handleCreateZoomMeeting`: `api` is the Zoom API's answer, `created`
        the backend's answer to the creation, `now` and `linkedAt` the two
        reads of the clock. Returns the new id, the payload sent and the past
        instances created with it. */
    method CreateZoomMeeting(meetingId: Option<int>, meetingData: Rec, account: Account, api: Option<ApiMeeting>,
                             created: Option<Meeting>, now: string, linkedAt: string)
      returns (newId: Option<string>, payload: Option<CreatePayload>, pastCreated: Option<seq<LinkedPastInstance>>)
      modifies this
      ensures !CreateAllowed(meetingId, account) ==> payload.None? && newId.None?
      ensures CreateAllowed(meetingId, account) && api.Some? ==>
        payload == Some(CreatePayload(api.value.meetingId, api.value.meetingType, api.value.occurrences,
                                      CreateFields(meetingData, account, api.value, now)))
      ensures newId.Some? <==> CreateAllowed(meetingId, account) && api.Some? && created.Some?
      ensures newId.Some? ==> newId.value == created.value.id && meetings == [created.value] + old(meetings)
      ensures newId.None? ==> meetings == old(meetings)
      ensures pastCreated.Some? <==> (newId.Some? && api.value.meetingType == RecurringFixedTime
                                      && |api.value.pastInstances| > 0)
      ensures pastCreated.Some? ==> |pastCreated.value| == |api.value.pastInstances|
      ensures pastCreated.Some? ==> forall i :: 0 <= i < |pastCreated.value| ==>
        pastCreated.value[i] == LinkedPastInstance(api.value.pastInstances[i], account.id, account.classroomId,
                                                   created.value.id, linkedAt)
    {
      payload := None;
      pastCreated := None;
      if !CreateAllowed(meetingId, account) {
        return None, None, None;
      }
      if api.None? {
        return None, None, None;
      }
      var a := api.value;
      payload := Some(CreatePayload(a.meetingId, a.meetingType, a.occurrences, CreateFields(meetingData, account, a, now)));
      if created.None? {
        return None, payload, None;
      }
      if a.meetingType == RecurringFixedTime && |a.pastInstances| > 0 {
        var linked := seq(|a.pastInstances|, i requires 0 <= i < |a.pastInstances| =>
          LinkedPastInstance(a.pastInstances[i], account.id, account.classroomId, created.value.id, linkedAt));
        pastCreated := Some(linked);
      }
      meetings := [created.value] + meetings;
      newId := Some(created.value.id);
    }

    /** `handleUpdateZoomMeeting`: the backend's answer replaces every
        cached meeting with that id. */
    method UpdateZoomMeeting(id: string, answer: Option<Meeting>) returns (ok: bool)
      modifies this
      ensures ok <==> id != "" && answer.Some?
      ensures ok ==> meetings == ReplaceWhere(old(meetings), (m: Meeting) => m.id == id, answer.value)
      ensures !ok ==> meetings == old(meetings)
    {
      if id == "" || answer.None? {
        return false;
      }
      meetings := ReplaceWhere(meetings, (m: Meeting) => m.id == id, answer.value);
      ok := true;
    }

    /** The first cached meeting with that id. */
    function FindMeeting(id: string): (r: Option<nat>)
      reads this
      ensures r.None? <==> forall i :: 0 <= i < |meetings| ==> meetings[i].id != id
      ensures r.Some? ==> (r.value < |meetings| && meetings[r.value].id == id
        && forall k :: 0 <= k < r.value ==> meetings[k].id != id)
    {
      FindIndex(meetings, (m: Meeting) => m.id == id)
    }

    /** `handleUpdateZoomMeetingOccurrence`: the occurrences sent are those
        of the cached meeting with the overlay applied (nothing when the
        meeting or its occurrences are missing); the answer replaces the
        meeting. */
    method UpdateZoomMeetingOccurrence(id: string, occurrenceId: string, updates: Rec, answer: Option<Meeting>)
      returns (ok: bool, sent: Option<Option<seq<Rec>>>)
      modifies this
      ensures sent.Some? <==> id != "" && occurrenceId != ""
      ensures sent.Some? ==> (sent.value == (
        match old(FindMeeting(id))
        case None => None
        case Some(j) =>
          if old(meetings)[j].occurrences.None? then None
          else Some(UpdateOccurrences(old(meetings)[j].occurrences.value, occurrenceId, updates))))
      ensures ok <==> sent.Some? && answer.Some?
      ensures ok ==> meetings == ReplaceWhere(old(meetings), (m: Meeting) => m.id == id, answer.value)
      ensures !ok ==> meetings == old(meetings)
    {
      if id == "" || occurrenceId == "" {
        return false, None;
      }
      var current := FindMeeting(id);
      var occs: Option<seq<Rec>> := None;
      if current.Some? && meetings[current.value].occurrences.Some? {
        occs := Some(UpdateOccurrences(meetings[current.value].occurrences.value, occurrenceId, updates));
      }
      sent := Some(occs);
      if answer.None? {
        return false, sent;
      }
      meetings := ReplaceWhere(meetings, (m: Meeting) => m.id == id, answer.value);
      ok := true;
    }

    /** `handleRefreshAndUpdateZoomMeeting`: checks the id and account,
        fetches the meeting again, sends the merged meeting, syncs the past
        instances of a recurring fixed-time meeting, and caches the
        backend's answer. `pastInstances` are the stored past instances. */
    method RefreshAndUpdateZoomMeeting(id: string, account: Account, api: Option<ApiMeeting>,
                                       answer: Option<Meeting>, pastInstances: seq<PastInstance>, now: string)
      returns (ok: bool, payload: Option<Meeting>, calls: seq<PastCall>)
      modifies this
      ensures var found := old(FindMeeting(id));
        var allowed := id != "" && Given(account.accountId) && Given(account.clientId)
                       && Given(account.clientSecret) && found.Some? && old(meetings)[found.value].meetingId != 0;
        (payload.Some? <==> allowed && api.Some?)
        && (payload.Some? ==> payload.value == RefreshPayload(old(meetings)[found.value], api.value, now))
        && (ok <==> payload.Some? && answer.Some?)
        && (ok && answer.value.meetingType == RecurringFixedTime ==> calls == SyncCalls(pastInstances, api.value.pastInstances))
        && (!(ok && answer.value.meetingType == RecurringFixedTime) ==> calls == [])
        && (ok ==> meetings == ReplaceWhere(old(meetings), (m: Meeting) => m.id == id, answer.value))
        && (!ok ==> meetings == old(meetings))
    {
      payload := None;
      calls := [];
      if id == "" || !Given(account.accountId) || !Given(account.clientId) || !Given(account.clientSecret) {
        return false, None, [];
      }
      var found := FindMeeting(id);
      if found.None? || meetings[found.value].meetingId == 0 {
        return false, None, [];
      }
      var current := meetings[found.value];
      if api.None? {
        return false, None, [];
      }
      payload := Some(RefreshPayload(current, api.value, now));
      if answer.None? {
        return false, payload, [];
      }
      var updated := answer.value;
      if updated.meetingType == RecurringFixedTime {
        calls := SyncPastInstances(pastInstances, api.value.pastInstances);
      }
      assert current.id == id;
      meetings := ReplaceWhere(meetings, (m: Meeting) => m.id == current.id, updated);
      ok := true;
    }

    /** `handleDeleteZoomMeeting`: every cached meeting with that id goes. */
    method DeleteZoomMeeting(id: string, deleted: bool) returns (ok: bool)
      modifies this
      ensures ok <==> id != "" && deleted
      ensures ok ==> meetings == Filter(old(meetings), (m: Meeting) => m.id != id)
      ensures !ok ==> meetings == old(meetings)
    {
      if id == "" || !deleted {
        return false;
      }
      meetings := Filter(meetings, (m: Meeting) => m.id != id);
      ok := true;
    }
  }

  /** After a delete no meeting with that id is cached, and the others keep
      their order. */
  lemma DeleteRemovesAll(ms: seq<Meeting>, id: string)
    ensures forall m :: m in Filter(ms, (m: Meeting) => m.id != id) <==> m in ms && m.id != id
    ensures forall i :: 0 <= i < |ms| && ms[i].id != id ==> ms[i] in Filter(ms, (m: Meeting) => m.id != id)
  {
  }
}
