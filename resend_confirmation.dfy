/** The resend-confirmation form: where the e-mail comes from, the two
    minute cooldown kept in local storage, and the countdown text. */
module ResendConfirmation {
  import opened Wrappers
  import opened Strings

  const InitialCooldown := 120

  // ---------------------------------------------------------------------------
  // the countdown text

  /** `padStart(2, "0")`. */
  function Pad2(s: string): (r: string)
    ensures |s| >= 2 ==> r == s
    ensures |s| < 2 ==> |r| == 2 && r[2 - |s|..] == s && forall i :: 0 <= i < 2 - |s| ==> r[i] == '0'
  {
    if |s| >= 2 then s else if |s| == 1 then "0" + s else "00"
  }

  /** `formatTime`: whole minutes, a colon, and the seconds on two digits. */
  function FormatTime(seconds: nat): string
  {
    NatToString(seconds / 60) + ":" + Pad2(NatToString(seconds % 60))
  }

  /** The text reads back as the number of seconds: minutes and two-digit
      seconds below sixty. */
  lemma FormatTimeReadsBack(seconds: nat)
    ensures var parts := Split(FormatTime(seconds), ':');
      |parts| == 2 && |parts[1]| == 2
      && (forall i :: 0 <= i < |parts[0]| ==> IsDigit(parts[0][i]))
      && (forall i :: 0 <= i < 2 ==> IsDigit(parts[1][i]))
      && DecimalValue(parts[1]) < 60
      && 60 * DecimalValue(parts[0]) + DecimalValue(parts[1]) == seconds
  {
    var m := NatToString(seconds / 60);
    var ss := NatToString(seconds % 60);
    var p := Pad2(ss);
    assert forall i :: 0 <= i < |m| ==> m[i] != ':' by {
      assert forall i :: 0 <= i < |m| ==> IsDigit(m[i]);
    }
    assert ':' !in m;
    assert ':' !in p by {
      assert |ss| <= 2 by { NatToStringSmall(seconds % 60); }
      assert forall i :: 0 <= i < |p| ==> IsDigit(p[i]);
    }
    SplitAtSep(m, p, ':');
    SplitNoSep(p, ':');
    assert FormatTime(seconds) == m + [':'] + p;
    DecimalValueOfNatToString(seconds / 60);
    DecimalValueOfNatToString(seconds % 60);
    NatToStringSmall(seconds % 60);
    PaddedValue(ss);
  }

  lemma NatToStringSmall(n: nat)
    requires n < 100
    ensures |NatToString(n)| <= 2
  {
  }

  lemma PaddedValue(s: string)
    requires 1 <= |s| <= 2
    requires forall i :: 0 <= i < |s| ==> IsDigit(s[i])
    ensures |Pad2(s)| == 2 && (forall i :: 0 <= i < 2 ==> IsDigit(Pad2(s)[i]))
    ensures DecimalValue(Pad2(s)) == DecimalValue(s)
  {
    if |s| == 1 {
      var p := "0" + s;
      assert p[..1] == "0";
      assert s[..0] == [];
    }
  }

  // ---------------------------------------------------------------------------
  // the initial e-mail

  /** `emailFromUrl || emailFromHash || emailFromStorage`: the first that is
      present and non-empty, or the empty string. */
  function InitialEmail(fromUrl: Option<string>, fromHash: Option<string>, fromStorage: Option<string>): (r: string)
    ensures fromUrl.Some? && fromUrl.value != "" ==> r == fromUrl.value
    ensures (fromUrl.None? || fromUrl.value == "") && fromHash.Some? && fromHash.value != "" ==> r == fromHash.value
    ensures (fromUrl.None? || fromUrl.value == "") && (fromHash.None? || fromHash.value == "") ==>
      r == StrOr(fromStorage, "")
    ensures r == "" <==> StrOr(fromUrl, "") == "" && StrOr(fromHash, "") == "" && StrOr(fromStorage, "") == ""
  {
    var url := StrOr(fromUrl, "");
    var hash := StrOr(fromHash, "");
    if url != "" then url else if hash != "" then hash else StrOr(fromStorage, "")
  }

  // ---------------------------------------------------------------------------
  // the cooldown

  /** What the cooldown key of local storage holds: a JSON record, or text
      that does not parse as one. */
  datatype StoredCooldown = Entry(endTime: int, email: string) | Malformed

  /** The whole seconds left until `endTime`, never negative
      (`Math.max(0, Math.floor((endTime - now) / 1000))`). */
  function Remaining(endTime: int, now: int): (r: nat)
    ensures endTime - now >= 0 ==> r * 1000 <= endTime - now < (r + 1) * 1000
    ensures endTime - now < 1000 ==> r == 0
  {
    var q := (endTime - now) / 1000;
    if q < 0 then 0 else q
  }

  /** Restoring a cooldown started at `start` at a later time `now` gives at
      most the full two minutes, and something left strictly before the
      last second runs out. */
  lemma RemainingAfterStart(start: int, now: int)
    requires start <= now
    ensures Remaining(start + InitialCooldown * 1000, now) <= InitialCooldown
    ensures Remaining(start + InitialCooldown * 1000, now) > 0 <==> now - start <= 119000
    ensures now == start ==> Remaining(start + InitialCooldown * 1000, now) == InitialCooldown
  {
  }

  /** One tick of the countdown, from the value before it. */
  function TickValue(c: int): (r: int)
    ensures c > 1 ==> r == c - 1
    ensures 0 < c <= 1 ==> r == 0
    ensures c <= 0 ==> r == c
  {
    if c <= 0 then c else if c - 1 <= 0 then 0 else c - 1
  }

  /** The value after `k` ticks. */
  function Ticks(c: int, k: nat): int
  {
    if k == 0 then c else Ticks(TickValue(c), k - 1)
  }

  /** A cooldown of `c` seconds reaches zero after exactly `c` ticks and
      then stays there. */
  lemma {:induction false} TicksCountDown(c: nat, k: nat)
    ensures Ticks(c, k) == if k < c then c - k else 0
  {
    if k > 0 {
      TicksCountDown(TickValue(c), k - 1);
    }
  }

  /** The form's state: the e-mail field, the cooldown in seconds, the last
      e-mail a confirmation went to, and the two local-storage keys it
      uses. */
  class ResendForm {
    var email: string
    var cooldown: int
    var lastSentEmail: string
    var stored: Option<StoredCooldown>
    var pendingEmail: Option<string>

    ghost predicate Valid()
      reads this
    {
      cooldown >= 0
    }

    /** A fresh form over the given storage. */
    constructor (stored: Option<StoredCooldown>, pendingEmail: Option<string>)
      ensures Valid()
      ensures email == "" && cooldown == 0 && lastSentEmail == ""
      ensures this.stored == stored && this.pendingEmail == pendingEmail
    {
      email := "";
      cooldown := 0;
      lastSentEmail := "";
      this.stored := stored;
      this.pendingEmail := pendingEmail;
    }

    /** `canResend`: no cooldown running, or an e-mail other than the last
        one sent to. */
    predicate CanResend()
      reads this
    {
      cooldown == 0 || email != lastSentEmail
    }

    /** `getInitialEmail`: the e-mail from the query, the fragment or the
        stored pending e-mail, written to the field and taken as the last
        one sent to. */
    method LoadInitialEmail(fromUrl: Option<string>, fromHash: Option<string>)
      requires Valid()
      modifies this
      ensures Valid()
      ensures var e := InitialEmail(fromUrl, fromHash, old(pendingEmail));
        (e != "" ==> email == e && lastSentEmail == e)
        && (e == "" ==> email == old(email) && lastSentEmail == old(lastSentEmail))
      ensures cooldown == old(cooldown) && stored == old(stored) && pendingEmail == old(pendingEmail)
    {
      var e := InitialEmail(fromUrl, fromHash, pendingEmail);
      if e != "" {
        email := e;
        lastSentEmail := e;
      }
    }

    /** `loadCooldown`: a stored cooldown for the current e-mail with time
        left is resumed; any other stored entry is removed. */
    method LoadCooldown(now: int)
      requires Valid()
      modifies this
      ensures Valid()
      ensures old(stored).Some? && old(stored).value.Entry? && old(stored).value.email == email
              && Remaining(old(stored).value.endTime, now) > 0 ==>
        cooldown == Remaining(old(stored).value.endTime, now) && stored == old(stored)
      ensures old(stored).Some? && !(old(stored).value.Entry? && old(stored).value.email == email
              && Remaining(old(stored).value.endTime, now) > 0) ==>
        stored.None? && cooldown == old(cooldown)
      ensures old(stored).None? ==> stored.None? && cooldown == old(cooldown)
      ensures email == old(email) && lastSentEmail == old(lastSentEmail) && pendingEmail == old(pendingEmail)
    {
      if stored.Some? {
        match stored.value
        case Entry(endTime, e) =>
          var remaining := Remaining(endTime, now);
          if remaining > 0 && e == email {
            cooldown := remaining;
          } else {
            stored := None;
          }
        case Malformed =>
          stored := None;
      }
    }

    /** One second of the countdown, while it runs: it goes down by one, and
        on reaching zero the stored entry is removed. */
    method Tick()
      requires Valid()
      modifies this
      ensures Valid()
      ensures cooldown == TickValue(old(cooldown))
      ensures old(cooldown) == 1 ==> stored.None?
      ensures old(cooldown) != 1 ==> stored == old(stored)
      ensures email == old(email) && lastSentEmail == old(lastSentEmail) && pendingEmail == old(pendingEmail)
    {
      if cooldown > 0 {
        var newValue := cooldown - 1;
        if newValue <= 0 {
          stored := None;
          cooldown := 0;
        } else {
          cooldown := newValue;
        }
      }
    }

    /** `startCooldown`: two minutes from `now`, remembered with the
        e-mail. */
    method StartCooldown(e: string, now: int)
      requires Valid()
      modifies this
      ensures Valid()
      ensures cooldown == InitialCooldown
      ensures stored == Some(Entry(now + InitialCooldown * 1000, e)) && pendingEmail == Some(e)
      ensures email == old(email) && lastSentEmail == old(lastSentEmail)
    {
      cooldown := InitialCooldown;
      stored := Some(Entry(now + InitialCooldown * 1000, e));
      pendingEmail := Some(e);
    }

    /** `onSubmit` on validated data; `resent` is what the resend request
        answered. Returns the error shown, if any. */
    method OnSubmit(dataEmail: string, resent: bool, now: int) returns (error: Option<string>)
      requires Valid()
      modifies this
      ensures Valid()
      ensures dataEmail == "" ==> error == Some("Email is not provided")
      ensures dataEmail != "" && !resent ==> error == Some("Não foi possível enviar o email")
      ensures error.Some? ==> cooldown == old(cooldown) && lastSentEmail == old(lastSentEmail)
                              && stored == old(stored) && pendingEmail == old(pendingEmail)
      ensures error.None? <==> dataEmail != "" && resent
      ensures error.None? ==> lastSentEmail == dataEmail && cooldown == InitialCooldown
                              && stored == Some(Entry(now + InitialCooldown * 1000, dataEmail))
                              && pendingEmail == Some(dataEmail)
      ensures email == old(email)
    {
      if dataEmail == "" {
        return Some("Email is not provided");
      }
      if resent {
        lastSentEmail := dataEmail;
        StartCooldown(dataEmail, now);
        error := None;
      } else {
        error := Some("Não foi possível enviar o email");
      }
    }
  }

  /** After a successful send to the e-mail in the field, resending to it
      stays blocked for exactly the two minutes of ticks. */
  lemma ResendBlockedForCooldown(k: nat)
    ensures Ticks(InitialCooldown, k) == 0 <==> k >= InitialCooldown
  {
    TicksCountDown(InitialCooldown, k);
  }
}
