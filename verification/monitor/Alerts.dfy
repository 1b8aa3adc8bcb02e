// What the monitor should tell about a relay, read off the history of its
// checks. Times and durations are nanoseconds.
module Alerts {
  import opened Wrappers

  datatype Status = Healthy | Stale | Empty | ConnectError | Timeout | Rejected | ProtocolError

  datatype CheckResult = CheckResult(status: Status, error: string, checkedAt: int, attempts: nat)

  datatype AlertKind = Abnormal | CauseChanged | Reminder | Recovery

  datatype Alert = Alert(kind: AlertKind, result: CheckResult, since: int)

  // One check: its result, the time after it, and whether an alert was
  // delivered then.
  datatype Entry = Entry(result: CheckResult, now: int, delivered: bool)

  predicate Unhealthy(e: Entry) {
    e.result.status != Healthy
  }

  // The first check of the last unhealthy streak.
  function LastIncident(h: seq<Entry>): (r: Option<nat>)
    ensures r.Some? ==> r.value < |h| && Unhealthy(h[r.value])
  {
    if h == [] then None
    else
      var n := |h| - 1;
      if Unhealthy(h[n]) && (n == 0 || !Unhealthy(h[n - 1])) then Some(n) else LastIncident(h[..n])
  }

  // For a history that ends unhealthy: since when the cause has been the same.
  function CauseStart(h: seq<Entry>): (s: nat)
    requires h != []
    ensures s < |h|
  {
    var n := |h| - 1;
    if n == 0 || !Unhealthy(h[n - 1]) || h[n - 1].result.error != h[n].result.error then n else CauseStart(h[..n])
  }

  function LastDelivered(h: seq<Entry>): (r: Option<nat>)
    ensures r.Some? ==> r.value < |h| && h[r.value].delivered
    ensures forall k :: 0 <= k < |h| && (r.None? || k > r.value) ==> !h[k].delivered
  {
    if h == [] then None
    else if h[|h| - 1].delivered then Some(|h| - 1)
    else LastDelivered(h[..|h| - 1])
  }

  // An incident is told until one alert about its cause is delivered, and
  // again whenever the interval has passed since the last; its end is told
  // until that is delivered.
  function AlertDue(h: seq<Entry>, r: CheckResult, now: int, remind: int): Option<Alert> {
    var h' := h + [Entry(r, now, false)];
    var told := LastDelivered(h);
    match LastIncident(h')
    case None => None
    case Some(incident) =>
      var since := h'[incident].result.checkedAt;
      if r.status == Healthy then
        (if told.None? || Unhealthy(h[told.value]) || told.value < incident then Some(Alert(Recovery, r, since))
         else None)
      else
        var cause := CauseStart(h');
        if told.None? || told.value < cause then
          Some(Alert(if cause == incident then Abnormal else CauseChanged, r, since))
        else if now - h[told.value].now >= remind then Some(Alert(Reminder, r, since))
        else None
  }

  // ----- one more check -----

  lemma LastIncidentGrows(h: seq<Entry>, e: Entry)
    ensures LastIncident(h + [e]) ==
            if Unhealthy(e) && (h == [] || !Unhealthy(h[|h| - 1])) then Some(|h|) else LastIncident(h)
  {
    hide Unhealthy;
    assert (h + [e])[..|h|] == h && (h + [e])[|h|] == e;
    assert h != [] ==> (h + [e])[|h| - 1] == h[|h| - 1];
  }

  lemma CauseStartGrows(h: seq<Entry>, e: Entry)
    ensures CauseStart(h + [e]) ==
            if h == [] || !Unhealthy(h[|h| - 1]) || h[|h| - 1].result.error != e.result.error then |h|
            else CauseStart(h)
  {
    assert (h + [e])[..|h|] == h;
  }

  lemma LastDeliveredGrows(h: seq<Entry>, e: Entry)
    ensures LastDelivered(h + [e]) == if e.delivered then Some(|h|) else LastDelivered(h)
  {
    assert (h + [e])[..|h|] == h;
  }

  lemma {:induction false} UnhealthyHasIncident(h: seq<Entry>)
    requires h != [] && Unhealthy(h[|h| - 1])
    ensures LastIncident(h).Some?
  {
    var n := |h| - 1;
    if n > 0 && Unhealthy(h[n - 1]) {
      UnhealthyHasIncident(h[..n]);
    }
  }

  // ----- what follows from the rule -----

  // A history in which alerts are delivered only when they are due.
  ghost predicate Faithful(h: seq<Entry>, remind: int) {
    forall k :: 0 <= k < |h| && h[k].delivered ==> AlertDue(h[..k], h[k].result, h[k].now, remind).Some?
  }

  // Checks i to j are of one streak and report the same cause.
  predicate SameCause(h: seq<Entry>, i: nat, j: nat) {
    i <= j < |h| && forall k :: i <= k <= j ==> Unhealthy(h[k]) && h[k].result.error == h[i].result.error
  }

  lemma {:induction false} SameCauseSameStart(h: seq<Entry>, i: nat, j: nat)
    requires SameCause(h, i, j)
    ensures CauseStart(h[..j + 1]) <= i
  {
    assert h[..j + 1][..j] == h[..j];
    if i < j {
      SameCauseSameStart(h, i, j - 1);
      assert h[..j + 1][j - 1] == h[j - 1] && h[..j + 1][j] == h[j];
    }
  }

  // A reminder comes at least the interval after the alert before it.
  lemma NextReminderIsApart(h: seq<Entry>, i: nat, j: nat, remind: int)
    requires Faithful(h, remind) && i < j && SameCause(h, i, j)
    requires h[i].delivered && h[j].delivered && forall k :: i < k < j ==> !h[k].delivered
    ensures h[j].now - h[i].now >= remind
  {
    hide LastIncident, CauseStart;
    var before := h[..j];
    var told := LastDelivered(before);
    assert before[i] == h[i];
    assert told == Some(i) by {
      assert forall k :: i < k < j ==> !before[k].delivered;
    }
    SameCauseSameStart(h, i, j);
    assert h[..j + 1] == before + [h[j]];
    CauseStartGrows(before, h[j]);
    CauseStartGrows(before, Entry(h[j].result, h[j].now, false));
    assert AlertDue(before, h[j].result, h[j].now, remind).Some?;
  }

  // Any two alerts of one streak with no change of cause between them are at
  // least the reminder interval apart.
  lemma {:induction false} RemindersAreApart(h: seq<Entry>, i: nat, j: nat, remind: nat)
    requires Faithful(h, remind) && i < j && SameCause(h, i, j) && h[i].delivered && h[j].delivered
    ensures h[j].now - h[i].now >= remind
    decreases j
  {
    hide Faithful;
    if k :| i < k < j && h[k].delivered {
      var last := LastDelivered(h[..j]);
      assert h[..j][k] == h[k];
      assert h[..j][last.value] == h[last.value];
      assert forall m :: last.value < m < j ==> h[..j][m] == h[m];
      RemindersAreApart(h, i, last.value, remind);
      NextReminderIsApart(h, last.value, j, remind);
    } else {
      NextReminderIsApart(h, i, j, remind);
    }
  }

  // Within a streak, once the current cause has been told, an alert about it
  // is the last that was delivered.
  lemma ToldTheCurrentCause(h: seq<Entry>)
    requires h != [] && Unhealthy(h[|h| - 1])
    requires LastDelivered(h).Some? && LastDelivered(h).value >= CauseStart(h)
    ensures var told := h[LastDelivered(h).value];
            Unhealthy(told) && told.result.error == h[|h| - 1].result.error
  {
    SameCauseSinceStart(h, LastDelivered(h).value);
  }

  lemma {:induction false} SameCauseSinceStart(h: seq<Entry>, k: nat)
    requires h != [] && Unhealthy(h[|h| - 1]) && CauseStart(h) <= k < |h|
    ensures Unhealthy(h[k]) && h[k].result.error == h[|h| - 1].result.error
  {
    var n := |h| - 1;
    if k < n {
      SameCauseSinceStart(h[..n], k);
    }
  }

  // Every alert of an incident and its end reports the first check of it:
  // unhealthy, after a healthy one or none at all, and unhealthy ever since
  // but for the checks that end it.
  lemma {:induction false} IncidentIsAStreak(h: seq<Entry>)
    requires LastIncident(h).Some?
    ensures var i := LastIncident(h).value;
            Unhealthy(h[i]) && (i > 0 ==> !Unhealthy(h[i - 1])) &&
            forall k :: i < k < |h| && Unhealthy(h[k]) ==> Unhealthy(h[k - 1])
  {
    var n := |h| - 1;
    if LastIncident(h) != Some(n) {
      IncidentIsAStreak(h[..n]);
    }
  }

  // ----- the rule, told from the history alone -----

  predicate UnhealthySince(h: seq<Entry>, k: nat) {
    k < |h| && forall j :: k <= j < |h| ==> Unhealthy(h[j])
  }

  // The cause of the last check has been the same since check k.
  predicate CauseSince(h: seq<Entry>, k: nat) {
    k < |h| && SameCause(h, k, |h| - 1)
  }

  predicate BeginsStreak(h: seq<Entry>, i: nat) {
    i < |h| && Unhealthy(h[i]) && (i > 0 ==> !Unhealthy(h[i - 1]))
  }

  // The checks since the cause began are those with the cause of the last.
  lemma CauseIsSince(h: seq<Entry>, k: nat)
    requires h != [] && Unhealthy(h[|h| - 1]) && k < |h|
    ensures CauseSince(h, k) <==> k >= CauseStart(h)
  {
    if CauseSince(h, k) {
      SameCauseSameStart(h, k, |h| - 1);
      assert h[..|h|] == h;
    }
    if k >= CauseStart(h) {
      forall j | k <= j < |h|
        ensures Unhealthy(h[j]) && h[j].result.error == h[|h| - 1].result.error
      {
        SameCauseSinceStart(h, j);
      }
    }
  }

  // The last incident is the last beginning of a streak.
  lemma {:induction false} IncidentIsLast(h: seq<Entry>, i: nat)
    requires BeginsStreak(h, i)
    ensures LastIncident(h).Some? && LastIncident(h).value >= i
  {
    var n := |h| - 1;
    if i < n && !(Unhealthy(h[n]) && !Unhealthy(h[n - 1])) {
      IncidentIsLast(h[..n], i);
    }
  }

  lemma IncidentBegins(h: seq<Entry>)
    requires LastIncident(h).Some?
    ensures BeginsStreak(h, LastIncident(h).value)
  {
    IncidentIsAStreak(h);
  }

  lemma {:induction false} StreakIsUnbroken(h: seq<Entry>)
    requires h != [] && Unhealthy(h[|h| - 1])
    ensures LastIncident(h).Some? && UnhealthySince(h, LastIncident(h).value)
  {
    var n := |h| - 1;
    if n > 0 && Unhealthy(h[n - 1]) {
      StreakIsUnbroken(h[..n]);
    }
  }

  // An unhealthy check after a healthy one belongs to a later incident.
  lemma {:induction false} IncidentAfter(h: seq<Entry>, k: nat, j: nat)
    requires k < j < |h| && !Unhealthy(h[k]) && Unhealthy(h[j])
    ensures LastIncident(h).Some? && LastIncident(h).value > k
    decreases j
  {
    if Unhealthy(h[j - 1]) {
      IncidentAfter(h, k, j - 1);
    } else {
      IncidentIsLast(h, j);
    }
  }

  lemma StreakBegins(h: seq<Entry>, i: nat, k: nat)
    requires BeginsStreak(h, i) && UnhealthySince(h, k)
    ensures k >= i
  {
  }

  // All checks of the streak have the cause of the last one.
  ghost predicate HasOneCause(h: seq<Entry>) {
    h != [] && forall k: nat :: UnhealthySince(h, k) ==> CauseSince(h, k)
  }

  lemma OneCauseSinceIncident(h: seq<Entry>)
    requires h != [] && Unhealthy(h[|h| - 1])
    ensures LastIncident(h) == Some(CauseStart(h)) <==> HasOneCause(h)
  {
    hide CauseStart, LastIncident;
    StreakIsUnbroken(h);
    IncidentBegins(h);
    var i, c := LastIncident(h).value, CauseStart(h);
    CauseIsSince(h, c);
    CauseIsSince(h, i);
    assert UnhealthySince(h, c);
    StreakBegins(h, i, c);
    forall k: nat | UnhealthySince(h, k)
      ensures k >= i
    {
      StreakBegins(h, i, k);
    }
    forall k: nat | k < |h|
      ensures CauseSince(h, k) <==> k >= c
    {
      CauseIsSince(h, k);
    }
  }

  // After an unhealthy check: until an alert about the cause is delivered the
  // incident is told, as a change if the streak has had another cause; then a
  // reminder is due once the interval has passed since the last alert.
  lemma DueWhenUnhealthy(h: seq<Entry>, r: CheckResult, now: int, remind: int)
    requires r.status != Healthy
    ensures var h' := h + [Entry(r, now, false)];
            var due := AlertDue(h, r, now, remind);
            ((forall k :: 0 <= k < |h| && CauseSince(h', k) ==> !h[k].delivered) ==>
               due.Some? && due.value.kind == if HasOneCause(h') then Abnormal else CauseChanged) &&
            (forall k :: 0 <= k < |h| && CauseSince(h', k) && IsLastDelivered(h, k) ==>
                           (due.Some? <==> now - h[k].now >= remind) && (due.Some? ==> due.value.kind == Reminder))
  {
    hide CauseStart, LastIncident, HasOneCause;
    var h' := h + [Entry(r, now, false)];
    StreakIsUnbroken(h');
    OneCauseSinceIncident(h');
    forall k | 0 <= k < |h|
      ensures CauseSince(h', k) <==> k >= CauseStart(h')
      ensures IsLastDelivered(h, k) ==> LastDelivered(h) == Some(k)
    {
      CauseIsSince(h', k);
    }
  }

  predicate IsLastDelivered(h: seq<Entry>, k: nat) {
    k < |h| && h[k].delivered && forall j :: k < j < |h| ==> !h[j].delivered
  }

  // After a healthy check: the recovery is due if and only if some check was
  // unhealthy and no alert has been delivered since the last such check.
  lemma DueWhenHealthy(h: seq<Entry>, r: CheckResult, now: int, remind: int)
    requires r.status == Healthy
    ensures AlertDue(h, r, now, remind).Some? <==>
            (exists i :: 0 <= i < |h| && Unhealthy(h[i])) &&
            forall k :: 0 <= k < |h| && h[k].delivered ==> exists j :: k <= j < |h| && Unhealthy(h[j])
    ensures AlertDue(h, r, now, remind).Some? ==> AlertDue(h, r, now, remind).value.kind == Recovery
  {
    hide LastIncident;
    LastIncidentGrows(h, Entry(r, now, false));
    var told, incident := LastDelivered(h), LastIncident(h);
    if i :| 0 <= i < |h| && Unhealthy(h[i]) {
      SomeIncident(h, i);
    }
    if incident.Some? {
      IncidentBegins(h);
      forall k | 0 <= k < |h| && h[k].delivered && (Unhealthy(h[told.value]) || told.value < incident.value)
        ensures exists j :: k <= j < |h| && Unhealthy(h[j])
      {
        assert k <= told.value;
        assert Unhealthy(h[if Unhealthy(h[told.value]) then told.value else incident.value]);
      }
      if told.Some? {
        if j :| told.value < j < |h| && !Unhealthy(h[told.value]) && Unhealthy(h[j]) {
          IncidentAfter(h, told.value, j);
        }
      }
    }
  }

  lemma {:induction false} SomeIncident(h: seq<Entry>, i: nat)
    requires i < |h| && Unhealthy(h[i])
    ensures LastIncident(h).Some?
  {
    if i > 0 && Unhealthy(h[i - 1]) {
      SomeIncident(h, i - 1);
    } else {
      IncidentIsLast(h, i);
    }
  }

  // Every alert reports the check it follows, and the time of the check that
  // began the last streak.
  lemma AlertReportsTheStreak(h: seq<Entry>, r: CheckResult, now: int, remind: int, i: nat)
    requires AlertDue(h, r, now, remind).Some?
    requires BeginsStreak(h + [Entry(r, now, false)], i)
    requires forall k :: k > i ==> !BeginsStreak(h + [Entry(r, now, false)], k)
    ensures AlertDue(h, r, now, remind).value.result == r
    ensures AlertDue(h, r, now, remind).value.since == (h + [Entry(r, now, false)])[i].result.checkedAt
  {
    hide LastIncident, CauseStart, LastDelivered;
    IncidentIsLast(h + [Entry(r, now, false)], i);
    IncidentBegins(h + [Entry(r, now, false)]);
  }
}
