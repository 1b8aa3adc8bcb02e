// The relay monitor: checks with retries, alerts, and the schedule.
module Monitor {
  import opened Wrappers
  import opened Alerts

  datatype Config = Config(interval: int, maxAge: int, retries: int, remindInterval: int)

  predicate Validates(c: Config) {
    c.interval > 0 && c.maxAge > 0 && c.remindInterval > 0 && c.retries >= 0
  }

  // ----- the alert state machine -----

  datatype State = State(
    incidentSince: Option<int>,
    previous: Option<Status>,
    previousCause: string,
    lastAlert: Option<int>,
    pending: bool,
    pendingKind: Option<AlertKind>,
    recoveredPending: bool
  )

  const INITIAL := State(None, None, "", None, false, None, false)

  // What the locals of Run remember of the history.
  ghost predicate Remembers(s: State, h: seq<Entry>) {
    (s.previous == if h == [] then None else Some(h[|h| - 1].result.status)) &&
    (h != [] ==> s.previousCause == h[|h| - 1].result.error) &&
    RemembersStreak(s, h) && RemembersIncident(s, h)
  }

  ghost predicate RemembersStreak(s: State, h: seq<Entry>) {
    h != [] && Unhealthy(h[|h| - 1]) ==>
      var told, cause := LastDelivered(h), CauseStart(h);
      s.recoveredPending &&
      (s.pending <==> told.None? || told.value < cause) &&
      (s.pending ==> s.pendingKind == Some(if LastIncident(h) == Some(cause) then Abnormal else CauseChanged)) &&
      (!s.pending ==> s.lastAlert == Some(h[told.value].now))
  }

  ghost predicate RemembersIncident(s: State, h: seq<Entry>) {
    var told, incident := LastDelivered(h), LastIncident(h);
    (s.recoveredPending <==> incident.Some? &&
                             (told.None? || Unhealthy(h[told.value]) || told.value < incident.value)) &&
    (s.recoveredPending ==> s.incidentSince == Some(h[incident.value].result.checkedAt))
  }

  // Whether to send an alert, and of which kind.
  function KindOf(s: State, r: CheckResult, now: int, remind: int): Option<AlertKind> {
    if r.status == Healthy then (if s.recoveredPending then Some(Recovery) else None)
    else if s.previous == Some(Healthy) || s.previous == None then Some(Abnormal)
    else if r.error != s.previousCause then Some(CauseChanged)
    else if s.pending then s.pendingKind
    else if s.lastAlert == None || now - s.lastAlert.value >= remind then Some(Reminder)
    else None
  }

  // Since when the incident it reports has lasted.
  function SinceOf(s: State, r: CheckResult): Option<int> {
    if r.status != Healthy && (s.previous == Some(Healthy) || s.previous == None) then Some(r.checkedAt)
    else s.incidentSince
  }

  function After(s: State, r: CheckResult, now: int, remind: int, delivered: bool): State {
    var kind := KindOf(s, r, now, remind);
    if r.status != Healthy then
      var change := s.previous == Some(Healthy) || s.previous == None || r.error != s.previousCause;
      State(
        SinceOf(s, r), Some(r.status), r.error,
        if delivered then Some(now) else s.lastAlert,
        !delivered && (change || s.pending),
        if delivered then None else if change then kind else s.pendingKind,
        true
      )
    else if s.recoveredPending && !delivered then
      s.(previous := Some(r.status), previousCause := r.error)
    else
      State(None, Some(r.status), r.error, None, false, None, false)
  }

  lemma DueAlertIsSent(s: State, h: seq<Entry>, r: CheckResult, now: int, remind: int)
    requires Remembers(s, h)
    ensures var due := AlertDue(h, r, now, remind);
            var kind := KindOf(s, r, now, remind);
            (due.Some? <==> kind.Some?) &&
            (due.Some? ==> SinceOf(s, r).Some? && due.value == Alert(kind.value, r, SinceOf(s, r).value))
  {
    var e := Entry(r, now, false);
    LastIncidentGrows(h, e);
    CauseStartGrows(h, e);
    if h != [] && Unhealthy(h[|h| - 1]) {
      UnhealthyHasIncident(h);
    }
  }

  lemma AfterRemembers(s: State, h: seq<Entry>, r: CheckResult, now: int, remind: int, delivered: bool)
    requires Remembers(s, h) && (delivered ==> KindOf(s, r, now, remind).Some?)
    ensures Remembers(After(s, r, now, remind, delivered), h + [Entry(r, now, delivered)])
  {
    var e := Entry(r, now, delivered);
    LastIncidentGrows(h, e);
    CauseStartGrows(h, e);
    LastDeliveredGrows(h, e);
    if h != [] && Unhealthy(h[|h| - 1]) {
      UnhealthyHasIncident(h);
    }
  }

  // ----- the schedule -----

  method SkipMissedSlots(next: int, now: int, interval: int) returns (slot: int, ghost k: nat)
    requires interval > 0
    ensures slot == Slot(next, interval, k) && slot > now
    ensures next <= now + interval ==> slot <= now + interval
    ensures next > now ==> slot == next
  {
    slot, k := next, 0;
    if next <= now {
      ghost var late := now - next;
      k := late / interval + 1;
      slot := next + ((now - next) / interval + 1) * interval;
      assert late == late / interval * interval + late % interval;
      assert k * interval == late / interval * interval + interval;
    }
  }

  // ----- one check -----

  // What a probe came to. A failed one may have been rejected, have run out of
  // time or have met a protocol error, in any combination.
  datatype Probe = Newest(age: int) | NoEvent | Failed(rejected: bool, deadline: bool, protocol: bool)

  function Classify(p: Probe): Status
    requires p.Failed?
  {
    if p.rejected then Rejected else if p.deadline then Timeout else if p.protocol then ProtocolError else ConnectError
  }

  predicate Retryable(s: Status) {
    s == ConnectError || s == Timeout || s == ProtocolError
  }

  function StatusOf(p: Probe, maxAge: int): Status {
    match p
    case Newest(age) => if age <= maxAge then Healthy else Stale
    case NoEvent => Empty
    case Failed(_, _, _) => Classify(p)
  }

  function ErrorOf(s: Status): string {
    match s
    case Healthy => ""
    case Stale => "latest event is stale"
    case Empty => "relay returned no event"
    case Rejected => "relay rejected subscription"
    case Timeout => "probe timed out"
    case ProtocolError => "relay protocol error"
    case ConnectError => "relay connection error"
  }

  // What the status says of the probe.
  lemma StatusTells(p: Probe, maxAge: int)
    ensures StatusOf(p, maxAge) == Healthy <==> p.Newest? && p.age <= maxAge
    ensures StatusOf(p, maxAge) == Stale <==> p.Newest? && p.age > maxAge
    ensures StatusOf(p, maxAge) == Empty <==> p.NoEvent?
    ensures StatusOf(p, maxAge) == Rejected <==> p.Failed? && p.rejected
    ensures StatusOf(p, maxAge) == Timeout <==> p.Failed? && !p.rejected && p.deadline
    ensures StatusOf(p, maxAge) == ProtocolError <==> p.Failed? && !p.rejected && !p.deadline && p.protocol
    ensures Retryable(StatusOf(p, maxAge)) <==> p.Failed? && !p.rejected
  {
  }

  // Tries until a probe gets an answer, a failure is final or the retries are
  // used up. probes lists what each attempt would come to.
  method Check(c: Config, start: int, probes: seq<Probe>) returns (r: CheckResult)
    requires Validates(c) && |probes| == c.retries + 1
    ensures 1 <= r.attempts <= c.retries + 1 && r.checkedAt == start
    ensures r.status == StatusOf(probes[r.attempts - 1], c.maxAge) && r.error == ErrorOf(r.status)
    ensures forall k :: 0 <= k < r.attempts - 1 ==> probes[k].Failed? && !probes[k].rejected
    ensures r.attempts <= c.retries ==> !probes[r.attempts - 1].Failed? || probes[r.attempts - 1].rejected
  {
    r := CheckResult(ConnectError, "", start, 0);
    var i := 1;
    while true
      invariant 1 <= i <= c.retries + 1 && r.checkedAt == start
      invariant forall k :: 0 <= k < i - 1 ==> probes[k].Failed? && !probes[k].rejected
      decreases c.retries + 1 - i
    {
      r := r.(attempts := i, error := "");
      var probe := probes[i - 1];
      match probe {
        case Newest(age) =>
          if age <= c.maxAge {
            r := r.(status := Healthy);
          } else {
            r := r.(status := Stale, error := "latest event is stale");
          }
          break;
        case NoEvent =>
          r := r.(status := Empty, error := "relay returned no event");
          break;
        case Failed(_, _, _) =>
          r := r.(status := Classify(probe));
          r := r.(error := ErrorOf(r.status));
          if !Retryable(r.status) || i > c.retries {
            break;
          }
      }
      i := i + 1;
    }
  }

  // A cause is a status: alerts tell a change of cause exactly when the status
  // of a failing relay changes.
  lemma CausesAreStatuses(a: Status, b: Status)
    ensures ErrorOf(a) == ErrorOf(b) <==> a == b
    ensures ErrorOf(a) == "" <==> a == Healthy
  {
    var sa, sb := ErrorOf(a), ErrorOf(b);
    assert sa != [] && sb != [] && |sa| > 7 && |sb| > 7 ==>
        (sa[0] == sb[0] && sa[6] == sb[6] && |sa| == |sb| ==> a == b);
  }

  // ----- the run -----

  // What one round of the loop meets: the check, the time after it, whether an
  // alert would be delivered, and the time when the next slot is computed.
  datatype Round = Round(result: CheckResult, now: int, accepts: bool, later: int)

  // The history that the rounds make when alerts are sent as they are due.
  function History(rounds: seq<Round>, remind: int): (h: seq<Entry>)
    ensures |h| == |rounds|
  {
    if rounds == [] then []
    else
      var h := History(rounds[..|rounds| - 1], remind);
      var last := rounds[|rounds| - 1];
      h + [Entry(last.result, last.now, AlertDue(h, last.result, last.now, remind).Some? && last.accepts)]
  }

  lemma {:induction false} HistoryIsFaithful(rounds: seq<Round>, remind: int)
    ensures Faithful(History(rounds, remind), remind)
  {
    if rounds != [] {
      HistoryIsFaithful(rounds[..|rounds| - 1], remind);
      var h, h' := History(rounds[..|rounds| - 1], remind), History(rounds, remind);
      forall k | 0 <= k < |h'| && h'[k].delivered
        ensures AlertDue(h'[..k], h'[k].result, h'[k].now, remind).Some?
      {
        assert h'[..k] == h[..k];
        assert k == |h| ==> h[..k] == h;
      }
    }
  }

  // In every run, deliveries in a streak with no change of cause between them
  // are at least the reminder interval apart.
  lemma RunsRemindApart(rounds: seq<Round>, remind: nat, i: nat, j: nat)
    requires i < j && SameCause(History(rounds, remind), i, j)
    requires History(rounds, remind)[i].delivered && History(rounds, remind)[j].delivered
    ensures History(rounds, remind)[j].now - History(rounds, remind)[i].now >= remind
  {
    hide SameCause, AlertDue;
    HistoryIsFaithful(rounds, remind);
    RemindersAreApart(History(rounds, remind), i, j, remind);
  }

  // The slots are on the grid start + k * interval, each after the time it was
  // computed at and, if the round began no earlier than its own slot, at most
  // one interval after that.
  ghost predicate OnSchedule(start: int, interval: int, rounds: seq<Round>, slots: seq<int>) {
    |slots| == |rounds| + 1 && slots[0] == start &&
    (forall k :: 0 <= k < |slots| ==> OnGrid(start, interval, slots[k])) &&
    (forall k :: 0 <= k < |rounds| ==> slots[k + 1] > rounds[k].later) &&
    (forall k :: 0 <= k < |rounds| && slots[k] <= rounds[k].later ==> slots[k + 1] <= rounds[k].later + interval)
  }

  ghost predicate OnGrid(start: int, interval: int, slot: int) {
    exists k: nat :: slot == Slot(start, interval, k)
  }

  function Slot(start: int, interval: int, k: nat): int {
    start + k * interval
  }

  lemma NextSlotIsOnSchedule(start: int, interval: int, rounds: seq<Round>, slots: seq<int>, round: Round, slot: int,
                             k: nat)
    requires interval > 0 && OnSchedule(start, interval, rounds, slots)
    requires slot == Slot(slots[|rounds|] + interval, interval, k) && slot > round.later
    requires slots[|rounds|] <= round.later ==> slot <= round.later + interval
    ensures OnSchedule(start, interval, rounds + [round], slots + [slot])
  {
    var n: nat :| slots[|rounds|] == Slot(start, interval, n);
    assert (n + 1 + k) * interval == n * interval + interval + k * interval;
    assert slot == Slot(start, interval, n + 1 + k);
  }

  // ----- telling -----

  // Decides on an alert, sends it and notes the outcome.
  method Tell(s: State, r: CheckResult, now: int, accepts: bool, remind: int, ghost h: seq<Entry>)
    returns (alert: Option<Alert>, s': State)
    requires Remembers(s, h)
    ensures alert == AlertDue(h, r, now, remind)
    ensures Remembers(s', h + [Entry(r, now, alert.Some? && accepts)])
  {
    hide Remembers, AlertDue;
    DueAlertIsSent(s, h, r, now, remind);
    var kind: Option<AlertKind>, delivered := None, false;
    alert, s' := None, s;
    if r.status != Healthy {
      if s.previous == Some(Healthy) || s.previous == None {
        s' := s'.(incidentSince := Some(r.checkedAt), pending := true, pendingKind := Some(Abnormal));
        kind := s'.pendingKind;
      } else if r.error != s.previousCause {
        s' := s'.(pending := true, pendingKind := Some(CauseChanged));
        kind := s'.pendingKind;
      } else if s.pending {
        kind := s'.pendingKind;
      } else if s.lastAlert == None || now - s.lastAlert.value >= remind {
        kind := Some(Reminder);
      }
      if kind.Some? {
        alert := Some(Alert(kind.value, r, s'.incidentSince.value));
        delivered := accepts;
        if delivered {
          s' := s'.(lastAlert := Some(now), pending := false, pendingKind := None);
        }
      }
      s' := s'.(recoveredPending := true);
    } else {
      if s.recoveredPending {
        alert := Some(Alert(Recovery, r, s.incidentSince.value));
        delivered := accepts;
        if delivered {
          s' := s'.(recoveredPending := false, incidentSince := None);
        }
      }
      if !s'.recoveredPending {
        s' := s'.(incidentSince := None, lastAlert := None, pending := false, pendingKind := None);
      }
    }
    s' := s'.(previous := Some(r.status), previousCause := r.error);
    assert s' == After(s, r, now, remind, delivered);
    AfterRemembers(s, h, r, now, remind, delivered);
  }

  // Every alert is the one that is due by the history before it.
  ghost predicate SentAsDue(sent: seq<Option<Alert>>, rounds: seq<Round>, remind: int) {
    |sent| == |rounds| && forall k :: 0 <= k < |rounds| ==>
                                        sent[k] == AlertDue(History(rounds[..k], remind), rounds[k].result,
                                                            rounds[k].now, remind)
  }

  lemma SentAsDueGrows(sent: seq<Option<Alert>>, rounds: seq<Round>, remind: int, alert: Option<Alert>, round: Round)
    requires SentAsDue(sent, rounds, remind)
    requires alert == AlertDue(History(rounds, remind), round.result, round.now, remind)
    ensures SentAsDue(sent + [alert], rounds + [round], remind)
    ensures History(rounds + [round], remind) ==
            History(rounds, remind) + [Entry(round.result, round.now, alert.Some? && round.accepts)]
  {
    hide AlertDue;
    assert (rounds + [round])[..|rounds|] == rounds;
    forall k | 0 <= k < |rounds|
      ensures (rounds + [round])[..k] == rounds[..k]
    {
    }
  }

  lemma RunStarts(start: int, c: Config)
    ensures Remembers(INITIAL, History([], c.remindInterval)) && SentAsDue([], [], c.remindInterval)
    ensures OnSchedule(start, c.interval, [], [start])
  {
    assert start == Slot(start, c.interval, 0);
  }

  method Run(c: Config, start: int, rounds: seq<Round>) returns (sent: seq<Option<Alert>>, slots: seq<int>)
    requires Validates(c)
    ensures SentAsDue(sent, rounds, c.remindInterval)
    ensures OnSchedule(start, c.interval, rounds, slots)
  {
    hide Remembers, AlertDue, OnSchedule, SentAsDue, History;
    var next, s := start, INITIAL;
    sent, slots := [], [start];
    RunStarts(start, c);
    for i := 0 to |rounds|
      invariant |slots| == i + 1 && slots[i] == next
      invariant Remembers(s, History(rounds[..i], c.remindInterval))
      invariant SentAsDue(sent, rounds[..i], c.remindInterval)
      invariant OnSchedule(start, c.interval, rounds[..i], slots)
    {
      var round := rounds[i];
      ghost var before := rounds[..i];
      assert rounds[..i + 1] == before + [round];
      var alert: Option<Alert>;
      alert, s := Tell(s, round.result, round.now, round.accepts, c.remindInterval, History(before, c.remindInterval));
      SentAsDueGrows(sent, before, c.remindInterval, alert, round);
      sent := sent + [alert];
      ghost var k;
      next, k := SkipMissedSlots(next + c.interval, round.later, c.interval);
      NextSlotIsOnSchedule(start, c.interval, before, slots, round, next, k);
      slots := slots + [next];
    }
    assert rounds[..|rounds|] == rounds;
  }
}
