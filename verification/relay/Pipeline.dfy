// The EVENT pipeline of a relay on one PostgreSQL backend.
module Pipeline {
  import opened Wrappers
  import opened Events
  import opened EventTable
  import opened Deleting
  import opened Postgres
  import opened Expiration
  import opened Heaps
  import Replacing
  import TombstoneRuns

  // What the first hook that rejects the event says.
  function FirstRejection(hooks: seq<Event -> Option<string>>, evt: Event): Option<string> {
    if hooks == [] then None
    else
      match hooks[0](evt)
      case None => FirstRejection(hooks[1..], evt)
      case Some(msg) => Some(if msg == "" then "blocked: no reason" else msg)
  }

  // The hooks are asked in turn: the first that has something against the event
  // decides.
  lemma {:induction false} FirstRejectionIs(hooks: seq<Event -> Option<string>>, evt: Event, i: nat)
    requires i <= |hooks| && forall k :: 0 <= k < i ==> hooks[k](evt).None?
    ensures i == |hooks| ==> FirstRejection(hooks, evt) == None
    ensures i < |hooks| && hooks[i](evt).Some? ==>
              FirstRejection(hooks, evt) ==
              if hooks[i](evt) == Some("") then Some("blocked: no reason") else hooks[i](evt)
  {
    if i > 0 {
      FirstRejectionIs(hooks[1..], evt, i - 1);
    }
  }

  // The entries afterwards are old ones or that of the event.
  ghost predicate BringsOnly(entries: multiset<ExpiringEvent>, before: multiset<ExpiringEvent>, evt: Event) {
    forall x :: x in entries ==> x in before || IsEntryOf(x, evt)
  }

  // The entry that an event gets: one that expires, if it was written.
  ghost function NewEntry(evt: Event, outcome: Outcome): multiset<ExpiringEvent> {
    if outcome.Wrote? && outcome.outcome != WriteDuplicate && GetExpiration(evt.tags) != -1 then multiset{EntryOf(evt)}
    else multiset{}
  }

  ghost predicate OnePerId(entries: multiset<ExpiringEvent>) {
    forall x, y :: x in entries && y in entries && x.id == y.id ==> x == y && entries[x] == 1
  }

  ghost predicate Forgotten(entries: multiset<ExpiringEvent>, id: string) {
    forall x :: x in entries ==> x.id != id
  }

  // What happens to a relay: an event is sent, or the ticker of the expiration
  // manager fires.
  datatype Act = Arrival(evt: Event) | Tick(now: int)

  function StepsOf(acts: seq<Act>, hooks: seq<Event -> Option<string>>): (steps: seq<TombstoneRuns.Step>)
    ensures |steps| == |acts|
  {
    if acts == [] then []
    else
      var step :=
        match acts[|acts| - 1]
        case Arrival(evt) => TombstoneRuns.Message(evt, FirstRejection(hooks, evt))
        case Tick(now) => TombstoneRuns.Check(now);
      StepsOf(acts[..|acts| - 1], hooks) + [step]
  }

  class Relay {
    const store: PostgresBackend
    const rejectEvent: seq<Event -> Option<string>>
    // Whether a ReplaceEvent hook is configured; if not, the relay replaces
    // events by itself.
    const hasReplacer: bool
    const expirationManager: ExpirationManager

    constructor (store: PostgresBackend, rejectEvent: seq<Event -> Option<string>>, hasReplacer: bool)
      ensures this.store == store && this.rejectEvent == rejectEvent && this.hasReplacer == hasReplacer
      ensures fresh(expirationManager) && expirationManager.Valid() && expirationManager.events == []
      ensures !expirationManager.initialScanDone
    {
      this.store, this.rejectEvent, this.hasReplacer := store, rejectEvent, hasReplacer;
      expirationManager := new ExpirationManager();
    }

    ghost predicate Valid()
      reads store, expirationManager
    {
      store.Valid() && expirationManager.Valid()
    }

    // Every stored event that expires is waiting to.
    ghost predicate TracksStored()
      reads store, expirationManager
    {
      Tracked(store.rows, multiset(expirationManager.events))
    }

    // A query of which only the first row is read; none if it fails.
    method QueryFirst(f: Filter) returns (target: Option<Event>)
      requires store.Valid() && IsSmall(f)
      ensures target == First(store.rows, f)
    {
      store.SmallFilterIsAccepted(f);
      target := None;
      var ch := store.QueryEvents(f);
      if ch.Ok? && ch.value != [] {
        target := Some(ch.value[0]);
      }
    }

    method Rejects(evt: Event) returns (rejected: Option<string>)
      ensures rejected == FirstRejection(rejectEvent, evt)
    {
      for i := 0 to |rejectEvent|
        invariant FirstRejection(rejectEvent, evt) == FirstRejection(rejectEvent[i..], evt)
      {
        assert rejectEvent[i..][1..] == rejectEvent[i + 1..];
        var r := rejectEvent[i](evt);
        if r.Some? {
          return Some(if r.value == "" then "blocked: no reason" else r.value);
        }
      }
      rejected := None;
    }

    method HandleDeleteRequest(evt: Event) returns (ok: bool)
      requires Valid()
      modifies store, expirationManager`events
      ensures Valid() && (store.rows, ok) == DeleteTagged(old(store.rows), evt.tags, evt)
      ensures old(TracksStored()) ==> TracksStored()
      ensures multiset(expirationManager.events) <= multiset(old(expirationManager.events))
      ensures OnePerId(multiset(old(expirationManager.events))) ==>
                forall id :: id in old(store.rows) && id !in store.rows ==>
                               Forgotten(multiset(expirationManager.events), id)
    {
      hide OnePerId, Forgotten, Tracked, IsHeap;
      for i := 0 to |evt.tags|
        invariant Valid() && (old(TracksStored()) ==> TracksStored())
        invariant multiset(expirationManager.events) <= multiset(old(expirationManager.events))
        invariant OnePerId(multiset(old(expirationManager.events))) ==>
            OnePerId(multiset(expirationManager.events)) &&
            forall id :: id in old(store.rows) && id !in store.rows ==>
                           Forgotten(multiset(expirationManager.events), id)
        invariant DeleteTagged(old(store.rows), evt.tags, evt) == DeleteTagged(store.rows, evt.tags[i..], evt)
      {
        assert evt.tags[i..][1..] == evt.tags[i + 1..];
        var f := DeletionFilter(evt.tags[i], evt);
        if f.Some? {
          var target := QueryFirst(f.value);
          if target.Some? {
            if target.value.pubkey == evt.pubkey {
              ghost var entries := multiset(expirationManager.events);
              DeleteAndForget(target.value);
              FewerStayForgotten(multiset(expirationManager.events), entries);
            } else {
              return false;
            }
          }
        }
      }
      ok := true;
    }

    method DeleteAndForget(target: Event)
      requires Valid()
      modifies store, expirationManager`events
      ensures Valid() && store.rows == old(store.rows) - {target.id}
      ensures old(TracksStored()) ==> TracksStored()
      ensures multiset(expirationManager.events) <= multiset(old(expirationManager.events))
      ensures OnePerId(multiset(old(expirationManager.events))) ==>
                Forgotten(multiset(expirationManager.events), target.id)
    {
      hide Tracked, IsHeap, OnePerId, Forgotten;
      ghost var rows, entries := store.rows, multiset(expirationManager.events);
      store.DeleteEvent(target);
      var removed := expirationManager.RemoveEvent(target.id);
      if Tracked(rows, entries) {
        ghost var x := if removed.Some? then removed.value else ExpiringEvent(target.id, 0);
        DeletedNeedsNoEntry(rows, entries, target.id, x);
      }
      if OnePerId(entries) {
        OneEntryIsForgotten(entries, multiset(expirationManager.events), target.id, removed);
      }
    }

    method DTag(tags: seq<Tag>) returns (d: Option<string>)
      ensures d == DTagValue(tags)
    {
      for i := 0 to |tags|
        invariant DTagValue(tags) == DTagValue(tags[i..])
      {
        assert tags[i..][1..] == tags[i + 1..];
        if |tags[i]| > 0 && tags[i][0] == "d" {
          return if |tags[i]| > 1 then Some(tags[i][1]) else None;
        }
      }
      d := Some("");
    }

    // Replacing without a hook: the same as ReplaceEvent of the backend.
    method ReplaceByHand(evt: Event) returns (outcome: WriteOutcome)
      requires store.Valid()
      modifies store
      ensures store.Valid() && (store.rows, outcome) == Replaced(old(store.rows), evt)
    {
      var filter := ReplaceFilter(evt);
      store.SmallFilterIsAccepted(filter);
      var shouldStore := true;
      var ch := store.QueryEvents(filter);
      if ch.Ok? && ch.value != [] {
        var previous := ch.value[0];
        if IsOlder(previous, evt) {
          store.DeleteEvent(previous);
        } else {
          shouldStore := false;
        }
      }
      if !shouldStore {
        return WriteSuperseded;
      }
      outcome := store.SaveEvent(evt);
    }

    // A written event is tracked unless it was there before.
    method Track(evt: Event, written: WriteOutcome, ghost rows: Rows)
      requires Valid() && forall e :: Replacing.Stored(e, store.rows) ==>
                                        Replacing.Stored(e, rows) || (e == evt && written != WriteDuplicate)
      modifies expirationManager`events
      ensures Valid()
      ensures Tracked(rows, multiset(old(expirationManager.events))) ==> TracksStored()
      ensures multiset(expirationManager.events) ==
              multiset(old(expirationManager.events)) + NewEntry(evt, Wrote(written))
    {
      hide Tracked, IsHeap, Replacing.Stored, GetExpiration, EntryOf;
      ghost var entries := multiset(expirationManager.events);
      if written != WriteDuplicate {
        expirationManager.TrackEvent(evt);
      }
      if Tracked(rows, entries) {
        NewcomersNeedEntries(store.rows, rows, entries, evt, multiset(expirationManager.events));
      }
    }

    method HandleNormal(evt: Event) returns (outcome: Outcome)
      requires Valid()
      modifies store, expirationManager`events
      ensures Valid() && (store.rows, outcome) == Normal(old(store.rows), evt, FirstRejection(rejectEvent, evt))
      ensures old(TracksStored()) ==> TracksStored()
      ensures multiset(expirationManager.events) == multiset(old(expirationManager.events)) + NewEntry(evt, outcome)
    {
      hide First, Replaced, DTagValue, Tracked, IsHeap, Selected, FirstRejection;
      var rejected := Rejects(evt);
      if rejected.Some? {
        return Blocked(rejected.value);
      }
      var deleted := QueryFirst(DeletedById(evt.id));
      if deleted.Some? {
        return Blocked(DELETED);
      }
      ghost var rows := store.rows;
      var written: WriteOutcome;
      if IsRegularKind(evt.kind) {
        written := store.SaveEvent(evt);
      } else {
        var d := DTag(evt.tags);
        if d.None? {
          return Panicked;
        }
        deleted := QueryFirst(DeletedByAddress(evt, d.value));
        if deleted.Some? {
          return Blocked(DELETED);
        }
        written := Replace(evt);
        ReplacedBringsOnly(rows, evt);
      }
      Track(evt, written, rows);
      outcome := Wrote(written);
    }

    method Replace(evt: Event) returns (outcome: WriteOutcome)
      requires store.Valid()
      modifies store
      ensures store.Valid() && (store.rows, outcome) == Replaced(old(store.rows), evt)
    {
      if hasReplacer {
        store.SmallFilterIsAccepted(ReplaceFilter(evt));
        var replaced := store.ReplaceEvent(evt);
        outcome := replaced.value;
      } else {
        outcome := ReplaceByHand(evt);
      }
    }

    method HandleEvent(evt: Event) returns (outcome: Outcome)
      requires Valid()
      modifies store, expirationManager`events
      ensures Valid() && (store.rows, outcome) == Handled(old(store.rows), evt, FirstRejection(rejectEvent, evt))
      ensures old(TracksStored()) ==> TracksStored()
      ensures BringsOnly(multiset(expirationManager.events), multiset(old(expirationManager.events)), evt)
      ensures evt.kind != 5 ==>
                multiset(expirationManager.events) == multiset(old(expirationManager.events)) + NewEntry(evt, outcome)
    {
      hide Normal, DeleteTagged, Tracked, IsHeap;
      if evt.kind == 5 {
        var ok := HandleDeleteRequest(evt);
        if !ok {
          return Blocked(NOT_THE_AUTHOR);
        }
      }
      if IsEphemeralKind(evt.kind) {
        var rejected := Rejects(evt);
        outcome := if rejected.Some? then Blocked(rejected.value) else PassedOn;
      } else {
        outcome := HandleNormal(evt);
      }
    }

    // Everything that expires is waiting to, or the first scan is still to come
    // and will see all rows, even if more so many come in.
    ghost predicate Catches(more: nat)
      reads store, expirationManager
    {
      TracksStored() || (!expirationManager.initialScanDone && |store.rows| + more <= store.queryLimit)
    }

    method HandleTick(now: int, ghost events: string -> Event)
      requires Valid() && Catches(0) && Known(store.rows, multiset(expirationManager.events), events)
      modifies store, expirationManager
      ensures Valid() && TracksStored() && store.rows == Unexpired(old(store.rows), now)
      ensures forall id :: id in store.rows ==> !IsDue(store.rows[id], now)
      ensures Known(store.rows, multiset(expirationManager.events), events)
    {
      hide Tracked, IsHeap, ChecksOut, Names, QueryResult, EntriesOf, Known, Unexpired;
      ghost var rows, entries := store.rows, multiset(expirationManager.events);
      var taken, scanned := expirationManager.Tick(store, now);
      CatchesAll(rows, entries, scanned, store.queryLimit);
      ScanKeepsKnown(rows, entries, store.queryLimit, events);
      NothingDueIsLeft(rows, scanned, taken, multiset(expirationManager.events), store.rows, now);
      CheckRemovesTheDue(rows, scanned, taken, multiset(expirationManager.events), store.rows, now, events);
      NoneIsDue(rows, now);
    }

    // The relay takes its table along the run of the steps that happen to it.
    // An id stands for one event, as it is a hash of it.
    method Serve(acts: seq<Act>, ghost past: seq<TombstoneRuns.Step>, ghost events: string -> Event)
      requires Valid() && Catches(|acts|) && store.rows == TombstoneRuns.Run(past)
      requires Known(store.rows, multiset(expirationManager.events), events)
      requires forall i :: 0 <= i < |acts| && acts[i].Arrival? ==> events(acts[i].evt.id) == acts[i].evt
      modifies store, expirationManager
      ensures Valid() && Catches(0) && store.rows == TombstoneRuns.Run(past + StepsOf(acts, rejectEvent))
      ensures Known(store.rows, multiset(expirationManager.events), events)
      ensures acts != [] && acts[|acts| - 1].Tick? ==>
                TracksStored() &&
                forall id :: id in store.rows ==> !IsDue(store.rows[id], acts[|acts| - 1].now)
    {
      hide Handled, Tracked, IsHeap, Known, Unexpired, IsDue, TombstoneRuns.Run, FirstRejection;
      assert past + StepsOf(acts[..0], rejectEvent) == past;
      for i := 0 to |acts|
        invariant Valid() && Catches(|acts| - i)
        invariant store.rows == TombstoneRuns.Run(past + StepsOf(acts[..i], rejectEvent))
        invariant Known(store.rows, multiset(expirationManager.events), events)
        invariant i > 0 && acts[i - 1].Tick? ==>
            TracksStored() && forall id :: id in store.rows ==> !IsDue(store.rows[id], acts[i - 1].now)
      {
        ghost var rows, entries := store.rows, multiset(expirationManager.events);
        RunOneMore(acts, i, past, rejectEvent);
        match acts[i]
        case Arrival(evt) =>
          var outcome := HandleEvent(evt);
          HandledOnlyTouchesOwnRows(rows, evt, FirstRejection(rejectEvent, evt));
          GrowsByOne(store.rows, rows, evt);
          HandledKeepsKnown(store.rows, rows, multiset(expirationManager.events), entries, evt, events);
        case Tick(now) =>
          HandleTick(now, events);
      }
      assert acts[..|acts|] == acts;
    }
  }

  lemma OneEntryIsForgotten(before: multiset<ExpiringEvent>, after: multiset<ExpiringEvent>, id: string,
                            removed: Option<ExpiringEvent>)
    requires OnePerId(before)
    requires removed.None? ==> after == before && Forgotten(before, id)
    requires removed.Some? ==>
               removed.value in before && removed.value.id == id && after == before - multiset{removed.value}
    ensures Forgotten(after, id)
  {
  }

  lemma FewerStayForgotten(after: multiset<ExpiringEvent>, before: multiset<ExpiringEvent>)
    requires after <= before
    ensures OnePerId(before) ==> OnePerId(after)
    ensures forall id :: Forgotten(before, id) ==> Forgotten(after, id)
  {
    forall x | x in after
      ensures x in before && after[x] <= before[x]
    {
    }
  }

  lemma NoneIsDue(rows: Rows, now: int)
    ensures forall id :: id in Unexpired(rows, now) ==> !IsDue(Unexpired(rows, now)[id], now)
  {
  }

  lemma RunOneMore(acts: seq<Act>, i: nat, past: seq<TombstoneRuns.Step>, hooks: seq<Event -> Option<string>>)
    requires i < |acts|
    ensures var before := TombstoneRuns.Run(past + StepsOf(acts[..i], hooks));
            TombstoneRuns.Run(past + StepsOf(acts[..i + 1], hooks)) ==
            match acts[i]
            case Arrival(evt) => Handled(before, evt, FirstRejection(hooks, evt)).0
            case Tick(now) => Unexpired(before, now)
  {
    hide Handled, Unexpired, FirstRejection;
    var steps, more := past + StepsOf(acts[..i], hooks), past + StepsOf(acts[..i + 1], hooks);
    assert acts[..i + 1][..i] == acts[..i];
    assert more[..|more| - 1] == steps;
  }

  lemma CatchesAll(rows: Rows, entries: multiset<ExpiringEvent>, scanned: multiset<ExpiringEvent>, limit: nat)
    requires Keyed(rows) && (Tracked(rows, entries) || |rows| <= limit)
    requires scanned == entries + multiset(EntriesOf(QueryResult(rows, EVERYTHING, limit))) ||
             (scanned == entries && Tracked(rows, entries))
    ensures Tracked(rows, scanned)
  {
    hide EntriesOf, QueryResult, GetExpiration;
    if |rows| <= limit {
      FullScanTracksAll(rows, limit, entries);
    }
  }

  lemma GrowsByOne(after: Rows, before: Rows, evt: Event)
    requires OnlyTheAuthorRemoves(after, before, evt) && Keyed(after)
    ensures |after| <= |before| + 1
  {
    assert after.Keys <= before.Keys + {evt.id};
    FewerInSubset(after.Keys, before.Keys + {evt.id});
  }

  lemma HandledKeepsKnown(after: Rows, before: Rows, entries: multiset<ExpiringEvent>, were: multiset<ExpiringEvent>,
                          evt: Event, events: string -> Event)
    requires Known(before, were, events) && OnlyTheAuthorRemoves(after, before, evt) && BringsOnly(entries, were, evt)
    requires Keyed(after) && events(evt.id) == evt
    ensures Known(after, entries, events)
  {
    hide GetExpiration;
  }

  // Replacing brings in nothing but the event, and a duplicate not even that.
  lemma ReplacedBringsOnly(rows: Rows, evt: Event)
    requires Keyed(rows)
    ensures var (after, outcome) := Replaced(rows, evt);
            forall e :: Replacing.Stored(e, after) ==>
                          Replacing.Stored(e, rows) || (e == evt && outcome != WriteDuplicate)
  {
  }
}
