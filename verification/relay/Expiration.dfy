// The expiration manager: entries for events that expire, and the removal of
// those that have.
module Expiration {
  import opened Wrappers
  import opened Events
  import opened EventTable
  import opened Heaps
  import opened Postgres
  import opened Replacing
  import Addresses
  import Items

  // The time in the first "expiration" tag with a value, -1 if there is none.
  function GetExpiration(tags: seq<Tag>): int {
    if tags == [] then -1
    else if |tags[0]| >= 2 && tags[0][0] == "expiration" then
      match Addresses.Atoi(tags[0][1])
      case Some(ts) => ts
      case None => -1
    else GetExpiration(tags[1..])
  }

  lemma {:induction false} ExpirationIsFirst(tags: seq<Tag>, i: nat)
    requires i <= |tags|
    requires forall k :: 0 <= k < i ==> !(|tags[k]| >= 2 && tags[k][0] == "expiration")
    ensures i == |tags| ==> GetExpiration(tags) == -1
    ensures i < |tags| && |tags[i]| >= 2 && tags[i][0] == "expiration" ==>
              GetExpiration(tags) ==
              if Addresses.Atoi(tags[i][1]).Some? then Addresses.Atoi(tags[i][1]).value else -1
  {
    if i > 0 {
      ExpirationIsFirst(tags[1..], i - 1);
    }
  }

  function EntryOf(e: Event): ExpiringEvent {
    ExpiringEvent(e.id, GetExpiration(e.tags))
  }

  predicate IsDue(e: Event, now: int) {
    GetExpiration(e.tags) != -1 && GetExpiration(e.tags) <= now
  }

  // Every stored event that expires has an entry.
  ghost predicate Tracked(rows: Rows, entries: multiset<ExpiringEvent>) {
    forall e :: Stored(e, rows) && GetExpiration(e.tags) != -1 ==> EntryOf(e) in entries
  }

  predicate InOrder(xs: Entries) {
    forall i, j :: 0 <= i < j < |xs| ==> xs[i].expiresAt <= xs[j].expiresAt
  }

  predicate Names(xs: Entries, id: string) {
    exists i :: 0 <= i < |xs| && xs[i].id == id
  }

  // What a check at this time must leave: the due entries are taken out, in
  // the order they expire, and their events with them.
  ghost predicate ChecksOut(taken: Entries, left: multiset<ExpiringEvent>, before: multiset<ExpiringEvent>, now: int) {
    left + multiset(taken) == before && InOrder(taken) &&
    (forall i :: 0 <= i < |taken| ==> taken[i].expiresAt <= now) &&
    (forall x :: x in left ==> x.expiresAt > now)
  }

  lemma {:induction false} AllAfterRoot(h: Entries, now: int)
    requires IsHeap(h) && h != [] && now < h[0].expiresAt
    ensures forall x :: x in multiset(h) ==> x.expiresAt > now
  {
    forall i | 0 <= i < |h|
      ensures h[i].expiresAt > now
    {
      RootIsLeast(h, i);
    }
  }

  lemma RootIsLeastOfAll(h: Entries)
    requires IsHeap(h) && h != []
    ensures forall x :: x in multiset(h) ==> h[0].expiresAt <= x.expiresAt
  {
    forall i | 0 <= i < |h|
      ensures h[0].expiresAt <= h[i].expiresAt
    {
      RootIsLeast(h, i);
    }
  }

  // The entries of those events that expire.
  function EntriesOf(es: seq<Event>): Entries {
    if es == [] then []
    else
      var rest := EntriesOf(es[..|es| - 1]);
      if GetExpiration(es[|es| - 1].tags) != -1 then rest + [EntryOf(es[|es| - 1])] else rest
  }

  lemma {:induction false} EntriesAreOfExpiring(es: seq<Event>, x: ExpiringEvent)
    ensures x in EntriesOf(es) <==> exists i :: 0 <= i < |es| && GetExpiration(es[i].tags) != -1 && EntryOf(es[i]) == x
  {
    if es != [] {
      var rest, last := es[..|es| - 1], es[|es| - 1];
      EntriesAreOfExpiring(rest, x);
      assert forall i :: 0 <= i < |rest| ==> rest[i] == es[i];
      if x in EntriesOf(rest) {
        var i :| 0 <= i < |rest| && GetExpiration(rest[i].tags) != -1 && EntryOf(rest[i]) == x;
        assert EntryOf(es[i]) == x;
      }
    }
  }

  // What a query returns is stored.
  lemma ResultIsStored(rows: Rows, f: Filter, limit: nat)
    requires Keyed(rows)
    ensures forall e :: e in QueryResult(rows, f, limit) ==> Stored(e, rows)
  {
    SelectedAreDistinct(rows, f);
    RankedListsAll(Selected(rows, f));
  }

  // The stored events that come before it in the order of results.
  ghost function Newer(rows: Rows, e: Event): set<Event> {
    NewerIn(rows.Values, e)
  }

  // The query for everything returns an event if and only if fewer than the
  // limit are newer.
  lemma ReturnedIffFewAreNewer(rows: Rows, limit: nat, e: Event)
    requires Keyed(rows) && Stored(e, rows)
    ensures e in QueryResult(rows, EVERYTHING, limit) <==> |Newer(rows, e)| < limit
  {
    SelectedAreDistinct(rows, EVERYTHING);
    var all := Selected(rows, EVERYTHING);
    assert forall x :: x in rows.Values ==> Stored(x, rows) && SelectedBy(EVERYTHING, x);
    assert all == rows.Values;
    RankIsCountOfNewer(all, e, limit);
  }

  lemma ReturnedIffHasEntry(rows: Rows, limit: nat, e: Event)
    requires Keyed(rows) && Stored(e, rows) && GetExpiration(e.tags) != -1
    ensures EntryOf(e) in EntriesOf(QueryResult(rows, EVERYTHING, limit)) <==> e in QueryResult(rows, EVERYTHING, limit)
  {
    var es := QueryResult(rows, EVERYTHING, limit);
    ResultIsStored(rows, EVERYTHING, limit);
    EntriesAreOfExpiring(es, EntryOf(e));
    if i :| 0 <= i < |es| && GetExpiration(es[i].tags) != -1 && EntryOf(es[i]) == EntryOf(e) {
      assert es[i] in es && Stored(es[i], rows);
    }
  }

  // Every expiring event that is not tracked yet has fewer than limit events
  // newer than it.
  ghost predicate UntrackedAreNew(rows: Rows, limit: nat, before: multiset<ExpiringEvent>) {
    forall e :: Stored(e, rows) && GetExpiration(e.tags) != -1 && EntryOf(e) !in before ==> |Newer(rows, e)| < limit
  }

  // After a scan every expiring event is tracked if and only if that is so.
  lemma ScanTracksAllIff(rows: Rows, limit: nat, before: multiset<ExpiringEvent>)
    requires Keyed(rows)
    ensures Tracked(rows, before + multiset(EntriesOf(QueryResult(rows, EVERYTHING, limit)))) <==>
            UntrackedAreNew(rows, limit, before)
  {
    hide EntriesOf, QueryResult, GetExpiration, Newer;
    forall e | Stored(e, rows) && GetExpiration(e.tags) != -1
      ensures EntryOf(e) in EntriesOf(QueryResult(rows, EVERYTHING, limit)) <==> |Newer(rows, e)| < limit
    {
      ReturnedIffFewAreNewer(rows, limit, e);
      ReturnedIffHasEntry(rows, limit, e);
    }
  }

  // So it is if the table is no larger than what a query returns.
  lemma FullScanTracksAll(rows: Rows, limit: nat, before: multiset<ExpiringEvent>)
    requires Keyed(rows) && |rows| <= limit
    ensures Tracked(rows, before + multiset(EntriesOf(QueryResult(rows, EVERYTHING, limit))))
  {
    hide EntriesOf, QueryResult;
    forall e | Stored(e, rows)
      ensures |Newer(rows, e)| < limit
    {
      IsOlderIsTotal(e, e);
      assert e !in Newer(rows, e);
      NoMoreThanRows(rows, Newer(rows, e) + {e});
    }
    ScanTracksAllIff(rows, limit, before);
  }

  // And it is not so for any larger table of which all expire and none is
  // tracked yet: one is missed, and does not expire.
  lemma LargerTableIsMissed(rows: Rows, limit: nat)
    requires Keyed(rows) && |rows| > limit && forall id :: id in rows ==> GetExpiration(rows[id].tags) != -1
    ensures !Tracked(rows, multiset{} + multiset(EntriesOf(QueryResult(rows, EVERYTHING, limit))))
  {
    hide EntriesOf, GetExpiration;
    var es := QueryResult(rows, EVERYTHING, limit);
    ResultIsStored(rows, EVERYTHING, limit);
    if forall id :: id in rows ==> rows[id] in es {
      RowsInList(rows, es);
    } else {
      var id :| id in rows && rows[id] !in es;
      assert Stored(rows[id], rows);
      ReturnedIffHasEntry(rows, limit, rows[id]);
    }
  }

  lemma {:induction false} RowsInList(rows: Rows, es: seq<Event>)
    requires Keyed(rows) && forall id :: id in rows ==> rows[id] in es
    ensures |rows| <= |es|
  {
    if rows != map[] {
      var last := |es| - 1;
      assert es == es[..last] + [es[last]];
      var fewer := rows - {es[last].id};
      RowsInList(if es[last].id in rows then fewer else rows, es[..last]);
    }
  }

  // Such a table, for any limit.
  function ExpiringRows(n: nat): (rows: Rows)
    ensures |rows| == n && Keyed(rows)
    ensures forall id :: id in rows ==> |id| < n && GetExpiration(rows[id].tags) == 0
  {
    if n == 0 then map[]
    else
      var id := Items.Repeated('0', n - 1);
      assert GetExpiration([["expiration", "0"]]) == 0;
      ExpiringRows(n - 1)[id := Event(id, "", 0, 1, [["expiration", "0"]], "")]
  }

  lemma OneRowMoreIsMissed(limit: nat)
    ensures |ExpiringRows(limit + 1)| == limit + 1
    ensures !Tracked(ExpiringRows(limit + 1), multiset{} +
                     multiset(EntriesOf(QueryResult(ExpiringRows(limit + 1), EVERYTHING, limit))))
  {
    LargerTableIsMissed(ExpiringRows(limit + 1), limit);
  }

  lemma {:induction false} NoMoreThanRows(rows: Rows, s: set<Event>)
    requires Keyed(rows) && forall e :: e in s ==> Stored(e, rows)
    ensures |s| <= |rows|
    decreases s
  {
    if s != {} {
      var e :| e in s;
      NoMoreThanRows(rows - {e.id}, s - {e});
    }
  }

  // Once the due entries are gone, no tracked event that is due is left.
  lemma NothingDueIsLeft(rows: Rows, before: multiset<ExpiringEvent>, taken: Entries, left: multiset<ExpiringEvent>,
                         after: Rows, now: int)
    requires Tracked(rows, before) && ChecksOut(taken, left, before, now)
    requires forall id :: id in after <==> id in rows && !Names(taken, id)
    requires forall id :: id in after ==> after[id] == rows[id]
    ensures Tracked(after, left)
    ensures forall e :: Stored(e, after) ==> GetExpiration(e.tags) == -1 || GetExpiration(e.tags) > now
  {
    forall x | x in multiset(taken)
      ensures Names(taken, x.id)
    {
      assert x in taken;
    }
    forall e | Stored(e, after) && GetExpiration(e.tags) != -1
      ensures EntryOf(e) in left && GetExpiration(e.tags) > now
    {
      assert Stored(e, rows);
      assert EntryOf(e) in before;
    }
  }

  // ----- what the other handlers owe the entries -----

  lemma DeletedNeedsNoEntry(rows: Rows, entries: multiset<ExpiringEvent>, id: string, x: ExpiringEvent)
    requires Tracked(rows, entries) && x.id == id
    ensures Tracked(rows - {id}, entries) && Tracked(rows - {id}, entries - multiset{x})
  {
    forall e | Stored(e, rows - {id})
      ensures Stored(e, rows)
    {
    }
  }

  // Whatever comes into the table is the event that gets an entry.
  lemma NewcomersNeedEntries(after: Rows, rows: Rows, entries: multiset<ExpiringEvent>, evt: Event,
                             more: multiset<ExpiringEvent>)
    requires Tracked(rows, entries) && entries <= more
    requires forall e :: Stored(e, after) ==>
                           Stored(e, rows) || (e == evt && (GetExpiration(evt.tags) != -1 ==> EntryOf(evt) in more))
    ensures Tracked(after, more)
  {
    forall e | Stored(e, after) && GetExpiration(e.tags) != -1
      ensures EntryOf(e) in more
    {
      assert Stored(e, rows) ==> EntryOf(e) in entries;
    }
  }

  // The rows of events that are not due.
  ghost function Unexpired(rows: Rows, now: int): Rows {
    map id | id in rows && !IsDue(rows[id], now) :: rows[id]
  }

  // Rows and entries are of the events the ids stand for.
  ghost predicate Known(rows: Rows, entries: multiset<ExpiringEvent>, events: string -> Event) {
    (forall id :: id in rows ==> rows[id] == events(id)) &&
    (forall x :: x in entries ==> IsEntryOf(x, events(x.id)))
  }

  predicate IsEntryOf(x: ExpiringEvent, e: Event) {
    x == EntryOf(e) && GetExpiration(e.tags) != -1
  }

  lemma TakenOrLeft(taken: Entries, left: multiset<ExpiringEvent>, x: ExpiringEvent)
    ensures x in left + multiset(taken) <==> x in taken || x in left
  {
  }

  lemma TakenIffDue(rows: Rows, before: multiset<ExpiringEvent>, taken: Entries, left: multiset<ExpiringEvent>,
                    now: int, events: string -> Event, id: string)
    requires Keyed(rows) && Tracked(rows, before) && Known(rows, before, events) && ChecksOut(taken, left, before, now)
    requires id in rows
    ensures Names(taken, id) <==> IsDue(rows[id], now)
  {
    hide GetExpiration, InOrder;
    if i :| 0 <= i < |taken| && taken[i].id == id {
      TakenOrLeft(taken, left, taken[i]);
      assert IsEntryOf(taken[i], rows[id]);
    }
    if IsDue(rows[id], now) {
      assert Stored(rows[id], rows);
      TakenOrLeft(taken, left, EntryOf(rows[id]));
    }
  }

  // If an id stands for one event only, a check removes the events that are
  // due, all of them and no other.
  lemma CheckRemovesTheDue(rows: Rows, before: multiset<ExpiringEvent>, taken: Entries, left: multiset<ExpiringEvent>,
                           after: Rows, now: int, events: string -> Event)
    requires Keyed(rows) && Tracked(rows, before) && Known(rows, before, events) && ChecksOut(taken, left, before, now)
    requires forall id :: id in after <==> id in rows && !Names(taken, id)
    requires forall id :: id in after ==> after[id] == rows[id]
    ensures after == Unexpired(rows, now) && Known(after, left, events)
  {
    hide GetExpiration, InOrder, Tracked, Names, IsDue, IsEntryOf;
    forall id | id in rows
      ensures Names(taken, id) <==> IsDue(rows[id], now)
    {
      TakenIffDue(rows, before, taken, left, now, events, id);
    }
    forall x | x in left
      ensures x in before
    {
      TakenOrLeft(taken, left, x);
    }
  }

  // What a scan adds is of stored events.
  lemma ScanKeepsKnown(rows: Rows, before: multiset<ExpiringEvent>, limit: nat, events: string -> Event)
    requires Keyed(rows) && Known(rows, before, events)
    ensures Known(rows, before + multiset(EntriesOf(QueryResult(rows, EVERYTHING, limit))), events)
  {
    hide EntriesOf, QueryResult, GetExpiration;
    var es := QueryResult(rows, EVERYTHING, limit);
    ResultIsStored(rows, EVERYTHING, limit);
    forall x | x in EntriesOf(es)
      ensures IsEntryOf(x, events(x.id))
    {
      EntriesAreOfExpiring(es, x);
      var i :| 0 <= i < |es| && GetExpiration(es[i].tags) != -1 && EntryOf(es[i]) == x;
      assert es[i] in es;
    }
  }

  // Midway through a check.
  ghost predicate Taking(taken: Entries, left: multiset<ExpiringEvent>, before: multiset<ExpiringEvent>, now: int,
                         rows: Rows, was: Rows) {
    left + multiset(taken) == before && InOrder(taken) &&
    (forall i :: 0 <= i < |taken| ==> taken[i].expiresAt <= now) &&
    (forall i, x :: 0 <= i < |taken| && x in left ==> taken[i].expiresAt <= x.expiresAt) &&
    (forall id :: id in rows <==> id in was && !Names(taken, id)) &&
    (forall id :: id in rows ==> rows[id] == was[id])
  }

  lemma NamesOneMore(taken: Entries, x: ExpiringEvent, id: string)
    ensures Names(taken + [x], id) <==> Names(taken, id) || id == x.id
  {
    var more := taken + [x];
    assert more[|taken|] == x;
    if i :| 0 <= i < |taken| && taken[i].id == id {
      assert more[i].id == id;
    }
  }

  lemma RootIsNext(taken: Entries, h: Entries)
    requires IsHeap(h) && h != [] && InOrder(taken)
    requires forall i, x :: 0 <= i < |taken| && x in multiset(h) ==> taken[i].expiresAt <= x.expiresAt
    ensures InOrder(taken + [h[0]])
    ensures forall i, x :: 0 <= i <= |taken| && x in multiset(h) ==> (taken + [h[0]])[i].expiresAt <= x.expiresAt
  {
    hide IsHeap;
    RootIsLeastOfAll(h);
    assert h[0] in multiset(h);
  }

  lemma OneMoreTaken(taken: Entries, left: multiset<ExpiringEvent>, x: ExpiringEvent)
    requires x in left
    ensures left - multiset{x} + multiset(taken + [x]) == left + multiset(taken)
  {
    assert multiset(taken + [x]) == multiset(taken) + multiset{x};
  }

  lemma TakesTheRoot(taken: Entries, h: Entries, before: multiset<ExpiringEvent>, now: int, rows: Rows, was: Rows)
    requires Taking(taken, multiset(h), before, now, rows, was)
    requires IsHeap(h) && h != [] && h[0].expiresAt <= now
    ensures Taking(taken + [h[0]], multiset(h) - multiset{h[0]}, before, now, rows - {h[0].id}, was)
  {
    hide IsHeap, InOrder, Names;
    RootIsNext(taken, h);
    OneMoreTaken(taken, multiset(h), h[0]);
    forall id
      ensures Names(taken + [h[0]], id) <==> Names(taken, id) || id == h[0].id
    {
      NamesOneMore(taken, h[0], id);
    }
  }

  lemma NothingTakenYet(before: multiset<ExpiringEvent>, now: int, rows: Rows)
    ensures Taking([], before, before, now, rows, rows)
  {
  }

  lemma CheckIsOver(taken: Entries, h: Entries, before: multiset<ExpiringEvent>, now: int, rows: Rows, was: Rows)
    requires Taking(taken, multiset(h), before, now, rows, was)
    requires IsHeap(h) && (h == [] || now < h[0].expiresAt)
    ensures ChecksOut(taken, multiset(h), before, now)
    ensures forall id :: id in rows <==> id in was && !Names(taken, id)
    ensures forall id :: id in rows ==> rows[id] == was[id]
  {
    hide IsHeap;
    if h != [] {
      AllAfterRoot(h, now);
    }
  }

  class ExpirationManager {
    var events: Entries
    var initialScanDone: bool

    ghost predicate Valid()
      reads this
    {
      IsHeap(events)
    }

    constructor ()
      ensures Valid() && events == [] && !initialScanDone
    {
      events, initialScanDone := [], false;
    }

    // ----- container/heap on this slice -----

    method Up(last: nat)
      requires UpTo(events, last)
      modifies `events
      ensures Valid() && multiset(events) == multiset(old(events)) && |events| == |old(events)|
    {
      var j := last;
      while j > 0 && events[j].expiresAt < events[Parent(j)].expiresAt
        invariant UpTo(events, j) && multiset(events) == multiset(old(events)) && |events| == |old(events)|
      {
        UpStep(events, j);
        events := Swap(events, Parent(j), j);
        j := Parent(j);
      }
    }

    method Down(start: nat, n: nat, ghost lo: nat) returns (moved: bool)
      requires start < |events| && n <= |events| && DownTo(events, n, lo, start, start)
      modifies `events
      ensures |events| == |old(events)| && multiset(events) == multiset(old(events)) && events[n..] == old(events[n..])
      ensures moved ==> HeapFrom(events, n, lo)
      ensures !moved ==> events == old(events)
      ensures forall i :: 0 < i < n && Parent(i) >= lo && i != start ==> NotAfter(events, Parent(i), i)
    {
      hide DownTo, HeapFrom, Swap;
      var i := start;
      while ChildIsEarlier(events, n, i)
        invariant start <= i < |events| == |old(events)| && n <= |events|
        invariant DownTo(events, n, lo, start, i)
        invariant multiset(events) == multiset(old(events)) && events[n..] == old(events[n..])
        invariant i == start ==> events == old(events)
        decreases |events| - i
      {
        var j := FirstChild(events, n, i);
        DownStep(events, n, lo, start, i);
        SwapKeepsEntries(events, i, j);
        events := Swap(events, i, j);
        i := j;
      }
      DownEnds(events, n, lo, start, i);
      moved := i > start;
    }

    method Push(x: ExpiringEvent)
      requires Valid()
      modifies `events
      ensures Valid() && multiset(events) == multiset(old(events)) + multiset{x}
    {
      AppendedAtTheEnd(events, x);
      events := events + [x];
      Up(|events| - 1);
    }

    method Pop() returns (x: ExpiringEvent)
      requires Valid() && events != []
      modifies `events
      ensures Valid() && x == old(events[0]) && multiset(events) == multiset(old(events)) - multiset{x}
    {
      x := Remove(0);
    }

    method Remove(i: nat) returns (x: ExpiringEvent)
      requires Valid() && i < |events|
      modifies `events
      ensures Valid() && x == old(events[i]) && multiset(events) == multiset(old(events)) - multiset{x}
    {
      hide UpTo, IsHeap;
      if i == |events| - 1 {
        LastCanGo(events);
        x := CutLast();
      } else {
        var moved := FillFromLast(i);
        x := CutLast();
        if !moved {
          Up(i);
        }
      }
    }

    // Entry i changes places with the last one, which is sifted down.
    method FillFromLast(i: nat) returns (moved: bool)
      requires Valid() && i < |events| - 1
      modifies `events
      ensures |events| == |old(events)| && events[|events| - 1] == old(events[i])
      ensures multiset(events) == multiset(old(events))
      ensures if moved then IsHeap(events[..|events| - 1]) else UpTo(events[..|events| - 1], i)
    {
      hide DownTo, HeapFrom, UpTo, IsHeap;
      var n := |events| - 1;
      FilledHole(events, i);
      SwapKeepsEntries(events, i, n);
      events := Swap(events, i, n);
      moved := Down(i, n, 0);
      assert events[n] == events[n..][0];
      if moved {
        PrefixIsHeap(events);
      } else {
        UnmovedCanGoUp(events, i);
      }
    }

    // The slice's own Pop.
    method CutLast() returns (x: ExpiringEvent)
      requires events != []
      modifies `events
      ensures events == old(events[..|events| - 1]) && x == old(events[|events| - 1])
      ensures multiset(events) == multiset(old(events)) - multiset{x}
    {
      x := events[|events| - 1];
      assert events == events[..|events| - 1] + [x];
      events := events[..|events| - 1];
    }

    method Init()
      modifies `events
      ensures Valid() && multiset(events) == multiset(old(events))
    {
      var n := |events|;
      var i := n / 2;
      while i > 0
        invariant 0 <= i <= n == |events|
        invariant HeapFrom(events, n, i) && multiset(events) == multiset(old(events))
      {
        i := i - 1;
        var _ := Down(i, n, i);
      }
    }

    // ----- the manager -----

    method TrackEvent(evt: Event)
      requires Valid()
      modifies `events
      ensures Valid()
      ensures multiset(events) == multiset(old(events)) + if GetExpiration(evt.tags) != -1 then multiset{EntryOf(evt)}
                                  else multiset{}
    {
      if GetExpiration(evt.tags) != -1 {
        Push(EntryOf(evt));
      }
    }

    // Takes out one entry of that id, if there is one.
    method RemoveEvent(id: string) returns (removed: Option<ExpiringEvent>)
      requires Valid()
      modifies `events
      ensures Valid() && (removed.None? <==> !Names(old(events), id))
      ensures removed.None? ==> events == old(events)
      ensures removed.Some? ==> removed.value.id == id && removed.value in old(events)
      ensures removed.Some? ==> multiset(events) == multiset(old(events)) - multiset{removed.value}
    {
      for i := 0 to |events|
        invariant events == old(events) && forall k :: 0 <= k < i ==> events[k].id != id
      {
        if events[i].id == id {
          var x := Remove(i);
          return Some(x);
        }
      }
      removed := None;
    }

    // Only as many rows as one query returns are seen.
    method InitialScan(store: PostgresBackend)
      requires Valid() && store.Valid()
      modifies `events
      ensures Valid()
      ensures multiset(events) ==
              multiset(old(events)) + multiset(EntriesOf(QueryResult(store.rows, EVERYTHING, store.queryLimit)))
      ensures Tracked(store.rows, multiset(events)) <==>
              UntrackedAreNew(store.rows, store.queryLimit, multiset(old(events)))
      ensures |store.rows| <= store.queryLimit ==> Tracked(store.rows, multiset(events))
    {
      store.SmallFilterIsAccepted(EVERYTHING);
      var ch := store.QueryEvents(EVERYTHING);
      PushAll(ch.value);
      Init();
      ScanTracksAllIff(store.rows, store.queryLimit, multiset(old(events)));
      if |store.rows| <= store.queryLimit {
        FullScanTracksAll(store.rows, store.queryLimit, multiset(old(events)));
      }
    }

    method PushAll(es: seq<Event>)
      requires Valid()
      modifies `events
      ensures Valid() && multiset(events) == multiset(old(events)) + multiset(EntriesOf(es))
    {
      hide IsHeap, GetExpiration;
      for i := 0 to |es|
        invariant Valid() && multiset(events) == multiset(old(events)) + multiset(EntriesOf(es[..i]))
      {
        assert es[..i + 1][..i] == es[..i];
        TrackEvent(es[i]);
      }
      assert es[..|es|] == es;
    }

    method CheckExpiredEvents(store: PostgresBackend, now: int) returns (taken: Entries)
      requires Valid() && store.Valid()
      modifies `events, store
      ensures Valid() && store.Valid() && ChecksOut(taken, multiset(events), multiset(old(events)), now)
      ensures forall id :: id in store.rows <==> id in old(store.rows) && !Names(taken, id)
      ensures forall id :: id in store.rows ==> store.rows[id] == old(store.rows)[id]
    {
      hide IsHeap, Taking, Keyed, ChecksOut;
      taken := [];
      ghost var before, was := multiset(events), store.rows;
      assert Taking(taken, before, before, now, was, was) by { NothingTakenYet(before, now, was); }
      while events != [] && now >= events[0].expiresAt
        invariant Valid() && store.Valid()
        invariant Taking(taken, multiset(events), before, now, store.rows, was)
        decreases |multiset(events)|
      {
        TakesTheRoot(taken, events, before, now, store.rows, was);
        var next := Pop();
        DeleteById(store, next.id);
        taken := taken + [next];
      }
      CheckIsOver(taken, events, before, now, store.rows, was);
    }

    // What the ticker does: a scan the first time, and a check each time.
    method Tick(store: PostgresBackend, now: int) returns (taken: Entries, ghost scanned: multiset<ExpiringEvent>)
      requires Valid() && store.Valid()
      modifies this, store
      ensures Valid() && store.Valid() && initialScanDone
      ensures scanned == multiset(old(events)) +
                         if old(initialScanDone) then multiset{}
                         else multiset(EntriesOf(QueryResult(old(store.rows), EVERYTHING, store.queryLimit)))
      ensures ChecksOut(taken, multiset(events), scanned, now)
      ensures forall id :: id in store.rows <==> id in old(store.rows) && !Names(taken, id)
      ensures forall id :: id in store.rows ==> store.rows[id] == old(store.rows)[id]
    {
      hide IsHeap, ChecksOut, Keyed, Names, QueryResult, EntriesOf;
      if !initialScanDone {
        InitialScan(store);
        initialScanDone := true;
      }
      scanned := multiset(events);
      taken := CheckExpiredEvents(store, now);
    }

    method DeleteById(store: PostgresBackend, id: string)
      requires store.Valid()
      modifies store
      ensures store.Valid() && store.rows == old(store.rows) - {id}
    {
      var f := EVERYTHING.(ids := Some([id]));
      store.SmallFilterIsAccepted(f);
      var ch := store.QueryEvents(f);
      assert forall k :: k in store.rows ==> (SelectedBy(f, store.rows[k]) <==> k == id);
      if ch.Ok? && ch.value != [] {
        store.DeleteEvent(ch.value[0]);
      }
    }
  }
}
