// What becomes of an accepted event: the newest of its key is kept, after one
// message and after every serial run.
module Accepting {
  import opened Wrappers
  import opened Events
  import opened EventTable
  import opened Addresses
  import opened Deleting
  import opened Replacing
  import opened TombstoneRuns
  import Expiration

  // The event is of a stored kind, the hooks let it in, no stored request asks
  // to delete it, and its first "d" tag has a value.
  ghost predicate IsAccepted(rows: Rows, evt: Event, rejected: Option<string>) {
    !IsEphemeralKind(evt.kind) && rejected.None? && !RequestLists(rows, evt.id, None) &&
    (IsRegularKind(evt.kind) ||
     (DTagValue(evt.tags).Some? &&
      !RequestLists(rows, Address(evt.kind, evt.pubkey, DTagValue(evt.tags).value), Some(evt.createdAt))))
  }

  // ----- one message -----

  lemma OthersAreNotStored(rows: Rows, evt: Event, rejected: Option<string>)
    requires Keyed(rows) && evt.kind != 5 && !IsAccepted(rows, evt, rejected)
    ensures Handled(rows, evt, rejected) ==
            (rows,
             if rejected.Some? then Blocked(rejected.value)
             else if IsEphemeralKind(evt.kind) then PassedOn
             else if RequestLists(rows, evt.id, None) then Blocked(DELETED)
             else if !IsRegularKind(evt.kind) && DTagValue(evt.tags).None? then Panicked
             else Blocked(DELETED))
  {
    hide First, Replaced, DTagValue, Address, RequestLists;
    FoundIffListed(rows, "#e", evt.id, None);
    if DTagValue(evt.tags).Some? {
      FoundIffListed(rows, "#a", Address(evt.kind, evt.pubkey, DTagValue(evt.tags).value), Some(evt.createdAt));
    }
  }

  // An event of a regular kind is stored unless its id is there already.
  lemma RegularIsStored(rows: Rows, evt: Event, rejected: Option<string>)
    requires Keyed(rows) && evt.kind != 5 && IsRegularKind(evt.kind) && IsAccepted(rows, evt, rejected)
    ensures Handled(rows, evt, rejected) ==
            if evt.id in rows then (rows, Wrote(WriteDuplicate)) else (rows[evt.id := evt], Wrote(WriteStored))
  {
    hide First, Replaced, RequestLists;
    FoundIffListed(rows, "#e", evt.id, None);
  }

  // So is a deletion request, once it has deleted.
  lemma RequestIsStoredToo(rows: Rows, d: Event, rejected: Option<string>)
    requires Keyed(rows) && d.kind == 5
    ensures var (left, ok) := DeleteTagged(rows, d.tags, d);
            Handled(rows, d, rejected) ==
            if !ok then (left, Blocked(NOT_THE_AUTHOR))
            else if rejected.Some? then (left, Blocked(rejected.value))
            else if RequestLists(left, d.id, None) then (left, Blocked(DELETED))
            else if d.id in left then (left, Wrote(WriteDuplicate))
            else (left[d.id := d], Wrote(WriteStored))
  {
    hide First, Replaced, RequestLists, DeleteTagged;
    FoundIffListed(DeleteTagged(rows, d.tags, d).0, "#e", d.id, None);
  }

  // Every stored event of its key is older.
  ghost predicate Wins(evt: Event, rows: Rows) {
    forall x :: Stored(x, rows) && KeyOf(x) == KeyOf(evt) ==> IsOlder(x, evt)
  }

  // An event of a kind that is replaced is stored if it wins, and what it wins
  // over goes; else nothing changes. Other keys keep their rows.
  lemma NewestIsKept(rows: Rows, evt: Event, rejected: Option<string>)
    requires Keyed(rows) && !IsRegularKind(evt.kind) && IsAccepted(rows, evt, rejected) && Tidy(rows, evt.kind)
    requires evt.id in rows ==> rows[evt.id] == evt
    ensures var (after, outcome) := Handled(rows, evt, rejected);
            outcome == Wrote(if Wins(evt, rows) then WriteStored else WriteSuperseded) &&
            (Stored(evt, after) <==>
             forall x :: Stored(x, rows) && KeyOf(x) == KeyOf(evt) ==> x == evt || IsOlder(x, evt)) &&
            (Wins(evt, rows) ==>
               forall x :: Stored(x, after) <==> x == evt || (Stored(x, rows) && KeyOf(x) != KeyOf(evt))) &&
            (!Wins(evt, rows) ==> after == rows)
  {
    hide First, Replaced, DTagValue, Address, RequestLists, Tidy, KeyOf, IsOlder;
    FoundIffListed(rows, "#e", evt.id, None);
    FoundIffListed(rows, "#a", Address(evt.kind, evt.pubkey, DTagValue(evt.tags).value), Some(evt.createdAt));
    ReplacedKeepsTheNewest(rows, evt);
    StoredIfNewest(rows, evt);
  }

  lemma ReplacedKeepsTheNewest(rows: Rows, evt: Event)
    requires Keyed(rows) && Tidy(rows, evt.kind) && (evt.id in rows ==> rows[evt.id] == evt)
    ensures Replaced(rows, evt).1 == if Wins(evt, rows) then WriteStored else WriteSuperseded
    ensures !Wins(evt, rows) ==> Replaced(rows, evt).0 == rows
    ensures Wins(evt, rows) ==> forall x ::
                Stored(x, Replaced(rows, evt).0) <==> x == evt || (Stored(x, rows) && KeyOf(x) != KeyOf(evt))
  {
    hide KeyOf, IsOlder, WellTagged;
    FindsTheOnlyOne(rows, evt);
    var r := First(rows, ReplaceFilter(evt));
    IsOlderIsTotal(evt, evt);
    if r.Some? {
      assert Wins(evt, rows) <==> IsOlder(r.value, evt);
    }
  }

  // The query before replacing finds the one version, if there is one.
  lemma FindsTheOnlyOne(rows: Rows, evt: Event)
    requires Keyed(rows) && Tidy(rows, evt.kind)
    ensures var r := First(rows, ReplaceFilter(evt));
            (r.Some? ==> Stored(r.value, rows) && KeyOf(r.value) == KeyOf(evt)) &&
            forall x :: Stored(x, rows) && KeyOf(x) == KeyOf(evt) ==> r == Some(x)
  {
    hide WellTagged, SelectedBy;
    var r := First(rows, ReplaceFilter(evt));
    forall x | Stored(x, rows)
      ensures SelectedBy(ReplaceFilter(evt), x) <==> KeyOf(x) == KeyOf(evt)
    {
      if x.kind == evt.kind {
        FindsByKey(x, evt);
      } else {
        SelectsItsKind(evt, x);
      }
    }
    assert r.Some? ==> Stored(r.value, rows);
    forall x | Stored(x, rows) && KeyOf(x) == KeyOf(evt)
      ensures r == Some(x)
    {
      assert SelectedBy(ReplaceFilter(evt), rows[x.id]);
      assert r.value.kind == x.kind == evt.kind;
    }
  }

  lemma SelectsItsKind(evt: Event, x: Event)
    ensures SelectedBy(ReplaceFilter(evt), x) ==> x.kind == evt.kind
  {
  }

  lemma StoredIfNewest(rows: Rows, evt: Event)
    requires Tidy(rows, evt.kind)
    ensures !Wins(evt, rows) && Stored(evt, rows) ==>
              forall x :: Stored(x, rows) && KeyOf(x) == KeyOf(evt) ==> x == evt || IsOlder(x, evt)
    ensures !Wins(evt, rows) && !Stored(evt, rows) ==>
              exists x :: Stored(x, rows) && KeyOf(x) == KeyOf(evt) && x != evt && !IsOlder(x, evt)
  {
  }

  lemma OtherKindsStayPut(rows: Rows, evt: Event, rejected: Option<string>, x: Event)
    requires Keyed(rows) && evt.kind != 5 && x.kind != evt.kind && (evt.id in rows ==> rows[evt.id] == evt)
    ensures Stored(x, Handled(rows, evt, rejected).0) <==> Stored(x, rows)
  {
    hide First, DTagValue, Replaced;
    ReplacedKeepsOtherKinds(rows, evt, x);
  }

  lemma ReplacedKeepsOtherKinds(rows: Rows, evt: Event, x: Event)
    requires Keyed(rows) && x.kind != evt.kind && (evt.id in rows ==> rows[evt.id] == evt)
    ensures Stored(x, Replaced(rows, evt).0) <==> Stored(x, rows)
  {
    if First(rows, ReplaceFilter(evt)).Some? {
      SelectsItsKind(evt, First(rows, ReplaceFilter(evt)).value);
    }
  }

  // ----- all runs -----

  // The accepted events of a key since its row last went.
  ghost function Since(steps: seq<Step>, key: Key): seq<Event> {
    if steps == [] then []
    else
      var rest, last := steps[..|steps| - 1], steps[|steps| - 1];
      if KeyHasRow(Run(rest), key) && !KeyHasRow(Run(steps), key) then []
      else if last.Message? && KeyOf(last.evt) == key && IsAccepted(Run(rest), last.evt, last.rejected) then
        Since(rest, key) + [last.evt]
      else Since(rest, key)
  }

  predicate IsNewest(x: Event, es: seq<Event>) {
    x in es && forall i :: 0 <= i < |es| ==> es[i] == x || IsOlder(es[i], x)
  }

  // An id stands for one event.
  ghost predicate IdsStandFor(steps: seq<Step>, events: string -> Event) {
    forall i :: 0 <= i < |steps| && steps[i].Message? ==> events(steps[i].evt.id) == steps[i].evt
  }

  lemma {:induction false} RunsKnowTheirEvents(steps: seq<Step>, events: string -> Event)
    requires IdsStandFor(steps, events)
    ensures forall id :: id in Run(steps) ==> Run(steps)[id] == events(id)
  {
    hide Handled, Expiration.IsDue;
    if steps != [] {
      var rest := steps[..|steps| - 1];
      RunsKnowTheirEvents(rest, events);
      match steps[|steps| - 1]
      case Message(evt, rejected) => HandledOnlyTouchesOwnRows(Run(rest), evt, rejected);
      case Check(now) =>
    }
  }

  // What holds of the rows of one key.
  ghost predicate HoldsTheNewest(rows: Rows, es: seq<Event>, key: Key) {
    (KeyHasRow(rows, key) <==> es != []) && forall x :: KeyOf(x) == key ==> (Stored(x, rows) <==> IsNewest(x, es))
  }

  lemma NewestGrows(rows: Rows, es: seq<Event>, evt: Event, after: Rows, events: string -> Event)
    requires HoldsTheNewest(rows, es, KeyOf(evt)) && Tidy(rows, evt.kind)
    requires events(evt.id) == evt && forall id :: id in rows ==> rows[id] == events(id)
    requires Wins(evt, rows) ==>
               forall x :: Stored(x, after) <==> x == evt || (Stored(x, rows) && KeyOf(x) != KeyOf(evt))
    requires !Wins(evt, rows) ==> after == rows
    ensures HoldsTheNewest(after, es + [evt], KeyOf(evt))
  {
    hide KeyOf, IsOlder, Tidy;
    if Wins(evt, rows) {
      WinnerIsNewest(rows, es, evt);
      assert Stored(evt, after);
    } else {
      LoserIsNotNewest(rows, es, evt);
    }
  }

  lemma WinnerIsNewest(rows: Rows, es: seq<Event>, evt: Event)
    requires HoldsTheNewest(rows, es, KeyOf(evt)) && Wins(evt, rows)
    ensures forall x :: IsNewest(x, es + [evt]) <==> x == evt
  {
    hide KeyOf, IsOlder;
    var more := es + [evt];
    assert more[|es|] == evt;
    assert forall i :: 0 <= i < |es| ==> more[i] == es[i];
    forall i | 0 <= i < |es|
      ensures IsOlder(es[i], evt)
    {
      var top :| Stored(top, rows) && KeyOf(top) == KeyOf(evt);
      if es[i] != top {
        IsOlderIsTransitive(es[i], top, evt);
      }
    }
    forall x | IsNewest(x, more)
      ensures x == evt
    {
      IsOlderIsTotal(x, evt);
    }
  }

  lemma LoserIsNotNewest(rows: Rows, es: seq<Event>, evt: Event)
    requires HoldsTheNewest(rows, es, KeyOf(evt)) && !Wins(evt, rows)
    requires evt.id in rows ==> rows[evt.id] == evt
    ensures es != [] && forall x :: IsNewest(x, es + [evt]) <==> IsNewest(x, es)
  {
    hide KeyOf, IsOlder;
    var more := es + [evt];
    assert more[|es|] == evt;
    assert forall i :: 0 <= i < |es| ==> more[i] == es[i];
    var top :| Stored(top, rows) && KeyOf(top) == KeyOf(evt) && !IsOlder(top, evt);
    assert KeyHasRow(rows, KeyOf(evt));
    assert IsNewest(top, es);
    IsOlderIsTotal(top, evt);
    assert top == evt || IsOlder(evt, top);
    forall x
      ensures IsNewest(x, more) <==> IsNewest(x, es)
    {
      if x == evt && IsNewest(x, more) {
        assert top in es;
      }
      if IsNewest(x, es) {
        assert x in es && top in es;
        IsOlderIsTotal(x, top);
      }
    }
  }

  // A step that brings no row of the key, but may take the one there is.
  lemma LosingKeepsTheNewest(rows: Rows, es: seq<Event>, after: Rows, key: Key)
    requires HoldsTheNewest(rows, es, key) && Tidy(rows, key.kind)
    requires forall x :: KeyOf(x) == key && Stored(x, after) ==> Stored(x, rows)
    ensures HoldsTheNewest(after, if KeyHasRow(rows, key) && !KeyHasRow(after, key) then [] else es, key)
  {
    hide IsOlder, IsNewest, WellTagged;
    assert forall x :: !IsNewest(x, []) by { NothingIsNewest(); }
    if KeyHasRow(after, key) {
      var x :| Stored(x, after) && KeyOf(x) == key;
      forall y | KeyOf(y) == key && Stored(y, rows)
        ensures y == x
      {
        assert x.kind == y.kind == key.kind;
      }
    }
  }

  lemma NothingIsNewest()
    ensures forall x :: !IsNewest(x, [])
  {
  }

  // A message that is not an accepted one of the key.
  lemma OthersBringNoRow(rows: Rows, evt: Event, rejected: Option<string>, key: Key, x: Event)
    requires Keyed(rows) && Tidy(rows, key.kind) && !IsRegularKind(key.kind) && (evt.id in rows ==> rows[evt.id] == evt)
    requires KeyOf(evt) == key ==> !IsAccepted(rows, evt, rejected)
    requires KeyOf(x) == key && Stored(x, Handled(rows, evt, rejected).0)
    ensures Stored(x, rows)
  {
    hide Handled, Tidy, IsAccepted;
    HandledOnlyTouchesOwnRows(rows, evt, rejected);
    if KeyOf(evt) == key {
      OthersAreNotStored(rows, evt, rejected);
    }
  }

  // After every serial run the row of a key is the newest of the events of that
  // key that were accepted since its row last went, and there is one if any was.
  lemma {:induction false} RunsKeepTheNewest(steps: seq<Step>, key: Key, events: string -> Event)
    requires !IsRegularKind(key.kind) && KindIsWellTagged(steps, key.kind) && IdsStandFor(steps, events)
    ensures HoldsTheNewest(Run(steps), Since(steps, key), key)
  {
    hide Handled, Tidy, WellTagged, IsAccepted, IsNewest, HoldsTheNewest, KeyHasRow, Expiration.IsDue, GetD;
    if steps == [] {
      NothingHoldsTheNewest(key);
    } else {
      var rest, last := steps[..|steps| - 1], steps[|steps| - 1];
      RunsKeepTheNewest(rest, key, events);
      RunsKnowTheirEvents(rest, events);
      RunsKeepOneRowPerKey(rest, key.kind);
      var rows := Run(rest);
      if last.Message? && KeyOf(last.evt) == key && IsAccepted(rows, last.evt, last.rejected) {
        AcceptedKeepsTheNewest(rows, Since(rest, key), last.evt, last.rejected, events);
      } else {
        forall x | KeyOf(x) == key && Stored(x, Run(steps))
          ensures Stored(x, rows)
        {
          if last.Message? {
            OthersBringNoRow(rows, last.evt, last.rejected, key, x);
          }
        }
        LosingKeepsTheNewest(rows, Since(rest, key), Run(steps), key);
      }
    }
  }

  lemma NothingHoldsTheNewest(key: Key)
    ensures HoldsTheNewest(map[], [], key)
  {
  }

  lemma AcceptedKeepsTheNewest(rows: Rows, es: seq<Event>, evt: Event, rejected: Option<string>,
                               events: string -> Event)
    requires Keyed(rows) && !IsRegularKind(evt.kind) && IsAccepted(rows, evt, rejected) && Tidy(rows, evt.kind)
    requires HoldsTheNewest(rows, es, KeyOf(evt))
    requires events(evt.id) == evt && forall id :: id in rows ==> rows[id] == events(id)
    ensures HoldsTheNewest(Handled(rows, evt, rejected).0, es + [evt], KeyOf(evt))
    ensures KeyHasRow(Handled(rows, evt, rejected).0, KeyOf(evt))
  {
    hide Handled, Tidy, IsAccepted, KeyOf, IsOlder, IsNewest;
    NewestIsKept(rows, evt, rejected);
    NewestGrows(rows, es, evt, Handled(rows, evt, rejected).0, events);
  }

  // The row of a key goes only with a deletion request of its author or a check.
  lemma RowsGoByRequestOrCheck(steps: seq<Step>, step: Step, key: Key, events: string -> Event)
    requires !IsRegularKind(key.kind) && KindIsWellTagged(steps, key.kind) && IdsStandFor(steps + [step], events)
    requires KeyHasRow(Run(steps), key) && !KeyHasRow(Run(steps + [step]), key)
    ensures step.Check? || (step.evt.kind == 5 && step.evt.pubkey == key.pubkey)
  {
    hide Handled, Tidy, WellTagged, IsAccepted, Expiration.IsDue;
    var more := steps + [step];
    assert more[..|more| - 1] == steps && more[|steps|] == step;
    assert forall i :: 0 <= i < |steps| ==> more[i] == steps[i];
    if step.Message? && (step.evt.kind != 5 || step.evt.pubkey != key.pubkey) {
      var rows, evt := Run(steps), step.evt;
      var x :| Stored(x, rows) && KeyOf(x) == key;
      RunsKnowTheirEvents(steps, events);
      RunsKeepOneRowPerKey(steps, key.kind);
      assert events(evt.id) == evt;
      MessageTakesNoRow(rows, evt, step.rejected, x);
    }
  }

  lemma MessageTakesNoRow(rows: Rows, evt: Event, rejected: Option<string>, x: Event)
    requires Keyed(rows) && !IsRegularKind(x.kind) && Stored(x, rows) && Tidy(rows, x.kind)
    requires evt.id in rows ==> rows[evt.id] == evt
    requires evt.kind != 5 || evt.pubkey != x.pubkey
    ensures KeyHasRow(Handled(rows, evt, rejected).0, KeyOf(x))
  {
    hide Handled, Tidy, IsAccepted, IsOlder;
    var after := Handled(rows, evt, rejected).0;
    if evt.kind == 5 {
      HandledOnlyTouchesOwnRows(rows, evt, rejected);
      assert Stored(x, after);
    } else if evt.kind != x.kind {
      OtherKindsStayPut(rows, evt, rejected, x);
    } else if IsAccepted(rows, evt, rejected) {
      NewestIsKept(rows, evt, rejected);
      assert Stored(x, after) || Stored(evt, after);
    } else {
      OthersAreNotStored(rows, evt, rejected);
    }
  }
}
