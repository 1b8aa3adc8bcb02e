// Serial runs of the EVENT handler and of expiration checks from an empty table.
module TombstoneRuns {
  import opened Wrappers
  import opened Events
  import opened EventTable
  import opened Addresses
  import opened Deleting
  import opened Replacing
  import Expiration

  // An EVENT message, with what the reject hooks say of its event, or a check
  // after which no event that is due is left.
  datatype Step = Message(evt: Event, rejected: Option<string>) | Check(now: int)

  ghost function Run(steps: seq<Step>): (rows: Rows)
    ensures Keyed(rows)
  {
    if steps == [] then map[]
    else
      var before := Run(steps[..|steps| - 1]);
      match steps[|steps| - 1]
      case Message(evt, rejected) => Handled(before, evt, rejected).0
      case Check(now) => Expiration.Unexpired(before, now)
  }

  // ----- one row per key -----

  ghost predicate Tidy(rows: Rows, kind: int) {
    forall a, b :: Stored(a, rows) && Stored(b, rows) && a.kind == b.kind == kind ==>
                     WellTagged(a) && (KeyOf(a) == KeyOf(b) ==> a == b)
  }

  // Whatever had the key of the event gives way, unless the event does.
  lemma ReplacedClearsTheKey(rows: Rows, evt: Event, x: Event)
    requires Keyed(rows) && Tidy(rows, evt.kind) && Stored(x, rows) && KeyOf(x) == KeyOf(evt)
    ensures Replaced(rows, evt).0 == rows || !Stored(x, Replaced(rows, evt).0) || x == evt
  {
    var f := ReplaceFilter(evt);
    FindsByKey(x, evt);
    assert SelectedBy(f, rows[x.id]);
    var r := First(rows, f).value;
    assert Stored(r, rows) && SelectedBy(f, r);
    assert r.kind in [evt.kind];
    FindsByKey(r, evt);
    assert r == x;
  }

  lemma ReplacedKeepsTidy(rows: Rows, evt: Event, kind: int)
    requires Keyed(rows) && Tidy(rows, kind) && (evt.kind == kind ==> WellTagged(evt))
    ensures Tidy(Replaced(rows, evt).0, kind)
  {
    hide First, Replaced, WellTagged;
    var after := Replaced(rows, evt).0;
    ReplacedOnlyTouchesOwnRows(rows, evt);
    forall x | Stored(x, after)
      ensures x == evt || Stored(x, rows)
      ensures x.kind == kind && KeyOf(x) == KeyOf(evt) ==> after == rows || x == evt
    {
      if x != evt && x.kind == kind && KeyOf(x) == KeyOf(evt) {
        ReplacedClearsTheKey(rows, evt, x);
      }
    }
  }

  lemma LosingRowsKeepsTidy(after: Rows, rows: Rows, kind: int)
    requires Tidy(rows, kind) && forall id :: id in after ==> id in rows && after[id] == rows[id]
    ensures Tidy(after, kind)
  {
    forall x | Stored(x, after)
      ensures Stored(x, rows)
    {
    }
  }

  lemma NormalKeepsTidy(rows: Rows, evt: Event, rejected: Option<string>, kind: int)
    requires Keyed(rows) && Tidy(rows, kind) && !IsRegularKind(kind) && (evt.kind == kind ==> WellTagged(evt))
    ensures Tidy(Normal(rows, evt, rejected).0, kind)
  {
    hide First, Replaced, DTagValue;
    ReplacedKeepsTidy(rows, evt, kind);
  }

  lemma HandledKeepsTidy(rows: Rows, evt: Event, rejected: Option<string>, kind: int)
    requires Keyed(rows) && Tidy(rows, kind) && !IsRegularKind(kind) && (evt.kind == kind ==> WellTagged(evt))
    ensures Tidy(Handled(rows, evt, rejected).0, kind)
  {
    hide Tidy, Normal, DeleteTagged;
    var left := if evt.kind == 5 then DeleteTagged(rows, evt.tags, evt).0 else rows;
    DeletionRemovesOwnRows(rows, evt.tags, evt);
    LosingRowsKeepsTidy(left, rows, kind);
    NormalKeepsTidy(left, evt, rejected, kind);
  }

  // ----- deletion by address -----

  function AddressOf(e: Event): string {
    Address(e.kind, e.pubkey, GetD(e.tags))
  }

  predicate NamesAddressIn(tags: seq<Tag>, address: string) {
    exists i :: 0 <= i < |tags| && |tags[i]| >= 2 && tags[i][0] == "a" && tags[i][1] == address
  }

  predicate HasAddress(x: Event) {
    !IsRegularKind(x.kind) && x.kind <= MAX_INT && ':' !in x.pubkey
  }

  // d asks for all versions of x up to its own time.
  predicate AddressedBy(x: Event, d: Event) {
    d.kind == 5 && HasAddress(x) && x.createdAt <= d.createdAt && NamesAddressIn(d.tags, AddressOf(x))
  }

  // The identifier is among the values the table looks in. A well-tagged
  // addressable event is so, an event without a "d" tag as a rule is not.
  predicate IsFindable(x: Event) {
    GetD(x.tags) in TagValues(x.tags)
  }

  // No stored deletion request covers a stored event of this kind by its
  // address, unless the table cannot find that one.
  ghost predicate AddressTombstones(rows: Rows, kind: int) {
    forall d, x :: Stored(d, rows) && Stored(x, rows) && x.kind == kind && IsFindable(x) ==> !AddressedBy(x, d)
  }

  lemma WhatAddressSelects(tag: Tag, evt: Event, x: Event, d: string, y: Event)
    requires HasAddress(x) && |tag| >= 2 && tag[0] == "a" && tag[1] == Address(x.kind, x.pubkey, d)
    ensures DeletionFilter(tag, evt).Some?
    ensures SelectedBy(DeletionFilter(tag, evt).value, y) <==>
            y.kind == x.kind && y.pubkey == x.pubkey && d in TagValues(y.tags) && y.createdAt <= evt.createdAt
  {
    hide Address, ParseAddress;
    AddressReadsBack(x.kind, x.pubkey, d);
    var f := DeletionFilter(tag, evt).value;
    assert "d" in f.tags && f.tags["d"].value == [d];
    OverlapsOne(TagValues(y.tags), d);
  }

  // What an address of a replaceable kind asks for: the one version, if the
  // identifier is among its one-letter tag values.
  lemma TargetOfReplaceable(rows: Rows, tag: Tag, evt: Event, x: Event, d: string)
    requires Keyed(rows) && Tidy(rows, x.kind) && Stored(x, rows) && HasAddress(x) && !IsAddressableKind(x.kind)
    requires |tag| >= 2 && tag[0] == "a" && tag[1] == Address(x.kind, x.pubkey, d) && x.createdAt <= evt.createdAt
    ensures Target(rows, tag, evt) == if d in TagValues(x.tags) then Some(x) else None
  {
    hide DeletionFilter, SelectedBy, TagValues, Address;
    WhatAddressSelects(tag, evt, x, d, x);
    var f := DeletionFilter(tag, evt).value;
    forall y | Stored(y, rows)
      ensures SelectedBy(f, y) <==> y == x && d in TagValues(x.tags)
    {
      WhatAddressSelects(tag, evt, x, d, y);
      assert y.kind == x.kind && y.pubkey == x.pubkey ==> KeyOf(y) == KeyOf(x);
    }
    FirstIsOnly(rows, f, x, d in TagValues(x.tags));
  }

  // What an address asks for is its version, if the table can find it.
  lemma TargetOfAddress(rows: Rows, tag: Tag, evt: Event, x: Event)
    requires Keyed(rows) && Tidy(rows, x.kind) && Stored(x, rows) && HasAddress(x) && IsFindable(x)
    requires |tag| >= 2 && tag[0] == "a" && tag[1] == AddressOf(x) && x.createdAt <= evt.createdAt
    ensures Target(rows, tag, evt) == Some(x)
  {
    hide DeletionFilter, SelectedBy, TagValues, Address, First, Target;
    if IsAddressableKind(x.kind) {
      WhatAddressSelects(tag, evt, x, GetD(x.tags), x);
      var f := DeletionFilter(tag, evt).value;
      forall y | Stored(y, rows)
        ensures SelectedBy(f, y) <==> y == x
      {
        WhatAddressSelects(tag, evt, x, GetD(x.tags), y);
        if y.kind == x.kind {
          assert WellTagged(y);
        }
      }
      FirstIsOnly(rows, f, x, true);
      TargetIsFirst(rows, tag, evt);
    } else {
      TargetOfReplaceable(rows, tag, evt, x, GetD(x.tags));
    }
  }

  lemma FirstIsOnly(rows: Rows, f: Filter, x: Event, selected: bool)
    requires Keyed(rows) && Stored(x, rows)
    requires forall y :: Stored(y, rows) ==> (SelectedBy(f, y) <==> y == x && selected)
    ensures First(rows, f) == if selected then Some(x) else None
  {
    hide SelectedBy;
    assert forall id :: id in rows ==> Stored(rows[id], rows);
    if First(rows, f).Some? {
      assert Stored(First(rows, f).value, rows);
    }
    assert selected ==> SelectedBy(f, rows[x.id]);
  }

  lemma TargetIsFirst(rows: Rows, tag: Tag, evt: Event)
    requires Keyed(rows) && DeletionFilter(tag, evt).Some?
    ensures Target(rows, tag, evt) == First(rows, DeletionFilter(tag, evt).value)
  {
  }

  lemma {:induction false} DeletionRemovesTheAddressed(rows: Rows, tags: seq<Tag>, evt: Event, x: Event)
    requires Keyed(rows) && Tidy(rows, x.kind) && DeleteTagged(rows, tags, evt).1
    requires evt.kind == 5 && AddressedBy(x, evt.(tags := tags)) && IsFindable(x)
    ensures !Stored(x, DeleteTagged(rows, tags, evt).0)
    decreases tags
  {
    hide Target, First, AddressOf;
    DeletionRemovesOwnRows(rows, tags, evt);
    if Stored(x, rows) {
      var i :| 0 <= i < |tags| && |tags[i]| >= 2 && tags[i][0] == "a" && tags[i][1] == AddressOf(x);
      var next := Next(rows, tags[0], evt);
      if i > 0 {
        assert tags[1..][i - 1] == tags[i];
        LosingRowsKeepsTidy(next, rows, x.kind);
        DeletionRemovesTheAddressed(next, tags[1..], evt, x);
      } else {
        TargetOfAddress(rows, tags[0], evt, x);
        DeletionRemovesOwnRows(next, tags[1..], evt);
      }
    }
  }

  // The check by address looks up the value a deletion request carries.
  lemma DTagValueIsD(tags: seq<Tag>)
    ensures DTagValue(tags).Some? ==> DTagValue(tags).value == GetD(tags)
  {
  }

  lemma AddressedIsListed(x: Event, d: Event)
    requires AddressedBy(x, d)
    ensures d.kind == 5 && !IsRegularKind(x.kind) && AddressOf(x) in TagValues(d.tags) && x.createdAt <= d.createdAt
  {
    var i :| 0 <= i < |d.tags| && |d.tags[i]| >= 2 && d.tags[i][0] == "a" && d.tags[i][1] == AddressOf(x);
    assert IsOneLetterTag(d.tags[i], AddressOf(x));
  }

  lemma NormalKeepsAddressTombstones(rows: Rows, evt: Event, rejected: Option<string>, kind: int)
    requires Keyed(rows) && AddressTombstones(rows, kind)
    requires forall x :: Stored(x, rows) && x.kind == kind && IsFindable(x) ==> !AddressedBy(x, evt)
    ensures AddressTombstones(Normal(rows, evt, rejected).0, kind)
  {
    hide First, Replaced, DTagValue, AddressedBy, GetD, IsFindable, TagValues, Address;
    var after := Normal(rows, evt, rejected).0;
    NormalOnlyTouchesOwnRows(rows, evt, rejected);
    DTagValueIsD(evt.tags);
    FoundIffListed(rows, "#a", AddressOf(evt), Some(evt.createdAt));
    forall d | Stored(d, rows) && AddressedBy(evt, d)
      ensures !IsRegularKind(evt.kind) && RequestLists(rows, AddressOf(evt), Some(evt.createdAt))
    {
      AddressedIsListed(evt, d);
      assert d.id in rows;
    }
    forall d, x | Stored(d, after) && Stored(x, after) && x.kind == kind && IsFindable(x)
      ensures !AddressedBy(x, d)
    {
      assert (Stored(d, rows) || d == evt) && (Stored(x, rows) || x == evt);
      if AddressedBy(x, d) {
        AddressedIsListed(x, d);
      }
    }
  }

  lemma HandledKeepsAddressTombstones(rows: Rows, evt: Event, rejected: Option<string>, kind: int)
    requires Keyed(rows) && AddressTombstones(rows, kind) && Tidy(rows, kind)
    ensures AddressTombstones(Handled(rows, evt, rejected).0, kind)
  {
    hide Normal, DeleteTagged, Tidy;
    if evt.kind == 5 {
      var (left, ok) := DeleteTagged(rows, evt.tags, evt);
      DeletionRemovesOwnRows(rows, evt.tags, evt);
      assert forall x :: Stored(x, left) ==> Stored(x, rows);
      if ok {
        forall x: Event | Stored(x, left) && x.kind == kind && IsFindable(x)
          ensures !AddressedBy(x, evt)
        {
          assert evt.(tags := evt.tags) == evt;
          if AddressedBy(x, evt) {
            DeletionRemovesTheAddressed(rows, evt.tags, evt, x);
          }
        }
        NormalKeepsAddressTombstones(left, evt, rejected, kind);
      }
    } else {
      NormalKeepsAddressTombstones(rows, evt, rejected, kind);
    }
  }

  // ----- over all runs -----

  // A check takes rows away and brings none.
  lemma LosingRowsKeepsTombstones(after: Rows, rows: Rows, kind: int)
    requires forall id :: id in after ==> id in rows && after[id] == rows[id]
    ensures Tombstones(rows) ==> Tombstones(after)
    ensures AddressTombstones(rows, kind) ==> AddressTombstones(after, kind)
  {
    hide NamesIn, AddressedBy, IsFindable;
    forall x | Stored(x, after)
      ensures Stored(x, rows)
    {
    }
  }

  lemma {:induction false} RunsKeepTombstones(steps: seq<Step>)
    ensures Tombstones(Run(steps))
    ensures forall id :: id in Run(steps) ==> !IsEphemeralKind(Run(steps)[id].kind)
  {
    hide Handled, Tombstones, Expiration.IsDue;
    if steps == [] {
      NoRowsHaveTombstones(0);
    } else {
      var rest := steps[..|steps| - 1];
      RunsKeepTombstones(rest);
      match steps[|steps| - 1]
      case Message(evt, rejected) =>
        HandledKeepsTombstones(Run(rest), evt, rejected);
        HandledOnlyTouchesOwnRows(Run(rest), evt, rejected);
        EphemeralStoresNothing(Run(rest), evt, rejected);
      case Check(now) =>
        LosingRowsKeepsTombstones(Run(steps), Run(rest), 0);
    }
  }

  lemma EphemeralStoresNothing(rows: Rows, evt: Event, rejected: Option<string>)
    requires Keyed(rows)
    ensures IsEphemeralKind(evt.kind) ==> Handled(rows, evt, rejected).0 == rows
  {
  }

  ghost predicate KindIsWellTagged(steps: seq<Step>, kind: int) {
    forall i :: 0 <= i < |steps| && steps[i].Message? && steps[i].evt.kind == kind ==> WellTagged(steps[i].evt)
  }

  // Each replaceable kind, and each addressable kind all of whose events are
  // well tagged, has one row per key.
  lemma {:induction false} RunsKeepOneRowPerKey(steps: seq<Step>, kind: int)
    requires !IsRegularKind(kind) && KindIsWellTagged(steps, kind)
    ensures Tidy(Run(steps), kind)
  {
    hide Handled, Tidy, WellTagged, Expiration.IsDue;
    if steps == [] {
      NoRowsAreTidy(kind);
    } else {
      var rest := steps[..|steps| - 1];
      RunsKeepOneRowPerKey(rest, kind);
      match steps[|steps| - 1]
      case Message(evt, rejected) =>
        HandledKeepsTidy(Run(rest), evt, rejected, kind);
      case Check(now) =>
        LosingRowsKeepsTidy(Run(steps), Run(rest), kind);
    }
  }

  lemma OtherKindsAreWellTagged(steps: seq<Step>, kind: int)
    ensures !IsAddressableKind(kind) ==> KindIsWellTagged(steps, kind)
  {
  }

  lemma NoRowsAreTidy(kind: int)
    ensures Tidy(map[], kind)
  {
  }

  lemma NoRowsHaveTombstones(kind: int)
    ensures Tombstones(map[]) && AddressTombstones(map[], kind)
  {
  }

  // No address asks for an event of a regular kind.
  lemma RegularIsNotAddressed(rows: Rows, kind: int)
    requires IsRegularKind(kind)
    ensures AddressTombstones(rows, kind)
  {
  }

  // For every kind but the addressable ones nothing is required.
  lemma {:induction false} RunsKeepAddressTombstones(steps: seq<Step>, kind: int)
    requires KindIsWellTagged(steps, kind)
    ensures AddressTombstones(Run(steps), kind)
  {
    hide Handled, Tidy, WellTagged, AddressedBy, AddressTombstones, Expiration.IsDue;
    if IsRegularKind(kind) {
      RegularIsNotAddressed(Run(steps), kind);
    } else if steps == [] {
      NoRowsHaveTombstones(kind);
    } else {
      var rest := steps[..|steps| - 1];
      RunsKeepOneRowPerKey(rest, kind);
      RunsKeepAddressTombstones(rest, kind);
      match steps[|steps| - 1]
      case Message(evt, rejected) =>
        HandledKeepsAddressTombstones(Run(rest), evt, rejected, kind);
      case Check(now) =>
        LosingRowsKeepsTombstones(Run(steps), Run(rest), kind);
    }
  }

  // Addressable versions are all found, so none that is covered is left.
  lemma RunsLeaveNoAddressable(steps: seq<Step>, d: Event, x: Event)
    requires KindIsWellTagged(steps, x.kind)
    requires Stored(d, Run(steps)) && Stored(x, Run(steps)) && IsAddressableKind(x.kind)
    ensures !AddressedBy(x, d)
  {
    hide Run;
    RunsKeepAddressTombstones(steps, x.kind);
    RunsKeepOneRowPerKey(steps, x.kind);
    assert WellTagged(x);
  }

  // ----- what the table cannot find -----

  lemma FirstIsStored(x: Event)
    requires IsReplaceableKind(x.kind) && DTagValue(x.tags).Some?
    ensures Run([Message(x, None)]) == map[x.id := x]
  {
    hide Address, First, DTagValue;
    var none: Rows := map[];
    assert [Message(x, None)][..0] == [];
    BlockedAsDeletedIff(none, x);
  }

  lemma RequestIsStored(rows: Rows, d: Event)
    requires Keyed(rows) && d.kind == 5 && d.id !in rows && forall id :: id in rows ==> rows[id].kind != 5
    ensures Normal(rows, d, None).0 == rows[d.id := d]
  {
    hide First;
    BlockedAsDeletedIff(rows, d);
  }

  // An author asks to delete a stored version by its address: the request is
  // stored, and the version beside it if and only if the table cannot find it.
  lemma RequestIsStoredBesideIff(x: Event, d: Event)
    requires IsReplaceableKind(x.kind) && HasAddress(x) && DTagValue(x.tags).Some?
    requires d.kind == 5 && d.tags == [["a", AddressOf(x)]] && d.pubkey == x.pubkey
    requires x.createdAt <= d.createdAt && d.id != x.id
    ensures AddressedBy(x, d)
    ensures var rows := Run([Message(x, None), Message(d, None)]);
            Stored(d, rows) && (Stored(x, rows) <==> !IsFindable(x))
  {
    hide Normal, Target, Address, GetD, TagValues, DTagValue;
    var steps := [Message(x, None), Message(d, None)];
    assert steps[..1] == [Message(x, None)];
    FirstIsStored(x);
    var rows := map[x.id := x];
    assert d.tags[0] == ["a", AddressOf(x)];
    TargetOfReplaceable(rows, d.tags[0], d, x, GetD(x.tags));
    assert d.tags[1..] == [];
    var left := if IsFindable(x) then map[] else rows;
    assert DeleteTagged(rows, d.tags, d) == (left, true);
    RequestIsStored(left, d);
  }

  // ----- rejection and AddEvent -----

  // A rejected event stores nothing and, unless it is a deletion request,
  // changes nothing: requests are carried out before the hooks are asked.
  lemma RejectionStoresNothing(rows: Rows, evt: Event, msg: string)
    requires Keyed(rows)
    ensures var after := Handled(rows, evt, Some(msg)).0;
            OnlyLost(after, rows, evt.pubkey) &&
            (after != rows <==> evt.kind == 5 && StartsWithOwn(rows, evt.tags, evt))
  {
    hide DeleteTagged, StartsWithOwn;
    DeletionRemovesOwnRows(rows, evt.tags, evt);
    DeletionChangesIff(rows, evt.tags, evt);
  }

  // One that is rejected has deleted all the same.
  lemma RejectedRequestStillDeletes(x: Event, d: Event, msg: string)
    requires d.kind == 5 && d.tags == [["e", x.id]] && d.pubkey == x.pubkey
    ensures Handled(map[x.id := x], d, Some(msg)) == (map[], Blocked(msg))
  {
    var rows := map[x.id := x];
    assert d.tags[0] == ["e", x.id];
    TargetOfName(rows, d.tags[0], d);
    assert rows - {x.id} == map[];
    assert DeleteTagged(map[], d.tags[1..], d) == (map[], true);
  }

  // AddEvent, the entry for the relay's own code, skips the deletion: the
  // request is stored beside what it names.
  lemma AddEventDeletesNothing(x: Event, d: Event)
    requires x.kind == 1 && x.tags == [] && d.kind == 5
    requires d.tags == [["e", x.id]] && d.pubkey == x.pubkey && d.id != x.id
    ensures var after := Normal(map[x.id := x], d, None).0;
            Stored(x, after) && Stored(d, after) && !Tombstones(after)
    ensures Handled(map[x.id := x], d, None).0 == map[d.id := d]
  {
    var rows := map[x.id := x];
    assert First(rows, DeletedById(d.id)).None?;
    assert d.tags[0] == ["e", x.id];
    assert NamesIn(d.tags, x.id);
    TargetOfName(rows, d.tags[0], d);
    assert rows - {x.id} == map[];
    assert DeleteTagged(map[], d.tags[1..], d) == (map[], true);
    assert First(map[], DeletedById(d.id)).None?;
  }
}
