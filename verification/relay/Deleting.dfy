// What the EVENT handler does to the event table, and what every serial run
// of it keeps.
module Deleting {
  import opened Wrappers
  import opened Events
  import opened EventTable
  import opened Addresses
  import Replacing

  // What became of an event. Panicked stands for an index out of range.
  datatype Outcome = Wrote(outcome: WriteOutcome) | Blocked(reason: string) | PassedOn | Panicked

  const DELETED := "blocked: this event has been deleted"
  const NOT_THE_AUTHOR := "blocked: you are not the author of this event"

  // ----- deletion requests -----

  // What a tag of a deletion request asks to delete.
  function DeletionFilter(tag: Tag, evt: Event): Option<Filter> {
    if |tag| < 2 then None
    else if tag[0] == "e" then Some(EVERYTHING.(ids := Some([tag[1]])))
    else if tag[0] == "a" then
      match ParseAddress(tag[1])
      case None => None
      case Some((kind, author, identifier)) =>
        Some(EVERYTHING.(kinds := Some([kind]), authors := Some([author]),
             tags := map["d" := Some([identifier])], until := Some(evt.createdAt)))
    else None
  }

  // The one row a tag removes, if it may.
  ghost function Target(rows: Rows, tag: Tag, evt: Event): (r: Option<Event>)
    requires Keyed(rows)
    ensures r.Some? ==> Replacing.Stored(r.value, rows)
  {
    match DeletionFilter(tag, evt)
    case None => None
    case Some(f) => First(rows, f)
  }

  // The tags in turn, up to the first that asks for somebody else's event.
  ghost function DeleteTagged(rows: Rows, tags: seq<Tag>, evt: Event): (r: (Rows, bool))
    requires Keyed(rows)
    ensures Keyed(r.0)
    decreases tags
  {
    if tags == [] then (rows, true)
    else
      match Target(rows, tags[0], evt)
      case None => DeleteTagged(rows, tags[1..], evt)
      case Some(target) =>
        if target.pubkey == evt.pubkey then DeleteTagged(rows - {target.id}, tags[1..], evt) else (rows, false)
  }

  predicate NamesIn(tags: seq<Tag>, id: string) {
    exists i :: 0 <= i < |tags| && |tags[i]| >= 2 && tags[i][0] == "e" && tags[i][1] == id
  }

  // The table a removes nothing from the table b but rows of this author.
  ghost predicate OnlyLost(a: Rows, b: Rows, author: string) {
    (forall id :: id in a ==> id in b && a[id] == b[id]) &&
    (forall id :: id in b && id !in a ==> b[id].pubkey == author)
  }

  lemma TargetOfName(rows: Rows, tag: Tag, evt: Event)
    requires Keyed(rows) && |tag| >= 2 && tag[0] == "e"
    ensures Target(rows, tag, evt) == if tag[1] in rows then Some(rows[tag[1]]) else None
  {
    var f := EVERYTHING.(ids := Some([tag[1]]));
    assert DeletionFilter(tag, evt) == Some(f);
    assert forall id :: id in rows ==> (SelectedBy(f, rows[id]) <==> id == tag[1]);
  }

  // What is left once the first tag has been dealt with.
  ghost function Next(rows: Rows, tag: Tag, evt: Event): (next: Rows)
    requires Keyed(rows)
    ensures Keyed(next)
  {
    match Target(rows, tag, evt)
    case None => rows
    case Some(target) => rows - {target.id}
  }

  // A deletion request removes rows of its own author only.
  lemma {:induction false} DeletionRemovesOwnRows(rows: Rows, tags: seq<Tag>, evt: Event)
    requires Keyed(rows)
    ensures OnlyLost(DeleteTagged(rows, tags, evt).0, rows, evt.pubkey)
    decreases tags
  {
    hide Target;
    if tags != [] {
      DeletionRemovesOwnRows(Next(rows, tags[0], evt), tags[1..], evt);
    }
  }

  // The first row asked for is the author's own.
  ghost predicate StartsWithOwn(rows: Rows, tags: seq<Tag>, evt: Event)
    requires Keyed(rows)
  {
    exists i :: 0 <= i < |tags| && AsksForOwn(rows, tags[i], evt) && NoneFound(rows, tags[..i], evt)
  }

  ghost predicate NoneFound(rows: Rows, tags: seq<Tag>, evt: Event)
    requires Keyed(rows)
  {
    forall j :: 0 <= j < |tags| ==> Target(rows, tags[j], evt).None?
  }

  ghost predicate AsksForOwn(rows: Rows, tag: Tag, evt: Event)
    requires Keyed(rows)
  {
    Target(rows, tag, evt).Some? && Target(rows, tag, evt).value.pubkey == evt.pubkey
  }

  // It changes the table if and only if that is so.
  lemma {:induction false} DeletionChangesIff(rows: Rows, tags: seq<Tag>, evt: Event)
    requires Keyed(rows)
    ensures DeleteTagged(rows, tags, evt).0 != rows <==> StartsWithOwn(rows, tags, evt)
    decreases tags
  {
    hide Target;
    if tags != [] {
      var rest := tags[1..];
      match Target(rows, tags[0], evt)
      case None =>
        DeletionChangesIff(rows, rest, evt);
        if i :| 0 <= i < |rest| && AsksForOwn(rows, rest[i], evt) && NoneFound(rows, rest[..i], evt) {
          assert AsksForOwn(rows, tags[i + 1], evt);
          assert tags[..i + 1] == [tags[0]] + rest[..i];
        }
        if i :| 0 <= i < |tags| && AsksForOwn(rows, tags[i], evt) && NoneFound(rows, tags[..i], evt) {
          assert AsksForOwn(rows, rest[i - 1], evt);
          assert forall j :: 0 <= j < i - 1 ==> rest[j] == tags[..i][j + 1];
        }
      case Some(target) =>
        DeletionRemovesOwnRows(rows - {target.id}, rest, evt);
        if target.pubkey == evt.pubkey {
          assert AsksForOwn(rows, tags[0], evt) && NoneFound(rows, tags[..0], evt);
        }
        forall i | 0 < i < |tags|
          ensures !NoneFound(rows, tags[..i], evt)
        {
          assert tags[..i][0] == tags[0];
        }
    }
  }

  // If it succeeds, none of the events it names is left.
  lemma {:induction false} DeletionRemovesTheNamed(rows: Rows, tags: seq<Tag>, evt: Event, id: string)
    requires Keyed(rows) && DeleteTagged(rows, tags, evt).1 && NamesIn(tags, id)
    ensures id !in DeleteTagged(rows, tags, evt).0
    decreases tags
  {
    var next := Next(rows, tags[0], evt);
    var i :| 0 <= i < |tags| && |tags[i]| >= 2 && tags[i][0] == "e" && tags[i][1] == id;
    if i > 0 {
      assert tags[1..][i - 1] == tags[i];
      DeletionRemovesTheNamed(next, tags[1..], evt, id);
    } else {
      TargetOfName(rows, tags[0], evt);
      DeletionRemovesOwnRows(next, tags[1..], evt);
    }
  }

  // An "a" tag asks for the row: its kind, its key, an identifier among its
  // one-letter tag values, and no newer than the request.
  predicate AddressesRow(tag: Tag, evt: Event, x: Event) {
    |tag| >= 2 && tag[0] == "a" && x.createdAt <= evt.createdAt &&
    match ParseAddress(tag[1])
    case None => false
    case Some((kind, author, identifier)) =>
      kind == x.kind && author == x.pubkey && identifier in TagValues(x.tags)
  }

  predicate NamesRow(tag: Tag, x: Event) {
    |tag| >= 2 && tag[0] == "e" && tag[1] == x.id
  }

  // What one tag removes it names, or it is the newest that its address asks for.
  lemma TargetIsAskedFor(rows: Rows, tag: Tag, evt: Event)
    requires Keyed(rows)
    ensures var r := Target(rows, tag, evt);
            (r.None? <==> forall id :: id in rows ==> !NamesRow(tag, rows[id]) && !AddressesRow(tag, evt, rows[id])) &&
            (r.Some? ==> (NamesRow(tag, r.value) || AddressesRow(tag, evt, r.value)) &&
                         forall id :: id in rows && AddressesRow(tag, evt, rows[id]) ==>
                                        rows[id] == r.value || IsOlder(rows[id], r.value))
  {
    hide ParseAddress, First, TagValues;
    forall id | id in rows && DeletionFilter(tag, evt).Some?
      ensures SelectedBy(DeletionFilter(tag, evt).value, rows[id]) <==>
              NamesRow(tag, rows[id]) || AddressesRow(tag, evt, rows[id])
    {
      DeletionSelects(tag, evt, rows[id]);
    }
  }

  lemma OverlapsOne(vs: seq<string>, v: string)
    ensures Overlaps(vs, [v]) <==> v in vs
  {
  }

  lemma DeletionSelects(tag: Tag, evt: Event, x: Event)
    requires DeletionFilter(tag, evt).Some?
    ensures SelectedBy(DeletionFilter(tag, evt).value, x) <==> NamesRow(tag, x) || AddressesRow(tag, evt, x)
  {
    hide ParseAddress, TagValues;
    if tag[0] == "a" {
      var (kind, author, identifier) := ParseAddress(tag[1]).value;
      var f := DeletionFilter(tag, evt).value;
      assert "d" in f.tags && f.tags["d"].value == [identifier];
      OverlapsOne(TagValues(x.tags), identifier);
    }
  }

  // The newest row that the tag asks for.
  ghost predicate IsAskedFor(rows: Rows, tag: Tag, evt: Event, x: Event) {
    Replacing.Stored(x, rows) && (NamesRow(tag, x) || AddressesRow(tag, evt, x)) &&
    forall id :: id in rows && AddressesRow(tag, evt, rows[id]) ==> rows[id] == x || IsOlder(rows[id], x)
  }

  // One tag removes that row, fails if it is another author's, and does
  // nothing without one.
  lemma OneTagDeletes(rows: Rows, tag: Tag, evt: Event)
    requires Keyed(rows)
    ensures forall x :: IsAskedFor(rows, tag, evt, x) ==>
                          DeleteTagged(rows, [tag], evt) == if x.pubkey == evt.pubkey then (rows - {x.id}, true)
                          else (rows, false)
    ensures (forall x :: !IsAskedFor(rows, tag, evt, x)) ==> DeleteTagged(rows, [tag], evt) == (rows, true)
  {
    hide Target, NamesRow, AddressesRow;
    TargetIsAskedFor(rows, tag, evt);
    var r := Target(rows, tag, evt);
    assert [tag][1..] == [];
    forall x | IsAskedFor(rows, tag, evt, x)
      ensures r == Some(x)
    {
      assert rows[x.id] == x;
      OnlyOneIsAskedFor(rows, tag, evt, x, r.value);
    }
    assert r.Some? ==> IsAskedFor(rows, tag, evt, r.value);
  }

  lemma OnlyOneIsAskedFor(rows: Rows, tag: Tag, evt: Event, a: Event, b: Event)
    requires IsAskedFor(rows, tag, evt, a) && IsAskedFor(rows, tag, evt, b)
    ensures a == b
  {
    hide TagValues, ParseAddress;
    IsOlderIsTotal(a, b);
    assert rows[a.id] == a && rows[b.id] == b;
  }

  // The tags are dealt with in turn, up to the one that fails.
  lemma {:induction false} TagsInTurn(rows: Rows, tags: seq<Tag>, more: seq<Tag>, evt: Event)
    requires Keyed(rows)
    ensures var (left, ok) := DeleteTagged(rows, tags, evt);
            DeleteTagged(rows, tags + more, evt) == if ok then DeleteTagged(left, more, evt) else (left, false)
    decreases tags
  {
    hide Target;
    if tags == [] {
      assert tags + more == more;
    } else {
      assert (tags + more)[0] == tags[0] && (tags + more)[1..] == tags[1..] + more;
      TagsInTurn(Next(rows, tags[0], evt), tags[1..], more, evt);
    }
  }

  ghost predicate AskedFor(tags: seq<Tag>, evt: Event, x: Event) {
    exists i :: 0 <= i < |tags| && (NamesRow(tags[i], x) || AddressesRow(tags[i], evt, x))
  }

  // Nothing goes but what some tag asks for.
  lemma {:induction false} DeletionRemovesOnlyTheAskedFor(rows: Rows, tags: seq<Tag>, evt: Event, id: string)
    requires Keyed(rows) && id in rows && id !in DeleteTagged(rows, tags, evt).0
    ensures AskedFor(tags, evt, rows[id])
    decreases tags
  {
    hide Target, NamesRow, AddressesRow;
    TargetIsAskedFor(rows, tags[0], evt);
    if Target(rows, tags[0], evt) == Some(rows[id]) {
      assert AskedFor(tags, evt, rows[id]);
    } else {
      var next := Next(rows, tags[0], evt);
      DeletionRemovesOnlyTheAskedFor(next, tags[1..], evt, id);
      var i :| 0 <= i < |tags| - 1 && (NamesRow(tags[1..][i], next[id]) || AddressesRow(tags[1..][i], evt, next[id]));
      assert tags[i + 1] == tags[1..][i];
    }
  }

  // So tags of any other name change nothing.
  lemma OtherTagsDeleteNothing(rows: Rows, tags: seq<Tag>, evt: Event)
    requires Keyed(rows) && forall i :: 0 <= i < |tags| && |tags[i]| >= 2 ==> tags[i][0] != "e" && tags[i][0] != "a"
    ensures DeleteTagged(rows, tags, evt).0 == rows
  {
    hide DeleteTagged;
    DeletionRemovesOwnRows(rows, tags, evt);
    forall id | id in rows
      ensures id in DeleteTagged(rows, tags, evt).0
    {
      if id !in DeleteTagged(rows, tags, evt).0 {
        DeletionRemovesOnlyTheAskedFor(rows, tags, evt, id);
      }
    }
  }

  ghost predicate AsksForAnothers(rows: Rows, tag: Tag, evt: Event) {
    Keyed(rows) && Target(rows, tag, evt).Some? && Target(rows, tag, evt).value.pubkey != evt.pubkey
  }

  // If it fails, one of its tags asks for what is left of another author.
  lemma {:induction false} DeletionFailsOnAnothers(rows: Rows, tags: seq<Tag>, evt: Event) returns (i: nat)
    requires Keyed(rows) && !DeleteTagged(rows, tags, evt).1
    ensures i < |tags| && AsksForAnothers(DeleteTagged(rows, tags, evt).0, tags[i], evt)
    decreases tags
  {
    hide Target;
    if AsksForAnothers(rows, tags[0], evt) {
      i := 0;
    } else {
      i := DeletionFailsOnAnothers(Next(rows, tags[0], evt), tags[1..], evt);
      i := i + 1;
    }
  }

  // ----- storing -----

  // Looked up under the name "#e": the table disregards the name.
  function DeletedById(id: string): Filter {
    EVERYTHING.(kinds := Some([5]), tags := map["#e" := Some([id])])
  }

  function DeletedByAddress(evt: Event, d: string): Filter {
    var address := Address(evt.kind, evt.pubkey, d);
    EVERYTHING.(kinds := Some([5]), since := Some(evt.createdAt), tags := map["#a" := Some([address])])
  }

  // The value of the first "d" tag, if it has one; "" without a "d" tag.
  function DTagValue(tags: seq<Tag>): Option<string> {
    if tags == [] then Some("")
    else if |tags[0]| > 0 && tags[0][0] == "d" then (if |tags[0]| > 1 then Some(tags[0][1]) else None)
    else DTagValue(tags[1..])
  }

  lemma {:induction false} DTagValueIsFirst(tags: seq<Tag>, i: nat)
    requires i <= |tags| && forall k :: 0 <= k < i ==> tags[k] == [] || tags[k][0] != "d"
    ensures i == |tags| ==> DTagValue(tags) == Some("")
    ensures i < |tags| && tags[i] != [] && tags[i][0] == "d" ==>
              DTagValue(tags) == if |tags[i]| > 1 then Some(tags[i][1]) else None
  {
    if i > 0 {
      DTagValueIsFirst(tags[1..], i - 1);
    }
  }

  ghost function Normal(rows: Rows, evt: Event, rejected: Option<string>): (r: (Rows, Outcome))
    requires Keyed(rows)
    ensures Keyed(r.0)
  {
    if rejected.Some? then (rows, Blocked(rejected.value))
    else if First(rows, DeletedById(evt.id)).Some? then (rows, Blocked(DELETED))
    else if IsRegularKind(evt.kind) then (Saved(rows, evt).0, Wrote(Saved(rows, evt).1))
    else
      match DTagValue(evt.tags)
      case None => (rows, Panicked)
      case Some(d) =>
        if First(rows, DeletedByAddress(evt, d)).Some? then (rows, Blocked(DELETED))
        else (Replaced(rows, evt).0, Wrote(Replaced(rows, evt).1))
  }

  ghost function Handled(rows: Rows, evt: Event, rejected: Option<string>): (r: (Rows, Outcome))
    requires Keyed(rows)
    ensures Keyed(r.0)
  {
    if evt.kind == 5 then
      var (left, ok) := DeleteTagged(rows, evt.tags, evt);
      if ok then Normal(left, evt, rejected) else (left, Blocked(NOT_THE_AUTHOR))
    else if IsEphemeralKind(evt.kind) then
      (rows, if rejected.Some? then Blocked(rejected.value) else PassedOn)
    else Normal(rows, evt, rejected)
  }

  // ----- what every step keeps -----

  // No stored deletion request names another stored event.
  ghost predicate Tombstones(rows: Rows) {
    forall d, id :: d in rows && id in rows && rows[d].kind == 5 && NamesIn(rows[d].tags, id) ==> id == d
  }

  // Rows come and go whole, and only the author of an event makes rows go.
  ghost predicate OnlyTheAuthorRemoves(after: Rows, before: Rows, evt: Event) {
    (forall id :: id in before && id !in after ==> before[id].pubkey == evt.pubkey) &&
    (forall id :: id in after ==> (id in before && after[id] == before[id]) || after[id] == evt)
  }

  lemma NamedIsListed(d: Event, id: string)
    requires NamesIn(d.tags, id)
    ensures id in TagValues(d.tags)
  {
    var i :| 0 <= i < |d.tags| && |d.tags[i]| >= 2 && d.tags[i][0] == "e" && d.tags[i][1] == id;
    assert IsOneLetterTag(d.tags[i], id);
  }

  // ----- who is blocked as deleted -----

  // Some stored deletion request, whoever wrote it, has the value in a
  // one-letter tag and is as new as asked for.
  ghost predicate RequestLists(rows: Rows, value: string, since: Option<int>) {
    exists id :: id in rows && rows[id].kind == 5 && value in TagValues(rows[id].tags) &&
                 (since.Some? ==> rows[id].createdAt >= since.value)
  }

  lemma FoundIffListed(rows: Rows, name: string, value: string, since: Option<int>)
    requires Keyed(rows)
    ensures First(rows, EVERYTHING.(kinds := Some([5]), since := since, tags := map[name := Some([value])])).Some? <==>
            RequestLists(rows, value, since)
  {
    var f := EVERYTHING.(kinds := Some([5]), since := since, tags := map[name := Some([value])]);
    assert name in f.tags && f.tags[name].value == [value];
    forall id | id in rows
      ensures SelectedBy(f, rows[id]) <==>
              rows[id].kind == 5 && value in TagValues(rows[id].tags) &&
              (since.Some? ==> rows[id].createdAt >= since.value)
    {
      OverlapsOne(TagValues(rows[id].tags), value);
    }
  }

  // An event is blocked as deleted if and only if a stored request lists its
  // id or, for kinds that are replaced, one as new as it lists its address.
  // Neither check looks at who wrote the request.
  lemma BlockedAsDeletedIff(rows: Rows, evt: Event)
    requires Keyed(rows)
    ensures Normal(rows, evt, None).1 == Blocked(DELETED) <==>
            RequestLists(rows, evt.id, None) ||
            (!IsRegularKind(evt.kind) && DTagValue(evt.tags).Some? &&
             RequestLists(rows, Address(evt.kind, evt.pubkey, DTagValue(evt.tags).value), Some(evt.createdAt)))
  {
    hide First, Replaced, RequestLists, Address, DTagValue;
    FoundIffListed(rows, "#e", evt.id, None);
    if DTagValue(evt.tags).Some? {
      FoundIffListed(rows, "#a", Address(evt.kind, evt.pubkey, DTagValue(evt.tags).value), Some(evt.createdAt));
    }
  }

  // So a request by another author, sent before the event, keeps it out.
  lemma AnothersRequestBlocks(d: Event, x: Event)
    requires d.kind == 5 && d.tags == [["e", x.id]] && d.pubkey != x.pubkey
    requires d.id != x.id && IsRegularKind(x.kind) && x.kind != 5
    ensures Handled(map[], d, None).0 == map[d.id := d]
    ensures Handled(map[d.id := d], x, None) == (map[d.id := d], Blocked(DELETED))
  {
    var none: Rows := map[];
    TargetOfName(none, d.tags[0], d);
    assert DeleteTagged(none, d.tags[1..], d) == (none, true);
    BlockedAsDeletedIff(none, d);
    assert d.tags[0] == ["e", x.id];
    assert NamesIn(d.tags, x.id);
    NamedIsListed(d, x.id);
    assert d.id in map[d.id := d];
    BlockedAsDeletedIff(map[d.id := d], x);
  }

  // ----- the tombstones -----

  lemma ReplacedOnlyTouchesOwnRows(rows: Rows, evt: Event)
    requires Keyed(rows)
    ensures OnlyTheAuthorRemoves(Replaced(rows, evt).0, rows, evt)
  {
    if First(rows, ReplaceFilter(evt)).Some? {
      assert First(rows, ReplaceFilter(evt)).value.pubkey in [evt.pubkey];
    }
  }

  lemma NormalOnlyTouchesOwnRows(rows: Rows, evt: Event, rejected: Option<string>)
    requires Keyed(rows)
    ensures OnlyTheAuthorRemoves(Normal(rows, evt, rejected).0, rows, evt)
  {
    hide First, Replaced, DTagValue;
    ReplacedOnlyTouchesOwnRows(rows, evt);
  }

  // The check by id keeps out what a stored request names; what the event
  // itself names must be gone already.
  lemma NormalKeepsTombstones(rows: Rows, evt: Event, rejected: Option<string>)
    requires Keyed(rows) && Tombstones(rows)
    requires evt.kind == 5 ==> forall id :: id in rows ==> !NamesIn(evt.tags, id)
    ensures Tombstones(Normal(rows, evt, rejected).0)
  {
    hide First, Replaced, DTagValue, NamesIn, SelectedBy;
    var after := Normal(rows, evt, rejected).0;
    NormalOnlyTouchesOwnRows(rows, evt, rejected);
    forall d, id | d in after && id in after && after[d].kind == 5 && NamesIn(after[d].tags, id)
      ensures id == d
    {
      if id !in rows && d in rows {
        NamedIsListed(rows[d], id);
        FoundIffListed(rows, "#e", id, None);
      }
    }
  }

  // Without the deletion, as AddEvent does it, storing a request keeps them if
  // and only if the request is not stored or names nothing that is.
  lemma StoringRequestKeepsTombstonesIff(rows: Rows, evt: Event, rejected: Option<string>)
    requires Keyed(rows) && Tombstones(rows) && evt.kind == 5
    ensures Tombstones(Normal(rows, evt, rejected).0) <==>
            rejected.Some? || RequestLists(rows, evt.id, None) || evt.id in rows ||
            forall id :: id in rows ==> !NamesIn(evt.tags, id)
  {
    hide First, NamesIn, RequestLists;
    FoundIffListed(rows, "#e", evt.id, None);
    if forall id :: id in rows ==> !NamesIn(evt.tags, id) {
      NormalKeepsTombstones(rows, evt, rejected);
    } else {
      var id :| id in rows && NamesIn(evt.tags, id);
      var after := Normal(rows, evt, rejected).0;
      assert after == rows || (evt.id in after && after[evt.id] == evt && id in after && id != evt.id);
    }
  }

  lemma HandledKeepsTombstones(rows: Rows, evt: Event, rejected: Option<string>)
    requires Keyed(rows) && Tombstones(rows)
    ensures Tombstones(Handled(rows, evt, rejected).0)
  {
    hide Normal, NamesIn, DeleteTagged;
    if evt.kind == 5 {
      var (left, ok) := DeleteTagged(rows, evt.tags, evt);
      DeletionRemovesOwnRows(rows, evt.tags, evt);
      if ok {
        forall id | NamesIn(evt.tags, id)
          ensures id !in left
        {
          DeletionRemovesTheNamed(rows, evt.tags, evt, id);
        }
        NormalKeepsTombstones(left, evt, rejected);
      }
    } else {
      NormalKeepsTombstones(rows, evt, rejected);
    }
  }

  lemma HandledOnlyTouchesOwnRows(rows: Rows, evt: Event, rejected: Option<string>)
    requires Keyed(rows)
    ensures OnlyTheAuthorRemoves(Handled(rows, evt, rejected).0, rows, evt)
  {
    hide Normal, DeleteTagged;
    var left := if evt.kind == 5 then DeleteTagged(rows, evt.tags, evt).0 else rows;
    DeletionRemovesOwnRows(rows, evt.tags, evt);
    NormalOnlyTouchesOwnRows(left, evt, rejected);
  }
}
