// Replaceable events: whatever the order of arrival, the last writer wins.
module Replacing {
  import opened Wrappers
  import opened Events
  import opened EventTable

  // What a replaceable or addressable event is kept under.
  datatype Key = Key(kind: int, pubkey: string, d: string)

  function KeyOf(e: Event): Key {
    Key(e.kind, e.pubkey, if IsAddressableKind(e.kind) then GetD(e.tags) else "")
  }

  // The only one-letter tag value of an addressable event is that of its "d" tag.
  ghost predicate WellTagged(e: Event) {
    IsAddressableKind(e.kind) ==> forall v :: v in TagValues(e.tags) <==> v == GetD(e.tags)
  }

  // The query before replacing looks under the right key exactly for events
  // that are tagged so. For other kinds they all are.
  lemma FindsByKey(previous: Event, next: Event)
    requires WellTagged(previous)
    ensures SelectedBy(ReplaceFilter(next), previous) <==> KeyOf(previous) == KeyOf(next)
  {
    var f := ReplaceFilter(next);
    if IsAddressableKind(next.kind) {
      assert f.tags["d"].value == [GetD(next.tags)];
      if KeyOf(previous) == KeyOf(next) {
        assert GetD(next.tags) in TagValues(previous.tags);
        var i :| 0 <= i < |TagValues(previous.tags)| && TagValues(previous.tags)[i] == GetD(next.tags);
        assert TagValues(previous.tags)[i] in f.tags["d"].value;
      }
      if SelectedBy(f, previous) {
        assert "d" in f.tags;
        var i :| 0 <= i < |TagValues(previous.tags)| && TagValues(previous.tags)[i] in f.tags["d"].value;
        assert GetD(next.tags) in TagValues(previous.tags);
      }
    }
  }

  lemma FindsByKeyIffWellTagged(previous: Event)
    ensures (forall next :: SelectedBy(ReplaceFilter(next), previous) <==> KeyOf(previous) == KeyOf(next)) <==>
            WellTagged(previous)
  {
    if WellTagged(previous) {
      forall next
        ensures SelectedBy(ReplaceFilter(next), previous) <==> KeyOf(previous) == KeyOf(next)
      {
        FindsByKey(previous, next);
      }
    } else {
      var v :| !(v in TagValues(previous.tags) <==> v == GetD(previous.tags));
      var next := previous.(tags := [["d", v]]);
      assert GetD(next.tags) == v;
      var f := ReplaceFilter(next);
      assert "d" in f.tags && f.tags["d"] == Some([v]);
      if v in TagValues(previous.tags) {
        var i :| 0 <= i < |TagValues(previous.tags)| && TagValues(previous.tags)[i] == v;
        assert TagValues(previous.tags)[i] in [v];
      }
    }
  }

  // ----- a run of ReplaceEvent calls on an empty table -----

  ghost function ReplaceAll(es: seq<Event>): (rows: Rows)
    ensures Keyed(rows)
  {
    if es == [] then map[] else Replaced(ReplaceAll(es[..|es| - 1]), es[|es| - 1]).0
  }

  ghost predicate IdsDetermineEvents(es: seq<Event>) {
    forall i, j :: 0 <= i < |es| && 0 <= j < |es| && es[i].id == es[j].id ==> es[i] == es[j]
  }

  ghost predicate AllWellTagged(es: seq<Event>, kind: int) {
    forall i :: 0 <= i < |es| && es[i].kind == kind ==> WellTagged(es[i])
  }

  ghost predicate Beats(e: Event, es: seq<Event>) {
    forall i :: 0 <= i < |es| && KeyOf(es[i]) == KeyOf(e) && es[i] != e ==> IsOlder(es[i], e)
  }

  predicate Stored(e: Event, rows: Rows) {
    e.id in rows && rows[e.id] == e
  }

  // Of this kind each key has one row, the newest event submitted for it.
  ghost predicate HoldsTheLatest(rows: Rows, es: seq<Event>, kind: int) {
    (forall e :: Stored(e, rows) ==> e in es) &&
    (forall e: Event :: e.kind == kind ==> (Stored(e, rows) <==> e in es && Beats(e, es))) &&
    (forall i :: 0 <= i < |es| && es[i].kind == kind ==> KeyHasRow(rows, KeyOf(es[i])))
  }

  ghost predicate KeyHasRow(rows: Rows, k: Key) {
    exists e :: Stored(e, rows) && KeyOf(e) == k
  }

  lemma OneRowPerKey(rows: Rows, es: seq<Event>, a: Event, b: Event)
    requires HoldsTheLatest(rows, es, a.kind) && Stored(a, rows) && Stored(b, rows) && KeyOf(a) == KeyOf(b)
    ensures a == b
  {
    IsOlderIsTotal(a, b);
  }

  // What the query before replacing finds.
  lemma FindsTheLatest(rows: Rows, es: seq<Event>, e: Event)
    requires Keyed(rows) && HoldsTheLatest(rows, es, e.kind) && AllWellTagged(es, e.kind)
    ensures var r := First(rows, ReplaceFilter(e));
            (r.None? <==> !KeyHasRow(rows, KeyOf(e))) &&
            (r.Some? ==> Stored(r.value, rows) && KeyOf(r.value) == KeyOf(e) && r.value in es && Beats(r.value, es))
  {
    var r := First(rows, ReplaceFilter(e));
    forall x | Stored(x, rows)
      ensures SelectedBy(ReplaceFilter(e), x) <==> KeyOf(x) == KeyOf(e)
    {
      if x.kind == e.kind {
        FindsByKey(x, e);
      }
    }
    forall x | Stored(x, rows) && KeyOf(x) == KeyOf(e)
      ensures r.Some?
    {
      assert SelectedBy(ReplaceFilter(e), rows[x.id]);
    }
    if r.Some? {
      assert Stored(r.value, rows);
    }
  }

  // A call stores its event exactly when no event submitted for its key was as new.
  predicate Raises(e: Event, es: seq<Event>) {
    forall i :: 0 <= i < |es| && KeyOf(es[i]) == KeyOf(e) ==> IsOlder(es[i], e)
  }

  lemma ReplacedTells(rows: Rows, es: seq<Event>, e: Event)
    requires Keyed(rows) && HoldsTheLatest(rows, es, e.kind) && AllWellTagged(es, e.kind)
    requires IdsDetermineEvents(es + [e])
    ensures Replaced(rows, e).1 == if Raises(e, es) then WriteStored else WriteSuperseded
    ensures Replaced(rows, e).1 == WriteSuperseded ==> Replaced(rows, e).0 == rows
    ensures Replaced(rows, e).1 == WriteStored ==> forall x ::
                Stored(x, Replaced(rows, e).0) <==> x == e || (Stored(x, rows) && KeyOf(x) != KeyOf(e))
  {
    var r := First(rows, ReplaceFilter(e));
    FindsTheLatest(rows, es, e);
    assert forall i :: 0 <= i < |es| ==> (es + [e])[i] == es[i];
    assert (es + [e])[|es|] == e;
    if e.id in rows {
      assert Stored(rows[e.id], rows);
      assert rows[e.id] == e;
    }
    if r.Some? {
      forall i | 0 <= i < |es| && KeyOf(es[i]) == KeyOf(e) && IsOlder(r.value, e)
        ensures IsOlder(es[i], e)
      {
        if es[i] != r.value {
          IsOlderIsTransitive(es[i], r.value, e);
        }
      }
      forall x | Stored(x, rows) && KeyOf(x) == KeyOf(e)
        ensures x == r.value
      {
        OneRowPerKey(rows, es, x, r.value);
      }
    }
  }

  lemma RaisingKeepsTheLatest(rows: Rows, es: seq<Event>, e: Event, rows': Rows)
    requires HoldsTheLatest(rows, es, e.kind) && Raises(e, es)
    requires forall x :: Stored(x, rows') <==> x == e || (Stored(x, rows) && KeyOf(x) != KeyOf(e))
    ensures HoldsTheLatest(rows', es + [e], e.kind)
  {
    var es' := es + [e];
    forall x: Event | x.kind == e.kind
      ensures Stored(x, rows') <==> x in es' && Beats(x, es')
    {
      assert es'[|es|] == e;
      assert forall i :: 0 <= i < |es| ==> es'[i] == es[i];
      if x in es' && x != e && KeyOf(x) == KeyOf(e) {
        IsOlderIsTotal(x, e);
      }
    }
    forall i | 0 <= i < |es'| && es'[i].kind == e.kind
      ensures KeyHasRow(rows', KeyOf(es'[i]))
    {
      if KeyOf(es'[i]) != KeyOf(e) {
        assert KeyHasRow(rows, KeyOf(es[i]));
        var x :| Stored(x, rows) && KeyOf(x) == KeyOf(es[i]);
        assert Stored(x, rows');
      } else {
        assert Stored(e, rows');
      }
    }
  }

  lemma SomeRowIsAsNew(rows: Rows, es: seq<Event>, e: Event) returns (top: Event)
    requires HoldsTheLatest(rows, es, e.kind) && !Raises(e, es) && IdsDetermineEvents(es + [e])
    ensures Stored(top, rows) && KeyOf(top) == KeyOf(e) && (top == e || IsOlder(e, top))
  {
    var i :| 0 <= i < |es| && KeyOf(es[i]) == KeyOf(e) && !IsOlder(es[i], e);
    assert KeyHasRow(rows, KeyOf(es[i]));
    top :| Stored(top, rows) && KeyOf(top) == KeyOf(e);
    assert (es + [e])[i] == es[i] && (es + [e])[|es|] == e;
    IsOlderIsTotal(e, es[i]);
    assert es[i] == e || IsOlder(e, es[i]);
    if es[i] != top && es[i] != e {
      IsOlderIsTransitive(e, es[i], top);
    }
  }

  lemma SupersededChangesNothing(rows: Rows, es: seq<Event>, e: Event, top: Event, x: Event)
    requires HoldsTheLatest(rows, es, e.kind) && x.kind == e.kind
    requires Stored(top, rows) && KeyOf(top) == KeyOf(e) && (top == e || IsOlder(e, top))
    ensures Stored(x, rows) <==> x in es + [e] && Beats(x, es + [e])
  {
    hide IsOlder, KeyOf, KeyHasRow;
    var es' := es + [e];
    assert es'[|es|] == e;
    assert forall i :: 0 <= i < |es| ==> es'[i] == es[i];
    if Stored(x, rows) && KeyOf(x) == KeyOf(e) {
      OneRowPerKey(rows, es, x, top);
    }
    if x == e && Beats(x, es') {
      var k :| 0 <= k < |es| && es[k] == top;
      assert es'[k] == top;
      IsOlderIsTotal(e, top);
    }
  }

  lemma SupersededKeepsTheLatest(rows: Rows, es: seq<Event>, e: Event)
    requires HoldsTheLatest(rows, es, e.kind) && !Raises(e, es) && IdsDetermineEvents(es + [e])
    ensures HoldsTheLatest(rows, es + [e], e.kind)
  {
    hide IsOlder, KeyOf, Beats;
    var es' := es + [e];
    assert es'[|es|] == e;
    assert forall i :: 0 <= i < |es| ==> es'[i] == es[i];
    var top := SomeRowIsAsNew(rows, es, e);
    forall x: Event | x.kind == e.kind
      ensures Stored(x, rows) <==> x in es' && Beats(x, es')
    {
      SupersededChangesNothing(rows, es, e, top, x);
    }
    assert KeyHasRow(rows, KeyOf(e));
  }

  // A call leaves the rows of every other kind alone.
  lemma OtherKindsStay(rows: Rows, es: seq<Event>, e: Event, x: Event)
    requires Keyed(rows) && (forall y :: Stored(y, rows) ==> y in es) && IdsDetermineEvents(es + [e])
    ensures x.kind != e.kind ==> (Stored(x, Replaced(rows, e).0) <==> Stored(x, rows))
    ensures Stored(x, Replaced(rows, e).0) ==> x in es + [e]
  {
    var r := First(rows, ReplaceFilter(e));
    if r.Some? {
      assert r.value.kind in [e.kind];
    }
    if e.id in rows {
      assert Stored(rows[e.id], rows);
      var i :| 0 <= i < |es| && es[i] == rows[e.id];
      assert (es + [e])[i] == es[i] && (es + [e])[|es|] == e;
    }
  }

  lemma OtherKindsKeepTheLatest(rows: Rows, es: seq<Event>, e: Event, kind: int)
    requires Keyed(rows) && HoldsTheLatest(rows, es, kind) && e.kind != kind && IdsDetermineEvents(es + [e])
    ensures HoldsTheLatest(Replaced(rows, e).0, es + [e], kind)
  {
    hide Replaced;
    var es', rows' := es + [e], Replaced(rows, e).0;
    assert es'[|es|] == e;
    assert forall i :: 0 <= i < |es| ==> es'[i] == es[i];
    forall x
      ensures Stored(x, rows') ==> x in es'
      ensures x.kind == kind ==> (Stored(x, rows') <==> Stored(x, rows)) && (Beats(x, es') <==> Beats(x, es))
    {
      OtherKindsStay(rows, es, e, x);
    }
    forall i | 0 <= i < |es'| && es'[i].kind == kind
      ensures KeyHasRow(rows', KeyOf(es'[i]))
    {
      assert KeyHasRow(rows, KeyOf(es[i]));
      var x :| Stored(x, rows) && KeyOf(x) == KeyOf(es[i]);
      assert Stored(x, rows');
    }
  }

  lemma CallKeepsTheLatest(rows: Rows, es: seq<Event>, e: Event, kind: int)
    requires Keyed(rows) && HoldsTheLatest(rows, es, kind) && AllWellTagged(es, kind) && IdsDetermineEvents(es + [e])
    ensures HoldsTheLatest(Replaced(rows, e).0, es + [e], kind)
  {
    hide HoldsTheLatest, Replaced, KeyOf;
    if e.kind != kind {
      OtherKindsKeepTheLatest(rows, es, e, kind);
    } else {
      ReplacedTells(rows, es, e);
      if Raises(e, es) {
        RaisingKeepsTheLatest(rows, es, e, Replaced(rows, e).0);
      } else {
        SupersededKeepsTheLatest(rows, es, e);
      }
    }
  }

  // The rows of a kind depend on the events of that kind alone, and only these
  // must be well tagged.
  lemma {:induction false} LastWriterWins(es: seq<Event>, kind: int)
    requires AllWellTagged(es, kind) && IdsDetermineEvents(es)
    ensures HoldsTheLatest(ReplaceAll(es), es, kind)
  {
    hide Replaced, KeyOf;
    if es != [] {
      var rest, e := es[..|es| - 1], es[|es| - 1];
      assert es == rest + [e];
      LastWriterWins(rest, kind);
      CallKeepsTheLatest(ReplaceAll(rest), rest, e, kind);
    }
  }

  // The outcome of a call tells whether it raised the maximum of its key.
  lemma OutcomeTells(es: seq<Event>, e: Event)
    requires AllWellTagged(es, e.kind) && IdsDetermineEvents(es + [e])
    ensures Replaced(ReplaceAll(es), e).1 == if Raises(e, es) then WriteStored else WriteSuperseded
  {
    assert forall i :: 0 <= i < |es| ==> (es + [e])[i] == es[i];
    LastWriterWins(es, e.kind);
    ReplacedTells(ReplaceAll(es), es, e);
  }

  // An event is well tagged if and only if whatever is submitted after it, the
  // table then holds the latest.
  lemma LatestIffWellTagged(p: Event)
    ensures WellTagged(p) <==> forall n: Event :: n.id != p.id ==> HoldsTheLatest(ReplaceAll([p, n]), [p, n], p.kind)
  {
    hide Replaced, HoldsTheLatest;
    if WellTagged(p) {
      forall n: Event | n.id != p.id
        ensures HoldsTheLatest(ReplaceAll([p, n]), [p, n], p.kind)
      {
        LastWriterWins([p], p.kind);
        TwoCalls(p, n);
        assert [p] + [n] == [p, n];
        CallKeepsTheLatest(ReplaceAll([p]), [p], n, p.kind);
      }
    } else {
      var v :| !(v in TagValues(p.tags) <==> v == GetD(p.tags));
      if v == GetD(p.tags) {
        NotFoundAgain(p);
      } else {
        FoundByAnother(p, v);
      }
    }
  }

  lemma TwoCalls(p: Event, n: Event)
    ensures ReplaceAll([p]) == map[p.id := p]
    ensures ReplaceAll([p, n]) == Replaced(map[p.id := p], n).0
  {
    assert [p, n][..1] == [p] && [p][..0] == [];
  }

  // If its identifier is not among its values, its own next version misses it.
  lemma NotFoundAgain(p: Event)
    requires IsAddressableKind(p.kind) && GetD(p.tags) !in TagValues(p.tags)
    ensures exists n: Event :: n.id != p.id && !HoldsTheLatest(ReplaceAll([p, n]), [p, n], p.kind)
  {
    var n := p.(id := p.id + "x", createdAt := p.createdAt + 1);
    TwoCalls(p, n);
    var f := ReplaceFilter(n);
    assert "d" in f.tags && f.tags["d"] == Some([GetD(p.tags)]);
    assert !SelectedBy(f, p);
    assert Stored(p, ReplaceAll([p, n]));
    assert [p, n][1] == n && KeyOf(n) == KeyOf(p);
    IsOlderIsTotal(p, n);
    assert !Beats(p, [p, n]);
  }

  // If it has another value, an event with that identifier removes it.
  lemma FoundByAnother(p: Event, v: string)
    requires IsAddressableKind(p.kind) && v in TagValues(p.tags) && v != GetD(p.tags)
    ensures exists n: Event :: n.id != p.id && !HoldsTheLatest(ReplaceAll([p, n]), [p, n], p.kind)
  {
    hide ReplaceAll, SelectedBy, TagValues, GetD;
    var n := p.(id := p.id + "x", createdAt := p.createdAt + 1, tags := [["d", v]]);
    TwoCalls(p, n);
    OneTagIsD(v);
    SelectsByValue(p, n);
    var rows: Rows := map[p.id := p];
    assert p.id in rows && SelectedBy(ReplaceFilter(n), rows[p.id]);
    assert First(rows, ReplaceFilter(n)) == Some(p);
    assert !Stored(p, ReplaceAll([p, n]));
    assert [p, n][0] == p && Beats(p, [p, n]);
  }

  lemma OneTagIsD(v: string)
    ensures GetD([["d", v]]) == v
  {
  }

  lemma SelectsByValue(p: Event, n: Event)
    requires IsAddressableKind(n.kind) && n.kind == p.kind && n.pubkey == p.pubkey && GetD(n.tags) in TagValues(p.tags)
    ensures SelectedBy(ReplaceFilter(n), p)
  {
    hide TagValues, GetD;
    var f := ReplaceFilter(n);
    assert "d" in f.tags && f.tags["d"] == Some([GetD(n.tags)]);
    var i :| 0 <= i < |TagValues(p.tags)| && TagValues(p.tags)[i] == GetD(n.tags);
    assert TagValues(p.tags)[i] in [GetD(n.tags)];
  }

  function OfKind(rows: Rows, kind: int): Rows {
    map id | id in rows && rows[id].kind == kind :: rows[id]
  }

  // The same events of a kind in another order, sent more than once, or among
  // others of other kinds, leave the same rows of that kind.
  lemma OrderOfArrivalIsIrrelevant(es: seq<Event>, es': seq<Event>, kind: int)
    requires forall e: Event :: e.kind == kind ==> (e in es <==> e in es')
    requires AllWellTagged(es, kind) && IdsDetermineEvents(es) && IdsDetermineEvents(es')
    ensures OfKind(ReplaceAll(es), kind) == OfKind(ReplaceAll(es'), kind)
  {
    hide ReplaceAll, WellTagged, KeyOf;
    forall i | 0 <= i < |es'| && es'[i].kind == kind
      ensures WellTagged(es'[i])
    {
      assert es'[i] in es;
    }
    LastWriterWins(es, kind);
    LastWriterWins(es', kind);
    forall e: Event | e.kind == kind
      ensures Stored(e, ReplaceAll(es)) <==> Stored(e, ReplaceAll(es'))
    {
      if Beats(e, es) {
        BeatsTheSame(e, es, es');
      }
      if Beats(e, es') {
        BeatsTheSame(e, es', es);
      }
    }
    SameStoredSameRows(ReplaceAll(es), ReplaceAll(es'), kind);
  }

  lemma BeatsTheSame(e: Event, es: seq<Event>, es': seq<Event>)
    requires Beats(e, es) && forall x :: x in es' && x.kind == e.kind ==> x in es
    ensures Beats(e, es')
  {
    forall i | 0 <= i < |es'| && KeyOf(es'[i]) == KeyOf(e) && es'[i] != e
      ensures IsOlder(es'[i], e)
    {
      assert es'[i] in es';
      var k :| 0 <= k < |es| && es[k] == es'[i];
    }
  }

  lemma SameStoredSameRows(rows: Rows, rows': Rows, kind: int)
    requires Keyed(rows) && Keyed(rows')
    requires forall e: Event :: e.kind == kind ==> (Stored(e, rows) <==> Stored(e, rows'))
    ensures OfKind(rows, kind) == OfKind(rows', kind)
  {
    forall id
      ensures id in OfKind(rows, kind) <==> id in OfKind(rows', kind)
      ensures id in OfKind(rows, kind) && id in OfKind(rows', kind) ==> rows[id] == rows'[id]
    {
      if id in OfKind(rows, kind) {
        assert Stored(rows[id], rows);
      }
      if id in OfKind(rows', kind) {
        assert Stored(rows'[id], rows');
      }
    }
  }

  // If all are well tagged, the whole table is the same.
  lemma OrderLeavesTheSameTable(es: seq<Event>, es': seq<Event>)
    requires forall e :: e in es <==> e in es'
    requires (forall kind :: AllWellTagged(es, kind)) && IdsDetermineEvents(es)
    ensures ReplaceAll(es) == ReplaceAll(es')
  {
    hide ReplaceAll, WellTagged;
    forall i, j | 0 <= i < |es'| && 0 <= j < |es'| && es'[i].id == es'[j].id
      ensures es'[i] == es'[j]
    {
      assert es'[i] in es && es'[j] in es;
    }
    forall kind
      ensures OfKind(ReplaceAll(es), kind) == OfKind(ReplaceAll(es'), kind)
    {
      OrderOfArrivalIsIrrelevant(es, es', kind);
    }
    SameKindsSameRows(ReplaceAll(es), ReplaceAll(es'));
  }

  lemma SameKindsSameRows(rows: Rows, rows': Rows)
    requires forall kind :: OfKind(rows, kind) == OfKind(rows', kind)
    ensures rows == rows'
  {
    forall id
      ensures id in rows <==> id in rows'
      ensures id in rows && id in rows' ==> rows[id] == rows'[id]
    {
      if id in rows {
        assert id in OfKind(rows, rows[id].kind) && id in OfKind(rows', rows[id].kind);
        assert OfKind(rows, rows[id].kind)[id] == rows[id];
      }
      if id in rows' {
        assert id in OfKind(rows', rows'[id].kind) && id in OfKind(rows, rows'[id].kind);
      }
    }
  }

  // Without a "d" tag an addressable event is not found again: both stay.
  lemma UntaggedVersionsPileUp(a: Event, b: Event)
    requires IsAddressableKind(a.kind) && a.tags == [] && b == a.(id := b.id, createdAt := b.createdAt) && a.id != b.id
    ensures KeyOf(a) == KeyOf(b)
    ensures ReplaceAll([a, b]) == map[a.id := a, b.id := b]
  {
    assert [a, b][..1] == [a] && [a][..0] == [];
    assert ReplaceAll([a]) == map[a.id := a];
    var f := ReplaceFilter(b);
    assert "d" in f.tags && f.tags["d"].Some?;
    assert !SelectedBy(f, a);
  }
}
