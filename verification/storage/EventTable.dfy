// The event table: which rows a filter selects, and in which order.
module EventTable {
  import opened Wrappers
  import opened Events
  import Items

  // The table is keyed by the unique index on id.
  type Rows = map<string, Event>

  ghost predicate Keyed(rows: Rows) {
    forall id :: id in rows ==> rows[id].id == id
  }

  // ----- the order of results -----

  predicate IsOlder(previous: Event, next: Event) {
    previous.createdAt < next.createdAt ||
    (previous.createdAt == next.createdAt && Items.CompareStrings(previous.id, next.id) > 0)
  }

  function Rank(e: Event): Items.Item {
    Items.Item(-e.createdAt, e.id)
  }

  // "Older" is the reverse of the order created_at DESC, id: both are the
  // order of ranks.
  lemma OlderIsRankedLater(p: Event, e: Event)
    ensures IsOlder(p, e) <==> Items.Less(Rank(e), Rank(p))
  {
    Items.CompareStringsFlips(p.id, e.id);
  }

  lemma IsOlderIsTotal(a: Event, b: Event)
    ensures !(IsOlder(a, b) && IsOlder(b, a))
    ensures a.id != b.id ==> IsOlder(a, b) || IsOlder(b, a)
    ensures a.id == b.id ==> (IsOlder(a, b) <==> a.createdAt < b.createdAt)
  {
    OlderIsRankedLater(a, b);
    OlderIsRankedLater(b, a);
    Items.LessIsTotal(Rank(a), Rank(b));
    Items.CompareStringsFlips(a.id, b.id);
  }

  lemma IsOlderIsTransitive(a: Event, b: Event, c: Event)
    requires IsOlder(a, b) && IsOlder(b, c)
    ensures IsOlder(a, c)
  {
    OlderIsRankedLater(a, b);
    OlderIsRankedLater(b, c);
    OlderIsRankedLater(a, c);
    Items.LessIsTransitive(Rank(c), Rank(b), Rank(a));
  }

  // ----- selection -----

  // tags_to_tagvalues: the values of all one-letter tags, whatever the letter.
  function TagValues(tags: seq<Tag>): (vs: seq<string>)
    ensures forall v :: v in vs <==> exists i :: 0 <= i < |tags| && IsOneLetterTag(tags[i], v)
  {
    if tags == [] then []
    else
      var rest := TagValues(tags[1..]);
      if |tags[0]| >= 2 && |tags[0][0]| == 1 then [tags[0][1]] + rest else rest
  }

  predicate IsOneLetterTag(tag: Tag, v: string) {
    |tag| >= 2 && |tag[0]| == 1 && tag[1] == v
  }

  predicate Overlaps(xs: seq<string>, ys: seq<string>) {
    exists i :: 0 <= i < |xs| && xs[i] in ys
  }

  // A list that is empty asks for nothing.
  predicate SelectedByLists(f: Filter, e: Event) {
    (Length(f.ids) > 0 ==> e.id in f.ids.value) &&
    (Length(f.authors) > 0 ==> e.pubkey in f.authors.value) &&
    (Length(f.kinds) > 0 ==> e.kind in f.kinds.value)
  }

  // Each tag name asks for one of its values among all one-letter tags.
  predicate SelectedByTags(tags: map<string, Option<seq<string>>>, e: Event) {
    forall name :: name in tags && tags[name].Some? ==> Overlaps(TagValues(e.tags), tags[name].value)
  }

  predicate SelectedByTimes(f: Filter, e: Event) {
    (f.since.Some? ==> e.createdAt >= f.since.value) && (f.until.Some? ==> e.createdAt <= f.until.value)
  }

  // What the WHERE clause keeps.
  predicate SelectedBy(f: Filter, e: Event) {
    SelectedByLists(f, e) && SelectedByTags(f.tags, e) && SelectedByTimes(f, e)
  }

  ghost function Selected(rows: Rows, f: Filter): set<Event> {
    set id | id in rows && SelectedBy(f, rows[id]) :: rows[id]
  }

  ghost predicate Distinct(s: set<Event>) {
    forall a, b :: a in s && b in s && a.id == b.id ==> a == b
  }

  ghost predicate Leads(e: Event, s: set<Event>) {
    e in s && forall x :: x in s && x != e ==> IsOlder(x, e)
  }

  lemma {:induction false} SomeoneLeads(s: set<Event>)
    requires s != {} && Distinct(s)
    ensures exists e :: Leads(e, s)
  {
    var x :| x in s;
    var rest := s - {x};
    if rest == {} {
      assert s == {x};
      assert Leads(x, s);
    } else {
      SomeoneLeads(rest);
      var y :| Leads(y, rest);
      IsOlderIsTotal(x, y);
      if IsOlder(x, y) {
        assert Leads(y, s);
      } else {
        forall z | z in s && z != x
          ensures IsOlder(z, x)
        {
          if z != y {
            IsOlderIsTransitive(z, y, x);
          }
        }
        assert Leads(x, s);
      }
    }
  }

  lemma OnlyOneLeads(s: set<Event>, a: Event, b: Event)
    requires Leads(a, s) && Leads(b, s)
    ensures a == b
  {
    IsOlderIsTotal(a, b);
  }

  ghost function Leader(s: set<Event>): (e: Event)
    requires s != {} && Distinct(s)
    ensures Leads(e, s)
  {
    SomeoneLeads(s);
    var e :| Leads(e, s);
    e
  }

  // ORDER BY created_at DESC, id
  ghost function Ranked(s: set<Event>): (r: seq<Event>)
    requires Distinct(s)
    ensures |r| == |s|
    ensures s != {} ==> r[0] == Leader(s)
  {
    if s == {} then []
    else [Leader(s)] + Ranked(s - {Leader(s)})
  }

  lemma RankedFrom(s: set<Event>, e: Event)
    requires Distinct(s) && Leads(e, s)
    ensures Ranked(s) == [e] + Ranked(s - {e})
  {
    OnlyOneLeads(s, e, Leader(s));
  }

  lemma {:induction false} RankedListsAll(s: set<Event>)
    requires Distinct(s)
    ensures forall e :: e in s <==> e in Ranked(s)
    ensures forall i, j :: 0 <= i < j < |s| ==> IsOlder(Ranked(s)[j], Ranked(s)[i])
  {
    if s != {} {
      var rest := s - {Leader(s)};
      RankedListsAll(rest);
      assert Ranked(s) == [Leader(s)] + Ranked(rest);
      forall i, j | 0 <= i < j < |s|
        ensures IsOlder(Ranked(s)[j], Ranked(s)[i])
      {
        assert Ranked(s)[j] == Ranked(rest)[j - 1];
        assert Ranked(rest)[j - 1] in rest;
      }
    }
  }

  lemma SelectedAreDistinct(rows: Rows, f: Filter)
    requires Keyed(rows)
    ensures Distinct(Selected(rows, f))
    ensures forall e :: e in Selected(rows, f) <==> e.id in rows && rows[e.id] == e && SelectedBy(f, e)
  {
  }

  // The row a query with this filter returns first.
  ghost function First(rows: Rows, f: Filter): (r: Option<Event>)
    requires Keyed(rows)
    ensures r.None? <==> forall id :: id in rows ==> !SelectedBy(f, rows[id])
    ensures r.Some? ==> r.value.id in rows && rows[r.value.id] == r.value && SelectedBy(f, r.value)
    ensures r.Some? ==> forall id :: id in rows && SelectedBy(f, rows[id]) && id != r.value.id ==>
                                       IsOlder(rows[id], r.value)
  {
    SelectedAreDistinct(rows, f);
    var s := Selected(rows, f);
    assert forall id :: id in rows && SelectedBy(f, rows[id]) ==> rows[id] in s;
    if s == {} then None else Some(Leader(s))
  }

  // What a query returns: the first rows that are selected.
  ghost function QueryResult(rows: Rows, f: Filter, limit: nat): (r: seq<Event>)
    requires Keyed(rows)
    ensures |r| <= limit
    ensures limit > 0 ==> (r == [] <==> First(rows, f).None?) && (r != [] ==> First(rows, f) == Some(r[0]))
  {
    SelectedAreDistinct(rows, f);
    var ranked := Ranked(Selected(rows, f));
    if |ranked| < limit then ranked else ranked[..limit]
  }

  ghost function NewerIn(s: set<Event>, e: Event): set<Event> {
    set x | x in s && IsOlder(e, x)
  }

  function Take<T>(xs: seq<T>, n: nat): seq<T> {
    if |xs| < n then xs else xs[..n]
  }

  lemma {:induction false} RankIsCountOfNewer(s: set<Event>, e: Event, limit: nat)
    requires Distinct(s) && e in s
    ensures e in Take(Ranked(s), limit) <==> |NewerIn(s, e)| < limit
    decreases s
  {
    var l := Leader(s);
    var rest := s - {l};
    if limit > 0 {
      assert Take(Ranked(s), limit) == [l] + Take(Ranked(rest), limit - 1);
      if e == l {
        NobodyIsNewer(s, e);
      } else {
        IsOlderIsTotal(e, l);
        assert NewerIn(s, e) == {l} + NewerIn(rest, e);
        RankIsCountOfNewer(rest, e, limit - 1);
      }
    }
  }

  lemma NobodyIsNewer(s: set<Event>, e: Event)
    requires Leads(e, s)
    ensures NewerIn(s, e) == {}
  {
    forall x | x in s
      ensures !IsOlder(e, x)
    {
      IsOlderIsTotal(e, x);
    }
  }

  lemma ResultIsCut(rows: Rows, f: Filter, limit: nat)
    requires Keyed(rows)
    ensures |QueryResult(rows, f, limit)| == if |Selected(rows, f)| < limit then |Selected(rows, f)| else limit
  {
    hide SelectedBy, Ranked;
  }

  // It returns the newest of the selected rows, and these in order.
  lemma ResultHoldsTheNewest(rows: Rows, f: Filter, limit: nat, e: Event)
    requires Keyed(rows)
    ensures e in QueryResult(rows, f, limit) <==>
            e.id in rows && rows[e.id] == e && SelectedBy(f, e) && |NewerIn(Selected(rows, f), e)| < limit
    ensures var r := QueryResult(rows, f, limit); forall i, j :: 0 <= i < j < |r| ==> IsOlder(r[j], r[i])
  {
    hide SelectedBy, IsOlder, Ranked;
    SelectedAreDistinct(rows, f);
    var s := Selected(rows, f);
    RankedListsAll(s);
    if e in s {
      RankIsCountOfNewer(s, e, limit);
    }
  }

  // ----- writes -----

  datatype WriteOutcome = WriteStored | WriteDuplicate | WriteSuperseded

  // INSERT ... ON CONFLICT (id) DO NOTHING
  function Saved(rows: Rows, e: Event): (r: (Rows, WriteOutcome))
    requires Keyed(rows)
    ensures Keyed(r.0)
  {
    if e.id in rows then (rows, WriteDuplicate) else (rows[e.id := e], WriteStored)
  }

  // The query for what e would replace.
  function ReplaceFilter(e: Event): Filter {
    EVERYTHING.(
    limit := 1,
    kinds := Some([e.kind]),
    authors := Some([e.pubkey]),
    tags := if IsAddressableKind(e.kind) then map["d" := Some([GetD(e.tags)])] else map[]
    )
  }

  ghost function Replaced(rows: Rows, e: Event): (r: (Rows, WriteOutcome))
    requires Keyed(rows)
    ensures Keyed(r.0)
  {
    match First(rows, ReplaceFilter(e))
    case None => Saved(rows, e)
    case Some(previous) =>
      if IsOlder(previous, e) then Saved(rows - {previous.id}, e) else (rows, WriteSuperseded)
  }
}
