// How many events a filter can match at most.
module TheoreticalLimits {
  import opened Wrappers
  import opened Events
  import opened EventTable
  import opened Replacing
  import opened TombstoneRuns

  // len(filter.Tags["d"]): a missing name reads as an empty slice.
  function DValues(f: Filter): seq<string> {
    if "d" in f.tags && f.tags["d"].Some? then f.tags["d"].value else []
  }

  method GetTheoreticalLimit(filter: Filter) returns (limit: int)
    ensures limit == TheoreticalLimit(filter)
  {
    if Length(filter.ids) > 0 {
      return Length(filter.ids);
    }
    if Length(filter.kinds) == 0 {
      return -1;
    }
    var kinds := filter.kinds.value;
    if Length(filter.authors) > 0 {
      var allAreReplaceable, i := true, 0;
      while i < |kinds| && allAreReplaceable
        invariant i <= |kinds|
        invariant allAreReplaceable <==> forall j :: 0 <= j < i ==> IsReplaceableKind(kinds[j])
      {
        allAreReplaceable := IsReplaceableKind(kinds[i]);
        i := i + 1;
      }
      if allAreReplaceable {
        return Length(filter.authors) * |kinds|;
      }
      if |DValues(filter)| > 0 {
        var allAreAddressable := true;
        i := 0;
        while i < |kinds| && allAreAddressable
          invariant i <= |kinds|
          invariant allAreAddressable <==> forall j :: 0 <= j < i ==> IsAddressableKind(kinds[j])
        {
          allAreAddressable := IsAddressableKind(kinds[i]);
          i := i + 1;
        }
        if allAreAddressable {
          return Length(filter.authors) * |kinds| * |DValues(filter)|;
        }
      }
    }
    limit := -1;
  }

  predicate All(kinds: seq<int>, p: int -> bool) {
    forall i :: 0 <= i < |kinds| ==> p(kinds[i])
  }

  function TheoreticalLimit(f: Filter): int {
    if Length(f.ids) > 0 then Length(f.ids)
    else if Length(f.kinds) == 0 || Length(f.authors) == 0 then -1
    else if All(f.kinds.value, IsReplaceableKind) then Length(f.authors) * Length(f.kinds)
    else if DValues(f) != [] && All(f.kinds.value, IsAddressableKind) then
      Length(f.authors) * Length(f.kinds) * |DValues(f)|
    else -1
  }

  // ----- counting by keys -----

  // Things with different keys are no more than there are keys.
  lemma {:induction false} NoMoreThanKeys<A, K>(s: set<A>, key: A -> K, keys: seq<K>)
    requires forall a :: a in s ==> key(a) in keys
    requires forall a, b :: a in s && b in s && key(a) == key(b) ==> a == b
    ensures |s| <= |keys|
  {
    if s != {} {
      var last := |keys| - 1;
      assert keys == keys[..last] + [keys[last]];
      if a :| a in s && key(a) == keys[last] {
        NoMoreThanKeys(s - {a}, key, keys[..last]);
      } else {
        NoMoreThanKeys(s, key, keys[..last]);
      }
    }
  }

  function PairWith<A, B>(x: A, ys: seq<B>): (r: seq<(A, B)>)
    ensures |r| == |ys|
    ensures forall y :: y in ys ==> (x, y) in r
  {
    if ys == [] then [] else [(x, ys[0])] + PairWith(x, ys[1..])
  }

  function Product<A, B>(xs: seq<A>, ys: seq<B>): (r: seq<(A, B)>)
    ensures |r| == |xs| * |ys|
    ensures forall x, y :: x in xs && y in ys ==> (x, y) in r
  {
    if xs == [] then [] else PairWith(xs[0], ys) + Product(xs[1..], ys)
  }

  // ----- the bound -----

  ghost predicate UniqueIds(store: set<Event>) {
    forall a, b :: a in store && b in store && a.id == b.id ==> a == b
  }

  // Of each replaceable kind an author has one event.
  ghost predicate UniqueReplaceables(store: set<Event>) {
    forall a, b ::
      (a in store && b in store && IsReplaceableKind(a.kind) && a.kind == b.kind && a.pubkey == b.pubkey) ==> a == b
  }

  predicate HasD(e: Event, v: string) {
    ContainsAny(e.tags, "d", [v])
  }

  // Of each addressable kind an author has one event with any one "d" value.
  ghost predicate UniqueAddresses(store: set<Event>) {
    forall a, b, v ::
      (a in store && b in store && IsAddressableKind(a.kind) && a.kind == b.kind && a.pubkey == b.pubkey &&
       HasD(a, v) && HasD(b, v)) ==> a == b
  }

  ghost predicate IsProper(store: set<Event>) {
    UniqueIds(store) && UniqueReplaceables(store) && UniqueAddresses(store)
  }

  ghost function Matching(store: set<Event>, f: Filter): set<Event> {
    set e | e in store && Matches(f, e)
  }

  ghost predicate RespectsTheLimit(store: set<Event>, f: Filter) {
    TheoreticalLimit(f) != -1 ==> |Matching(store, f)| <= TheoreticalLimit(f)
  }

  // The keys that the filter asks by are unique.
  ghost predicate KeysAreUnique(store: set<Event>, f: Filter) {
    if Length(f.ids) > 0 then UniqueIds(store) else UniqueReplaceables(store) && UniqueAddresses(store)
  }

  // Only what matches needs different keys, and only of the sort the filter asks by.
  lemma MatchingRespectsTheLimit(store: set<Event>, f: Filter)
    requires KeysAreUnique(Matching(store, f), f)
    ensures RespectsTheLimit(store, f)
  {
    var s := Matching(store, f);
    if Length(f.ids) > 0 {
      NoMoreThanKeys(s, (e: Event) => e.id, f.ids.value);
    } else if TheoreticalLimit(f) != -1 {
      if All(f.kinds.value, IsReplaceableKind) {
        ReplaceableKeys(s, f);
      } else {
        AddressableKeys(s, f);
      }
    }
  }

  lemma NeverMoreThanTheLimit(store: set<Event>, f: Filter)
    requires IsProper(store)
    ensures RespectsTheLimit(store, f)
  {
    hide RespectsTheLimit, HasD;
    MatchingRespectsTheLimit(store, f);
  }

  lemma ReplaceableKeys(s: set<Event>, f: Filter)
    requires UniqueReplaceables(s) && (forall e :: e in s ==> Matches(f, e))
    requires f.authors.Some? && f.kinds.Some? && All(f.kinds.value, IsReplaceableKind)
    ensures |s| <= |f.authors.value| * |f.kinds.value|
  {
    var key := (e: Event) => (e.pubkey, e.kind);
    forall e | e in s
      ensures IsReplaceableKind(e.kind) && key(e) in Product(f.authors.value, f.kinds.value)
    {
      assert e.kind in f.kinds.value;
    }
    NoMoreThanKeys(s, key, Product(f.authors.value, f.kinds.value));
  }

  // The first of the values that the event has in a "d" tag.
  function ListedD(e: Event, values: seq<string>): string {
    if values == [] then ""
    else if HasD(e, values[0]) then values[0]
    else ListedD(e, values[1..])
  }

  lemma {:induction false} ListedDIsListed(e: Event, values: seq<string>)
    requires ContainsAny(e.tags, "d", values)
    ensures ListedD(e, values) in values && HasD(e, ListedD(e, values))
  {
    if !HasD(e, values[0]) {
      var i :| 0 <= i < |e.tags| && |e.tags[i]| >= 2 && e.tags[i][0] == "d" && e.tags[i][1] in values;
      assert e.tags[i][1] in [e.tags[i][1]];
      assert e.tags[i][1] != values[0];
      assert e.tags[i][1] in values[1..];
      ListedDIsListed(e, values[1..]);
    }
  }

  lemma AddressableKeys(s: set<Event>, f: Filter)
    requires UniqueAddresses(s) && (forall e :: e in s ==> Matches(f, e))
    requires f.authors.Some? && f.kinds.Some? && All(f.kinds.value, IsAddressableKind) && DValues(f) != []
    ensures |s| <= |f.authors.value| * |f.kinds.value| * |DValues(f)|
  {
    hide ListedD, HasD, Product;
    var key := (e: Event) => ((e.pubkey, e.kind), ListedD(e, DValues(f)));
    var keys := Product(Product(f.authors.value, f.kinds.value), DValues(f));
    forall e | e in s
      ensures IsAddressableKind(e.kind) && HasD(e, ListedD(e, DValues(f))) && key(e) in keys
    {
      AddressableKeyIsListed(e, f);
    }
    NoMoreThanKeys(s, key, keys);
  }

  lemma AddressableKeyIsListed(e: Event, f: Filter)
    requires Matches(f, e) && f.authors.Some? && f.kinds.Some?
    requires All(f.kinds.value, IsAddressableKind) && DValues(f) != []
    ensures IsAddressableKind(e.kind) && HasD(e, ListedD(e, DValues(f)))
    ensures ((e.pubkey, e.kind), ListedD(e, DValues(f))) in Product(Product(f.authors.value, f.kinds.value), DValues(f))
  {
    hide Product, ListedD, HasD;
    assert e.kind in f.kinds.value;
    assert ContainsAny(e.tags, "d", f.tags["d"].value);
    ListedDIsListed(e, DValues(f));
  }

  // ----- exactly when -----

  lemma TwoExceedOne(store: set<Event>, f: Filter, a: Event, b: Event)
    requires a in store && b in store && a != b && Matches(f, a) && Matches(f, b) && TheoreticalLimit(f) == 1
    ensures !RespectsTheLimit(store, f)
  {
    assert {a, b} <= Matching(store, f);
    FewerInSubset({a, b}, Matching(store, f));
  }

  // A filter for one id, one replaceable key or one address, as a and b share it.
  lemma SharedKeyExceeds(store: set<Event>, a: Event, b: Event, v: string) returns (f: Filter)
    requires a in store && b in store && a != b
    requires
      || a.id == b.id
      || (a.kind == b.kind && a.pubkey == b.pubkey &&
          (IsReplaceableKind(a.kind) || (IsAddressableKind(a.kind) && HasD(a, v) && HasD(b, v))))
    ensures !RespectsTheLimit(store, f)
  {
    if a.id == b.id {
      f := EVERYTHING.(ids := Some([a.id]));
    } else {
      f := EVERYTHING.(kinds := Some([a.kind]), authors := Some([a.pubkey]));
      if !IsReplaceableKind(a.kind) {
        f := f.(tags := map["d" := Some([v])]);
        assert f.tags["d"].value == [v] && DValues(f) == [v];
        assert !IsReplaceableKind(f.kinds.value[0]);
      }
    }
    TwoExceedOne(store, f, a, b);
  }

  // No filter matches more than its limit if and only if no two events of the
  // store share an id, a replaceable key or an address.
  lemma LimitHoldsIffProper(store: set<Event>)
    ensures (forall f :: RespectsTheLimit(store, f)) <==> IsProper(store)
  {
    hide RespectsTheLimit, HasD;
    if IsProper(store) {
      forall f
        ensures RespectsTheLimit(store, f)
      {
        NeverMoreThanTheLimit(store, f);
      }
    } else if !UniqueIds(store) {
      var a, b :| a in store && b in store && a.id == b.id && a != b;
      var f := SharedKeyExceeds(store, a, b, "");
    } else if !UniqueReplaceables(store) {
      var a, b :|
        a in store && b in store && IsReplaceableKind(a.kind) && a.kind == b.kind && a.pubkey == b.pubkey && a != b;
      var f := SharedKeyExceeds(store, a, b, "");
    } else {
      var a, b, v :|
        a in store && b in store && IsAddressableKind(a.kind) && a.kind == b.kind && a.pubkey == b.pubkey &&
        HasD(a, v) && HasD(b, v) && a != b;
      var f := SharedKeyExceeds(store, a, b, v);
    }
  }

  // A second "d" tag is enough to exceed the limit.
  lemma SecondDTagExceedsTheLimit(a: Event, b: Event, f: Filter)
    requires a.kind == b.kind == 30000 && a.pubkey == b.pubkey == "p" && a.id != b.id
    requires a.tags == [["d", "a"], ["d", "x"]] && b.tags == [["d", "b"], ["d", "x"]]
    requires f == EVERYTHING.(kinds := Some([30000]), authors := Some(["p"]), tags := map["d" := Some(["x"])])
    ensures KeyOf(a) != KeyOf(b)
    ensures TheoreticalLimit(f) == 1 && |Matching({a, b}, f)| == 2
  {
    assert a.tags[1][0] == b.tags[1][0] == "d" && a.tags[1][1] == b.tags[1][1] == "x";
    assert a.tags[0] == ["d", "a"] && b.tags[0] == ["d", "b"];
    assert GetD(a.tags) == "a" && GetD(b.tags) == "b";
    assert f.tags["d"].value == ["x"] && DValues(f) == ["x"];
    assert ContainsAny(a.tags, "d", ["x"]) && ContainsAny(b.tags, "d", ["x"]);
    assert All(f.kinds.value, IsAddressableKind) && !IsReplaceableKind(f.kinds.value[0]);
    assert Matching({a, b}, f) == {a, b};
  }

  // ----- what the relay stores respects the limit -----

  lemma WellTaggedHasOneD(e: Event, v: string)
    requires IsAddressableKind(e.kind) && WellTagged(e) && HasD(e, v)
    ensures v == GetD(e.tags)
  {
    var i :| 0 <= i < |e.tags| && |e.tags[i]| >= 2 && e.tags[i][0] == "d" && e.tags[i][1] in [v];
    assert IsOneLetterTag(e.tags[i], v);
    assert v in TagValues(e.tags);
  }

  // The addressable kinds the filter asks for must be well tagged, and nothing
  // at all if it lists ids.
  lemma RunsRespectTheLimit(steps: seq<Step>, f: Filter)
    requires Length(f.ids) == 0 && f.kinds.Some? ==>
               forall kind :: kind in f.kinds.value && IsAddressableKind(kind) ==> KindIsWellTagged(steps, kind)
    ensures RespectsTheLimit(Run(steps).Values, f)
  {
    hide WellTagged, HasD, KeyOf, Run, Tidy, MatchesIgnoringTimestamps;
    var rows := Run(steps);
    forall e | e in rows.Values
      ensures Stored(e, rows)
    {
    }
    if Length(f.ids) > 0 {
      MatchingRespectsTheLimit(rows.Values, f);
    } else if Length(f.kinds) > 0 {
      forall kind | kind in f.kinds.value && !IsRegularKind(kind)
        ensures Tidy(rows, kind)
      {
        OtherKindsAreWellTagged(steps, kind);
        RunsKeepOneRowPerKey(steps, kind);
      }
      TidyKindsAreUnique(rows, f);
      MatchingRespectsTheLimit(rows.Values, f);
    }
  }

  lemma TidyKindsAreUnique(rows: Rows, f: Filter)
    requires f.kinds.Some? && Keyed(rows)
    requires forall kind :: kind in f.kinds.value && !IsRegularKind(kind) ==> Tidy(rows, kind)
    ensures UniqueReplaceables(Matching(rows.Values, f)) && UniqueAddresses(Matching(rows.Values, f))
  {
    hide WellTagged, HasD, KeyOf, ContainsAny;
    var s := Matching(rows.Values, f);
    forall e | e in s
      ensures Stored(e, rows) && e.kind in f.kinds.value
    {
    }
    forall a, b | a in s && b in s && IsReplaceableKind(a.kind) && a.kind == b.kind && a.pubkey == b.pubkey
      ensures a == b
    {
      assert Tidy(rows, a.kind);
      SameKey(a, b);
    }
    forall a, b, v | a in s && b in s && IsAddressableKind(a.kind) && a.kind == b.kind && a.pubkey == b.pubkey &&
                     HasD(a, v) && HasD(b, v)
      ensures a == b
    {
      assert Tidy(rows, a.kind);
      WellTaggedHasOneD(a, v);
      WellTaggedHasOneD(b, v);
      SameKey(a, b);
    }
  }

  lemma SameKey(a: Event, b: Event)
    requires a.kind == b.kind && a.pubkey == b.pubkey && (IsAddressableKind(a.kind) ==> GetD(a.tags) == GetD(b.tags))
    ensures KeyOf(a) == KeyOf(b)
  {
  }
}
