// The theoretical limit is as low as it can be: it is attained, and where there
// is none the matching events have no bound.
module Tightness {
  import opened Wrappers
  import opened Events
  import opened Selection
  import opened TheoreticalLimits
  import Items

  predicate NoRepeats<T(==)>(xs: seq<T>) {
    forall i, j :: 0 <= i < j < |xs| ==> xs[i] != xs[j]
  }

  // ----- as many events as there are keys -----

  lemma {:induction false} AsManyAsKeys<K(!new)>(keys: seq<K>, make: K -> Event)
    requires NoRepeats(keys)
    requires forall a, b :: a in keys && b in keys && make(a) == make(b) ==> a == b
    ensures |set k | k in keys :: make(k)| == |keys|
  {
    if keys != [] {
      var last := |keys| - 1;
      var rest := keys[..last];
      assert keys == rest + [keys[last]];
      AsManyAsKeys(rest, make);
      assert keys[last] !in rest;
      assert (set k | k in keys :: make(k)) == (set k | k in rest :: make(k)) + {make(keys[last])};
    }
  }

  lemma AllMatch<K(!new)>(f: Filter, keys: seq<K>, make: K -> Event) returns (store: set<Event>)
    requires NoRepeats(keys)
    requires forall a, b :: a in keys && b in keys && make(a) == make(b) ==> a == b
    requires forall k :: k in keys ==> Matches(f, make(k))
    ensures store == (set k | k in keys :: make(k)) && |Matching(store, f)| == |keys|
  {
    hide Matches, NoRepeats;
    AsManyAsKeys(keys, make);
    store := set k | k in keys :: make(k);
    assert Matching(store, f) == store;
  }

  lemma {:induction false} PairsDoNotRepeat<A, B>(x: A, ys: seq<B>)
    requires NoRepeats(ys)
    ensures NoRepeats(PairWith(x, ys))
    ensures forall p :: p in PairWith(x, ys) ==> p.0 == x && p.1 in ys
  {
    if ys != [] {
      PairsDoNotRepeat(x, ys[1..]);
    }
  }

  lemma {:induction false} ProductDoesNotRepeat<A, B>(xs: seq<A>, ys: seq<B>)
    requires NoRepeats(xs) && NoRepeats(ys)
    ensures NoRepeats(Product(xs, ys))
    ensures forall p :: p in Product(xs, ys) ==> p.0 in xs && p.1 in ys
  {
    if xs != [] {
      PairsDoNotRepeat(xs[0], ys);
      ProductDoesNotRepeat(xs[1..], ys);
      assert xs[0] !in xs[1..];
      var first, rest := PairWith(xs[0], ys), Product(xs[1..], ys);
      forall i, j | 0 <= i < |first| && 0 <= j < |rest|
        ensures first[i] != rest[j]
      {
        assert first[i] in first && rest[j] in rest;
      }
    }
  }

  // ----- tags that meet the filter -----

  // One tag for each of these names.
  lemma {:induction false} TagsNaming(tags: map<string, Option<seq<string>>>, names: set<string>)
    returns (made: seq<Tag>)
    requires names <= tags.Keys && forall name :: name in tags ==> !Empty(tags[name])
    ensures forall name :: name in names && tags[name].Some? ==> ContainsAny(made, name, tags[name].value)
    ensures forall i :: 0 <= i < |made| ==> |made[i]| >= 2 && made[i][0] in names && tags[made[i][0]].Some?
    decreases names
  {
    made := [];
    if names != {} {
      var name :| name in names;
      made := TagsNaming(tags, names - {name});
      if tags[name].Some? {
        var rest := made;
        made := [[name, tags[name].value[0]]] + rest;
        assert made[0] == [name, tags[name].value[0]];
        forall other | other in names && other != name && tags[other].Some?
          ensures ContainsAny(made, other, tags[other].value)
        {
          ContainsMore(made[0], rest, other, tags[other].value);
        }
      }
    }
  }

  lemma ContainsMore(first: Tag, rest: seq<Tag>, name: string, values: seq<string>)
    ensures ContainsAny([first] + rest, name, values) <==>
            (|first| >= 2 && first[0] == name && first[1] in values) || ContainsAny(rest, name, values)
  {
    var more := [first] + rest;
    assert more[0] == first;
    if i :| 0 <= i < |rest| && |rest[i]| >= 2 && rest[i][0] == name && rest[i][1] in values {
      assert more[i + 1] == rest[i];
    }
    if i :| 0 < i < |more| && |more[i]| >= 2 && more[i][0] == name && more[i][1] in values {
      assert more[i] == rest[i - 1];
    }
  }

  ghost predicate MeetsTags(f: Filter, tags: seq<Tag>) {
    forall name :: name in f.tags && f.tags[name].Some? ==> ContainsAny(tags, name, f.tags[name].value)
  }

  lemma AllNamesMet(f: Filter) returns (tags: seq<Tag>)
    requires Matchable(f)
    ensures MeetsTags(f, tags)
  {
    tags := TagsNaming(f.tags, f.tags.Keys);
  }

  // Tags that meet the filter whatever the "d" value of the first is, if the
  // filter has that value or no "d" at all.
  lemma AllNamesMetBesideD(f: Filter) returns (tags: seq<Tag>)
    requires Matchable(f)
    ensures forall v :: DValues(f) == [] || v in DValues(f) ==> MeetsTags(f, [["d", v]] + tags)
    ensures forall v, w :: ListsD([["d", v]] + tags, w) <==> v == w
  {
    tags := TagsNaming(f.tags, f.tags.Keys - {"d"});
    forall v | DValues(f) == [] || v in DValues(f)
      ensures MeetsTags(f, [["d", v]] + tags)
    {
      forall name | name in f.tags && f.tags[name].Some?
        ensures ContainsAny([["d", v]] + tags, name, f.tags[name].value)
      {
        ContainsMore(["d", v], tags, name, f.tags[name].value);
      }
    }
    forall v, w
      ensures ListsD([["d", v]] + tags, w) <==> v == w
    {
      ContainsMore(["d", v], tags, "d", [w]);
    }
  }

  predicate ListsD(tags: seq<Tag>, v: string) {
    ContainsAny(tags, "d", [v])
  }

  lemma MadeMatches(f: Filter, e: Event)
    requires Matchable(f) && MeetsTags(f, e.tags) && e.createdAt == TimeWithin(f)
    requires f.ids.Some? ==> e.id in f.ids.value
    requires f.authors.Some? ==> e.pubkey in f.authors.value
    requires f.kinds.Some? ==> e.kind in f.kinds.value
    ensures Matches(f, e)
  {
  }

  // ----- the limit is attained -----

  predicate ListsDoNotRepeat(f: Filter) {
    (f.ids.Some? ==> NoRepeats(f.ids.value)) && (f.authors.Some? ==> NoRepeats(f.authors.value)) &&
    (f.kinds.Some? ==> NoRepeats(f.kinds.value)) && NoRepeats(DValues(f))
  }

  // If its lists do not repeat themselves, a filter that matches anything
  // matches as many events of some store as its limit, the store being one in
  // which the keys it asks by are unique.
  lemma LimitIsAttained(f: Filter) returns (store: set<Event>)
    requires Matchable(f) && TheoreticalLimit(f) != -1 && ListsDoNotRepeat(f)
    ensures KeysAreUnique(store, f) && |Matching(store, f)| == TheoreticalLimit(f)
  {
    hide Matches, MeetsTags;
    if Length(f.ids) > 0 {
      store := AttainedByIds(f);
    } else if All(f.kinds.value, IsReplaceableKind) {
      store := AttainedByReplaceables(f);
    } else {
      store := AttainedByAddresses(f);
    }
  }

  lemma AttainedByIds(f: Filter) returns (store: set<Event>)
    requires Matchable(f) && Length(f.ids) > 0 && NoRepeats(f.ids.value)
    ensures UniqueIds(store) && |Matching(store, f)| == |f.ids.value|
  {
    hide MeetsTags, NoRepeats, Matches;
    var tags := AllNamesMet(f);
    var make := (id: string) => Event(id, FirstOr(f.authors, ""), TimeWithin(f), FirstOr(f.kinds, 0), tags, "");
    forall id | id in f.ids.value
      ensures Matches(f, make(id))
    {
      MadeMatches(f, make(id));
    }
    store := AllMatch(f, f.ids.value, make);
  }

  lemma AttainedByReplaceables(f: Filter) returns (store: set<Event>)
    requires Matchable(f) && Length(f.ids) == 0 && Length(f.kinds) > 0 && Length(f.authors) > 0
    requires All(f.kinds.value, IsReplaceableKind) && NoRepeats(f.authors.value) && NoRepeats(f.kinds.value)
    ensures UniqueReplaceables(store) && UniqueAddresses(store)
    ensures |Matching(store, f)| == |f.authors.value| * |f.kinds.value|
  {
    hide MeetsTags, NoRepeats, Matches, Product;
    var tags := AllNamesMet(f);
    var make := (p: (string, int)) => Event("", p.0, TimeWithin(f), p.1, tags, "");
    var keys := Product(f.authors.value, f.kinds.value);
    ProductDoesNotRepeat(f.authors.value, f.kinds.value);
    forall p | p in keys
      ensures Matches(f, make(p)) && IsReplaceableKind(p.1)
    {
      MadeMatches(f, make(p));
    }
    store := AllMatch(f, keys, make);
  }

  lemma AttainedByAddresses(f: Filter) returns (store: set<Event>)
    requires Matchable(f) && Length(f.ids) == 0 && Length(f.kinds) > 0 && Length(f.authors) > 0
    requires All(f.kinds.value, IsAddressableKind) && NoRepeats(f.authors.value) && NoRepeats(f.kinds.value)
    requires DValues(f) != [] && NoRepeats(DValues(f))
    ensures UniqueReplaceables(store) && UniqueAddresses(store)
    ensures |Matching(store, f)| == |f.authors.value| * |f.kinds.value| * |DValues(f)|
  {
    hide MeetsTags, NoRepeats, Matches, Product, DValues, ContainsAny;
    var tags := AllNamesMetBesideD(f);
    var make := (p: ((string, int), string)) =>
        Event("", p.0.0, TimeWithin(f), p.0.1, [["d", p.1]] + tags, "");
    var pairs := Product(f.authors.value, f.kinds.value);
    var keys := Product(pairs, DValues(f));
    ProductDoesNotRepeat(f.authors.value, f.kinds.value);
    ProductDoesNotRepeat(pairs, DValues(f));
    forall p | p in keys
      ensures Matches(f, make(p)) && IsAddressableKind(p.0.1)
    {
      assert p.0 in pairs;
      MadeMatches(f, make(p));
    }
    forall p, q | p in keys && q in keys && make(p) == make(q)
      ensures p == q
    {
      assert ([["d", p.1]] + tags)[0] == ([["d", q.1]] + tags)[0];
    }
    store := AllMatch(f, keys, make);
    AddressesAreUnique(store, keys, make, tags);
  }

  lemma AddressesAreUnique(store: set<Event>, keys: seq<((string, int), string)>,
                           make: (((string, int), string)) -> Event, tags: seq<Tag>)
    requires store == set p | p in keys :: make(p)
    requires forall p :: p in keys ==> make(p).pubkey == p.0.0 && make(p).kind == p.0.1 && IsAddressableKind(p.0.1) &&
                                       make(p).tags == [["d", p.1]] + tags
    requires forall v, w :: ListsD([["d", v]] + tags, w) <==> v == w
    ensures UniqueReplaceables(store) && UniqueAddresses(store)
  {
    hide ContainsAny;
    forall a, b, v | a in store && b in store && a.kind == b.kind && a.pubkey == b.pubkey &&
                     HasD(a, v) && HasD(b, v)
      ensures a == b
    {
      var p :| p in keys && make(p) == a;
      var q :| q in keys && make(q) == b;
      assert ListsD([["d", p.1]] + tags, v) && ListsD([["d", q.1]] + tags, v);
      assert p == q;
    }
  }

  // ----- without a limit there is no bound -----

  // Replaceable and addressable kinds side by side, and "d" values given: the
  // matching events are bounded, but no limit is computed.
  predicate MixesKinds(f: Filter) {
    Length(f.kinds) > 0 && Length(f.authors) > 0 && DValues(f) != [] &&
    forall k :: k in f.kinds.value ==> IsReplaceableKind(k) || IsAddressableKind(k)
  }

  function Numbers(n: nat): (ns: seq<nat>)
    ensures |ns| == n && forall i :: 0 <= i < n ==> ns[i] == i
  {
    seq(n, i requires 0 <= i < n => i)
  }

  // How the events of a growing store differ: by id only, by author, or by the
  // "d" value.
  datatype Family = ById | ByAuthor | ByD

  function Member(f: Filter, family: Family, kind: int, tags: seq<Tag>, i: nat): Event {
    var name := Items.Repeated('0', i);
    Event(name, if family.ByAuthor? then name else FirstOr(f.authors, ""), TimeWithin(f), kind,
          if family.ByD? then [["d", name]] + tags else tags, "")
  }

  lemma {:induction false} NamesDiffer(i: nat, j: nat)
    ensures Items.Repeated('0', i) == Items.Repeated('0', j) <==> i == j
  {
    assert |Items.Repeated('0', i)| == i && |Items.Repeated('0', j)| == j;
  }

  ghost predicate Fits(f: Filter, family: Family, kind: int, tags: seq<Tag>) {
    (f.kinds.Some? ==> kind in f.kinds.value) &&
    match family
    case ById => !IsReplaceableKind(kind) && !IsAddressableKind(kind) && MeetsTags(f, tags)
    case ByAuthor => f.authors.None? && MeetsTags(f, tags)
    case ByD => IsAddressableKind(kind) && (forall v :: MeetsTags(f, [["d", v]] + tags)) &&
                forall v, w :: ListsD([["d", v]] + tags, w) <==> v == w
  }

  lemma FamilyIsProper(f: Filter, family: Family, kind: int, tags: seq<Tag>, n: nat, store: set<Event>)
    requires Fits(f, family, kind, tags) && store == set i | i in Numbers(n) :: Member(f, family, kind, tags, i)
    ensures IsProper(store)
  {
    hide MeetsTags, ContainsAny, ListsD;
    forall a, b | a in store && b in store
      ensures a.id == b.id ==> a == b
      ensures family.ByAuthor? && a.pubkey == b.pubkey ==> a == b
      ensures a.kind == b.kind == kind
    {
      var i :| i in Numbers(n) && Member(f, family, kind, tags, i) == a;
      var j :| j in Numbers(n) && Member(f, family, kind, tags, j) == b;
      NamesDiffer(i, j);
    }
    forall a, v | a in store && family.ByD? && HasD(a, v)
      ensures a.id == v
    {
      var i :| i in Numbers(n) && Member(f, family, kind, tags, i) == a;
      DIsListed(a, [["d", a.id]] + tags, v);
    }
  }

  lemma DIsListed(e: Event, tags: seq<Tag>, v: string)
    requires e.tags == tags && HasD(e, v)
    ensures ListsD(tags, v)
  {
  }

  lemma FamilyMatches(f: Filter, family: Family, kind: int, tags: seq<Tag>, n: nat) returns (store: set<Event>)
    requires Matchable(f) && Length(f.ids) == 0 && Fits(f, family, kind, tags)
    ensures IsProper(store) && |Matching(store, f)| == n
  {
    hide MeetsTags, Matches, ListsD, IsProper;
    var make := (i: nat) => Member(f, family, kind, tags, i);
    forall i: nat, j: nat | make(i) == make(j)
      ensures i == j
    {
      NamesDiffer(i, j);
    }
    forall i | i in Numbers(n)
      ensures Matches(f, make(i))
    {
      MadeMatches(f, make(i));
    }
    store := AllMatch(f, Numbers(n), make);
    FamilyIsProper(f, family, kind, tags, n, store);
  }

  // A filter that matches anything and has no limit matches any number of
  // events of some proper store, unless it mixes kinds.
  lemma NoLimitNoBound(f: Filter, n: nat) returns (store: set<Event>)
    requires Matchable(f) && TheoreticalLimit(f) == -1 && !MixesKinds(f)
    ensures IsProper(store) && |Matching(store, f)| == n
  {
    hide MeetsTags, Matches, IsProper, ListsD, ContainsAny;
    if f.kinds.None? {
      var tags := AllNamesMet(f);
      store := FamilyMatches(f, ById, 1, tags, n);
    } else if f.authors.None? {
      var tags := AllNamesMet(f);
      store := FamilyMatches(f, ByAuthor, f.kinds.value[0], tags, n);
    } else if k :| k in f.kinds.value && !IsReplaceableKind(k) && !IsAddressableKind(k) {
      var tags := AllNamesMet(f);
      store := FamilyMatches(f, ById, k, tags, n);
    } else {
      var i :| 0 <= i < |f.kinds.value| && !IsReplaceableKind(f.kinds.value[i]);
      var tags := AllNamesMetBesideD(f);
      store := FamilyMatches(f, ByD, f.kinds.value[i], tags, n);
    }
  }

  // No "d" value, or one of these.
  function NoneOr(values: seq<string>): (r: seq<Option<string>>)
    ensures |r| == 1 + |values| && None in r && forall v :: v in values ==> Some(v) in r
  {
    if values == [] then [None]
    else [Some(values[0])] + NoneOr(values[1..])
  }

  function MixedKey(e: Event, values: seq<string>): ((string, int), Option<string>) {
    ((e.pubkey, e.kind), if IsReplaceableKind(e.kind) then None else Some(ListedD(e, values)))
  }

  // Mixed kinds have a bound although no limit is computed.
  lemma MixedKindsAreBounded(store: set<Event>, f: Filter)
    requires MixesKinds(f) && IsProper(store)
    ensures |Matching(store, f)| <= |f.authors.value| * |f.kinds.value| * (1 + |DValues(f)|)
  {
    hide Matches, ListedD, Product;
    var s := Matching(store, f);
    var key := (e: Event) => MixedKey(e, DValues(f));
    var keys := Product(Product(f.authors.value, f.kinds.value), NoneOr(DValues(f)));
    forall e | e in s
      ensures key(e) in keys
      ensures IsReplaceableKind(e.kind) || (IsAddressableKind(e.kind) && HasD(e, ListedD(e, DValues(f))))
    {
      MixedKeyIsListed(e, f);
    }
    NoMoreThanKeys(s, key, keys);
  }

  lemma MixedKeyIsListed(e: Event, f: Filter)
    requires MixesKinds(f) && Matches(f, e)
    ensures MixedKey(e, DValues(f)) in Product(Product(f.authors.value, f.kinds.value), NoneOr(DValues(f)))
    ensures IsReplaceableKind(e.kind) || (IsAddressableKind(e.kind) && HasD(e, ListedD(e, DValues(f))))
  {
    hide Product, ListedD, NoneOr, HasD;
    assert e.kind in f.kinds.value && e.pubkey in f.authors.value;
    assert (e.pubkey, e.kind) in Product(f.authors.value, f.kinds.value);
    assert ContainsAny(e.tags, "d", f.tags["d"].value);
    ListedDIsListed(e, DValues(f));
  }
}
