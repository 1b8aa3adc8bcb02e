// How the rows a query selects relate to the events its filter matches.
module Selection {
  import opened Wrappers
  import opened Events
  import opened EventTable

  predicate Empty<T>(xs: Option<seq<T>>) {
    xs.Some? && xs.value == []
  }

  lemma NamedValueIsListed(tags: seq<Tag>, name: string, values: seq<string>)
    requires |name| == 1 && ContainsAny(tags, name, values)
    ensures Overlaps(TagValues(tags), values)
  {
    var i :| 0 <= i < |tags| && |tags[i]| >= 2 && tags[i][0] == name && tags[i][1] in values;
    var v := tags[i][1];
    assert IsOneLetterTag(tags[i], v);
    assert v in TagValues(tags);
    var k :| 0 <= k < |TagValues(tags)| && TagValues(tags)[k] == v;
  }

  // ----- when every matching row is selected -----

  // Every name that is not one letter, which the table keeps no values of, is
  // backed by a one-letter name that lists no other values.
  predicate LongNamesAreBacked(f: Filter) {
    forall name :: name in f.tags && f.tags[name].Some? && |name| != 1 ==> IsBacked(f.tags, f.tags[name].value)
  }

  predicate IsBacked(tags: map<string, Option<seq<string>>>, values: seq<string>) {
    exists name :: name in tags && |name| == 1 && tags[name].Some? && Within(tags[name].value, values)
  }

  predicate Within(xs: seq<string>, ys: seq<string>) {
    forall i :: 0 <= i < |xs| ==> xs[i] in ys
  }

  // Whether the filter matches any event at all.
  predicate Matchable(f: Filter) {
    !Empty(f.ids) && !Empty(f.authors) && !Empty(f.kinds) && Selectable(f)
  }

  lemma MatchingIsSelected(f: Filter, e: Event)
    requires LongNamesAreBacked(f) && Matches(f, e)
    ensures SelectedBy(f, e)
  {
    forall name | name in f.tags && f.tags[name].Some?
      ensures Overlaps(TagValues(e.tags), f.tags[name].value)
    {
      if |name| == 1 {
        NamedValueIsListed(e.tags, name, f.tags[name].value);
      } else {
        var other :|
          other in f.tags && |other| == 1 && f.tags[other].Some? && Within(f.tags[other].value, f.tags[name].value);
        NamedValueIsListed(e.tags, other, f.tags[other].value);
      }
    }
  }

  lemma MatchingIsMatchable(f: Filter, e: Event)
    requires Matches(f, e)
    ensures Matchable(f)
  {
    forall name | name in f.tags
      ensures !Empty(f.tags[name])
    {
      assert f.tags[name].Some? ==> ContainsAny(e.tags, name, f.tags[name].value);
    }
  }

  // One tag for each of these names, of one letter none with these values.
  lemma {:induction false} TagsAvoiding(tags: map<string, Option<seq<string>>>, names: set<string>, values: seq<string>)
    returns (made: seq<Tag>)
    requires names <= tags.Keys && !IsBacked(tags, values) && forall name :: name in tags ==> !Empty(tags[name])
    ensures forall name :: name in names && tags[name].Some? ==> ContainsAny(made, name, tags[name].value)
    ensures !Overlaps(TagValues(made), values)
    decreases names
  {
    made := [];
    if names != {} {
      var name :| name in names;
      made := TagsAvoiding(tags, names - {name}, values);
      if tags[name].Some? {
        var rest, listed := made, tags[name].value;
        var v := listed[0];
        if |name| == 1 {
          assert !Within(listed, values);
          var i :| 0 <= i < |listed| && listed[i] !in values;
          v := listed[i];
        }
        made := [[name, v]] + rest;
        assert made[0] == [name, v] && made[1..] == rest;
        assert TagValues(made) == (if |name| == 1 then [v] else []) + TagValues(rest);
        forall other | other in names && tags[other].Some?
          ensures ContainsAny(made, other, tags[other].value)
        {
          if other != name {
            var i :| 0 <= i < |rest| && |rest[i]| >= 2 && rest[i][0] == other && rest[i][1] in tags[other].value;
            assert made[i + 1] == rest[i];
          }
        }
      }
    }
  }

  lemma UnbackedIsMissed(f: Filter, name: string) returns (e: Event)
    requires Matchable(f) && name in f.tags && f.tags[name].Some? && |name| != 1
    requires !IsBacked(f.tags, f.tags[name].value)
    ensures Matches(f, e) && !SelectedBy(f, e)
  {
    var tags := TagsAvoiding(f.tags, f.tags.Keys, f.tags[name].value);
    e := Event(FirstOr(f.ids, ""), FirstOr(f.authors, ""), TimeWithin(f), FirstOr(f.kinds, 0), tags, "");
  }

  // Every matching event is selected if and only if the filter matches nothing
  // or its long names are backed.
  lemma MatchingIsSelectedIff(f: Filter)
    ensures (forall e :: Matches(f, e) ==> SelectedBy(f, e)) <==> (Matchable(f) ==> LongNamesAreBacked(f))
  {
    if Matchable(f) && !LongNamesAreBacked(f) {
      var name :| name in f.tags && f.tags[name].Some? && |name| != 1 && !IsBacked(f.tags, f.tags[name].value);
      var e := UnbackedIsMissed(f, name);
    } else {
      forall e | Matches(f, e)
        ensures SelectedBy(f, e)
      {
        MatchingIsMatchable(f, e);
        MatchingIsSelected(f, e);
      }
    }
  }

  // A name of several letters is never looked up with success by itself.
  lemma LongNameIsMissed(e: Event)
    requires e.tags == [["emoji", "x"]]
    ensures var f := EVERYTHING.(tags := map["emoji" := Some(["x"])]);
            Matches(f, e) && !SelectedBy(f, e)
  {
    var f := EVERYTHING.(tags := map["emoji" := Some(["x"])]);
    assert e.tags[0] == ["emoji", "x"];
    assert ContainsAny(e.tags, "emoji", f.tags["emoji"].value);
    assert TagValues(e.tags) == [];
    assert "emoji" in f.tags && f.tags["emoji"].Some?;
  }

  // ----- when every selected row matches -----

  // Whether the filter selects any event at all.
  predicate Selectable(f: Filter) {
    (forall name :: name in f.tags ==> !Empty(f.tags[name])) &&
    (f.since.Some? && f.until.Some? ==> f.since.value <= f.until.value)
  }

  // The filter asks nothing that SQL cannot say: no empty list, which matches
  // nothing, and no tag, whose name is disregarded.
  predicate SqlSaysItAll(f: Filter) {
    !Empty(f.ids) && !Empty(f.authors) && !Empty(f.kinds) && forall name :: name in f.tags ==> f.tags[name].None?
  }

  // Another name, of one letter exactly if this one is.
  function OtherName(name: string): (other: string)
    ensures other != name && (|other| == 1 <==> |name| == 1)
  {
    if name == "a" then "b" else if |name| == 1 then "a" else name + "xx"
  }

  // The tags of this name under another.
  function Renamed(tags: seq<Tag>, name: string): (r: seq<Tag>)
    ensures |r| == |tags|
    ensures forall i :: 0 <= i < |tags| ==> r[i] == RenamedTag(tags[i], name)
  {
    if tags == [] then [] else [RenamedTag(tags[0], name)] + Renamed(tags[1..], name)
  }

  function RenamedTag(tag: Tag, name: string): Tag {
    if |tag| > 0 && tag[0] == name then tag[0 := OtherName(name)] else tag
  }

  lemma {:induction false} RenamingKeepsValues(tags: seq<Tag>, name: string)
    ensures TagValues(Renamed(tags, name)) == TagValues(tags)
  {
    if tags != [] {
      RenamingKeepsValues(tags[1..], name);
      assert Renamed(tags, name)[1..] == Renamed(tags[1..], name);
    }
  }

  // A selected event is still selected when its tags of a name asked for are
  // renamed, but does not match any more.
  lemma RenamedIsSelected(f: Filter, e: Event, name: string) returns (other: Event)
    requires SelectedBy(f, e) && name in f.tags && f.tags[name].Some?
    ensures SelectedBy(f, other) && !Matches(f, other)
  {
    other := e.(tags := Renamed(e.tags, name));
    RenamingKeepsValues(e.tags, name);
    assert !ContainsAny(other.tags, name, f.tags[name].value);
  }

  // One tag for each of these names that lists values.
  lemma {:induction false} TagsForAll(tags: map<string, Option<seq<string>>>, names: set<string>)
    returns (made: seq<Tag>)
    requires names <= tags.Keys && forall name :: name in tags ==> !Empty(tags[name])
    ensures forall name :: name in names && tags[name].Some? ==> Overlaps(TagValues(made), tags[name].value)
    decreases names
  {
    made := [];
    if names != {} {
      var name :| name in names;
      made := TagsForAll(tags, names - {name});
      if tags[name].Some? {
        var rest, v := made, tags[name].value[0];
        made := [["a", v]] + rest;
        assert made[1..] == rest;
        assert TagValues(made) == [v] + TagValues(rest);
        assert TagValues(made)[0] in tags[name].value;
        forall other | other in names - {name} && tags[other].Some?
          ensures Overlaps(TagValues(made), tags[other].value)
        {
          var i :| 0 <= i < |TagValues(rest)| && TagValues(rest)[i] in tags[other].value;
          assert TagValues(made)[i + 1] in tags[other].value;
        }
      }
    }
  }

  function FirstOr<T>(xs: Option<seq<T>>, x: T): T {
    if Length(xs) > 0 then xs.value[0] else x
  }

  function TimeWithin(f: Filter): int {
    if f.since.Some? then f.since.value else if f.until.Some? then f.until.value else 0
  }

  lemma SelectableIsSelected(f: Filter) returns (e: Event)
    requires Selectable(f)
    ensures SelectedBy(f, e)
  {
    var tags := TagsForAll(f.tags, f.tags.Keys);
    e := Event(FirstOr(f.ids, ""), FirstOr(f.authors, ""), TimeWithin(f), FirstOr(f.kinds, 0), tags, "");
  }

  lemma SelectedIsSelectable(f: Filter, e: Event)
    requires SelectedBy(f, e)
    ensures Selectable(f)
  {
    forall name | name in f.tags
      ensures !Empty(f.tags[name])
    {
      assert f.tags[name].Some? ==> Overlaps(TagValues(e.tags), f.tags[name].value);
    }
  }

  // Every selected row matches if and only if the filter selects nothing or
  // SQL says all it asks.
  lemma SelectionAgainstMatches(f: Filter)
    ensures (forall e :: SelectedBy(f, e) ==> Matches(f, e)) <==> (Selectable(f) ==> SqlSaysItAll(f))
  {
    if Selectable(f) {
      var e := SelectableIsSelected(f);
      if name :| name in f.tags && f.tags[name].Some? {
        var other := RenamedIsSelected(f, e, name);
      }
    } else {
      forall e
        ensures !SelectedBy(f, e)
      {
        if SelectedBy(f, e) {
          SelectedIsSelectable(f, e);
        }
      }
    }
  }

  // A "p" tag satisfies a filter for the same value in an "e" tag.
  lemma SelectionIgnoresNames(e: Event)
    requires e.tags == [["p", "x"]]
    ensures var f := EVERYTHING.(tags := map["e" := Some(["x"])]);
            SelectedBy(f, e) && !Matches(f, e)
  {
    var f := EVERYTHING.(tags := map["e" := Some(["x"])]);
    assert IsOneLetterTag(e.tags[0], "x");
    assert TagValues(e.tags)[0] in f.tags["e"].value;
    assert "e" in f.tags && !ContainsAny(e.tags, "e", f.tags["e"].value);
  }

  // A name of more letters, such as "#e", is looked up all the same, although
  // no tag of a matching event need carry its value.
  lemma LongNamesAreLookedUpToo(e: Event, id: string)
    requires e.tags == [["e", id]]
    ensures var f := EVERYTHING.(tags := map["#e" := Some([id])]);
            SelectedBy(f, e) && !Matches(f, e)
  {
    var f := EVERYTHING.(tags := map["#e" := Some([id])]);
    assert IsOneLetterTag(e.tags[0], id);
    assert TagValues(e.tags)[0] in f.tags["#e"].value;
    assert "#e" in f.tags && !ContainsAny(e.tags, "#e", f.tags["#e"].value);
  }
}
