// The PostgreSQL backend: the queries it builds and the writes it makes.
module Postgres {
  import opened Wrappers
  import opened Events
  import opened EventTable

  // One condition of a WHERE clause.
  datatype Condition =
    | IdIn(ids: seq<string>)
    | PubkeyIn(authors: seq<string>)
    | KindIn(kinds: seq<int>)
    | TagValuesOverlap(values: seq<string>)
    | CreatedSince(since: int)
    | CreatedUntil(until: int)

  datatype Query = Query(conditions: seq<Condition>, limit: int)

  predicate Holds(c: Condition, e: Event) {
    match c
    case IdIn(ids) => e.id in ids
    case PubkeyIn(authors) => e.pubkey in authors
    case KindIn(kinds) => e.kind in kinds
    case TagValuesOverlap(values) => Overlaps(TagValues(e.tags), values)
    case CreatedSince(since) => e.createdAt >= since
    case CreatedUntil(until) => e.createdAt <= until
  }

  predicate Where(conditions: seq<Condition>, e: Event) {
    forall i :: 0 <= i < |conditions| ==> Holds(conditions[i], e)
  }

  lemma WhereAppends(a: seq<Condition>, b: seq<Condition>)
    ensures forall e :: Where(a + b, e) <==> Where(a, e) && Where(b, e)
  {
    forall e
      ensures Where(a + b, e) <==> Where(a, e) && Where(b, e)
    {
      if Where(a + b, e) {
        assert forall i :: 0 <= i < |a| ==> a[i] == (a + b)[i];
        assert forall i :: 0 <= i < |b| ==> b[i] == (a + b)[|a| + i];
      }
    }
  }

  lemma WhereExtends(conditions: seq<Condition>, c: Condition)
    ensures forall e :: Where(conditions + [c], e) <==> Where(conditions, e) && Holds(c, e)
  {
    WhereAppends(conditions, [c]);
    assert [c][0] == c;
  }

  // ----- how many tag values a filter lists -----

  ghost function ValuesOf(tags: map<string, Option<seq<string>>>, names: set<string>): nat
    requires names <= tags.Keys
  {
    if names == {} then 0
    else
      var name :| name in names;
      Length(tags[name]) + ValuesOf(tags, names - {name})
  }

  // The names may be visited in any order.
  lemma {:induction false} AnyNameFirst(tags: map<string, Option<seq<string>>>, names: set<string>, name: string)
    requires name in names && names <= tags.Keys
    ensures ValuesOf(tags, names) == Length(tags[name]) + ValuesOf(tags, names - {name})
    decreases names
  {
    var first :| first in names && ValuesOf(tags, names) == Length(tags[first]) + ValuesOf(tags, names - {first});
    if first != name {
      AnyNameFirst(tags, names - {first}, name);
      AnyNameFirst(tags, names - {name}, first);
      assert names - {first} - {name} == names - {name} - {first};
    }
  }

  ghost predicate EveryNameHasValues(tags: map<string, Option<seq<string>>>) {
    forall name :: name in tags ==> Length(tags[name]) > 0
  }

  predicate IsSmall(f: Filter) {
    Length(f.ids) <= 1 && Length(f.authors) <= 1 && Length(f.kinds) <= 1 &&
    forall name :: name in f.tags ==> f.tags.Keys == {name} && Length(f.tags[name]) == 1
  }

  class PostgresBackend {
    var rows: Rows
    const queryLimit: int
    const queryIDsLimit: int
    const queryAuthorsLimit: int
    const queryKindsLimit: int
    const queryTagsLimit: int

    ghost predicate Valid()
      reads this
    {
      Keyed(rows) && LimitsAreSet()
    }

    predicate LimitsAreSet() {
      queryLimit > 0 && queryIDsLimit > 0 && queryAuthorsLimit > 0 && queryKindsLimit > 0 && queryTagsLimit > 0
    }

    // Init: a limit of 0 stands for the default.
    constructor (queryLimit: nat, queryIDsLimit: nat, queryAuthorsLimit: nat, queryKindsLimit: nat, queryTagsLimit: nat)
      ensures Valid() && rows == map[]
      ensures this.queryLimit == (if queryLimit == 0 then 100 else queryLimit)
      ensures this.queryIDsLimit == (if queryIDsLimit == 0 then 500 else queryIDsLimit)
      ensures this.queryAuthorsLimit == (if queryAuthorsLimit == 0 then 500 else queryAuthorsLimit)
      ensures this.queryKindsLimit == (if queryKindsLimit == 0 then 10 else queryKindsLimit)
      ensures this.queryTagsLimit == (if queryTagsLimit == 0 then 100 else queryTagsLimit)
    {
      rows := map[];
      this.queryLimit := if queryLimit == 0 then 100 else queryLimit;
      this.queryIDsLimit := if queryIDsLimit == 0 then 500 else queryIDsLimit;
      this.queryAuthorsLimit := if queryAuthorsLimit == 0 then 500 else queryAuthorsLimit;
      this.queryKindsLimit := if queryKindsLimit == 0 then 10 else queryKindsLimit;
      this.queryTagsLimit := if queryTagsLimit == 0 then 100 else queryTagsLimit;
    }

    ghost predicate Accepts(f: Filter) {
      Length(f.ids) <= queryIDsLimit && Length(f.authors) <= queryAuthorsLimit && Length(f.kinds) <= queryKindsLimit &&
      EveryNameHasValues(f.tags) && ValuesOf(f.tags, f.tags.Keys) <= queryTagsLimit
    }

    function Limit(f: Filter): int {
      if f.limit < 1 || f.limit > queryLimit then queryLimit else f.limit
    }

    method QueryEventsSql(filter: Filter) returns (r: Result<Query>)
      requires LimitsAreSet()
      ensures r.Ok? <==> Accepts(filter)
      ensures r.Ok? ==> forall e :: Where(r.value.conditions, e) <==> SelectedBy(filter, e)
      ensures r.Ok? ==> r.value.limit == Limit(filter)
    {
      hide Where, SelectedByLists, SelectedByTags, SelectedByTimes, ValuesOf;
      var listed := ListConditions(filter);
      if listed.Err? {
        return Err(listed.error);
      }
      var tagged := TagConditions(filter.tags);
      if tagged.Err? {
        return Err(tagged.error);
      }
      var timed := TimeConditions(filter);
      WhereAppends(listed.value, tagged.value);
      WhereAppends(listed.value + tagged.value, timed);
      var limit := if filter.limit < 1 || filter.limit > queryLimit then queryLimit else filter.limit;
      r := Ok(Query(listed.value + tagged.value + timed, limit));
    }

    method ListConditions(filter: Filter) returns (r: Result<seq<Condition>>)
      requires LimitsAreSet()
      ensures r.Ok? <==>
              Length(filter.ids) <= queryIDsLimit && Length(filter.authors) <= queryAuthorsLimit &&
              Length(filter.kinds) <= queryKindsLimit
      ensures r.Ok? ==> forall e :: Where(r.value, e) <==> SelectedByLists(filter, e)
    {
      var conditions := [];
      if Length(filter.ids) > 0 {
        if Length(filter.ids) > queryIDsLimit {
          return Err("too many ids");
        }
        conditions := [IdIn(filter.ids.value)];
        assert conditions[0] == IdIn(filter.ids.value);
      }
      ghost var byId := conditions;
      if Length(filter.authors) > 0 {
        if Length(filter.authors) > queryAuthorsLimit {
          return Err("too many authors");
        }
        conditions := conditions + [PubkeyIn(filter.authors.value)];
        WhereExtends(byId, PubkeyIn(filter.authors.value));
      }
      ghost var byAuthor := conditions;
      if Length(filter.kinds) > 0 {
        if Length(filter.kinds) > queryKindsLimit {
          return Err("too many kinds");
        }
        conditions := conditions + [KindIn(filter.kinds.value)];
        WhereExtends(byAuthor, KindIn(filter.kinds.value));
      }
      r := Ok(conditions);
    }

    method TimeConditions(filter: Filter) returns (conditions: seq<Condition>)
      ensures forall e :: Where(conditions, e) <==> SelectedByTimes(filter, e)
    {
      conditions := [];
      if filter.since.Some? {
        conditions := [CreatedSince(filter.since.value)];
        assert conditions[0] == CreatedSince(filter.since.value);
      }
      ghost var bySince := conditions;
      if filter.until.Some? {
        conditions := conditions + [CreatedUntil(filter.until.value)];
        WhereExtends(bySince, CreatedUntil(filter.until.value));
      }
    }

    // The loop over the tag map, whose names come in no particular order.
    method TagConditions(tags: map<string, Option<seq<string>>>) returns (r: Result<seq<Condition>>)
      requires LimitsAreSet()
      ensures r.Ok? <==> EveryNameHasValues(tags) && ValuesOf(tags, tags.Keys) <= queryTagsLimit
      ensures r.Ok? ==> forall e :: Where(r.value, e) <==> SelectedByTags(tags, e)
    {
      var conditions: seq<Condition>, totalTags, names := [], 0, tags.Keys;
      while names != {}
        invariant names <= tags.Keys
        invariant totalTags + ValuesOf(tags, names) == ValuesOf(tags, tags.Keys) && totalTags <= queryTagsLimit
        invariant forall name :: name in tags && name !in names ==> Length(tags[name]) > 0
        invariant forall e :: Where(conditions, e) <==>
                              (forall name :: name in tags && name !in names && tags[name].Some? ==>
                                                Overlaps(TagValues(e.tags), tags[name].value))
        decreases names
      {
        var name :| name in names;
        AnyNameFirst(tags, names, name);
        if Length(tags[name]) == 0 {
          return Err("empty tag set");
        }
        totalTags := totalTags + |tags[name].value|;
        if totalTags > queryTagsLimit {
          return Err("too many tag values");
        }
        WhereExtends(conditions, TagValuesOverlap(tags[name].value));
        conditions := conditions + [TagValuesOverlap(tags[name].value)];
        names := names - {name};
      }
      r := Ok(conditions);
    }

    // What the database does with the query.
    method Select(query: Query, ghost f: Filter) returns (events: seq<Event>)
      requires Valid() && query.limit > 0 && forall e :: Where(query.conditions, e) <==> SelectedBy(f, e)
      ensures events == QueryResult(rows, f, query.limit)
    {
      SelectedAreDistinct(rows, f);
      var matching := set id | id in rows && Where(query.conditions, rows[id]) :: rows[id];
      assert matching == Selected(rows, f);
      events := OrderAndLimit(matching, query.limit);
    }

    method OrderAndLimit(matching: set<Event>, limit: nat) returns (events: seq<Event>)
      requires Distinct(matching)
      ensures events == if |Ranked(matching)| < limit then Ranked(matching) else Ranked(matching)[..limit]
    {
      hide IsOlder, Ranked;
      var remaining := matching;
      events := [];
      while remaining != {} && |events| < limit
        invariant remaining <= matching && |events| <= limit
        invariant Ranked(matching) == events + Ranked(remaining)
        decreases remaining
      {
        SomeoneLeads(remaining);
        var e :| e in remaining && forall x :: x in remaining && x != e ==> IsOlder(x, e);
        RankedFrom(remaining, e);
        events := events + [e];
        remaining := remaining - {e};
      }
    }

    method QueryEvents(filter: Filter) returns (r: Result<seq<Event>>)
      requires Valid()
      ensures r.Ok? <==> Accepts(filter)
      ensures r.Ok? ==> r.value == QueryResult(rows, filter, Limit(filter))
      ensures r.Ok? ==> |r.value| <= queryLimit && (filter.limit >= 1 ==> |r.value| <= filter.limit)
      ensures r.Ok? && |r.value| != queryLimit && |r.value| != filter.limit ==> |r.value| == |Selected(rows, filter)|
    {
      var query := QueryEventsSql(filter);
      if query.Err? {
        return Err(query.error);
      }
      var events := Select(query.value, filter);
      r := Ok(events);
      ResultIsCut(rows, filter, Limit(filter));
    }

    method SaveEvent(evt: Event) returns (outcome: WriteOutcome)
      requires Valid()
      modifies this
      ensures Valid() && (rows, outcome) == Saved(old(rows), evt)
    {
      if evt.id in rows {
        outcome := WriteDuplicate;
      } else {
        rows := rows[evt.id := evt];
        outcome := WriteStored;
      }
    }

    method DeleteEvent(evt: Event)
      requires Valid()
      modifies this
      ensures Valid() && rows == old(rows) - {evt.id}
    {
      rows := rows - {evt.id};
    }

    // The relay's own queries ask for at most one of everything, and always
    // go through.
    lemma SmallFilterIsAccepted(f: Filter)
      requires LimitsAreSet() && IsSmall(f)
      ensures Accepts(f)
    {
      if f.tags.Keys != {} {
        var name :| name in f.tags.Keys;
        assert f.tags.Keys == {name};
        AnyNameFirst(f.tags, {name}, name);
      }
    }

    method ReplaceEvent(evt: Event) returns (r: Result<WriteOutcome>)
      requires Valid()
      modifies this
      ensures Valid() && (r.Ok? <==> Accepts(ReplaceFilter(evt)))
      ensures if r.Ok? then (rows, r.value) == Replaced(old(rows), evt) else rows == old(rows)
    {
      var filter := EVERYTHING.(limit := 1, kinds := Some([evt.kind]), authors := Some([evt.pubkey]));
      if IsAddressableKind(evt.kind) {
        filter := filter.(tags := map["d" := Some([GetD(evt.tags)])]);
      }
      var ch := QueryEvents(filter);
      if ch.Err? {
        return Err("failed to query before replacing: " + ch.error);
      }
      var shouldStore := true;
      for i := 0 to |ch.value|
        invariant Valid() && |ch.value| <= 1
        invariant i == 0 ==> rows == old(rows) && shouldStore
        invariant i == 1 ==> shouldStore == IsOlder(ch.value[0], evt)
        invariant i == 1 ==> rows == if shouldStore then old(rows) - {ch.value[0].id} else old(rows)
      {
        var previous := ch.value[i];
        if IsOlder(previous, evt) {
          DeleteEvent(previous);
        } else {
          shouldStore := false;
        }
      }
      if !shouldStore {
        return Ok(WriteSuperseded);
      }
      var outcome := SaveEvent(evt);
      r := Ok(outcome);
    }
  }
}
