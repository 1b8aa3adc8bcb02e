// Nostr events, filters and kind classes.
module Events {
  import opened Wrappers

  type Tag = seq<string>

  datatype Event = Event(
    id: string,
    pubkey: string,
    createdAt: int,
    kind: int,
    tags: seq<Tag>,
    content: string
  )

  // None stands for nil, which asks for nothing.
  datatype Filter = Filter(
    ids: Option<seq<string>>,
    kinds: Option<seq<int>>,
    authors: Option<seq<string>>,
    tags: map<string, Option<seq<string>>>,
    since: Option<int>,
    until: Option<int>,
    limit: int
  )

  const EVERYTHING := Filter(None, None, None, map[], None, None, 0)

  // len of a slice that may be nil.
  function Length<T>(xs: Option<seq<T>>): nat {
    if xs.Some? then |xs.value| else 0
  }

  predicate IsRegularKind(kind: int) {
    kind < 10000 && kind != 0 && kind != 3
  }

  predicate IsReplaceableKind(kind: int) {
    kind == 0 || kind == 3 || 10000 <= kind < 20000
  }

  predicate IsEphemeralKind(kind: int) {
    20000 <= kind < 30000
  }

  predicate IsAddressableKind(kind: int) {
    30000 <= kind < 40000
  }

  // Tags.GetD: the first "d" tag with a value.
  function GetD(tags: seq<Tag>): string {
    if tags == [] then ""
    else if |tags[0]| >= 2 && tags[0][0] == "d" then tags[0][1]
    else GetD(tags[1..])
  }

  lemma {:induction false} GetDIsFirst(tags: seq<Tag>, i: nat)
    requires i <= |tags|
    requires forall k :: 0 <= k < i ==> !(|tags[k]| >= 2 && tags[k][0] == "d")
    ensures i == |tags| ==> GetD(tags) == ""
    ensures i < |tags| && |tags[i]| >= 2 && tags[i][0] == "d" ==> GetD(tags) == tags[i][1]
  {
    if i > 0 {
      GetDIsFirst(tags[1..], i - 1);
    }
  }

  // Every kind below 40000 is of one class, and none beyond.
  lemma KindClasses(kind: int)
    ensures IsRegularKind(kind) ==> !IsReplaceableKind(kind) && !IsEphemeralKind(kind) && !IsAddressableKind(kind)
    ensures IsReplaceableKind(kind) ==> !IsEphemeralKind(kind) && !IsAddressableKind(kind)
    ensures IsEphemeralKind(kind) ==> !IsAddressableKind(kind)
    ensures IsRegularKind(kind) || IsReplaceableKind(kind) || IsEphemeralKind(kind) || IsAddressableKind(kind) <==>
            kind < 40000
  {
  }

  // Tags.ContainsAny
  predicate ContainsAny(tags: seq<Tag>, name: string, values: seq<string>) {
    exists i :: 0 <= i < |tags| && |tags[i]| >= 2 && tags[i][0] == name && tags[i][1] in values
  }

  predicate MatchesIgnoringTimestamps(f: Filter, e: Event) {
    (f.ids.Some? ==> e.id in f.ids.value) &&
    (f.kinds.Some? ==> e.kind in f.kinds.value) &&
    (f.authors.Some? ==> e.pubkey in f.authors.value) &&
    forall name :: name in f.tags && f.tags[name].Some? ==> ContainsAny(e.tags, name, f.tags[name].value)
  }

  predicate Matches(f: Filter, e: Event) {
    MatchesIgnoringTimestamps(f, e) &&
    (f.since.Some? ==> e.createdAt >= f.since.value) &&
    (f.until.Some? ==> e.createdAt <= f.until.value)
  }
}
