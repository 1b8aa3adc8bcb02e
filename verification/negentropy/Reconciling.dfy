// What one call of Reconcile computes from a decoded message: the ranges of
// the reply and the ids told to the client.
module Reconciling {
  import opened Items
  import opened Vectors
  import opened Messages
  import opened Splitting

  // The variables of the loop in reconcileAux, and what it has produced.
  datatype Progress = Progress(
    prevIndex: nat,
    prevBound: Item,
    skipping: bool,
    out: seq<Range>,
    haves: seq<string>,
    haveNots: multiset<string>
  )

  const START := Progress(0, ORIGIN, false, [], [], multiset{})

  function IdSet(ids: seq<string>): (s: set<string>)
    ensures forall id :: id in s <==> id in ids
  {
    set id | id in ids
  }

  // Items of ours whose id is not in their list; each match is crossed off.
  function Unlisted(xs: seq<Item>, theirs: set<string>): seq<string> {
    if xs == [] then []
    else if xs[0].id in theirs then Unlisted(xs[1..], theirs - {xs[0].id})
    else [xs[0].id] + Unlisted(xs[1..], theirs)
  }

  // finishSkip: the skipped ranges before this one, written as one.
  function SkipBefore(prevBound: Item, skipping: bool): seq<Range> {
    if skipping then [Range(prevBound, Skip)] else []
  }

  function PendingSkip(p: Progress): seq<Range> {
    SkipBefore(p.prevBound, p.skipping)
  }

  // What becomes of p by a range whose items of ours, up to upper, are these.
  function Treat(h: Hash, items: seq<Item>, isClient: bool, p: Progress, r: Range, upper: nat,
                 ours: seq<Item>): (q: Progress)
    requires FullIds(items) && FullIds(ours) && p.prevIndex <= upper <= |items|
    ensures q.prevIndex == upper && q.prevBound == r.bound
    ensures p.out <= q.out
  {
    var moved := p.(prevIndex := upper, prevBound := r.bound);
    match r.payload
    case Skip => moved.(skipping := true)
    case Fingerprint(fp) =>
      if fp == FingerprintOf(h, ours) then moved.(skipping := true)
      else moved.(skipping := false, out := p.out + PendingSkip(p) + Split(h, items, p.prevIndex, upper, r.bound))
    case IdList(ids) =>
      if isClient then
        moved.(
        skipping := true,
        haves := p.haves + Unlisted(ours, IdSet(ids)),
        haveNots := p.haveNots + multiset(IdSet(ids) - IdSet(Ids(ours)))
        )
      else moved.(skipping := false, out := p.out + PendingSkip(p) + [Range(r.bound, IdList(Ids(ours)))])
  }

  function Step(h: Hash, items: seq<Item>, isClient: bool, p: Progress, r: Range): (q: Progress)
    requires FullIds(items) && p.prevIndex <= |items|
    ensures q.prevIndex <= |items| && q.prevBound == r.bound
    ensures p.out <= q.out
  {
    var upper := p.prevIndex + LowerBound(items[p.prevIndex..], r.bound);
    Treat(h, items, isClient, p, r, upper, items[p.prevIndex..upper])
  }

  // What one range adds, whatever was produced before.
  function Delta(h: Hash, items: seq<Item>, isClient: bool, lower: nat, upper: nat, prevBound: Item, skipping: bool,
                 r: Range): (d: Progress)
    requires FullIds(items) && lower <= upper <= |items|
    ensures d.prevIndex == upper && d.prevBound == r.bound
  {
    Treat(h, items, isClient, Progress(lower, prevBound, skipping, [], [], multiset{}), r, upper, items[lower..upper])
  }

  lemma DeltaOfFingerprint(h: Hash, items: seq<Item>, isClient: bool, lower: nat, upper: nat, prevBound: Item,
                           skipping: bool,
                           bound: Item, fp: string)
    requires FullIds(items) && lower <= upper <= |items|
    ensures var d := Delta(h, items, isClient, lower, upper, prevBound, skipping, Range(bound, Fingerprint(fp)));
            d.skipping == (fp == FingerprintOf(h, items[lower..upper])) && d.haves == [] && d.haveNots == multiset{} &&
            d.out == if d.skipping then [] else SkipBefore(prevBound, skipping) + Split(h, items, lower, upper, bound)
  {
    hide FullIds, FingerprintOf, Split, SkipBefore;
  }

  lemma DeltaOfIdList(h: Hash, items: seq<Item>, isClient: bool, lower: nat, upper: nat, prevBound: Item,
                      skipping: bool,
                      bound: Item, ids: seq<string>)
    requires FullIds(items) && lower <= upper <= |items|
    ensures var d := Delta(h, items, isClient, lower, upper, prevBound, skipping, Range(bound, IdList(ids)));
            var ours := items[lower..upper];
            d.skipping == isClient &&
            d.haves == (if isClient then Unlisted(ours, IdSet(ids)) else []) &&
            d.haveNots == (if isClient then multiset(IdSet(ids) - IdSet(Ids(ours))) else multiset{}) &&
            d.out == if isClient then [] else SkipBefore(prevBound, skipping) + [Range(bound, IdList(Ids(ours)))]
  {
    hide FullIds, Unlisted, IdSet, Ids, SkipBefore;
  }

  // p with what one range adds.
  function Add(p: Progress, d: Progress): Progress {
    Progress(d.prevIndex, d.prevBound, d.skipping, p.out + d.out, p.haves + d.haves, p.haveNots + d.haveNots)
  }

  lemma AddNothing(p: Progress, d: Progress)
    ensures d.out == [] ==> Add(p, d).out == p.out
    ensures d.haves == [] ==> Add(p, d).haves == p.haves
    ensures d.haveNots == multiset{} ==> Add(p, d).haveNots == p.haveNots
  {
    assert p.haveNots + multiset{} == p.haveNots;
  }

  lemma StepAddsDelta(h: Hash, items: seq<Item>, isClient: bool, p: Progress, r: Range, upper: nat)
    requires FullIds(items) && p.prevIndex <= |items|
    requires upper == p.prevIndex + LowerBound(items[p.prevIndex..], r.bound)
    ensures Step(h, items, isClient, p, r) ==
            Add(p, Delta(h, items, isClient, p.prevIndex, upper, p.prevBound, p.skipping, r))
  {
    hide FullIds, LowerBound, Delta, Add, Step;
    match r.payload
    case Skip => StepAddsSkip(h, items, isClient, p, r, upper);
    case Fingerprint(_) => StepAddsFingerprint(h, items, isClient, p, r, upper);
    case IdList(_) => StepAddsIdList(h, items, isClient, p, r, upper);
  }

  lemma StepAddsSkip(h: Hash, items: seq<Item>, isClient: bool, p: Progress, r: Range, upper: nat)
    requires FullIds(items) && p.prevIndex <= |items|
    requires upper == p.prevIndex + LowerBound(items[p.prevIndex..], r.bound)
    requires r.payload.Skip?
    ensures Step(h, items, isClient, p, r) ==
            Add(p, Delta(h, items, isClient, p.prevIndex, upper, p.prevBound, p.skipping, r))
  {
    hide FullIds, LowerBound, Delta;
    AddNothing(p, Delta(h, items, isClient, p.prevIndex, upper, p.prevBound, p.skipping, r));
    DeltaOfSkip(h, items, isClient, p.prevIndex, upper, p.prevBound, p.skipping, r.bound);
  }

  lemma StepAddsFingerprint(h: Hash, items: seq<Item>, isClient: bool, p: Progress, r: Range, upper: nat)
    requires FullIds(items) && p.prevIndex <= |items|
    requires upper == p.prevIndex + LowerBound(items[p.prevIndex..], r.bound)
    requires r.payload.Fingerprint?
    ensures Step(h, items, isClient, p, r) ==
            Add(p, Delta(h, items, isClient, p.prevIndex, upper, p.prevBound, p.skipping, r))
  {
    hide FullIds, Split, LowerBound, FingerprintOf, SkipBefore, Delta;
    AddNothing(p, Delta(h, items, isClient, p.prevIndex, upper, p.prevBound, p.skipping, r));
    DeltaOfFingerprint(h, items, isClient, p.prevIndex, upper, p.prevBound, p.skipping, r.bound, r.payload.fp);
    Associate(p.out, PendingSkip(p), Split(h, items, p.prevIndex, upper, r.bound));
  }

  lemma StepAddsIdList(h: Hash, items: seq<Item>, isClient: bool, p: Progress, r: Range, upper: nat)
    requires FullIds(items) && p.prevIndex <= |items|
    requires upper == p.prevIndex + LowerBound(items[p.prevIndex..], r.bound)
    requires r.payload.IdList?
    ensures Step(h, items, isClient, p, r) ==
            Add(p, Delta(h, items, isClient, p.prevIndex, upper, p.prevBound, p.skipping, r))
  {
    hide FullIds, LowerBound, Unlisted, IdSet, Ids, SkipBefore, Delta;
    AddNothing(p, Delta(h, items, isClient, p.prevIndex, upper, p.prevBound, p.skipping, r));
    DeltaOfIdList(h, items, isClient, p.prevIndex, upper, p.prevBound, p.skipping, r.bound, r.payload.ids);
    Associate(p.out, PendingSkip(p), [Range(r.bound, IdList(Ids(items[p.prevIndex..upper])))]);
  }

  lemma DeltaOfSkip(h: Hash, items: seq<Item>, isClient: bool, lower: nat, upper: nat, prevBound: Item,
                    skipping: bool, bound: Item)
    requires FullIds(items) && lower <= upper <= |items|
    ensures Delta(h, items, isClient, lower, upper, prevBound, skipping, Range(bound, Skip)) ==
            Progress(upper, bound, true, [], [], multiset{})
  {
    hide FullIds;
  }

  function Process(h: Hash, items: seq<Item>, isClient: bool, p: Progress, m: seq<Range>): (q: Progress)
    requires FullIds(items) && p.prevIndex <= |items|
    ensures q.prevIndex <= |items| && p.out <= q.out
    decreases |m|
  {
    if m == [] then p else Process(h, items, isClient, Step(h, items, isClient, p, m[0]), m[1..])
  }

  // ----- skips are coalesced -----

  // No skip follows another, and none ends the reply.
  predicate NoLooseSkips(out: seq<Range>) {
    forall i :: 0 <= i < |out| && out[i].payload.Skip? ==> i + 1 < |out| && !out[i + 1].payload.Skip?
  }

  predicate NoSkips(out: seq<Range>) {
    out != [] && forall i :: 0 <= i < |out| ==> !out[i].payload.Skip?
  }

  lemma SplitSkipsNothing(h: Hash, items: seq<Item>, lower: nat, upper: nat, upperBound: Item)
    requires FullIds(items) && lower <= upper <= |items|
    ensures NoSkips(Split(h, items, lower, upper, upperBound))
  {
    hide FullIds, FingerprintOf, MinimalBound, Split, Edge;
    if upper - lower < 32 {
      FewAreListed(h, items, lower, upper, upperBound);
    } else {
      var m := Split(h, items, lower, upper, upperBound);
      var n := upper - lower;
      ManyAreCut(h, items, lower, upper, upperBound, 0, Edge(lower, n, 0), Edge(lower, n, 1));
      forall i | 0 <= i < |m|
        ensures !m[i].payload.Skip?
      {
        ManyAreCut(h, items, lower, upper, upperBound, i, Edge(lower, n, i), Edge(lower, n, i + 1));
      }
    }
  }

  lemma SkipBeforeReply(out: seq<Range>, prevBound: Item, skipping: bool, reply: seq<Range>)
    requires NoLooseSkips(out) && NoSkips(reply)
    ensures NoLooseSkips(out + SkipBefore(prevBound, skipping) + reply)
  {
  }

  lemma StepCoalesces(h: Hash, items: seq<Item>, isClient: bool, p: Progress, r: Range)
    requires FullIds(items) && p.prevIndex <= |items| && NoLooseSkips(p.out)
    ensures NoLooseSkips(Step(h, items, isClient, p, r).out)
  {
    hide FullIds, LowerBound, Split, FingerprintOf, NoLooseSkips, SkipBefore, Unlisted, IdSet, Ids;
    var upper := p.prevIndex + LowerBound(items[p.prevIndex..], r.bound);
    SplitSkipsNothing(h, items, p.prevIndex, upper, r.bound);
    SkipBeforeReply(p.out, p.prevBound, p.skipping, Split(h, items, p.prevIndex, upper, r.bound));
    SkipBeforeReply(p.out, p.prevBound, p.skipping, [Range(r.bound, IdList(Ids(items[p.prevIndex..upper])))]);
  }

  // In every reply, to any message.
  lemma {:induction false} SkipsAreCoalesced(h: Hash, items: seq<Item>, isClient: bool, p: Progress, m: seq<Range>)
    requires FullIds(items) && p.prevIndex <= |items| && NoLooseSkips(p.out)
    ensures NoLooseSkips(Process(h, items, isClient, p, m).out)
    decreases |m|
  {
    hide FullIds, Step, NoLooseSkips;
    if m != [] {
      StepCoalesces(h, items, isClient, p, m[0]);
      SkipsAreCoalesced(h, items, isClient, Step(h, items, isClient, p, m[0]), m[1..]);
    }
  }
}
