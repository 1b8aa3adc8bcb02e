// One message of an honest run, range by range: nothing of either difference
// is lost or told twice.
module Settling {
  import opened Items
  import opened Vectors
  import opened Messages
  import opened Splitting
  import opened Reconciling
  import opened Differences
  import opened Honesty

  // Equal fingerprints mean equal ranges: no collision of the hash of the sum
  // among the ranges of these two vectors.
  ghost predicate Collisionless(h: Hash, xs: seq<Item>, ys: seq<Item>)
    requires FullIds(xs) && FullIds(ys)
  {
    forall i, j, k, l {:trigger FingerprintOf(h, xs[i..j]), FingerprintOf(h, ys[k..l])} ::
      (0 <= i <= j <= |xs| && 0 <= k <= l <= |ys| && FingerprintOf(h, xs[i..j]) == FingerprintOf(h, ys[k..l])) ==>
        xs[i..j] == ys[k..l]
  }

  ghost predicate Peers(h: Hash, xs: seq<Item>, ys: seq<Item>) {
    Side(xs) && Side(ys) && IdsAgree(xs, ys) && Collisionless(h, xs, ys)
  }

  lemma PeersSwap(h: Hash, xs: seq<Item>, ys: seq<Item>)
    requires Peers(h, xs, ys)
    ensures Peers(h, ys, xs)
  {
    hide FingerprintOf;
  }

  // ys answers a message of xs: p is what has been done, rest is still to read.
  ghost predicate Midway(h: Hash, xs: seq<Item>, ys: seq<Item>, k: int, p: Progress, rest: seq<Range>)
    requires FullIds(xs) && FullIds(ys)
  {
    Good(h, xs, ys, k, rest, p.prevBound) && Good(h, ys, xs, k - 1, p.out, ORIGIN) &&
    p.prevIndex == LowerBound(ys, p.prevBound) && !Less(p.prevBound, LastBound(p.out, ORIGIN)) &&
    (if p.skipping then GoodBound(p.prevBound) else LastBound(p.out, ORIGIN) == p.prevBound)
  }

  // The upper index that reconcileAux finds, and the items down to the lower.
  ghost function Ours(ys: seq<Item>, p: Progress, b: Item): seq<Item>
    requires p.prevIndex <= |ys|
  {
    ys[p.prevIndex..p.prevIndex + LowerBound(ys[p.prevIndex..], b)]
  }

  lemma OursIsBetween(ys: seq<Item>, p: Progress, b: Item)
    requires Strict(ys) && p.prevIndex == LowerBound(ys, p.prevBound) && !Less(b, p.prevBound)
    ensures p.prevIndex + LowerBound(ys[p.prevIndex..], b) == LowerBound(ys, b)
    ensures Ours(ys, p, b) == Slice(ys, p.prevBound, b) == Between(ys, p.prevBound, b)
  {
    hide Less, LowerBound, Between;
    SideIsOrdered(ys);
    LowerBoundOfTail(ys, p.prevBound, b);
    SliceIsBetween(ys, p.prevBound, b);
  }

  lemma Skipped(h: Hash, xs: seq<Item>, ys: seq<Item>, k: int, p: Progress, m: seq<Range>, q: Progress)
    requires FullIds(xs) && FullIds(ys) && m != [] && Midway(h, xs, ys, k, p, m)
    requires q.out == p.out && q.skipping && q.prevBound == m[0].bound && q.prevIndex == LowerBound(ys, m[0].bound)
    ensures Midway(h, xs, ys, k, q, m[1..])
  {
    hide Less, GoodBound, FullIds, LowerBound, Slice, LastBound;
    LessIsTransitive(LastBound(p.out, ORIGIN), p.prevBound, m[0].bound);
  }

  // Before a reply, the skipped ranges are written as one.
  lemma SkipIsFlushed(h: Hash, xs: seq<Item>, ys: seq<Item>, k: int, p: Progress, m: seq<Range>, ds: seq<Item>)
    requires FullIds(xs) && FullIds(ys) && Midway(h, xs, ys, k, p, m)
    ensures var out := p.out + PendingSkip(p);
            Good(h, ys, xs, k - 1, out, ORIGIN) && LastBound(out, ORIGIN) == p.prevBound &&
            Open(ds, out, ORIGIN) == Open(ds, p.out, ORIGIN)
  {
    hide Less, GoodBound, FullIds, LowerBound;
    if p.skipping {
      var r := Range(p.prevBound, Skip);
      GoodOne(h, ys, xs, k - 1, r, LastBound(p.out, ORIGIN));
      hide Good, IdsBetween;
      GoodAppend(h, ys, xs, k - 1, p.out, [r], ORIGIN);
      OpenAppend(ds, p.out, [r], ORIGIN);
      assert [r][1..] == [];
    } else {
      assert p.out + [] == p.out;
    }
  }

  lemma Replied(h: Hash, xs: seq<Item>, ys: seq<Item>, k: int, p: Progress, m: seq<Range>, reply: seq<Range>,
                q: Progress,
                ds: seq<Item>)
    requires FullIds(xs) && FullIds(ys) && m != [] && Midway(h, xs, ys, k, p, m)
    requires Answers(h, ys, xs, k - 1, reply, p.prevBound, m[0].bound) && reply != []
    requires q.out == p.out + PendingSkip(p) + reply
    requires !q.skipping && q.prevBound == m[0].bound && q.prevIndex == LowerBound(ys, m[0].bound)
    ensures Midway(h, xs, ys, k, q, m[1..])
    ensures Open(ds, q.out, ORIGIN) == Open(ds, p.out, ORIGIN) + IdsBetween(ds, p.prevBound, m[0].bound)
  {
    hide Less, GoodBound, FullIds, LowerBound, GoodRange, IdsBetween, Covers, Open, PendingSkip;
    var out := p.out + PendingSkip(p);
    SkipIsFlushed(h, xs, ys, k, p, m, ds);
    GoodAppend(h, ys, xs, k - 1, out, reply, ORIGIN);
    OpenAppend(ds, out, reply, ORIGIN);
    OpenOfCover(ds, reply, p.prevBound);
    assert LastBound(out + reply, ORIGIN) == m[0].bound;
    LessIsTotal(m[0].bound, m[0].bound);
  }

  // Nothing is open where the fingerprints agree.
  lemma FingerprintsAgree(h: Hash, xs: seq<Item>, ys: seq<Item>, p: Progress, lo: Item, hi: Item)
    requires Peers(h, xs, ys) && !Less(hi, lo)
    requires FingerprintOf(h, Slice(xs, lo, hi)) == FingerprintOf(h, Slice(ys, lo, hi))
    ensures IdsBetween(Minus(xs, ys), lo, hi) == multiset{} == IdsBetween(Minus(ys, xs), lo, hi)
  {
    hide Less, FingerprintOf, LowerBound, Between, IdsBetween, Separable, DistinctIds, IdsAgree;
    SideIsOrdered(xs);
    SideIsOrdered(ys);
    LowerBoundOfTail(xs, lo, hi);
    LowerBoundOfTail(ys, lo, hi);
    assert Slice(xs, lo, hi) == Slice(ys, lo, hi);
    SliceIsBetween(xs, lo, hi);
    SliceIsBetween(ys, lo, hi);
    EqualSidesHaveNoDifference(xs, ys, lo, hi);
    EqualSidesHaveNoDifference(ys, xs, lo, hi);
  }

  // told is exactly what was open of ds before the first range of m was dealt
  // with and is not open after.
  ghost predicate Settles(p: Progress, m: seq<Range>, q: Progress, ds: seq<Item>, told: multiset<string>)
    requires m != []
  {
    told + Open(ds, q.out, ORIGIN) + Open(ds, m[1..], m[0].bound) ==
    Open(ds, p.out, ORIGIN) + Open(ds, m, p.prevBound)
  }

  // One range dealt with by ys, in both directions.
  ghost predicate Stepped(h: Hash, xs: seq<Item>, ys: seq<Item>, k: int, p: Progress, m: seq<Range>, q: Progress)
    requires FullIds(xs) && FullIds(ys) && m != []
  {
    Midway(h, xs, ys, k, q, m[1..]) && p.haves <= q.haves && p.haveNots <= q.haveNots && q.prevBound == m[0].bound &&
    Settles(p, m, q, Minus(ys, xs), multiset(q.haves[|p.haves|..])) &&
    Settles(p, m, q, Minus(xs, ys), q.haveNots - p.haveNots)
  }

  lemma OpenFirst(ds: seq<Item>, m: seq<Range>, lo: Item)
    requires m != []
    ensures Open(ds, m, lo) ==
            (if m[0].payload.Skip? then multiset{} else IdsBetween(ds, lo, m[0].bound)) + Open(ds, m[1..], m[0].bound)
  {
    hide IdsBetween;
  }

  // A range that needs no reply and of which nothing was open.
  lemma StepPassesOver(h: Hash, xs: seq<Item>, ys: seq<Item>, k: int, p: Progress, m: seq<Range>, q: Progress)
    requires FullIds(xs) && FullIds(ys) && m != [] && Midway(h, xs, ys, k, p, m)
    requires q == p.(prevIndex := LowerBound(ys, m[0].bound), prevBound := m[0].bound, skipping := true)
    requires !m[0].payload.Skip? ==>
               IdsBetween(Minus(xs, ys), p.prevBound, m[0].bound) == multiset{} ==
               IdsBetween(Minus(ys, xs), p.prevBound, m[0].bound)
    ensures Stepped(h, xs, ys, k, p, m, q)
  {
    hide Midway, Open, IdsBetween, Minus, FullIds, LowerBound;
    Skipped(h, xs, ys, k, p, m, q);
    OpenFirst(Minus(xs, ys), m, p.prevBound);
    OpenFirst(Minus(ys, xs), m, p.prevBound);
  }

  // A range that is answered: all of it stays open.
  lemma StepAnswers(h: Hash, xs: seq<Item>, ys: seq<Item>, k: int, p: Progress, m: seq<Range>, reply: seq<Range>,
                    q: Progress)
    requires FullIds(xs) && FullIds(ys) && m != [] && Midway(h, xs, ys, k, p, m) && !m[0].payload.Skip?
    requires Answers(h, ys, xs, k - 1, reply, p.prevBound, m[0].bound) && reply != []
    requires q == p.(prevIndex := LowerBound(ys, m[0].bound), prevBound := m[0].bound, skipping := false,
                  out := p.out + PendingSkip(p) + reply)
    ensures Stepped(h, xs, ys, k, p, m, q)
  {
    hide Midway, Open, IdsBetween, Minus, FullIds, LowerBound, Answers, PendingSkip;
    Replied(h, xs, ys, k, p, m, reply, q, Minus(xs, ys));
    Replied(h, xs, ys, k, p, m, reply, q, Minus(ys, xs));
    OpenFirst(Minus(xs, ys), m, p.prevBound);
    OpenFirst(Minus(ys, xs), m, p.prevBound);
  }

  // A list at the client: its part of both differences is told.
  lemma StepTells(h: Hash, xs: seq<Item>, ys: seq<Item>, k: int, p: Progress, m: seq<Range>, q: Progress)
    requires FullIds(xs) && FullIds(ys) && Peers(h, xs, ys) && m != []
    requires Midway(h, xs, ys, k, p, m) && m[0].payload.IdList?
    requires !Less(m[0].bound, p.prevBound)
    requires var ids := IdSet(Ids(Slice(xs, p.prevBound, m[0].bound)));
             var ours := Slice(ys, p.prevBound, m[0].bound);
             q == p.(prevIndex := LowerBound(ys, m[0].bound), prevBound := m[0].bound, skipping := true,
             haves := p.haves + Unlisted(ours, ids), haveNots := p.haveNots + multiset(ids - IdSet(Ids(ours))))
    ensures Stepped(h, xs, ys, k, p, m, q)
  {
    hide Midway, Open, IdsBetween, Minus, LowerBound, Slice, Less, Unlisted, Peers, IdSet;
    ListTells(h, xs, ys, p.prevBound, m[0].bound);
    hide Ids, FullIds;
    Skipped(h, xs, ys, k, p, m, q);
    OpenFirst(Minus(xs, ys), m, p.prevBound);
    OpenFirst(Minus(ys, xs), m, p.prevBound);
  }

  lemma ListTells(h: Hash, xs: seq<Item>, ys: seq<Item>, lo: Item, hi: Item)
    requires Peers(h, xs, ys) && !Less(hi, lo)
    ensures var theirs, ours := IdSet(Ids(Slice(xs, lo, hi))), Slice(ys, lo, hi);
            multiset(Unlisted(ours, theirs)) == IdsBetween(Minus(ys, xs), lo, hi) &&
            multiset(theirs - IdSet(Ids(ours))) == IdsBetween(Minus(xs, ys), lo, hi)
  {
    hide IdsBetween, Minus, LowerBound, Slice, Between, Less, Unlisted, Separable, Collisionless;
    SliceIsBetween(xs, lo, hi);
    SliceIsBetween(ys, lo, hi);
    ListedHavesAreTheDifference(ys, xs, lo, hi);
    ListedHaveNotsAreTheDifference(ys, xs, lo, hi);
  }

  lemma MidwayFirst(h: Hash, xs: seq<Item>, ys: seq<Item>, k: int, p: Progress, m: seq<Range>)
    requires FullIds(xs) && FullIds(ys) && Peers(h, xs, ys) && m != [] && Midway(h, xs, ys, k, p, m)
    ensures GoodRange(h, xs, ys, k, m[0], p.prevBound) && !Less(m[0].bound, p.prevBound) && GoodBound(m[0].bound)
    ensures p.prevIndex == LowerBound(ys, p.prevBound) && Side(ys) && Strict(xs) && Strict(ys)
  {
    hide Less, LowerBound, Separable, Collisionless, GoodBound, Slice, FullIds;
  }

  // The indices of a step are lower bounds.
  lemma StepTreatsSlice(h: Hash, ys: seq<Item>, isClient: bool, p: Progress, r: Range)
    requires FullIds(ys) && Strict(ys) && p.prevIndex == LowerBound(ys, p.prevBound) && !Less(r.bound, p.prevBound)
    ensures LowerBound(ys, p.prevBound) <= LowerBound(ys, r.bound)
    ensures Step(h, ys, isClient, p, r) ==
            Treat(h, ys, isClient, p, r, LowerBound(ys, r.bound), Slice(ys, p.prevBound, r.bound))
  {
    hide FullIds, Less, LowerBound, Between, Slice, Strict, Treat;
    OursIsBetween(ys, p, r.bound);
  }

  lemma StepOverFingerprint(h: Hash, xs: seq<Item>, ys: seq<Item>, isClient: bool, k: int, p: Progress, m: seq<Range>)
    requires FullIds(xs) && FullIds(ys) && Peers(h, xs, ys) && m != []
    requires p.prevIndex <= |ys| && Midway(h, xs, ys, k, p, m)
    requires m[0].payload.Fingerprint?
    ensures Stepped(h, xs, ys, k, p, m, Step(h, ys, isClient, p, m[0]))
  {
    hide Peers, Side, Strict, FullIds, Less, FingerprintOf, LowerBound, GoodBound, Split, Midway, Stepped, Answers,
      Unlisted, IdsBetween, PendingSkip, Levels, Minus, Between, Slice, Good, Step;
    var r, lo, hi := m[0], p.prevBound, m[0].bound;
    MidwayFirst(h, xs, ys, k, p, m);
    StepTreatsSlice(h, ys, isClient, p, r);
    var q := Step(h, ys, isClient, p, r);
    if r.payload.fp == FingerprintOf(h, Slice(ys, lo, hi)) {
      FingerprintsAgree(h, xs, ys, p, lo, hi);
      StepPassesOver(h, xs, ys, k, p, m, q);
    } else {
      SplitAnswers(h, ys, xs, k, lo, hi);
      StepAnswers(h, xs, ys, k, p, m, Split(h, ys, LowerBound(ys, lo), LowerBound(ys, hi), hi), q);
    }
  }

  lemma StepOverIdList(h: Hash, xs: seq<Item>, ys: seq<Item>, isClient: bool, k: int, p: Progress, m: seq<Range>)
    requires FullIds(xs) && FullIds(ys) && Peers(h, xs, ys) && m != []
    requires p.prevIndex <= |ys| && Midway(h, xs, ys, k, p, m)
    requires m[0].payload.IdList?
    ensures Stepped(h, xs, ys, k, p, m, Step(h, ys, isClient, p, m[0]))
  {
    hide Peers, Side, Strict, FullIds, Less, FingerprintOf, LowerBound, GoodBound, Split, Midway, Stepped, Answers,
      Unlisted, PendingSkip, Levels, Minus, Between, Slice, Good, IdSet, Ids, Step;
    var r, lo, hi := m[0], p.prevBound, m[0].bound;
    MidwayFirst(h, xs, ys, k, p, m);
    StepTreatsSlice(h, ys, isClient, p, r);
    var q := Step(h, ys, isClient, p, r);
    if isClient {
      StepTells(h, xs, ys, k, p, m, q);
    } else {
      ListAnswers(h, ys, xs, k - 1, lo, hi);
      StepAnswers(h, xs, ys, k, p, m, [Range(hi, IdList(Ids(Slice(ys, lo, hi))))], q);
    }
  }

  // One range, at the client or at the server: what is told is exactly what
  // is no longer open, in both directions.
  lemma StepSettles(h: Hash, xs: seq<Item>, ys: seq<Item>, isClient: bool, k: int, p: Progress, m: seq<Range>)
    requires FullIds(xs) && FullIds(ys) && Peers(h, xs, ys) && m != []
    requires p.prevIndex <= |ys| && Midway(h, xs, ys, k, p, m)
    ensures Stepped(h, xs, ys, k, p, m, Step(h, ys, isClient, p, m[0]))
  {
    hide Peers, Side, Strict, FullIds, Less, FingerprintOf, LowerBound, GoodBound, Split, Midway, Stepped, Unlisted,
      PendingSkip, Minus, Between, Slice, Good, IdSet, Ids, GoodRange, Step;
    match m[0].payload
    case Skip =>
      MidwayFirst(h, xs, ys, k, p, m);
      StepTreatsSlice(h, ys, isClient, p, m[0]);
      StepPassesOver(h, xs, ys, k, p, m, Step(h, ys, isClient, p, m[0]));
    case Fingerprint(fp) =>
      StepOverFingerprint(h, xs, ys, isClient, k, p, m);
    case IdList(ids) =>
      StepOverIdList(h, xs, ys, isClient, k, p, m);
  }
}
