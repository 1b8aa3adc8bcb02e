// What is true of every message of an honest run: bounds go up, each range
// says of its sender's items what they are, and fingerprint ranges shrink.
module Honesty {
  import opened VarInt
  import opened Items
  import opened Vectors
  import opened Messages
  import opened Splitting
  import opened Differences

  ghost predicate Strict(xs: seq<Item>) {
    forall i, j :: 0 <= i < j < |xs| ==> Less(xs[i], xs[j])
  }

  // A vector that can be reconciled: strictly sorted, with timestamps whose
  // successor fits in a varint, and bounds to tell neighbours apart.
  ghost predicate Side(xs: seq<Item>) {
    Strict(xs) && DistinctIds(xs) && Separable(xs) && |xs| < VARINT_LIMIT &&
    forall i :: 0 <= i < |xs| ==> 0 <= xs[i].timestamp < VARINT_LIMIT - 1
  }

  lemma SideIsOrdered(xs: seq<Item>)
    requires Strict(xs)
    ensures Ordered(xs)
  {
    hide Less;
    forall i, j | 0 <= i < j < |xs|
      ensures !Less(xs[j], xs[i])
    {
      LessIsTotal(xs[i], xs[j]);
    }
  }

  // The items of a vector from one bound to the next.
  ghost function Slice(xs: seq<Item>, lo: Item, hi: Item): (part: seq<Item>)
    ensures FullIds(xs) ==> FullIds(part)
    ensures |part| <= |xs|
  {
    if LowerBound(xs, lo) <= LowerBound(xs, hi) then xs[LowerBound(xs, lo)..LowerBound(xs, hi)] else []
  }

  lemma SliceIsBetween(xs: seq<Item>, lo: Item, hi: Item)
    requires Strict(xs) && !Less(hi, lo)
    ensures Slice(xs, lo, hi) == Between(xs, lo, hi)
  {
    hide Less;
    SideIsOrdered(xs);
    BetweenIsSlice(xs, lo, hi);
  }

  lemma SliceShrinks(xs: seq<Item>, lo: Item, lo': Item, hi': Item, hi: Item)
    requires Strict(xs) && !Less(lo', lo) && !Less(hi', lo') && !Less(hi, hi')
    ensures |Slice(xs, lo', hi')| <= |Slice(xs, lo, hi)|
  {
    hide Less, LowerBound;
    SideIsOrdered(xs);
    LowerBoundOfTail(xs, lo, lo');
    LowerBoundOfTail(xs, lo', hi');
    LowerBoundOfTail(xs, hi', hi);
  }

  // How often a range of n items can be split before its buckets are listed.
  ghost function Levels(n: nat): nat {
    if n < 2 * BUCKETS then 0 else 1 + Levels(n / BUCKETS + 1)
  }

  lemma {:induction false} LevelsMonotone(m: nat, n: nat)
    requires m <= n
    ensures Levels(m) <= Levels(n)
  {
    if m >= 2 * BUCKETS {
      LevelsMonotone(m / BUCKETS + 1, n / BUCKETS + 1);
    }
  }

  ghost function Power8(k: nat): nat {
    if k == 0 then 1 else 8 * Power8(k - 1)
  }

  // The number of levels is logarithmic: 4 * 8^levels <= n.
  lemma {:induction false} LevelsAreLogarithmic(n: nat)
    ensures Levels(n) > 0 ==> 4 * Power8(Levels(n)) <= n
    ensures Levels(n) <= n
  {
    if n >= 2 * BUCKETS {
      var next := n / BUCKETS + 1;
      LevelsAreLogarithmic(next);
      assert Power8(Levels(n)) == 8 * Power8(Levels(next));
      assert 8 * next <= n;
      if Levels(next) == 0 {
        assert Power8(0) == 1;
      }
    }
  }

  ghost predicate GoodBound(b: Item) {
    (b.timestamp == MAX_TIMESTAMP || 0 <= b.timestamp < VARINT_LIMIT - 1) && |b.id| % 2 == 0 && |b.id| <= ID_LENGTH
  }

  // The range from lo as written by a sender with the items xs; the number of
  // levels left on both sides is at most k if it is still a fingerprint.
  ghost predicate GoodRange(h: Hash, xs: seq<Item>, ys: seq<Item>, k: int, r: Range, lo: Item)
    requires FullIds(xs)
  {
    !Less(r.bound, lo) && GoodBound(r.bound) &&
    match r.payload
    case Skip => true
    case Fingerprint(fp) =>
      fp == FingerprintOf(h, Slice(xs, lo, r.bound)) &&
      Levels(|Slice(xs, lo, r.bound)|) + Levels(|Slice(ys, lo, r.bound)|) <= k
    case IdList(ids) => ids == Ids(Slice(xs, lo, r.bound))
  }

  ghost predicate Good(h: Hash, xs: seq<Item>, ys: seq<Item>, k: int, m: seq<Range>, lo: Item)
    requires FullIds(xs)
  {
    m == [] || (GoodRange(h, xs, ys, k, m[0], lo) && Good(h, xs, ys, k, m[1..], m[0].bound))
  }

  lemma {:induction false} GoodAppend(h: Hash, xs: seq<Item>, ys: seq<Item>, k: int, m: seq<Range>, m': seq<Range>,
                                      lo: Item)
    requires FullIds(xs) && Good(h, xs, ys, k, m, lo) && Good(h, xs, ys, k, m', LastBound(m, lo))
    ensures Good(h, xs, ys, k, m + m', lo)
  {
    hide GoodRange, FullIds;
    if m == [] {
      assert m + m' == m';
    } else {
      assert (m + m')[0] == m[0] && (m + m')[1..] == m[1..] + m';
      GoodAppend(h, xs, ys, k, m[1..], m', m[0].bound);
    }
  }

  lemma GoodOne(h: Hash, xs: seq<Item>, ys: seq<Item>, k: int, r: Range, lo: Item)
    requires FullIds(xs) && GoodRange(h, xs, ys, k, r, lo)
    ensures Good(h, xs, ys, k, [r], lo)
  {
    hide GoodRange, FullIds;
    assert [r][1..] == [];
  }

  // Good messages survive the wire.
  lemma {:induction false} GoodIsWellFormed(h: Hash, xs: seq<Item>, ys: seq<Item>, k: int, m: seq<Range>, lo: Item)
    requires FullIds(xs) && |xs| < VARINT_LIMIT && Good(h, xs, ys, k, m, lo)
    ensures WellFormed(m, lo.timestamp)
  {
    hide Slice, FingerprintOf, Levels, CompareStrings;
    if m != [] {
      GoodIsWellFormed(h, xs, ys, k, m[1..], m[0].bound);
    }
  }

  // A bucket's bound lies above its last item, and at or below the next.
  lemma BucketBound(h: Hash, xs: seq<Item>, lower: nat, upper: nat, hi: Item, i: nat, end: nat, b: Item)
    requires Side(xs) && GoodBound(hi) && i < BUCKETS
    requires lower + 2 * BUCKETS <= upper <= |xs| && upper == LowerBound(xs, hi)
    requires end == Edge(lower, upper - lower, i + 1) && b == Bucket(h, xs, lower, upper, hi, i).bound
    ensures lower < end <= upper && (end == upper <==> i == BUCKETS - 1) && (end == upper ==> b == hi)
    ensures Less(xs[end - 1], b) && LowerBound(xs, b) == end && !Less(hi, b) && GoodBound(b)
  {
    hide Less, Edge, FingerprintOf, LowerBound, MinimalBound;
    EdgeBounds(lower, upper - lower, i);
    if end == upper {
      LessIsTotal(hi, hi);
    } else {
      MinimalBoundCuts(xs, end, b);
      LessIsTransitive(b, xs[end], hi);
      LessIsTotal(b, hi);
    }
  }

  lemma MinimalBoundCuts(xs: seq<Item>, end: nat, b: Item)
    requires Side(xs) && 0 < end < |xs| && b == MinimalBound(xs[end - 1], xs[end])
    ensures Less(xs[end - 1], b) && !Less(xs[end], b) && LowerBound(xs, b) == end && GoodBound(b)
  {
    hide Less, LowerBound, MinimalBound;
    MinimalBoundShape(xs[end - 1], xs[end]);
    MinimalBoundSeparates(xs[end - 1], xs[end]);
    forall j | 0 <= j < end
      ensures Less(xs[j], b)
    {
      LessIsTransitive(xs[j], xs[end - 1], b);
    }
    forall j | end <= j < |xs|
      ensures !Less(xs[j], b)
    {
      LessIsTransitive(b, xs[end], xs[j]);
      LessIsTotal(xs[end], b);
      LessIsTotal(xs[j], b);
    }
    LowerBoundIsTheCut(xs, b, end);
  }

  // The state of a split before bucket i: the buckets so far end at lo'.
  ghost predicate AtBucket(xs: seq<Item>, lower: nat, upper: nat, lo: Item, hi: Item, i: nat, lo': Item) {
    lower == LowerBound(xs, lo) && upper == LowerBound(xs, hi) && lower + 2 * BUCKETS <= upper <= |xs| &&
    !Less(hi, lo) && !Less(lo', lo) && LowerBound(xs, lo') == Edge(lower, upper - lower, i)
  }

  lemma SliceAt(xs: seq<Item>, lo: Item, hi: Item, begin: nat, end: nat)
    requires LowerBound(xs, lo) == begin <= end == LowerBound(xs, hi)
    ensures Slice(xs, lo, hi) == xs[begin..end]
  {
  }

  // A bound above an item of the bucket is above where the bucket begins.
  lemma BoundRises(xs: seq<Item>, lo: Item, end: nat, b: Item)
    requires Strict(xs) && LowerBound(xs, lo) < end <= |xs| && Less(xs[end - 1], b)
    ensures Less(lo, b) && !Less(b, lo)
  {
    hide Less, LowerBound;
    SideIsOrdered(xs);
    LowerBoundSplits(xs, lo);
    LessIsTransitive(lo, xs[end - 1], b);
    LessIsTotal(lo, b);
  }

  // A bucket has a level less left than the range that is split.
  lemma BucketLevels(n: nat, bucket: nat, theirs: nat, part: nat, k: int)
    requires n >= 2 * BUCKETS && bucket <= n / BUCKETS + 1 && part <= theirs && Levels(n) + Levels(theirs) <= k
    ensures Levels(bucket) + Levels(part) <= k - 1
  {
    hide Levels;
    LevelsUnfolds(n);
    LevelsMonotone(part, theirs);
    LevelsMonotone(bucket, n / BUCKETS + 1);
  }

  lemma LevelsUnfolds(n: nat)
    requires n >= 2 * BUCKETS
    ensures Levels(n) == 1 + Levels(n / BUCKETS + 1)
  {
  }

  // Each bucket of a split is honest, and shorter on the splitter's side.
  lemma BucketIsGood(h: Hash, xs: seq<Item>, ys: seq<Item>, k: int, lower: nat, upper: nat, lo: Item, hi: Item, i: nat,
                     lo': Item, r: Range)
    requires Side(xs) && Strict(ys) && GoodBound(hi) && i < BUCKETS
    requires AtBucket(xs, lower, upper, lo, hi, i, lo') && r == Bucket(h, xs, lower, upper, hi, i)
    requires Levels(upper - lower) + Levels(|Slice(ys, lo, hi)|) <= k
    ensures GoodRange(h, xs, ys, k - 1, r, lo') && AtBucket(xs, lower, upper, lo, hi, i + 1, r.bound)
    ensures !r.payload.Skip? && (i == BUCKETS - 1 ==> r.bound == hi)
  {
    hide Less, Edge, FingerprintOf, LowerBound, MinimalBound, Separable, Strict, DistinctIds, Levels, Slice, GoodBound;
    var begin, end := Edge(lower, upper - lower, i), Edge(lower, upper - lower, i + 1);
    EdgeBounds(lower, upper - lower, i);
    BucketBound(h, xs, lower, upper, hi, i, end, r.bound);
    BoundRises(xs, lo', end, r.bound);
    LessIsTransitive(lo, lo', r.bound);
    SliceAt(xs, lo', r.bound, begin, end);
    SliceShrinks(ys, lo, lo', r.bound, hi);
    BucketLevels(upper - lower, end - begin, |Slice(ys, lo, hi)|, |Slice(ys, lo', r.bound)|, k);
  }

  // A reply to the range from lo to hi: good, unskipped and complete.
  ghost predicate Answers(h: Hash, xs: seq<Item>, ys: seq<Item>, k: int, m: seq<Range>, lo: Item, hi: Item)
    requires FullIds(xs)
  {
    Good(h, xs, ys, k, m, lo) && Covers(m, lo) && LastBound(m, lo) == hi
  }

  lemma AnswersAppendOne(h: Hash, xs: seq<Item>, ys: seq<Item>, k: int, m: seq<Range>, r: Range, lo: Item, hi: Item)
    requires FullIds(xs) && Answers(h, xs, ys, k, m, lo, hi) && GoodRange(h, xs, ys, k, r, hi) && !r.payload.Skip?
    ensures Answers(h, xs, ys, k, m + [r], lo, r.bound)
  {
    hide FullIds, Covers, Good;
    assert !Less(r.bound, hi);
    hide GoodRange;
    GoodOne(h, xs, ys, k, r, hi);
    GoodAppend(h, xs, ys, k, m, [r], lo);
    CoversAppendOne(m, r, lo);
  }

  lemma {:induction false} BucketsAnswer(h: Hash, xs: seq<Item>, ys: seq<Item>, k: int, lower: nat, upper: nat,
                                         lo: Item, hi: Item, i: nat)
    requires Side(xs) && Strict(ys) && GoodBound(hi) && i <= BUCKETS
    requires lower + 2 * BUCKETS <= upper <= |xs| && AtBucket(xs, lower, upper, lo, hi, 0, lo)
    requires Levels(upper - lower) + Levels(|Slice(ys, lo, hi)|) <= k
    ensures var m := Buckets(h, xs, lower, upper, hi, i);
            var lo' := LastBound(m, lo);
            Answers(h, xs, ys, k - 1, m, lo, lo') && AtBucket(xs, lower, upper, lo, hi, i, lo') &&
            (i == BUCKETS ==> lo' == hi)
  {
    hide Bucket, AtBucket, Levels, Slice, Strict, GoodBound, Less, GoodRange;
    if i > 0 {
      BucketsAnswer(h, xs, ys, k, lower, upper, lo, hi, i - 1);
      var m := Buckets(h, xs, lower, upper, hi, i - 1);
      var r := Bucket(h, xs, lower, upper, hi, i - 1);
      BucketIsGood(h, xs, ys, k, lower, upper, lo, hi, i - 1, LastBound(m, lo), r);
      AnswersAppendOne(h, xs, ys, k - 1, m, r, lo, LastBound(m, lo));
    }
  }

  lemma ListAnswers(h: Hash, xs: seq<Item>, ys: seq<Item>, k: int, lo: Item, hi: Item)
    requires FullIds(xs) && GoodBound(hi) && !Less(hi, lo)
    ensures Answers(h, xs, ys, k, [Range(hi, IdList(Ids(Slice(xs, lo, hi))))], lo, hi)
  {
    hide FullIds, Slice, Less, GoodBound;
    var r := Range(hi, IdList(Ids(Slice(xs, lo, hi))));
    GoodOne(h, xs, ys, k, r, lo);
    CoversAppendOne([], r, lo);
    assert [] + [r] == [r];
  }

  // SplitRange answers for exactly the range it was given, one level down.
  lemma SplitAnswers(h: Hash, xs: seq<Item>, ys: seq<Item>, k: int, lo: Item, hi: Item)
    requires Side(xs) && Strict(ys) && GoodBound(hi) && !Less(hi, lo)
    requires Levels(|Slice(xs, lo, hi)|) + Levels(|Slice(ys, lo, hi)|) <= k
    ensures LowerBound(xs, lo) <= LowerBound(xs, hi)
    ensures var m := Split(h, xs, LowerBound(xs, lo), LowerBound(xs, hi), hi);
            Answers(h, xs, ys, k - 1, m, lo, hi) && m != []
  {
    hide Buckets, Less, LowerBound, GoodBound, Answers, Slice, Levels, Strict, DistinctIds, FingerprintOf;
    SideIsOrdered(xs);
    LowerBoundOfTail(xs, lo, hi);
    var lower, upper := LowerBound(xs, lo), LowerBound(xs, hi);
    SliceAt(xs, lo, hi, lower, upper);
    if upper - lower < 2 * BUCKETS {
      ListAnswers(h, xs, ys, k - 1, lo, hi);
    } else {
      LessIsTotal(lo, lo);
      BucketsAnswer(h, xs, ys, k, lower, upper, lo, hi, BUCKETS);
    }
  }

  // The buckets of a split partition the range: each holds its share of the
  // items and at least two, its bound cuts the sender's own vector exactly at
  // its edge, and the bounds strictly increase up to the range's own.
  lemma BucketsPartition(h: Hash, xs: seq<Item>, lo: Item, hi: Item, i: nat)
    requires Side(xs) && FullIds(xs) && GoodBound(hi) && i < BUCKETS
    requires LowerBound(xs, lo) + 2 * BUCKETS <= LowerBound(xs, hi)
    ensures var lower, upper := LowerBound(xs, lo), LowerBound(xs, hi);
            var begin, end := Edge(lower, upper - lower, i), Edge(lower, upper - lower, i + 1);
            var b := Bucket(h, xs, lower, upper, hi, i).bound;
            Edge(lower, upper - lower, 0) == lower && Edge(lower, upper - lower, BUCKETS) == upper &&
            begin + 2 <= end && (upper - lower) / BUCKETS <= end - begin <= (upper - lower) / BUCKETS + 1 &&
            LowerBound(xs, b) == end && (i == BUCKETS - 1 ==> b == hi) &&
            (i > 0 ==> Less(Bucket(h, xs, lower, upper, hi, i - 1).bound, b))
  {
    hide Less, Edge, FingerprintOf, LowerBound, MinimalBound, Separable, Bucket, GoodBound;
    var lower, upper := LowerBound(xs, lo), LowerBound(xs, hi);
    var n := upper - lower;
    EdgeSteps(lower, n, i);
    EdgeNext(lower, n, i);
    EdgeBounds(lower, n, i);
    var b := Bucket(h, xs, lower, upper, hi, i).bound;
    BucketBound(h, xs, lower, upper, hi, i, Edge(lower, n, i + 1), b);
    if i > 0 {
      var b' := Bucket(h, xs, lower, upper, hi, i - 1).bound;
      EdgeBounds(lower, n, i - 1);
      BucketBound(h, xs, lower, upper, hi, i - 1, Edge(lower, n, i), b');
      SideIsOrdered(xs);
      LowerBoundSplits(xs, b');
      LessIsTransitive(b', xs[Edge(lower, n, i + 1) - 1], b);
    }
  }
}
