// How a range whose fingerprints differ is split: fewer than 32 items are
// listed, more are cut into 16 buckets with a fingerprint each.
module Splitting {
  import opened Items
  import opened Vectors
  import opened Messages

  const BUCKETS := 16

  // The longest bound getMinimalBound writes: 17 bytes, as it compares 16.
  const PREFIX := 34

  // The first of the 16 leading bytes (pairs of hex digits), from byte k on,
  // that differs; 16 if none does.
  function SharedBytes(a: string, b: string, k: nat): (n: nat)
    requires |a| == |b| == ID_LENGTH && k <= 16
    ensures k <= n <= 16
    ensures a[2 * k..2 * n] == b[2 * k..2 * n]
    ensures n < 16 ==> a[2 * n..2 * n + 2] != b[2 * n..2 * n + 2]
    decreases 16 - k
  {
    if k == 16 || a[2 * k..2 * k + 2] != b[2 * k..2 * k + 2] then k
    else
      var n := SharedBytes(a, b, k + 1);
      assert a[2 * k..2 * n] == a[2 * k..2 * k + 2] + a[2 * k + 2..2 * n];
      assert b[2 * k..2 * n] == b[2 * k..2 * k + 2] + b[2 * k + 2..2 * n];
      n
  }

  function MinimalBound(prev: Item, curr: Item): (b: Item)
    requires |prev.id| == |curr.id| == ID_LENGTH
  {
    if curr.timestamp != prev.timestamp then Item(curr.timestamp, "")
    else Item(curr.timestamp, curr.id[..(SharedBytes(curr.id, prev.id, 0) + 1) * 2])
  }

  lemma MinimalBoundShape(prev: Item, curr: Item)
    requires |prev.id| == |curr.id| == ID_LENGTH
    ensures var b := MinimalBound(prev, curr);
            b.timestamp == curr.timestamp && |b.id| % 2 == 0 && |b.id| <= PREFIX
  {
    hide SharedBytes;
  }

  // A prefix does not come after the whole, and comes after whatever the whole
  // comes after within its length.
  lemma {:induction false} PrefixOrder(a: string, b: string, n: nat)
    requires n <= |a| && n <= |b|
    ensures CompareStrings(a, a[..n]) >= 0
    ensures a[..n] == b[..n] ==> CompareStrings(b, a[..n]) >= 0
    ensures a[..n] != b[..n] ==> (CompareStrings(b, a[..n]) < 0 <==> CompareStrings(b, a) < 0)
  {
    if n > 0 {
      PrefixOrder(a[1..], b[1..], n - 1);
      assert a[..n][0] == a[0] && a[..n][1..] == a[1..][..n - 1];
      assert b[..n][0] == b[0] && b[..n][1..] == b[1..][..n - 1];
      assert a[..n] == [a[0]] + a[1..][..n - 1] && b[..n] == [b[0]] + b[1..][..n - 1];
    }
  }

  lemma DifferWithin(a: string, b: string, i: nat, j: nat, k: nat)
    requires i <= j <= k <= |a| && k <= |b| && a[i..j] != b[i..j]
    ensures a[..k] != b[..k]
  {
    assert a[..k][i..j] == a[i..j] && b[..k][i..j] == b[i..j];
  }

  // The ids differ up to the first byte not shared exactly if they differ in
  // the bytes looked at.
  lemma PrefixesDiffer(a: string, b: string)
    requires |a| == |b| == ID_LENGTH
    ensures var length := (SharedBytes(a, b, 0) + 1) * 2;
            length <= PREFIX && (a[..length] != b[..length] <==> a[..PREFIX] != b[..PREFIX])
  {
    hide SharedBytes;
    var n := SharedBytes(a, b, 0);
    if n < 16 {
      DifferWithin(a, b, 2 * n, 2 * n + 2, 2 * n + 2);
      DifferWithin(a, b, 2 * n, 2 * n + 2, PREFIX);
    }
  }

  // The bound between two neighbours separates them exactly when their
  // timestamps or their first 17 bytes differ; beyond those the loop does not
  // look, and the bound it makes lies below both.
  lemma MinimalBoundSeparates(prev: Item, curr: Item)
    requires |prev.id| == |curr.id| == ID_LENGTH && Less(prev, curr)
    ensures !Less(curr, MinimalBound(prev, curr))
    ensures Less(prev, MinimalBound(prev, curr)) <==>
            prev.timestamp != curr.timestamp || prev.id[..PREFIX] != curr.id[..PREFIX]
  {
    hide SharedBytes, CompareStrings;
    if prev.timestamp == curr.timestamp {
      PrefixesDiffer(curr.id, prev.id);
      PrefixOrder(curr.id, prev.id, (SharedBytes(curr.id, prev.id, 0) + 1) * 2);
    } else {
      EmptyIsLeast(curr.id);
    }
  }

  // And it is as short as that: no prefix with fewer bytes is above the previous
  // item.
  lemma MinimalBoundIsMinimal(prev: Item, curr: Item, n: nat)
    requires |prev.id| == |curr.id| == ID_LENGTH && Less(prev, curr)
    requires 2 * n < |MinimalBound(prev, curr).id|
    ensures prev.timestamp == curr.timestamp && 2 * n <= ID_LENGTH
    ensures !Less(prev, Item(curr.timestamp, curr.id[..2 * n]))
  {
    hide CompareStrings, SharedBytes;
    SharedPrefix(curr.id, prev.id, n);
    PrefixOrder(curr.id, prev.id, 2 * n);
  }

  lemma SharedPrefix(a: string, b: string, n: nat)
    requires |a| == |b| == ID_LENGTH && n <= SharedBytes(a, b, 0)
    ensures a[..2 * n] == b[..2 * n]
  {
    hide SharedBytes;
    var shared := SharedBytes(a, b, 0);
    assert a[..2 * n] == a[0..2 * shared][..2 * n] && b[..2 * n] == b[0..2 * shared][..2 * n];
  }

  lemma {:induction false} CompareBehind(front: string, a: string, b: string)
    ensures CompareStrings(front + a, front + b) == CompareStrings(a, b)
  {
    if front == [] {
      assert front + a == a && front + b == b;
    } else {
      CompareBehind(front[1..], a, b);
      assert (front + a)[1..] == front[1..] + a && (front + b)[1..] == front[1..] + b;
    }
  }

  // Two ids that differ in their last digit only: the bound is at or below both.
  lemma MinimalBoundCanFail() returns (prev: Item, curr: Item)
    ensures |prev.id| == |curr.id| == ID_LENGTH && Less(prev, curr)
    ensures !Less(prev, MinimalBound(prev, curr)) && !Less(curr, MinimalBound(prev, curr))
  {
    hide MinimalBound;
    var front := Repeated('0', ID_LENGTH - 1);
    prev, curr := Item(0, front + "0"), Item(0, front + "1");
    CompareBehind(front, "0", "1");
    assert prev.id[..PREFIX] == front[..PREFIX] == curr.id[..PREFIX];
    MinimalBoundSeparates(prev, curr);
  }

  // No two neighbours need a bound longer than getMinimalBound writes.
  ghost predicate Separable(xs: seq<Item>) {
    FullIds(xs) &&
    forall i :: 0 < i < |xs| ==>
                  xs[i - 1].timestamp != xs[i].timestamp || xs[i - 1].id[..PREFIX] != xs[i].id[..PREFIX]
  }

  // Where bucket i begins; the first n % 16 buckets hold one item more.
  function Edge(lower: nat, n: nat, i: nat): nat
    decreases lower, i
  {
    if i == 0 then lower
    else Edge(lower, n, i - 1) + n / BUCKETS + (if i - 1 < n % BUCKETS then 1 else 0)
  }

  lemma {:induction false} EdgeInClosedForm(lower: nat, n: nat, i: nat)
    ensures Edge(lower, n, i) == lower + i * (n / BUCKETS) + (if i < n % BUCKETS then i else n % BUCKETS)
  {
    if i > 0 {
      EdgeInClosedForm(lower, n, i - 1);
      assert i * (n / BUCKETS) == (i - 1) * (n / BUCKETS) + n / BUCKETS;
    }
  }

  lemma EdgeSteps(lower: nat, n: nat, i: nat)
    requires n >= 2 * BUCKETS && i < BUCKETS
    ensures Edge(lower, n, 0) == lower && Edge(lower, n, BUCKETS) == lower + n
    ensures Edge(lower, n, i) + 2 <= Edge(lower, n, i + 1) <= Edge(lower, n, i) + n / BUCKETS + 1
  {
    EdgeInClosedForm(lower, n, BUCKETS);
  }

  lemma EdgeNext(lower: nat, n: nat, i: nat)
    ensures Edge(lower, n, i + 1) == Edge(lower, n, i) + n / BUCKETS + (if i < n % BUCKETS then 1 else 0)
  {
  }

  lemma {:induction false} EdgesIncrease(lower: nat, n: nat, i: nat, j: nat)
    requires n >= 2 * BUCKETS && i <= j <= BUCKETS
    ensures Edge(lower, n, i) + 2 * (j - i) <= Edge(lower, n, j)
    decreases j - i
  {
    hide Edge;
    if i < j {
      EdgeSteps(lower, n, i);
      EdgesIncrease(lower, n, i + 1, j);
    }
  }

  // Bucket i lies inside the range and holds at least two items; only the last
  // one ends where the range ends.
  lemma EdgeBounds(lower: nat, n: nat, i: nat)
    requires n >= 2 * BUCKETS && i < BUCKETS
    ensures lower <= Edge(lower, n, i) && Edge(lower, n, i) + 2 <= Edge(lower, n, i + 1) <= lower + n
    ensures Edge(lower, n, i + 1) == lower + n <==> i == BUCKETS - 1
    ensures Edge(lower, n, i + 1) - Edge(lower, n, i) <= n / BUCKETS + 1
  {
    hide Edge;
    EdgeSteps(lower, n, i);
    EdgesIncrease(lower, n, 0, i);
    EdgesIncrease(lower, n, i + 1, BUCKETS);
  }

  function Ids(xs: seq<Item>): (ids: seq<string>)
    ensures |ids| == |xs| && forall i :: 0 <= i < |xs| ==> ids[i] == xs[i].id
  {
    if xs == [] then [] else [xs[0].id] + Ids(xs[1..])
  }

  function Bucket(h: Hash, items: seq<Item>, lower: nat, upper: nat, upperBound: Item, i: nat): Range
    requires FullIds(items) && lower <= upper <= |items| && upper - lower >= 2 * BUCKETS && i < BUCKETS
  {
    EdgeBounds(lower, upper - lower, i);
    var begin, end := Edge(lower, upper - lower, i), Edge(lower, upper - lower, i + 1);
    var bound := if end == upper then upperBound else MinimalBound(items[end - 1], items[end]);
    Range(bound, Fingerprint(FingerprintOf(h, items[begin..end])))
  }

  function Buckets(h: Hash, items: seq<Item>, lower: nat, upper: nat, upperBound: Item, k: nat): (m: seq<Range>)
    requires FullIds(items) && lower <= upper <= |items| && upper - lower >= 2 * BUCKETS && k <= BUCKETS
    ensures |m| == k
  {
    if k == 0 then []
    else Buckets(h, items, lower, upper, upperBound, k - 1) + [Bucket(h, items, lower, upper, upperBound, k - 1)]
  }

  // What SplitRange writes for items[lower..upper] up to upperBound.
  function Split(h: Hash, items: seq<Item>, lower: nat, upper: nat, upperBound: Item): seq<Range>
    requires FullIds(items) && lower <= upper <= |items|
  {
    if upper - lower < 2 * BUCKETS then [Range(upperBound, IdList(Ids(items[lower..upper])))]
    else Buckets(h, items, lower, upper, upperBound, BUCKETS)
  }

  lemma {:induction false} BucketsInOrder(h: Hash, items: seq<Item>, lower: nat, upper: nat, upperBound: Item, k: nat,
                                          i: nat)
    requires FullIds(items) && lower <= upper <= |items| && upper - lower >= 2 * BUCKETS && i < k <= BUCKETS
    ensures Buckets(h, items, lower, upper, upperBound, k)[i] == Bucket(h, items, lower, upper, upperBound, i)
  {
    hide FullIds, Bucket;
    if i < k - 1 {
      BucketsInOrder(h, items, lower, upper, upperBound, k - 1, i);
    }
  }

  // Fewer than 32 items are listed.
  lemma FewAreListed(h: Hash, items: seq<Item>, lower: nat, upper: nat, upperBound: Item)
    requires FullIds(items) && lower <= upper <= |items| && upper - lower < 32
    ensures Split(h, items, lower, upper, upperBound) == [Range(upperBound, IdList(Ids(items[lower..upper])))]
  {
  }

  lemma EdgeStarts(lower: nat, n: nat)
    ensures Edge(lower, n, 0) == lower
  {
  }

  // More are cut into 16 buckets, each with the fingerprint of its items and a
  // bound before the next one's first, the last with the bound of the range.
  lemma ManyAreCut(h: Hash, items: seq<Item>, lower: nat, upper: nat, upperBound: Item, i: nat, begin: nat, end: nat)
    requires FullIds(items) && lower <= upper <= |items| && upper - lower >= 32 && i < 16
    requires begin == Edge(lower, upper - lower, i) && end == Edge(lower, upper - lower, i + 1)
    ensures lower <= begin < end <= upper && (i == 0 ==> begin == lower) && (i == 15 <==> end == upper)
    ensures var m := Split(h, items, lower, upper, upperBound);
            |m| == 16 && m[i].payload == Fingerprint(FingerprintOf(h, items[begin..end])) &&
            m[i].bound == if i == 15 then upperBound else MinimalBound(items[end - 1], items[end])
  {
    hide Edge, FingerprintOf, MinimalBound, Buckets;
    EdgeBounds(lower, upper - lower, i);
    EdgeStarts(lower, upper - lower);
    BucketsInOrder(h, items, lower, upper, upperBound, BUCKETS, i);
  }
}
