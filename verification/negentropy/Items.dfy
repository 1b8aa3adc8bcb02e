// The items of NIP-77 set reconciliation and their order.
module Items {

  // A Go nostr.Timestamp is an int64; the largest one stands for "infinity".
  const MAX_TIMESTAMP := 0x7FFF_FFFF_FFFF_FFFF

  // An id is 32 bytes written as 64 hex digits. A bound is an item whose id
  // may be cut short.
  datatype Item = Item(timestamp: int, id: string)

  const INFINITE := Item(MAX_TIMESTAMP, "")

  // The zero value of a bound, where the first range of a message begins.
  const ORIGIN := Item(0, "")

  // strings.Compare
  function CompareStrings(a: string, b: string): (r: int)
  {
    if a == [] then (if b == [] then 0 else -1)
    else if b == [] then 1
    else if a[0] != b[0] then (if a[0] < b[0] then -1 else 1)
    else CompareStrings(a[1..], b[1..])
  }

  function Repeated(c: char, n: nat): (s: string)
    ensures |s| == n
  {
    if n == 0 then "" else [c] + Repeated(c, n - 1)
  }

  function ItemCompare(a: Item, b: Item): int {
    if a.timestamp == b.timestamp then CompareStrings(a.id, b.id)
    else if a.timestamp < b.timestamp then -1
    else 1
  }

  predicate Less(a: Item, b: Item) {
    ItemCompare(a, b) < 0
  }

  lemma {:induction false} CompareStringsFlips(a: string, b: string)
    ensures CompareStrings(a, b) == -CompareStrings(b, a)
    ensures CompareStrings(a, b) == 0 <==> a == b
  {
    if a != [] && b != [] && a[0] == b[0] {
      CompareStringsFlips(a[1..], b[1..]);
      assert a == [a[0]] + a[1..] && b == [b[0]] + b[1..];
    }
  }

  lemma {:induction false} CompareStringsTransitive(a: string, b: string, c: string)
    requires CompareStrings(a, b) < 0 && CompareStrings(b, c) < 0
    ensures CompareStrings(a, c) < 0
  {
    if a != [] && b != [] && c != [] && a[0] == b[0] == c[0] {
      CompareStringsTransitive(a[1..], b[1..], c[1..]);
    }
  }

  // The order of characters at the first difference, a prefix before the whole.
  lemma {:induction false} CompareIsLexicographic(front: string, a: string, b: string)
    requires a != b && (a != [] && b != [] ==> a[0] != b[0])
    ensures CompareStrings(front + a, front + b) < 0 <==> a == [] || (b != [] && a[0] < b[0])
  {
    if front == [] {
      assert front + a == a && front + b == b;
    } else {
      CompareIsLexicographic(front[1..], a, b);
      assert (front + a)[1..] == front[1..] + a && (front + b)[1..] == front[1..] + b;
    }
  }

  // Items are ordered by time first, and by id within one time.
  lemma TimeComesFirst(a: Item, b: Item)
    ensures a.timestamp < b.timestamp ==> Less(a, b)
    ensures a.timestamp == b.timestamp ==> (Less(a, b) <==> CompareStrings(a.id, b.id) < 0)
  {
  }

  lemma EmptyIsLeast(s: string)
    ensures CompareStrings(s, "") >= 0
  {
  }

  // ItemCompare is a strict total order: exactly one of Less(a, b), a == b and
  // Less(b, a) holds, and Less chains.
  lemma LessIsTotal(a: Item, b: Item)
    ensures !(Less(a, b) && Less(b, a))
    ensures a == b <==> !Less(a, b) && !Less(b, a)
    ensures ItemCompare(a, b) == 0 <==> a == b
  {
    CompareStringsFlips(a.id, b.id);
  }

  lemma LessIsTransitive(a: Item, b: Item, c: Item)
    ensures Less(a, b) && Less(b, c) ==> Less(a, c)
    ensures !Less(b, a) && Less(b, c) ==> Less(a, c)
    ensures Less(a, b) && !Less(c, b) ==> Less(a, c)
    ensures !Less(b, a) && !Less(c, b) ==> !Less(c, a)
  {
    LessIsTotal(a, b);
    LessIsTotal(b, c);
    LessIsTotal(a, c);
    if a.timestamp == b.timestamp == c.timestamp {
      if Less(a, b) && Less(b, c) {
        CompareStringsTransitive(a.id, b.id, c.id);
      }
      if Less(b, c) && Less(c, a) {
        CompareStringsTransitive(b.id, c.id, a.id);
      }
      if Less(c, a) && Less(a, b) {
        CompareStringsTransitive(c.id, a.id, b.id);
      }
      if Less(c, b) && Less(b, a) {
        CompareStringsTransitive(c.id, b.id, a.id);
      }
    }
  }

  ghost predicate Ordered(xs: seq<Item>) {
    forall i, j :: 0 <= i < j < |xs| ==> !Less(xs[j], xs[i])
  }

  // How many leading items lie strictly below b; in a sorted sequence, how
  // many items do.
  function LowerBound(xs: seq<Item>, b: Item): (n: nat)
    ensures n <= |xs|
    ensures forall i :: 0 <= i < n ==> Less(xs[i], b)
    ensures n < |xs| ==> !Less(xs[n], b)
  {
    if xs == [] || !Less(xs[0], b) then 0 else 1 + LowerBound(xs[1..], b)
  }

  lemma LowerBoundSplits(xs: seq<Item>, b: Item)
    requires Ordered(xs)
    ensures forall i :: LowerBound(xs, b) <= i < |xs| ==> !Less(xs[i], b)
  {
    var n := LowerBound(xs, b);
    forall i | n < i < |xs|
      ensures !Less(xs[i], b)
    {
      LessIsTransitive(xs[n], xs[i], b);
    }
  }

  // The lower bound is the only cut with everything below it smaller and
  // nothing above it smaller.
  lemma LowerBoundIsTheCut(xs: seq<Item>, b: Item, n: nat)
    requires n <= |xs|
    requires forall i :: 0 <= i < n ==> Less(xs[i], b)
    requires forall i :: n <= i < |xs| ==> !Less(xs[i], b)
    ensures LowerBound(xs, b) == n
  {
    var next := if n < |xs| then xs[n] else b;  // what the longer of two cuts would disagree on
  }

  // Searching only the part above an earlier bound finds the same place.
  lemma LowerBoundOfTail(xs: seq<Item>, lo: Item, hi: Item)
    requires Ordered(xs) && !Less(hi, lo)
    ensures LowerBound(xs, lo) <= LowerBound(xs, hi)
    ensures LowerBound(xs, lo) + LowerBound(xs[LowerBound(xs, lo)..], hi) == LowerBound(xs, hi)
  {
    var m, n := LowerBound(xs, lo), LowerBound(xs, hi);
    LowerBoundSplits(xs, lo);
    LowerBoundSplits(xs, hi);
    if n < m {
      LessIsTransitive(xs[n], lo, hi);
    }
    LowerBoundIsTheCut(xs[m..], hi, n - m);
  }

  predicate InRange(x: Item, lo: Item, hi: Item) {
    !Less(x, lo) && Less(x, hi)
  }

  // The items of xs in [lo, hi), in order.
  function Between(xs: seq<Item>, lo: Item, hi: Item): (r: seq<Item>)
  {
    if xs == [] then []
    else (if InRange(xs[0], lo, hi) then [xs[0]] else []) + Between(xs[1..], lo, hi)
  }

  lemma {:induction false} BetweenSlice(xs: seq<Item>, lo: Item, hi: Item, i: nat, j: nat)
    requires i <= j <= |xs|
    requires forall k :: 0 <= k < |xs| ==> (InRange(xs[k], lo, hi) <==> i <= k < j)
    ensures Between(xs, lo, hi) == xs[i..j]
  {
    if xs != [] {
      assert forall k :: 0 <= k < |xs| - 1 ==> xs[1..][k] == xs[k + 1];
      if i > 0 {
        BetweenSlice(xs[1..], lo, hi, i - 1, j - 1);
        assert xs[1..][i - 1..j - 1] == xs[i..j];
      } else if j > 0 {
        BetweenSlice(xs[1..], lo, hi, 0, j - 1);
        assert xs[0..j] == [xs[0]] + xs[1..][0..j - 1];
      } else {
        BetweenSlice(xs[1..], lo, hi, 0, 0);
      }
    }
  }

  // What a range of a sorted vector holds is the slice between two lower bounds.
  lemma BetweenIsSlice(xs: seq<Item>, lo: Item, hi: Item)
    requires Ordered(xs) && !Less(hi, lo)
    ensures LowerBound(xs, lo) <= LowerBound(xs, hi)
    ensures Between(xs, lo, hi) == xs[LowerBound(xs, lo)..LowerBound(xs, hi)]
  {
    LowerBoundSplits(xs, lo);
    LowerBoundSplits(xs, hi);
    LowerBoundOfTail(xs, lo, hi);
    BetweenSlice(xs, lo, hi, LowerBound(xs, lo), LowerBound(xs, hi));
  }
}
