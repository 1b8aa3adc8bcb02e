// What the registers of a sketch stand for: for each first byte, the longest
// run of leading zeros among the items that begin with it.
module Sketches {
  import opened HexIO

  // The eight bytes of a key that are used as the item.
  type Window = w: seq<byte> | |w| == 8 witness [0, 0, 0, 0, 0, 0, 0, 0]

  function Pow2(n: nat): (p: nat)
    ensures p > 0
  {
    if n == 0 then 1 else 2 * Pow2(n - 1)
  }

  // binary.BigEndian
  function BigEndian(bs: seq<byte>): nat {
    if bs == [] then 0 else 256 * BigEndian(bs[..|bs| - 1]) + bs[|bs| - 1]
  }

  // How many zeros v begins with when written in that many bits.
  function LeadingZeros(v: nat, bits: nat): (z: nat)
    ensures z <= bits
  {
    if bits == 0 || v >= Pow2(bits - 1) then 0 else 1 + LeadingZeros(v, bits - 1)
  }

  // The first one stands right after the zeros.
  lemma {:induction false} LeadingZerosEndAtTheFirstOne(v: nat, bits: nat)
    requires v < Pow2(bits)
    ensures LeadingZeros(v, bits) == bits <==> v == 0
    ensures v > 0 ==> Pow2(bits - LeadingZeros(v, bits) - 1) <= v < Pow2(bits - LeadingZeros(v, bits))
  {
    if bits > 0 && v < Pow2(bits - 1) {
      LeadingZerosEndAtTheFirstOne(v, bits - 1);
    }
  }

  // One more than the zeros that follow the first byte.
  function Rank(w: Window): (r: nat)
    ensures 1 <= r <= 57
  {
    LeadingZeros(BigEndian(w[1..]), 56) + 1
  }

  function Max(a: nat, b: nat): nat {
    if a >= b then a else b
  }

  // The largest rank among the items that begin with this byte, 0 without any.
  function Level(items: seq<Window>, j: byte): (l: nat)
    ensures l <= 57
    ensures forall i :: 0 <= i < |items| && items[i][0] == j ==> Rank(items[i]) <= l
    ensures l > 0 ==> exists i :: 0 <= i < |items| && items[i][0] == j && Rank(items[i]) == l
  {
    if items == [] then 0
    else
      var last := items[|items| - 1];
      var before := Level(items[..|items| - 1], j);
      if last[0] == j then Max(before, Rank(last)) else before
  }

  ghost predicate Represents(registers: seq<byte>, items: seq<Window>) {
    |registers| == 256 && forall j: byte :: registers[j] == Level(items, j)
  }

  // The level depends on which items there are, not on their order or number.
  lemma LevelGrows(xs: seq<Window>, ys: seq<Window>, j: byte)
    requires forall w :: w in xs ==> w in ys
    ensures Level(xs, j) <= Level(ys, j)
  {
    if Level(xs, j) > 0 {
      var i :| 0 <= i < |xs| && xs[i][0] == j && Rank(xs[i]) == Level(xs, j);
      assert xs[i] in ys;
    }
  }

  lemma SameItemsSameSketch(a: seq<byte>, b: seq<byte>, xs: seq<Window>, ys: seq<Window>)
    requires Represents(a, xs) && Represents(b, ys) && forall w :: w in xs <==> w in ys
    ensures a == b
  {
    forall j: byte
      ensures a[j] == b[j]
    {
      LevelGrows(xs, ys, j);
      LevelGrows(ys, xs, j);
    }
  }

  lemma LevelOfBoth(xs: seq<Window>, ys: seq<Window>, j: byte)
    ensures Level(xs + ys, j) == Max(Level(xs, j), Level(ys, j))
  {
    hide Rank, Level;
    LevelGrows(xs, xs + ys, j);
    LevelGrows(ys, xs + ys, j);
    if Level(xs + ys, j) > 0 {
      var i :| 0 <= i < |xs + ys| && (xs + ys)[i][0] == j && Rank((xs + ys)[i]) == Level(xs + ys, j);
      assert (xs + ys)[i] == if i < |xs| then xs[i] else ys[i - |xs|];
    }
  }

  // Register by register, the larger one.
  function Merged(a: seq<byte>, b: seq<byte>): (r: seq<byte>)
    requires |b| <= |a|
    ensures |r| == |a|
    ensures forall j :: 0 <= j < |a| ==> r[j] == if j < |b| && b[j] > a[j] then b[j] else a[j]
    decreases |b|
  {
    if b == [] then a
    else
      var last := |b| - 1;
      var r := Merged(a, b[..last]);
      if b[last] > a[last] then r[last := b[last]] else r
  }

  // Merging gives the sketch of the items of both.
  lemma MergedIsUnion(a: seq<byte>, b: seq<byte>, xs: seq<Window>, ys: seq<Window>)
    requires Represents(a, xs) && Represents(b, ys)
    ensures Represents(Merged(a, b), xs + ys)
  {
    forall j: byte
      ensures Merged(a, b)[j] == Level(xs + ys, j)
    {
      LevelOfBoth(xs, ys, j);
    }
  }

  // So merging commutes, associates, is idempotent, and is the same as having
  // added everything to one sketch, in any order and any number of times.
  lemma MergeLaws(a: seq<byte>, b: seq<byte>, c: seq<byte>, xs: seq<Window>, ys: seq<Window>, zs: seq<Window>)
    requires Represents(a, xs) && Represents(b, ys) && Represents(c, zs)
    ensures Merged(a, b) == Merged(b, a)
    ensures Merged(Merged(a, b), c) == Merged(a, Merged(b, c))
    ensures Merged(a, a) == a
  {
    MergedIsUnion(a, b, xs, ys);
    MergedIsUnion(b, a, ys, xs);
    SameItemsSameSketch(Merged(a, b), Merged(b, a), xs + ys, ys + xs);
    MergedIsUnion(Merged(a, b), c, xs + ys, zs);
    MergedIsUnion(b, c, ys, zs);
    MergedIsUnion(a, Merged(b, c), xs, ys + zs);
    SameItemsSameSketch(Merged(Merged(a, b), c), Merged(a, Merged(b, c)), xs + ys + zs, xs + (ys + zs));
    MergedIsUnion(a, a, xs, xs);
    SameItemsSameSketch(Merged(a, a), a, xs + xs, xs);
  }

  // ----- reading the bits -----

  predicate BitIsClear(x: nat, k: nat) {
    x / Pow2(k) % 2 == 0
  }

  lemma MultiplesAreApart(d: int, p: int)
    requires p > 0
    ensures d >= 1 ==> d * p >= p
    ensures d <= -1 ==> d * p <= -p
  {
  }

  lemma QuotientIs(v: nat, q: nat, r: nat, p: nat)
    requires p > r && v == q * p + r
    ensures v / p == q
  {
    var d := v / p - q;
    assert d * p == v / p * p - q * p;
    MultiplesAreApart(d, p);
  }

  // Above bit k, which is the highest that v can have, nothing is set.
  lemma HighestBit(v: nat, k: nat)
    requires v < Pow2(k + 1)
    ensures BitIsClear(v, k) <==> v < Pow2(k)
  {
    var p := Pow2(k);
    assert Pow2(k + 1) == 2 * p;
    if v < p {
      QuotientIs(v, 0, v, p);
    } else {
      QuotientIs(v, 1, v - p, p);
    }
  }

  lemma AddMultiple(v: nat, q: nat, p: nat)
    requires p > 0
    ensures (q * p + v) / p == q + v / p
  {
    assert v == v / p * p + v % p;
    assert (q + v / p) * p == q * p + v / p * p;
    QuotientIs(q * p + v, q + v / p, v % p, p);
  }

  // The bits below n do not see what stands above.
  lemma LowBits(high: nat, low: nat, n: nat, k: nat)
    requires k < n
    ensures BitIsClear(high * Pow2(n) + low, k) <==> BitIsClear(low, k)
  {
    hide Pow2;
    PowersMultiply(k, n - k);
    TwiceIsEven(n - k);
    ShiftedIsEven(high, low, Pow2(k), Pow2(n - k - 1));
    assert Pow2(k) * Pow2(n - k) == Pow2(k) * (2 * Pow2(n - k - 1));
  }

  lemma TwiceIsEven(n: nat)
    requires n > 0
    ensures Pow2(n) == 2 * Pow2(n - 1)
  {
  }

  lemma ShiftedIsEven(high: nat, low: nat, p: nat, m: nat)
    requires p > 0
    ensures (high * (p * (2 * m)) + low) / p % 2 == low / p % 2
  {
    var q := high * m;
    Reorder(high, p, m);
    AddMultiple(low, 2 * q, p);
    EvenAndMore(q, low / p);
  }

  lemma Reorder(high: nat, p: nat, m: nat)
    ensures high * (p * (2 * m)) == 2 * (high * m) * p
  {
  }

  lemma EvenAndMore(q: nat, r: nat)
    ensures (2 * q + r) % 2 == r % 2
  {
  }

  lemma {:induction false} PowersMultiply(a: nat, b: nat)
    ensures Pow2(a + b) == Pow2(a) * Pow2(b)
  {
    if a > 0 {
      PowersMultiply(a - 1, b);
      assert Pow2(a + b) == 2 * Pow2(a - 1 + b);
    }
  }

  lemma {:induction false} BigEndianIsBounded(bs: seq<byte>)
    ensures BigEndian(bs) < Pow2(8 * |bs|)
  {
    if bs != [] {
      BigEndianIsBounded(bs[..|bs| - 1]);
      PowersMultiply(8, 8 * (|bs| - 1));
      PowerOf8();
    }
  }

  lemma PowerOf8()
    ensures Pow2(8) == 256
  {
    assert Pow2(4) == 16;
    PowersMultiply(4, 4);
  }

  lemma {:induction false} BigEndianSplits(bs: seq<byte>)
    requires bs != []
    ensures BigEndian(bs) == bs[0] * Pow2(8 * (|bs| - 1)) + BigEndian(bs[1..])
  {
    hide Pow2;
    var last := |bs| - 1;
    if last == 0 {
      assert bs[1..] == [] && bs[..0] == [];
      NoPower();
    } else {
      BigEndianSplits(bs[..last]);
      assert bs[..last][1..] == bs[1..][..last - 1];
      PowersMultiply(8, 8 * (last - 1));
      PowerOf8();
      assert 8 + 8 * (last - 1) == 8 * last;
      assert 256 * (bs[0] * Pow2(8 * (last - 1))) == bs[0] * (256 * Pow2(8 * (last - 1)));
    }
  }

  lemma NoPower()
    ensures Pow2(0) == 1
  {
  }
}
