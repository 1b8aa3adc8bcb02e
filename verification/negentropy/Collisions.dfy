// What a fingerprint depends on, and what the assumption that fingerprints do
// not collide comes down to: one about the hash, and one about sums of ids.
module Collisions {
  import opened HexIO
  import opened VarInt
  import opened Items
  import opened Accumulators
  import opened Vectors
  import opened FingerprintSums
  import opened Differences
  import opened Honesty
  import opened Settling

  // What the "Fingerprint Algorithm" of NIP-77's appendix hashes for a range:
  // the sum of its ids modulo 2^256, as 32 bytes from the least significant on,
  // and the number of its items.
  ghost predicate IsHashed(xs: seq<Item>, s: seq<byte>)
    requires HexIds(8, xs)
  {
    Weight(8) > 0 && |s| >= 32 && Value(s[..32]) == Residue(IdSum(8, xs), Weight(8)) && s[32..] == VarIntBytes(|xs|)
  }

  lemma {:induction false} NumberIsInjective(a: seq<byte>, b: seq<byte>, k: nat)
    requires |a| == |b| && k <= |a| && Number(a, k) == Number(b, k)
    ensures a[k..] == b[k..]
    decreases |a| - k
  {
    if k < |a| {
      assert a[k] == b[k] && Number(a, k + 1) == Number(b, k + 1);
      NumberIsInjective(a, b, k + 1);
      assert a[k..] == [a[k]] + a[k + 1..] && b[k..] == [b[k]] + b[k + 1..];
    }
  }

  lemma {:induction false} ZerosAreWorthNothing(s: seq<byte>, k: nat)
    requires k <= |s| && forall i :: 0 <= i < |s| ==> s[i] == 0
    ensures Number(s, k) == 0
    decreases |s| - k
  {
    if k < |s| {
      ZerosAreWorthNothing(s, k + 1);
    }
  }

  lemma ValueIsInjective(a: seq<byte>, b: seq<byte>)
    requires |a| == |b| && Value(a) == Value(b)
    ensures a == b
  {
    hide Number;
    NumberIsInjective(a, b, 0);
    assert a[0..] == a && b[0..] == b;
  }

  ghost function SumOf(xs: seq<Item>): (sum: seq<byte>)
    requires FullIds(xs)
    ensures |sum| == 32
  {
    AddIds(xs, Zeros(), Zeros())
  }

  lemma HexIdsAreFull(xs: seq<Item>)
    requires HexIds(8, xs)
    ensures FullIds(xs)
  {
  }

  lemma DigestOfSum(h: Hash, xs: seq<Item>)
    requires FullIds(xs)
    ensures FingerprintOf(h, xs) == Hex(h(SumOf(xs) + VarIntBytes(|xs|))[..16])
  {
    hide AddIds, Hex, VarIntBytes, FullIds;
  }

  lemma SumOfRange(xs: seq<Item>)
    requires HexIds(8, xs) && FullIds(xs) && StepsSeeCarries(8, xs, Zeros())
    ensures Weight(8) > 0 && Value(SumOf(xs)) == Residue(IdSum(8, xs), Weight(8))
  {
    hide Number, Weight, StepsSeeCarries, AddIds, Residue, IdSum, IsHex;
    ZerosAreWorthNothing(Zeros(), 0);
    AddIdsIsSum(8, xs, Zeros(), Zeros());
  }

  // A fingerprint is the beginning of the hash of that, unless a carry is
  // missed on the way.
  lemma FingerprintIsHash(h: Hash, xs: seq<Item>, s: seq<byte>)
    requires HexIds(8, xs) && StepsSeeCarries(8, xs, Zeros()) && IsHashed(xs, s)
    ensures FullIds(xs) && FingerprintOf(h, xs) == Hex(h(s)[..16])
  {
    hide Value, Weight, StepsSeeCarries, VarIntBytes, SumOf, Residue, IdSum, HexIds, Hex, FullIds, FingerprintOf;
    HexIdsAreFull(xs);
    SumOfRange(xs);
    ValueIsInjective(s[..32], SumOf(xs));
    assert s == s[..32] + s[32..];
    DigestOfSum(h, xs);
  }

  // There is such a text.
  lemma SomethingIsHashed(xs: seq<Item>) returns (s: seq<byte>)
    requires HexIds(8, xs) && StepsSeeCarries(8, xs, Zeros())
    ensures IsHashed(xs, s)
  {
    hide Value, Weight, StepsSeeCarries, VarIntBytes, SumOf, Residue, IdSum, HexIds, FullIds;
    HexIdsAreFull(xs);
    SumOfRange(xs);
    s := SumOf(xs) + VarIntBytes(|xs|);
    assert s[..32] == SumOf(xs) && s[32..] == VarIntBytes(|xs|);
  }

  // No range of the vector misses a carry.
  ghost predicate RangesSeeCarries(xs: seq<Item>)
    requires HexIds(8, xs)
  {
    forall i, j :: 0 <= i <= j <= |xs| ==> StepsSeeCarries(8, xs[i..j], Zeros())
  }

  // The first 16 bytes of the hash tell apart what is hashed for two ranges.
  ghost predicate HashTells(h: Hash, a: seq<Item>, b: seq<Item>)
    requires HexIds(8, a) && HexIds(8, b)
  {
    forall s, t :: IsHashed(a, s) && IsHashed(b, t) && h(s)[..16] == h(t)[..16] ==> s == t
  }

  // As many ids with the same sum modulo 2^256 are the same items.
  ghost predicate SumTells(a: seq<Item>, b: seq<Item>)
    requires HexIds(8, a) && HexIds(8, b)
  {
    Weight(8) > 0 && |a| == |b| && Residue(IdSum(8, a), Weight(8)) == Residue(IdSum(8, b), Weight(8)) ==> a == b
  }

  // Both hold of all ranges of the two vectors.
  ghost predicate RangesAreTold(h: Hash, xs: seq<Item>, ys: seq<Item>)
    requires HexIds(8, xs) && HexIds(8, ys)
  {
    forall i, j, k, l :: 0 <= i <= j <= |xs| && 0 <= k <= l <= |ys| ==>
                           HashTells(h, xs[i..j], ys[k..l]) && SumTells(xs[i..j], ys[k..l])
  }

  lemma CountIsReadBack(m: nat, n: nat)
    requires m < VARINT_LIMIT && n < VARINT_LIMIT && VarIntBytes(m) == VarIntBytes(n)
    ensures m == n
  {
    hide VarIntBytes, DecodeVarInt;
    VarIntRoundTrip(m, "");
    VarIntRoundTrip(n, "");
  }

  lemma SameTextSameCount(xs: seq<Item>, ys: seq<Item>, s: seq<byte>)
    requires HexIds(8, xs) && HexIds(8, ys) && |xs| < VARINT_LIMIT && |ys| < VARINT_LIMIT
    requires IsHashed(xs, s) && IsHashed(ys, s)
    ensures |xs| == |ys|
  {
    hide Value, Weight, VarIntBytes, Residue, IdSum, HexIds;
    CountIsReadBack(|xs|, |ys|);
  }

  lemma SameHashSameRange(h: Hash, a: seq<Item>, b: seq<Item>, s: seq<byte>, t: seq<byte>)
    requires HexIds(8, a) && HexIds(8, b) && |a| < VARINT_LIMIT && |b| < VARINT_LIMIT
    requires IsHashed(a, s) && IsHashed(b, t) && h(s)[..16] == h(t)[..16] && HashTells(h, a, b) && SumTells(a, b)
    ensures a == b
  {
    hide Value, Weight, VarIntBytes, Residue, IdSum, HexIds;
    SameTextSameCount(a, b, s);
  }

  lemma OneFingerprint(h: Hash, a: seq<Item>, b: seq<Item>)
    requires HexIds(8, a) && HexIds(8, b) && |a| < VARINT_LIMIT && |b| < VARINT_LIMIT
    requires StepsSeeCarries(8, a, Zeros()) && StepsSeeCarries(8, b, Zeros()) && HashTells(h, a, b) && SumTells(a, b)
    ensures FullIds(a) && FullIds(b)
    ensures FingerprintOf(h, a) == FingerprintOf(h, b) ==> a == b
  {
    hide StepsSeeCarries, FingerprintOf, Hex, HexIds, FullIds, Zeros, IsHashed, HashTells, SumTells;
    var s := SomethingIsHashed(a);
    var t := SomethingIsHashed(b);
    FingerprintIsHash(h, a, s);
    FingerprintIsHash(h, b, t);
    if FingerprintOf(h, a) == FingerprintOf(h, b) {
      HexIsInjective(h(s)[..16], h(t)[..16]);
      SameHashSameRange(h, a, b, s, t);
    }
  }

  // Then fingerprints do not collide.
  lemma FingerprintsTell(h: Hash, xs: seq<Item>, ys: seq<Item>)
    requires HexIds(8, xs) && HexIds(8, ys) && |xs| < VARINT_LIMIT && |ys| < VARINT_LIMIT
    requires RangesSeeCarries(xs) && RangesSeeCarries(ys) && RangesAreTold(h, xs, ys)
    ensures FullIds(xs) && FullIds(ys) && Collisionless(h, xs, ys)
  {
    hide FingerprintOf, HashTells, SumTells, IsHex, StepsSeeCarries, Zeros;
    forall i, j, k, l | 0 <= i <= j <= |xs| && 0 <= k <= l <= |ys|
      ensures FullIds(xs[i..j]) && FullIds(ys[k..l])
      ensures FingerprintOf(h, xs[i..j]) == FingerprintOf(h, ys[k..l]) ==> xs[i..j] == ys[k..l]
    {
      OneFingerprint(h, xs[i..j], ys[k..l]);
    }
  }

  lemma PeersByHash(h: Hash, xs: seq<Item>, ys: seq<Item>)
    requires Side(xs) && Side(ys) && IdsAgree(xs, ys) && HexIds(8, xs) && HexIds(8, ys)
    requires RangesSeeCarries(xs) && RangesSeeCarries(ys) && RangesAreTold(h, xs, ys)
    ensures Peers(h, xs, ys)
  {
    hide Collisionless, RangesSeeCarries, RangesAreTold, HexIds;
    FingerprintsTell(h, xs, ys);
  }
}
