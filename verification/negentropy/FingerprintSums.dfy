// What the accumulator holds after a range: the sum of its ids modulo 2^256,
// as the "Fingerprint Algorithm" of NIP-77's appendix has it, unless a carry
// is missed on the way.
module FingerprintSums {
  import opened HexIO
  import opened Items
  import opened Accumulators
  import opened Vectors

  // The id is hex digits throughout.
  predicate IsHex(id: string) {
    |id| < 2 || (UnhexByte(id).Some? && IsHex(id[2..]))
  }

  function IdBytes(id: string): seq<byte>
    requires IsHex(id)
  {
    if |id| < 2 then [] else [UnhexByte(id).value] + IdBytes(id[2..])
  }

  lemma {:induction false} DecodeIntoIsIdBytes(tmp: seq<byte>, id: string)
    requires |id| == 2 * |tmp| && IsHex(id)
    ensures DecodeInto(tmp, id) == IdBytes(id)
  {
    hide UnhexByte;
    if tmp != [] {
      DecodeIntoIsIdBytes(tmp[1..], id[2..]);
    }
  }

  ghost function Value(s: seq<byte>): nat {
    Number(s, 0)
  }

  // Every id is 2n bytes of hex digits, so that it fills n words.
  ghost predicate HexIds(n: nat, xs: seq<Item>) {
    forall i :: 0 <= i < |xs| ==> |xs[i].id| == 8 * n && IsHex(xs[i].id)
  }

  ghost function IdSum(n: nat, xs: seq<Item>): nat
    requires HexIds(n, xs)
  {
    if xs == [] then 0 else Value(IdBytes(xs[0].id)) + IdSum(n, xs[1..])
  }

  lemma {:induction false} IdBytesLength(id: string, n: nat)
    requires IsHex(id) && |id| == 2 * n
    ensures |IdBytes(id)| == n
  {
    hide UnhexByte;
    if n > 0 {
      IdBytesLength(id[2..], n - 1);
    }
  }

  // No step of the sum over xs misses a carry.
  ghost predicate StepsSeeCarries(n: nat, xs: seq<Item>, acc: seq<byte>)
    requires n > 0 && |acc| == 4 * n && HexIds(n, xs)
    decreases |xs|
  {
    xs == [] ||
    (IdBytesLength(xs[0].id, 4 * n);
     CarriesAreSeen(n, acc, IdBytes(xs[0].id), 0) && StepsSeeCarries(n, xs[1..], SumBytes(acc, IdBytes(xs[0].id), n)))
  }

  lemma {:induction false} NumberBelowWeight(n: nat, s: seq<byte>, i: nat, k: nat)
    requires |s| == 4 * n && i + k == n
    ensures Number(s, 4 * i) < Weight(k)
    decreases k
  {
    if k > 0 {
      NumberByWords(s, i);
      NumberBelowWeight(n, s, i + 1, k - 1);
    }
  }

  lemma ValueOfSum(n: nat, a: seq<byte>, b: seq<byte>)
    requires |a| == |b| == 4 * n && n > 0 && CarriesAreSeen(n, a, b, 0)
    ensures Weight(n) > 0 && Value(a) < Weight(n)
    ensures Value(SumBytes(a, b, n)) == Residue(Value(a) + Value(b), Weight(n))
  {
    hide Number, Weight, CarriesAreSeen, SumBytes, Residue;
    SumIsExactIffCarriesAreSeen(n, a, b, 0, n);
    NumberBelowWeight(n, a, 0, n);
    assert TrueSum(a, b, 0) == Value(a) + Value(b);
  }

  lemma {:induction false} ResidueAbsorbs(x: nat, y: nat, m: nat)
    requires m > 0
    ensures Residue(Residue(x, m) + y, m) == Residue(x + y, m)
  {
    if x >= m {
      ResidueAbsorbs(x - m, y, m);
    }
  }

  // The fold over a range, from any accumulator: the sum of all ids.
  lemma {:induction false} AddIdsIsSum(n: nat, xs: seq<Item>, tmp: seq<byte>, acc: seq<byte>)
    requires n > 0 && |tmp| == |acc| == 4 * n && HexIds(n, xs) && StepsSeeCarries(n, xs, acc)
    ensures Weight(n) > 0
    ensures Value(AddIds(xs, tmp, acc)) == Residue(Value(acc) + IdSum(n, xs), Weight(n))
    decreases |xs|
  {
    hide Value, Weight, CarriesAreSeen, SumBytes, DecodeInto, IsHex;
    if xs == [] {
      AccumulatorIsReduced(n, acc);
    } else {
      var id, rest := IdBytes(xs[0].id), xs[1..];
      IdBytesLength(xs[0].id, 4 * n);
      DecodeIntoIsIdBytes(tmp, xs[0].id);
      ValueOfSum(n, acc, id);
      AddIdsIsSum(n, rest, id, SumBytes(acc, id, n));
      ResidueAbsorbs(Value(acc) + Value(id), IdSum(n, rest), Weight(n));
    }
  }

  lemma AccumulatorIsReduced(n: nat, acc: seq<byte>)
    requires |acc| == 4 * n
    ensures Value(acc) < Weight(n) && Residue(Value(acc), Weight(n)) == Value(acc)
  {
    hide Number, Weight;
    NumberBelowWeight(n, acc, 0, n);
  }
}
