// A HyperLogLog of precision 8: 256 registers, raised in place.
module HyperLogLogs {
  import opened HexIO
  import opened Sketches

  // Counts the zeros from bit 55 of x down to its first one.
  method Clz56(x: nat) returns (c: nat)
    requires x < Pow2(64)
    ensures c == LeadingZeros(LowPart(x), 56)
  {
    hide Pow2;
    ghost var low := LowPart(x);
    SplitsAt56(x);
    c := 0;
    var k := 55;
    while k >= 0 && BitIsClear(x, k)
      invariant -1 <= k <= 55 && c == 55 - k
      invariant low < Pow2(k + 1)
      invariant LeadingZeros(low, 56) == c + LeadingZeros(low, k + 1)
      decreases k
    {
      LowBits(x / Pow2(56), low, 56, k);
      HighestBit(low, k);
      c := c + 1;
      k := k - 1;
    }
    if k >= 0 {
      LowBits(x / Pow2(56), low, 56, k);
      HighestBit(low, k);
    }
  }

  // The low 56 bits of x.
  function LowPart(x: nat): nat {
    x % Pow2(56)
  }

  lemma SplitsAt56(x: nat)
    ensures x == x / Pow2(56) * Pow2(56) + LowPart(x) && LowPart(x) < Pow2(56)
  {
  }

  lemma LowPartOfWindow(w: Window)
    ensures BigEndian(w) < Pow2(64) && LowPart(BigEndian(w)) == BigEndian(w[1..])
  {
    hide Pow2;
    BigEndianIsBounded(w);
    BigEndianSplits(w);
    BigEndianIsBounded(w[1..]);
    RemainderIs(BigEndian(w), w[0], BigEndian(w[1..]), Pow2(56));
  }

  lemma RemainderIs(v: nat, q: nat, r: nat, p: nat)
    requires p > r && v == q * p + r
    ensures v % p == r
  {
    QuotientIs(v, q, r, p);
  }

  // hex.DecodeString on digits known to be hexadecimal.
  function Unhex(s: string): (bs: seq<byte>)
    requires AreHex(s) && |s| % 2 == 0
    ensures |bs| == |s| / 2
  {
    if s == [] then [] else [UnhexByte(s).value] + Unhex(s[2..])
  }

  predicate AreHex(s: string) {
    forall i :: 0 <= i < |s| ==> HexValue(s[i]) >= 0
  }

  lemma {:induction false} UnhexReadsBack(bs: seq<byte>)
    ensures |Hex(bs)| == 2 * |bs| && AreHex(Hex(bs)) && Unhex(Hex(bs)) == bs
  {
    if bs != [] {
      UnhexReadsBack(bs[1..]);
      HexByteRoundTrip(bs[0], Hex(bs[1..]));
      HexDigitRoundTrip(bs[0] / 16);
      HexDigitRoundTrip(bs[0] % 16);
      assert Hex(bs)[2..] == Hex(bs[1..]);
    }
  }

  class HyperLogLog {
    const offset: nat
    const registers: array<byte>

    ghost predicate Valid() {
      offset <= 24 && registers.Length == 256
    }

    constructor (offset: nat)
      requires offset <= 32 - 8
      ensures Valid() && this.offset == offset && fresh(registers)
      ensures Represents(registers[..], [])
    {
      this.offset := offset;
      registers := new byte[256](_ => 0);
    }

    method Clear()
      requires Valid()
      modifies registers
      ensures Represents(registers[..], [])
    {
      for i := 0 to registers.Length
        invariant forall k :: 0 <= k < i ==> registers[k] == 0
      {
        registers[i] := 0;
      }
    }

    // Raises the register of the item's first byte to the item's rank.
    method Raise(w: Window, ghost items: seq<Window>)
      requires Valid()
      modifies registers
      ensures old(Represents(registers[..], items)) ==> Represents(registers[..], items + [w])
    {
      LowPartOfWindow(w);
      assert (items + [w])[..|items|] == items;
      var j := w[0];
      var zeroBits := Clz56(BigEndian(w));
      zeroBits := zeroBits + 1;
      if zeroBits > registers[j] {
        registers[j] := zeroBits;
      }
    }

    method AddBytes(pubkey: seq<byte>, ghost items: seq<Window>)
      requires Valid() && |pubkey| >= offset + 8
      modifies registers
      ensures old(Represents(registers[..], items)) ==> Represents(registers[..], items + [pubkey[offset..offset + 8]])
    {
      Raise(pubkey[offset..offset + 8], items);
    }

    // The key in hexadecimal: adds the same item as its bytes would.
    method Add(pubkey: string, ghost items: seq<Window>)
      requires Valid() && |pubkey| >= offset * 2 + 16 && AreHex(pubkey[offset * 2..offset * 2 + 16])
      modifies registers
      ensures old(Represents(registers[..], items)) ==>
                Represents(registers[..], items + [Unhex(pubkey[offset * 2..offset * 2 + 16])])
    {
      Raise(Unhex(pubkey[offset * 2..offset * 2 + 16]), items);
    }

    // Panics, as the caller must see to, if there are more than 256.
    method MergeRegisters(other: seq<byte>)
      requires Valid() && |other| <= 256
      modifies registers
      ensures registers[..] == Merged(old(registers[..]), other)
    {
      ghost var was := registers[..];
      for i := 0 to |other|
        invariant forall k :: 0 <= k < 256 ==> registers[k] == if k < i && other[k] > was[k] then other[k] else was[k]
      {
        if other[i] > registers[i] {
          registers[i] := other[i];
        }
      }
    }

    // The other sketch may be this one.
    method Merge(other: HyperLogLog, ghost xs: seq<Window>, ghost ys: seq<Window>)
      requires Valid() && other.Valid()
      modifies registers
      ensures registers[..] == Merged(old(registers[..]), old(other.registers[..]))
      ensures old(Represents(registers[..], xs) && Represents(other.registers[..], ys)) ==>
                Represents(registers[..], xs + ys)
    {
      ghost var a, b := registers[..], other.registers[..];
      for i := 0 to other.registers.Length
        invariant forall k :: 0 <= k < 256 ==> registers[k] == if k < i && b[k] > a[k] then b[k] else a[k]
        invariant other.registers != registers ==> other.registers[..] == b
      {
        if other.registers[i] > registers[i] {
          registers[i] := other.registers[i];
        }
      }
      if Represents(a, xs) && Represents(b, ys) {
        MergedIsUnion(a, b, xs, ys);
      }
    }
  }
}
