// The 256-bit sum behind a range fingerprint, kept as 32 little-endian bytes
// and added to eight 32-bit words at a time.
module Accumulators {
  import opened HexIO

  const WORD := 0x1_0000_0000

  // binary.LittleEndian.Uint32 on the i-th word of s.
  function Uint32(s: seq<byte>, i: nat): (v: nat)
    requires 4 * i + 4 <= |s|
    ensures v < WORD
  {
    s[4 * i] as int + 0x100 * s[4 * i + 1] as int + 0x1_0000 * s[4 * i + 2] as int + 0x100_0000 * s[4 * i + 3] as int
  }

  // The k little-endian bytes of v.
  function LittleEndian(v: nat, k: nat): (s: seq<byte>)
    ensures |s| == k
    decreases v, k
  {
    if k == 0 then [] else [v % 0x100] + LittleEndian(v / 0x100, k - 1)
  }

  // binary.LittleEndian.PutUint32
  function PutUint32(v: nat): (s: seq<byte>)
    requires v < WORD
    ensures |s| == 4 && Uint32(s, 0) == v
  {
    LittleEndianRoundTrip(v);
    LittleEndian(v, 4)
  }

  lemma LittleEndianRoundTrip(v: nat)
    requires v < WORD
    ensures Uint32(LittleEndian(v, 4), 0) == v
  {
    var v1 := v / 0x100;
    var v2 := v1 / 0x100;
    var v3 := v2 / 0x100;
    assert LittleEndian(v, 4) == [v % 0x100] + LittleEndian(v1, 3);
    assert LittleEndian(v1, 3) == [v1 % 0x100] + LittleEndian(v2, 2);
    assert LittleEndian(v2, 2) == [v2 % 0x100] + LittleEndian(v3, 1);
    assert LittleEndian(v3, 1) == [v3 % 0x100] + LittleEndian(v3 / 0x100, 0);
  }

  // uint32 addition of two words and a carry wraps around at most once.
  function AddUint32(o: nat, v: nat, carry: nat): (next: nat)
    requires o < WORD && v < WORD && carry <= 1
    ensures next < WORD
  {
    if o + carry + v < WORD then o + carry + v else o + carry + v - WORD
  }

  // The overflow test of AddBytes on one pair of words.
  function NextCarry(o: nat, v: nat, carry: nat): (r: nat)
    requires o < WORD && v < WORD && carry <= 1
    ensures r <= 1
  {
    var next := AddUint32(o, v, carry);
    if next < o || next < v then 1 else 0
  }

  // currCarry when AddBytes comes to word i.
  function CarryInto(a: seq<byte>, b: seq<byte>, i: nat): (r: nat)
    requires |a| == |b| && 4 * i <= |a|
    ensures r <= 1
  {
    if i == 0 then 0 else NextCarry(Uint32(a, i - 1), Uint32(b, i - 1), CarryInto(a, b, i - 1))
  }

  function SumWord(a: seq<byte>, b: seq<byte>, i: nat): (r: nat)
    requires |a| == |b| && 4 * i + 4 <= |a|
    ensures r < WORD
  {
    AddUint32(Uint32(a, i), Uint32(b, i), CarryInto(a, b, i))
  }

  // What AddBytes leaves in the first n words of the buffer.
  function SumBytes(a: seq<byte>, b: seq<byte>, n: nat): (r: seq<byte>)
    requires |a| == |b| && 4 * n <= |a|
    ensures |r| == 4 * n
    decreases a, n
  {
    if n == 0 then [] else SumBytes(a, b, n - 1) + PutUint32(SumWord(a, b, n - 1))
  }

  // The number that bytes k.. of s stand for, least significant first.
  ghost function Number(s: seq<byte>, k: nat): nat
    requires k <= |s|
    decreases |s| - k
  {
    if k == |s| then 0 else s[k] as int + 256 * Number(s, k + 1)
  }

  // 2^(32k)
  ghost function Weight(k: nat): nat {
    if k == 0 then 1 else WORD * Weight(k - 1)
  }

  // Word i has both sides all ones and a carry comes in: the wrapped sum is
  // not smaller than either side, so the overflow test misses the carry out.
  ghost predicate MissesCarryAt(a: seq<byte>, b: seq<byte>, i: nat)
    requires |a| == |b| && 4 * i + 4 <= |a|
  {
    CarryInto(a, b, i) == 1 && Uint32(a, i) == WORD - 1 && Uint32(b, i) == WORD - 1
  }

  // No carry is missed from word i on. One out of the last word would be
  // discarded anyway.
  ghost predicate CarriesAreSeen(n: nat, a: seq<byte>, b: seq<byte>, i: nat)
    requires |a| == |b| == 4 * n && i < n
    decreases n - i
  {
    i + 1 == n || (!MissesCarryAt(a, b, i) && CarriesAreSeen(n, a, b, i + 1))
  }

  // The words from i on of the result of AddBytes, as a number.
  ghost function SumFrom(n: nat, a: seq<byte>, b: seq<byte>, i: nat): nat
    requires |a| == |b| == 4 * n && i <= n
    decreases n - i
  {
    if i == n then 0 else SumWord(a, b, i) + WORD * SumFrom(n, a, b, i + 1)
  }

  // What the carries missed from word i on would have added.
  ghost function Missed(n: nat, a: seq<byte>, b: seq<byte>, i: nat): nat
    requires |a| == |b| == 4 * n && i < n
    decreases n - i
  {
    if i + 1 == n then 0
    else (if MissesCarryAt(a, b, i) then WORD else 0) + WORD * Missed(n, a, b, i + 1)
  }

  // The carry out of the last word, at its full weight.
  ghost function Overflow(n: nat, a: seq<byte>, b: seq<byte>, i: nat): nat
    requires |a| == |b| == 4 * n && i < n
    decreases n - i
  {
    if i + 1 == n then (if Uint32(a, i) + CarryInto(a, b, i) + Uint32(b, i) < WORD then 0 else WORD)
    else WORD * Overflow(n, a, b, i + 1)
  }

  // The test sees every carry but the one out of a word pair of all ones.
  lemma OneWord(o: nat, v: nat, carry: nat)
    requires o < WORD && v < WORD && carry <= 1
    ensures WORD * NextCarry(o, v, carry) ==
            if o + carry + v < WORD || (carry == 1 && o == WORD - 1 && v == WORD - 1) then 0 else WORD
  {
  }

  lemma NumberByWords(s: seq<byte>, i: nat)
    requires 4 * i + 4 <= |s|
    ensures Number(s, 4 * i) == Uint32(s, i) + WORD * Number(s, 4 * (i + 1))
  {
    var k := 4 * i;
    assert Number(s, k) == s[k] as int + 256 * Number(s, k + 1);
    assert Number(s, k + 1) == s[k + 1] as int + 256 * Number(s, k + 2);
    assert Number(s, k + 2) == s[k + 2] as int + 256 * Number(s, k + 3);
    assert Number(s, k + 3) == s[k + 3] as int + 256 * Number(s, k + 4);
  }

  // Nothing else goes missing: the result, the carry out and the missed
  // carries add up to the true sum.
  lemma {:induction false} Ledger(n: nat, a: seq<byte>, b: seq<byte>, i: nat)
    requires |a| == |b| == 4 * n && i < n
    ensures SumFrom(n, a, b, i) + Overflow(n, a, b, i) + Missed(n, a, b, i) ==
            Number(a, 4 * i) + Number(b, 4 * i) + CarryInto(a, b, i)
    decreases n - i
  {
    NumberByWords(a, i);
    NumberByWords(b, i);
    OneWord(Uint32(a, i), Uint32(b, i), CarryInto(a, b, i));
    if i + 1 < n {
      Ledger(n, a, b, i + 1);
    } else {
      assert SumFrom(n, a, b, i + 1) == 0;
    }
  }

  lemma {:induction false} LedgerBounds(n: nat, a: seq<byte>, b: seq<byte>, i: nat, k: nat)
    requires |a| == |b| == 4 * n && i + k == n && k > 0
    ensures SumFrom(n, a, b, i) < Weight(k)
    ensures Overflow(n, a, b, i) == 0 || Overflow(n, a, b, i) == Weight(k)
    ensures Missed(n, a, b, i) <= Weight(k) - WORD
    ensures Missed(n, a, b, i) == 0 <==> CarriesAreSeen(n, a, b, i)
    decreases k
  {
    assert Weight(k) == WORD * Weight(k - 1);
    if k > 1 {
      LedgerBounds(n, a, b, i + 1, k - 1);
    } else {
      assert SumFrom(n, a, b, i + 1) == 0;
    }
  }

  // The bytes written are the words summed.
  lemma {:induction false} SumBytesAt(a: seq<byte>, b: seq<byte>, n: nat, i: nat)
    requires |a| == |b| && 4 * n <= |a| && i < n
    ensures Uint32(SumBytes(a, b, n), i) == SumWord(a, b, i)
  {
    var front, word := SumBytes(a, b, n - 1), PutUint32(SumWord(a, b, n - 1));
    var r := SumBytes(a, b, n);
    assert r == front + word;
    if i < n - 1 {
      SumBytesAt(a, b, n - 1, i);
      assert forall k :: 4 * i <= k < 4 * i + 4 ==> r[k] == front[k];
    } else {
      assert forall k :: 0 <= k < 4 ==> r[4 * i + k] == word[k];
    }
  }

  lemma {:induction false} SumBytesNumber(n: nat, a: seq<byte>, b: seq<byte>, i: nat)
    requires |a| == |b| == 4 * n && i <= n
    ensures Number(SumBytes(a, b, n), 4 * i) == SumFrom(n, a, b, i)
    decreases n - i
  {
    if i < n {
      SumBytesNumber(n, a, b, i + 1);
      NumberByWords(SumBytes(a, b, n), i);
      SumBytesAt(a, b, n, i);
    }
  }

  // x modulo m, by taking m away as often as it fits.
  ghost function Residue(x: nat, m: nat): (r: nat)
    requires m > 0
    ensures r < m
  {
    if x < m then x else Residue(x - m, m)
  }

  lemma ResidueOfSum(x: nat, m: nat, r: nat, overflow: nat, missed: nat)
    requires m > 0 && r < m && missed < m && (overflow == 0 || overflow == m)
    requires r + overflow + missed == x
    ensures r == Residue(x, m) <==> missed == 0
  {
    if x >= m {
      assert Residue(x, m) == Residue(x - m, m);
      if x - m >= m {
        assert Residue(x - m, m) == Residue(x - m - m, m);
      }
    }
  }

  // What AddBytes should leave in words i on: the sum of both sides' and of
  // the carry that comes in (none for i == 0), before reduction.
  ghost function TrueSum(a: seq<byte>, b: seq<byte>, i: nat): nat
    requires |a| == |b| && 4 * i <= |a|
  {
    Number(a, 4 * i) + Number(b, 4 * i) + CarryInto(a, b, i)
  }

  // Adding n words is addition modulo 2^(32n) on exactly the inputs where no
  // word but the last has both sides all ones and a carry coming in. AddBytes
  // is the case n == 8, i == 0.
  lemma SumIsExactIffCarriesAreSeen(n: nat, a: seq<byte>, b: seq<byte>, i: nat, k: nat)
    requires |a| == |b| == 4 * n && i + k == n && k > 0
    ensures Weight(k) > 0
    ensures Number(SumBytes(a, b, n), 4 * i) == Residue(TrueSum(a, b, i), Weight(k)) <==> CarriesAreSeen(n, a, b, i)
  {
    Ledger(n, a, b, i);
    LedgerBounds(n, a, b, i, k);
    SumBytesNumber(n, a, b, i);
    ResidueOfSum(TrueSum(a, b, i), Weight(k), SumFrom(n, a, b, i), Overflow(n, a, b, i), Missed(n, a, b, i));
  }

  // An input on which the sum is wrong: twice 2^64 - 1 loses the carry out of
  // the second word.
  lemma AddBytesCanMissCarry(n: nat) returns (a: seq<byte>)
    requires n > 2
    ensures |a| == 4 * n && Weight(n) > 0
    ensures Number(SumBytes(a, a, n), 4 * 0) != Residue(TrueSum(a, a, 0), Weight(n))
  {
    a := seq(4 * n, k => if k < 8 then 255 else 0);
    assert Uint32(a, 0) == WORD - 1 && Uint32(a, 1) == WORD - 1;
    assert CarryInto(a, a, 1) == NextCarry(WORD - 1, WORD - 1, CarryInto(a, a, 0));
    assert MissesCarryAt(a, a, 1) && !CarriesAreSeen(n, a, a, 1);
    SumIsExactIffCarriesAreSeen(n, a, a, 0, n);
  }

  // 32 zero bytes.
  function Zeros(): (z: seq<byte>)
    ensures |z| == 32
    ensures forall k :: 0 <= k < 32 ==> z[k] == 0
  {
    var eight: seq<byte> := [0, 0, 0, 0, 0, 0, 0, 0];
    eight + eight + eight + eight
  }

  method PutUint32At(buf: array<byte>, offset: nat, v: nat)
    requires offset + 4 <= buf.Length && v < WORD
    modifies buf
    ensures buf[..offset + 4] == old(buf[..offset]) + PutUint32(v)
    ensures forall k :: offset + 4 <= k < buf.Length ==> buf[k] == old(buf[k])
  {
    var word := PutUint32(v);
    buf[offset], buf[offset + 1], buf[offset + 2], buf[offset + 3] := word[0], word[1], word[2], word[3];
  }

  lemma SameBytesSameWord(a: seq<byte>, b: seq<byte>, i: nat)
    requires 4 * i + 4 <= |a| && 4 * i + 4 <= |b| && forall k :: 4 * i <= k < 4 * i + 4 ==> a[k] == b[k]
    ensures Uint32(a, i) == Uint32(b, i)
  {
  }

  class Accumulator {
    const buf: array<byte>  // 32 bytes and 8 of slack for GetFingerprint

    constructor ()
      ensures fresh(buf) && buf.Length == 40
    {
      buf := new byte[40];
    }

    method Reset()
      requires buf.Length == 40
      modifies buf
      ensures buf[..32] == Zeros()
    {
      for i := 0 to 32
        invariant forall k :: 0 <= k < i ==> buf[k] == 0
      {
        buf[i] := 0;
      }
    }

    // One turn of the loop of AddBytes.
    method AddWord(i: nat, otherV: nat, currCarry: nat) returns (nextCarry: nat)
      requires buf.Length == 40 && i < 8 && otherV < WORD && currCarry <= 1
      modifies buf
      ensures var orig := Uint32(old(buf[..]), i);
              buf[..4 * i + 4] == old(buf[..4 * i]) + PutUint32(AddUint32(orig, otherV, currCarry)) &&
              nextCarry == NextCarry(orig, otherV, currCarry)
      ensures forall k :: 4 * i + 4 <= k < 40 ==> buf[k] == old(buf[k])
    {
      var orig := Uint32(buf[4 * i..4 * i + 4], 0);
      assert orig == Uint32(buf[..], i);
      var next := AddUint32(orig, otherV, currCarry);  // orig + currCarry + otherV on uint32
      nextCarry := if next < orig || next < otherV then 1 else 0;
      PutUint32At(buf, 4 * i, next);
    }

    method AddBytes(other: seq<byte>)
      requires buf.Length == 40 && |other| == 32
      modifies buf
      ensures buf[..32] == SumBytes(old(buf[..32]), other, 8)
    {
      hide Uint32, PutUint32, AddUint32, NextCarry;
      var currCarry: nat := 0;
      ghost var was := buf[..32];
      for i := 0 to 8
        invariant forall k :: 4 * i <= k < 32 ==> buf[k] == was[k]
        invariant currCarry == CarryInto(was, other, i)
        invariant buf[..4 * i] == SumBytes(was, other, i)
      {
        SameBytesSameWord(buf[..], was, i);
        currCarry := AddWord(i, Uint32(other, i), currCarry);
      }
    }
  }
}
