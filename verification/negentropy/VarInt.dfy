// Variable-length integers: base-128 digits, most significant first, the high
// bit set on every digit but the last.
module VarInt {
  import opened Wrappers
  import opened HexIO

  const INT64_MIN := -0x8000_0000_0000_0000

  // EncodeVarInt fills a buffer of 8 bytes, so it holds 56 bits.
  const VARINT_LIMIT := 0x100_0000_0000_0000

  // Go's int is 64 bits wide and wraps around.
  function WrapInt64(x: int): (r: int)
    ensures INT64_MIN <= r <= 0x7FFF_FFFF_FFFF_FFFF
  {
    if INT64_MIN <= x <= 0x7FFF_FFFF_FFFF_FFFF then x
    else (x - INT64_MIN) % 0x1_0000_0000_0000_0000 + INT64_MIN
  }

  // That is, it keeps the value modulo 2^64.
  lemma WrapsModulo(x: int)
    ensures (WrapInt64(x) - x) % 0x1_0000_0000_0000_0000 == 0
  {
    var m := 0x1_0000_0000_0000_0000;
    var y := x - INT64_MIN;
    assert y == y / m * m + y % m;
    if WrapInt64(x) != x {
      assert WrapInt64(x) - x == -(y / m) * m;
    }
  }

  // The digits of n that are followed by another one.
  function Leading(n: nat): seq<byte>
  {
    if n == 0 then [] else Leading(n / 128) + [128 + n % 128]
  }

  function VarIntBytes(n: nat): seq<byte> {
    Leading(n / 128) + [n % 128]
  }

  // readVarInt over the unread characters s, with the digits read so far in res.
  function DecodeVarInt(s: string, res: int): (r: Option<(int, string)>)
    ensures r.Some? ==> |r.value.1| < |s| && r.value.1 == s[|s| - |r.value.1|..]
    decreases |s|
  {
    var b := UnhexByte(s);
    if b.None? then None
    else
      var next := WrapInt64(res * 128 + b.value % 128);
      if b.value < 128 then Some((next, s[2..])) else DecodeVarInt(s[2..], next)
  }

  lemma {:induction false} LeadingRoundTrip(n: nat, rest: string)
    requires n <= 0x7FFF_FFFF_FFFF_FFFF
    ensures DecodeVarInt(Hex(Leading(n)) + rest, 0) == DecodeVarInt(rest, n)
  {
    hide HexByte, UnhexByte, WrapInt64, DecodeVarInt;
    if n == 0 {
      assert Hex(Leading(n)) + rest == rest;
    } else {
      var k: nat, d: byte := n / 128, 128 + n % 128;
      assert k * 128 + d % 128 == n;
      assert Hex(Leading(n)) + rest == Hex(Leading(k)) + (HexByte(d) + rest) by { SpelledOut(Leading(k), d, rest); }
      assert DecodeVarInt(HexByte(d) + rest, k) == DecodeVarInt(rest, n) by { OneDigit(k, d, rest); }
      assert DecodeVarInt(Hex(Leading(k)) + (HexByte(d) + rest), 0) == DecodeVarInt(HexByte(d) + rest, k) by {
        LeadingRoundTrip(k, HexByte(d) + rest);
      }
    }
  }

  // Reading a written integer gives it back and leaves the rest of the
  // stream untouched.
  lemma VarIntRoundTrip(n: nat, rest: string)
    requires n < VARINT_LIMIT
    ensures DecodeVarInt(Hex(VarIntBytes(n)) + rest, 0) == Some((n, rest))
  {
    var k: nat, d: byte := n / 128, n % 128;
    assert k * 128 + d == n && d % 128 == d;
    assert Hex(VarIntBytes(n)) + rest == Hex(Leading(k)) + (HexByte(d) + rest) by { SpelledOut(Leading(k), d, rest); }
    assert DecodeVarInt(HexByte(d) + rest, k) == Some((n, rest)) by { OneDigit(k, d, rest); }
    LeadingRoundTrip(k, HexByte(d) + rest);
  }

  lemma SpelledOut(front: seq<byte>, d: byte, rest: string)
    ensures Hex(front + [d]) + rest == Hex(front) + (HexByte(d) + rest)
  {
    HexAppend(front, [d]);
    assert Hex([d]) == HexByte(d) + Hex([]);
  }

  lemma OneDigit(res: nat, d: byte, rest: string)
    requires res * 128 + d % 128 <= 0x7FFF_FFFF_FFFF_FFFF
    ensures DecodeVarInt(HexByte(d) + rest, res) ==
            if d < 128 then Some((res * 128 + d, rest)) else DecodeVarInt(rest, res * 128 + d % 128)
  {
    HexByteRoundTrip(d, rest);
  }

  lemma NoDigits()
    ensures Leading(0) == Continued([]) == [] && VarIntBytes(0) == [0]
  {
  }

  lemma EightDigitsFit(n: nat)
    requires n < VARINT_LIMIT
    ensures |Leading(n)| <= 8
  {
    assert n < Power128(8) by { assert Power128(4) == 0x1000_0000; }
    LeadingFits(n, 8);
  }

  // The buffer overflows exactly outside [0, 2^56): there the Go code panics.
  method EncodeVarInt(n: nat) returns (result: seq<byte>)
    requires n < VARINT_LIMIT
    ensures result == VarIntBytes(n)
    ensures |result| <= 8
  {
    hide Leading, VarIntBytes, Continued, Power128;
    NoDigits();
    if n == 0 {
      return [0];
    }
    EightDigitsFit(n);
    var buffer := new byte[8];
    var idx := 7;
    var m: nat := n;
    assert buffer[idx + 1..] == [];
    while m != 0
      invariant -1 <= idx <= 7 && |Leading(m)| <= idx + 1
      invariant Leading(n) == Leading(m) + Continued(buffer[idx + 1..])
      invariant forall k :: idx < k < 8 ==> buffer[k] < 128
      decreases m
    {
      ghost var before := buffer[idx + 1..];
      MoveDigit(m, before);
      buffer[idx] := m % 128;
      assert buffer[idx + 1..] == before;
      assert buffer[idx..] == [buffer[idx]] + before;
      m := m / 128;
      idx := idx - 1;
    }
    result := buffer[idx + 1..];
    VarIntFromDigits(n, result);
    result := SetContinuationBits(result);
  }

  // The second loop of EncodeVarInt: the high bit on every byte but the last.
  method SetContinuationBits(digits: seq<byte>) returns (result: seq<byte>)
    requires |digits| > 0 && |Continued(digits)| == |digits|
    requires forall k :: 0 <= k < |digits| ==> Continued(digits)[k] == HighBit(digits[k])
    ensures result == Continued(digits)[..|digits| - 1] + digits[|digits| - 1..]
  {
    result := digits;
    for i := 0 to |result| - 1
      invariant |result| == |digits|
      invariant result == Continued(digits)[..i] + digits[i..]
    {
      result := result[i := HighBit(result[i])];
    }
  }

  lemma MoveDigit(m: nat, tail: seq<byte>)
    requires m > 0
    ensures Leading(m) + Continued(tail) == Leading(m / 128) + Continued([m % 128] + tail)
    ensures |Leading(m)| == |Leading(m / 128)| + 1
  {
    var front, d: byte := Leading(m / 128), m % 128;
    assert Leading(m) == front + [128 + d];
    assert Continued([d] + tail) == [128 + d] + Continued(tail);
    assert front + [128 + d] + Continued(tail) == front + ([128 + d] + Continued(tail));
  }

  ghost function Power128(k: nat): nat {
    if k == 0 then 1 else 128 * Power128(k - 1)
  }

  lemma {:induction false} LeadingFits(n: nat, k: nat)
    requires n < Power128(k)
    ensures |Leading(n)| <= k
  {
    if n > 0 {
      assert n / 128 < Power128(k - 1);
      LeadingFits(n / 128, k - 1);
    }
  }

  function HighBit(b: byte): byte {
    if b < 128 then b + 128 else b
  }

  // The digits with the high bit set on all of them.
  ghost function Continued(digits: seq<byte>): seq<byte> {
    if digits == [] then [] else [HighBit(digits[0])] + Continued(digits[1..])
  }

  lemma {:induction false} ContinuedAt(digits: seq<byte>)
    ensures |Continued(digits)| == |digits|
    ensures forall k :: 0 <= k < |digits| ==> Continued(digits)[k] == HighBit(digits[k])
  {
    if digits != [] {
      ContinuedAt(digits[1..]);
      assert forall k :: 0 < k < |digits| ==> digits[k] == digits[1..][k - 1];
    }
  }

  // A number's last byte loses its high bit and the others keep it.
  lemma VarIntFromDigits(n: nat, digits: seq<byte>)
    requires n > 0
    requires forall k :: 0 <= k < |digits| ==> digits[k] < 128
    requires Leading(n) == Continued(digits)
    ensures |digits| > 0 && |Continued(digits)| == |digits|
    ensures forall k :: 0 <= k < |digits| ==> Continued(digits)[k] == HighBit(digits[k])
    ensures VarIntBytes(n) == Continued(digits)[..|digits| - 1] + digits[|digits| - 1..]
  {
    ContinuedAt(digits);
    var front, d := Leading(n / 128), n % 128;
    assert Leading(n) == front + [128 + d];
    SplitLast(Continued(digits), front, 128 + d);
    assert digits[|digits| - 1..] == [d];
  }

  lemma SplitLast(s: seq<byte>, front: seq<byte>, last: byte)
    requires s == front + [last]
    ensures |s| > 0 && s[|s| - 1] == last && s[..|s| - 1] == front
  {
  }
}
