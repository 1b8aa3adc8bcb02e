// The hexadecimal cursor and buffer that negentropy messages are read from
// and written to. A message is the string of hex digits itself.
module HexIO {
  import opened Wrappers

  type byte = b: int | 0 <= b < 256

  const HEX_TABLE := "0123456789abcdef"

  // The digit's value, or -1; both cases are accepted, as hex.Decode does.
  function HexValue(c: char): (v: int)
    ensures -1 <= v < 16
  {
    if '0' <= c <= '9' then c as int - '0' as int
    else if 'a' <= c <= 'f' then c as int - 'a' as int + 10
    else if 'A' <= c <= 'F' then c as int - 'A' as int + 10
    else -1
  }

  function HexByte(b: byte): string {
    [HEX_TABLE[b / 16], HEX_TABLE[b % 16]]
  }

  function Hex(bs: seq<byte>): string {
    if bs == [] then "" else HexByte(bs[0]) + Hex(bs[1..])
  }

  // The byte spelled by the first two characters.
  function UnhexByte(s: string): (r: Option<byte>)
    ensures r.Some? ==> |s| >= 2
  {
    if |s| < 2 || HexValue(s[0]) < 0 || HexValue(s[1]) < 0 then None
    else Some(HexValue(s[0]) * 16 + HexValue(s[1]))
  }

  lemma HexDigitRoundTrip(v: nat)
    requires v < 16
    ensures HexValue(HEX_TABLE[v]) == v
  {
    assert HEX_TABLE[0] == '0' && HEX_TABLE[9] == '9' && HEX_TABLE[10] == 'a' && HEX_TABLE[15] == 'f';
  }

  // What WriteByte puts on the wire is what ReadHexByte takes off it.
  lemma HexByteRoundTrip(b: byte, rest: string)
    ensures UnhexByte(HexByte(b) + rest) == Some(b)
    ensures (HexByte(b) + rest)[2..] == rest
  {
    HexDigitRoundTrip(b / 16);
    HexDigitRoundTrip(b % 16);
  }

  lemma {:induction false} HexAppend(a: seq<byte>, b: seq<byte>)
    ensures Hex(a + b) == Hex(a) + Hex(b)
    ensures |Hex(a)| == 2 * |a|
  {
    if a == [] {
      assert a + b == b;
    } else {
      HexAppend(a[1..], b);
      assert (a + b)[0] == a[0] && (a + b)[1..] == a[1..] + b;
      var digits := HexByte(a[0]);
      assert digits + (Hex(a[1..]) + Hex(b)) == digits + Hex(a[1..]) + Hex(b);
    }
  }

  // The digits are lower case, in their order.
  lemma HexDigitsAscend(v: nat, w: nat)
    requires v < w < 16
    ensures HEX_TABLE[v] < HEX_TABLE[w]
    ensures '0' <= HEX_TABLE[v] <= '9' || 'a' <= HEX_TABLE[v] <= 'f'
    ensures '0' <= HEX_TABLE[w] <= '9' || 'a' <= HEX_TABLE[w] <= 'f'
  {
    HexDigitRoundTrip(v);
    HexDigitRoundTrip(w);
  }

  lemma {:induction false} HexIsInjective(a: seq<byte>, b: seq<byte>)
    requires |a| == |b| && Hex(a) == Hex(b)
    ensures a == b
  {
    hide UnhexByte;
    if a != [] {
      HexByteRoundTrip(a[0], Hex(a[1..]));
      HexByteRoundTrip(b[0], Hex(b[1..]));
      HexIsInjective(a[1..], b[1..]);
    }
  }

  class StringHexReader {
    const source: string
    var idx: int

    constructor (source: string)
      ensures this.source == source && idx == 0
    {
      this.source := source;
      idx := 0;
    }

    ghost predicate Valid()
      reads this
    {
      0 <= idx <= |source|
    }

    // What has not been read yet.
    ghost function Rest(): string
      reads this
      requires Valid()
    {
      source[idx..]
    }

    method Len() returns (n: int)
      requires Valid()
      ensures n == |Rest()|
    {
      n := |source| - idx;
    }

    method ReadHexByte() returns (r: Option<byte>)
      requires Valid()
      modifies this`idx
      ensures r == UnhexByte(old(Rest()))
      ensures r.Some? ==> Valid() && Rest() == old(Rest())[2..]
    {
      idx := idx + 2;
      if |source| < idx {
        return None;
      }
      var s := source[idx - 2..idx];
      r := UnhexByte(s);
    }

    // A negative size makes the Go slice expression panic; here it is one
    // more way of getting no string.
    method ReadString(size: int) returns (r: Option<string>)
      requires Valid()
      modifies this`idx
      ensures r.Some? <==> 0 <= size <= |old(Rest())|
      ensures r.Some? ==> Valid() && r.value == old(Rest())[..size] && Rest() == old(Rest())[size..]
    {
      idx := idx + size;
      if |source| < idx || size < 0 {
        return None;
      }
      r := Some(source[idx - size..idx]);
    }
  }

  class StringHexWriter {
    var hexbuf: string

    constructor ()
      ensures hexbuf == ""
    {
      hexbuf := "";
    }

    method Reset()
      modifies this
      ensures hexbuf == ""
    {
      hexbuf := hexbuf[..0];
    }

    method WriteHex(hexString: string)
      modifies this
      ensures hexbuf == old(hexbuf) + hexString
    {
      hexbuf := hexbuf + hexString;
    }

    method WriteByte(b: byte)
      modifies this
      ensures hexbuf == old(hexbuf) + HexByte(b)
    {
      hexbuf := hexbuf + [HEX_TABLE[b / 16], HEX_TABLE[b % 16]];
    }

    method WriteBytes(bs: seq<byte>)
      modifies this
      ensures hexbuf == old(hexbuf) + Hex(bs)
    {
      for i := 0 to |bs|
        invariant hexbuf + Hex(bs[i..]) == old(hexbuf) + Hex(bs)
      {
        WriteByte(bs[i]);
        assert bs[i..] == [bs[i]] + bs[i + 1..];
      }
    }
  }
}
