// The in-memory storage of a negentropy session: a sorted vector of items.
module Vectors {
  import opened HexIO
  import opened VarInt
  import opened Items
  import opened Accumulators

  const ID_LENGTH := 64
  const FINGERPRINT_SIZE := 16

  // SHA-256 stands outside this model: any function to 32 bytes.
  type Hash = h: seq<byte> -> seq<byte> | forall m :: |h(m)| == 32 witness m => Zeros()

  // hex.Decode: fills tmp up to the first pair that is not two hex digits and
  // leaves the rest of it as it was. Fingerprint ignores the error.
  function DecodeInto(tmp: seq<byte>, id: string): (r: seq<byte>)
    requires |id| == 2 * |tmp|
    ensures |r| == |tmp|
  {
    if tmp == [] then []
    else
      var b := UnhexByte(id);
      if b.None? then tmp else [b.value] + DecodeInto(tmp[1..], id[2..])
  }

  // The accumulator after adding the ids of xs, tmp being reused for each.
  function AddIds(xs: seq<Item>, tmp: seq<byte>, acc: seq<byte>): (r: seq<byte>)
    requires |tmp| == |acc| && |acc| % 4 == 0
    requires forall i :: 0 <= i < |xs| ==> |xs[i].id| == 2 * |acc|
    ensures |r| == |acc|
  {
    if xs == [] then acc
    else
      var id := DecodeInto(tmp, xs[0].id);
      AddIds(xs[1..], id, SumBytes(acc, id, |acc| / 4))
  }

  lemma AddOneId(xs: seq<Item>, tmp: seq<byte>, acc: seq<byte>)
    requires |tmp| == |acc| == 32 && FullIds(xs)
    ensures xs != [] ==>
              var id := DecodeInto(tmp, xs[0].id);
              AddIds(xs, tmp, acc) == AddIds(xs[1..], id, SumBytes(acc, id, 8))
    ensures AddIds([], tmp, acc) == acc
  {
    hide SumBytes, DecodeInto;
  }

  ghost predicate FullIds(xs: seq<Item>) {
    forall i :: 0 <= i < |xs| ==> |xs[i].id| == ID_LENGTH
  }

  // GetFingerprint: the hash of the sum and the count, cut to 16 bytes.
  function Digest(h: Hash, sum: seq<byte>, n: nat): (fp: string)
    ensures |fp| == 2 * FINGERPRINT_SIZE
  {
    var digest := h(sum + VarIntBytes(n));
    HexAppend(digest[..FINGERPRINT_SIZE], []);
    Hex(digest[..FINGERPRINT_SIZE])
  }

  // The "Fingerprint Algorithm" of NIP-77's appendix, on this accumulator.
  function FingerprintOf(h: Hash, xs: seq<Item>): (fp: string)
    requires FullIds(xs)
    ensures |fp| == 2 * FINGERPRINT_SIZE
  {
    Digest(h, AddIds(xs, Zeros(), Zeros()), |xs|)
  }

  // A stable insertion, to stand for the library sort.
  function InsertInOrder(x: Item, xs: seq<Item>): (r: seq<Item>)
    requires Ordered(xs)
    ensures Ordered(r) && multiset(r) == multiset(xs) + multiset{x}
  {
    var n := LowerBound(xs, x);
    LowerBoundSplits(xs, x);
    InsertionIsOrdered(x, xs, n);
    assert xs == xs[..n] + xs[n..];
    xs[..n] + [x] + xs[n..]
  }

  lemma InsertionIsOrdered(x: Item, xs: seq<Item>, n: nat)
    requires Ordered(xs) && n <= |xs|
    requires forall i :: 0 <= i < n ==> Less(xs[i], x)
    requires forall i :: n <= i < |xs| ==> !Less(xs[i], x)
    ensures Ordered(xs[..n] + [x] + xs[n..])
  {
    forall i | 0 <= i < n
      ensures !Less(x, xs[i])
    {
      LessIsTotal(x, xs[i]);
    }
  }

  function SortItems(xs: seq<Item>): (r: seq<Item>)
    ensures Ordered(r) && multiset(r) == multiset(xs)
  {
    if xs == [] then []
    else
      assert xs == [xs[0]] + xs[1..];
      InsertInOrder(xs[0], SortItems(xs[1..]))
  }

  class Vector {
    var items: seq<Item>
    var sealed: bool
    const acc: Accumulator
    const sha256: Hash

    // Every item came through Insert; a sealed vector is in order. A count is
    // written as a varint, which ends at 2^56.
    ghost predicate Valid()
      reads this
    {
      acc.buf.Length == 40 && FullIds(items) && |items| < VARINT_LIMIT && (sealed ==> Ordered(items))
    }

    constructor (sha256: Hash)
      ensures Valid() && items == [] && !sealed && this.sha256 == sha256
      ensures fresh(acc) && fresh(acc.buf)
    {
      items := [];
      sealed := false;
      acc := new Accumulator();
      this.sha256 := sha256;
    }

    method Insert(createdAt: int, id: string)
      requires Valid() && !sealed
      requires |id| == ID_LENGTH && |items| + 1 < VARINT_LIMIT
      modifies this
      ensures Valid() && !sealed && items == old(items) + [Item(createdAt, id)]
    {
      items := items + [Item(createdAt, id)];
    }

    method Seal()
      requires Valid() && !sealed
      modifies this
      ensures Valid() && sealed && multiset(items) == multiset(old(items))
    {
      sealed := true;
      ghost var was := items;
      items := SortItems(items);
      forall i | 0 <= i < |items|
        ensures |items[i].id| == ID_LENGTH
      {
        assert items[i] in multiset(items);
        assert items[i] in was;
      }
      assert |items| == |multiset(items)| == |multiset(was)| == |was|;
    }

    method Size() returns (n: nat)
      ensures n == |items|
    {
      n := |items|;
    }

    // slices.BinarySearchFunc over items[begin:end].
    method FindLowerBound(begin: nat, end: nat, bound: Item) returns (idx: nat)
      requires Valid() && sealed && begin <= end <= |items|
      ensures idx == begin + LowerBound(items[begin..end], bound) && idx <= end
    {
      ghost var part := items[begin..end];
      var i, j := begin, end;
      while i < j
        invariant begin <= i <= j <= end
        invariant forall k :: begin <= k < i ==> Less(items[k], bound)
        invariant forall k :: j <= k < end ==> !Less(items[k], bound)
      {
        var h := (i + j) / 2;
        if ItemCompare(items[h], bound) < 0 {
          forall k | begin <= k < h
            ensures Less(items[k], bound)
          {
            LessIsTransitive(items[k], items[h], bound);
          }
          i := h + 1;
        } else {
          forall k | h < k < end
            ensures !Less(items[k], bound)
          {
            LessIsTransitive(items[h], items[k], bound);
          }
          j := h;
        }
      }
      LowerBoundIsTheCut(part, bound, i - begin);
      idx := i;
    }

    method Fingerprint(begin: nat, end: nat) returns (fp: string)
      requires Valid() && begin <= end <= |items|
      modifies acc.buf
      ensures fp == FingerprintOf(sha256, items[begin..end])
    {
      hide Digest, AddIds, Zeros, Ordered;
      ghost var part := items[begin..end];
      assert |part| == end - begin;
      SumIds(begin, end);
      fp := GetFingerprint(end - begin);
      assert fp == Digest(sha256, AddIds(part, Zeros(), Zeros()), |part|);
    }

    method SumIds(begin: nat, end: nat)
      requires Valid() && begin <= end <= |items|
      modifies acc.buf
      ensures acc.buf[..32] == AddIds(items[begin..end], Zeros(), Zeros())
    {
      hide SumBytes, DecodeInto, AddIds, Zeros, Ordered;
      acc.Reset();
      var tmp := Zeros();
      for i := begin to end
        invariant |tmp| == 32
        invariant AddIds(items[i..end], tmp, acc.buf[..32]) == AddIds(items[begin..end], Zeros(), Zeros())
      {
        ghost var rest, buf := items[i..end], acc.buf[..32];
        assert rest[0] == items[i] && rest[1..] == items[i + 1..end];
        AddOneId(rest, tmp, buf);
        tmp := DecodeInto(tmp, items[i].id);
        acc.AddBytes(tmp);
      }
      assert items[end..end] == [];
      AddOneId(items[end..end], tmp, acc.buf[..32]);
    }

    // Accumulator.GetFingerprint; the count lands in the slack of the buffer.
    method GetFingerprint(n: nat) returns (fp: string)
      requires acc.buf.Length == 40 && n < VARINT_LIMIT
      modifies acc.buf
      ensures fp == Digest(sha256, old(acc.buf[..32]), n)
    {
      var count := EncodeVarInt(n);
      for i := 0 to |count|
        invariant acc.buf[..32 + i] == old(acc.buf[..32]) + count[..i]
      {
        acc.buf[32 + i] := count[i];
      }
      var input := acc.buf[..32 + |count|];
      assert input == old(acc.buf[..32]) + VarIntBytes(n);
      var hash := sha256(input);
      fp := Hex(hash[..FINGERPRINT_SIZE]);
    }
  }
}
