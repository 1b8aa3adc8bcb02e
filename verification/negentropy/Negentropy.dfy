// The negentropy session object: reads a message range by range and writes the
// reply as it goes. Frames are unlimited (frameSizeLimit 0).
module NegentropySession {
  import opened Wrappers
  import opened HexIO
  import opened VarInt
  import opened Items
  import opened Vectors
  import opened Messages
  import opened Splitting
  import opened Reconciling

  method ReadVarInt(reader: StringHexReader) returns (r: Option<int>)
    requires reader.Valid()
    modifies reader`idx
    ensures var d := DecodeVarInt(old(reader.Rest()), 0);
            match d
            case None => r.None?
            case Some((n, rest)) => r == Some(n) && reader.Valid() && reader.Rest() == rest
  {
    var res := 0;
    while true
      invariant reader.Valid()
      invariant DecodeVarInt(reader.Rest(), res) == DecodeVarInt(old(reader.Rest()), 0)
      decreases |reader.Rest()|
    {
      hide WrapInt64;
      var b := reader.ReadHexByte();
      if b.None? {
        return None;
      }
      res := WrapInt64(res * 128 + b.value % 128);
      if b.value < 128 {
        return Some(res);
      }
    }
  }

  // ok is false where EncodeVarInt would run over its buffer and panic.
  method WriteVarInt(w: StringHexWriter, n: int) returns (ok: bool)
    modifies w
    ensures ok <==> 0 <= n < VARINT_LIMIT
    ensures ok ==> w.hexbuf == old(w.hexbuf) + EncodeVar(n)
  {
    if n < 0 || VARINT_LIMIT <= n {
      return false;
    }
    if n == 0 {
      w.WriteByte(0);
      HexAppend([0], []);
      assert VarIntBytes(0) == [0] && Hex([0]) == HexByte(0) + Hex([]);
    } else {
      var bytes := EncodeVarInt(n);
      w.WriteBytes(bytes);
    }
    ok := true;
  }

  class Negentropy {
    const storage: Vector
    var initialized: bool
    var isClient: bool
    var lastTimestampIn: int
    var lastTimestampOut: int

    // What has been sent on the two channels, in order.
    var haves: seq<string>
    var haveNots: seq<string>
    var closed: bool

    constructor (storage: Vector)
      ensures this.storage == storage && !initialized && !isClient && !closed
      ensures lastTimestampIn == lastTimestampOut == 0 && haves == haveNots == []
    {
      this.storage := storage;
      initialized, isClient, closed := false, false, false;
      lastTimestampIn, lastTimestampOut := 0, 0;
      haves, haveNots := [], [];
    }

    ghost predicate Valid()
      reads this, storage
    {
      storage.Valid() && storage.sealed
    }

    method ReadTimestamp(reader: StringHexReader) returns (r: Option<int>)
      requires reader.Valid()
      modifies reader`idx, this`lastTimestampIn
      ensures var d := DecodeVarInt(old(reader.Rest()), 0);
              match d
              case None => r.None?
              case Some((field, rest)) =>
                r == Some(DecodeTimestamp(field, old(lastTimestampIn))) && lastTimestampIn == r.value &&
                reader.Valid() && reader.Rest() == rest
    {
      var delta := ReadVarInt(reader);
      if delta.None? {
        return None;
      }
      if delta.value == 0 {
        lastTimestampIn := MAX_TIMESTAMP;
        return Some(MAX_TIMESTAMP);
      }
      var timestamp := WrapInt64(lastTimestampIn + WrapInt64(delta.value - 1));
      lastTimestampIn := timestamp;
      r := Some(timestamp);
    }

    method ReadBound(reader: StringHexReader) returns (r: Option<Item>)
      requires reader.Valid()
      modifies reader`idx, this`lastTimestampIn
      ensures var d := DecodeBound(old(reader.Rest()), old(lastTimestampIn));
              match d
              case None => r.None?
              case Some((b, rest)) =>
                r == Some(b) && lastTimestampIn == b.timestamp && reader.Valid() && reader.Rest() == rest
    {
      hide DecodeVarInt, DecodeTimestamp, WrapInt64;
      var timestamp := ReadTimestamp(reader);
      if timestamp.None? {
        return None;
      }
      var length := ReadVarInt(reader);
      if length.None? {
        return None;
      }
      var id := reader.ReadString(WrapInt64(length.value * 2));
      if id.None? {
        return None;
      }
      r := Some(Item(timestamp.value, id.value));
    }

    method WriteTimestamp(w: StringHexWriter, timestamp: int) returns (ok: bool)
      modifies w, this`lastTimestampOut
      ensures ok <==> 0 <= TimestampField(timestamp, old(lastTimestampOut)) < VARINT_LIMIT
      ensures ok ==> w.hexbuf == old(w.hexbuf) + EncodeVar(TimestampField(timestamp, old(lastTimestampOut)))
      ensures lastTimestampOut == timestamp
    {
      hide EncodeVar, WrapInt64;
      if timestamp == MAX_TIMESTAMP {
        lastTimestampOut := MAX_TIMESTAMP;
        ok := WriteVarInt(w, 0);
        return;
      }
      var delta := timestamp - lastTimestampOut;
      lastTimestampOut := timestamp;
      ok := WriteVarInt(w, WrapInt64(delta + 1));
    }

    method WriteBound(w: StringHexWriter, bound: Item) returns (ok: bool)
      modifies w, this`lastTimestampOut
      ensures ok <==> BoundFits(bound, old(lastTimestampOut))
      ensures ok ==> w.hexbuf == old(w.hexbuf) + EncodeBound(bound, old(lastTimestampOut))
      ensures lastTimestampOut == bound.timestamp
    {
      hide EncodeVar, TimestampField;
      ok := WriteTimestamp(w, bound.timestamp);
      if ok {
        ok := WriteVarInt(w, |bound.id| / 2);
        w.WriteHex(bound.id);
      }
    }

    // getMinimalBound
    method GetMinimalBound(prev: Item, curr: Item) returns (b: Item)
      requires |prev.id| == |curr.id| == ID_LENGTH
      ensures b == MinimalBound(prev, curr)
    {
      if curr.timestamp != prev.timestamp {
        return Item(curr.timestamp, "");
      }
      var sharedPrefixBytes := CountSharedBytes(curr.id, prev.id);
      hide SharedBytes;
      b := Item(curr.timestamp, curr.id[..(sharedPrefixBytes + 1) * 2]);
    }

    method CountSharedBytes(a: string, b: string) returns (n: nat)
      requires |a| == |b| == ID_LENGTH
      ensures n == SharedBytes(a, b, 0)
    {
      n := 0;
      while n < 16
        invariant n <= 16 && SharedBytes(a, b, 0) == SharedBytes(a, b, n)
      {
        if a[2 * n..2 * n + 2] != b[2 * n..2 * n + 2] {
          break;
        }
        n := n + 1;
      }
    }

    method WriteIds(lower: nat, upper: nat, output: StringHexWriter)
      requires lower <= upper <= |storage.items|
      modifies output
      ensures output.hexbuf == old(output.hexbuf) + Join(Ids(storage.items[lower..upper]))
    {
      for i := lower to upper
        invariant output.hexbuf + Join(Ids(storage.items[i..upper])) ==
                  old(output.hexbuf) + Join(Ids(storage.items[lower..upper]))
      {
        ghost var rest := storage.items[i..upper];
        assert rest[0] == storage.items[i] && rest[1..] == storage.items[i + 1..upper];
        output.WriteHex(storage.items[i].id);
      }
    }

    method WriteIdList(lower: nat, upper: nat, bound: Item, output: StringHexWriter) returns (ok: bool)
      requires Valid() && lower <= upper <= |storage.items|
      modifies output, this`lastTimestampOut
      ensures var r := Range(bound, IdList(Ids(storage.items[lower..upper])));
              (ok <==> RangeFits(r, old(lastTimestampOut))) &&
              (ok ==> output.hexbuf == old(output.hexbuf) + EncodeRange(r, old(lastTimestampOut)))
      ensures lastTimestampOut == bound.timestamp
    {
      hide EncodeVar, EncodeBound, BoundFits, Join;
      ghost var ids := Ids(storage.items[lower..upper]);
      ok := WriteBound(output, bound);
      if ok {
        output.WriteByte(ID_LIST_MODE);
        ok := WriteVarInt(output, upper - lower);
        WriteIds(lower, upper, output);
      }
    }

    // One turn of the loop of SplitRange.
    method WriteBucket(lower: nat, upper: nat, upperBound: Item, i: nat, begin: nat, end: nat, output: StringHexWriter)
      returns (ok: bool)
      requires Valid() && lower <= upper <= |storage.items| && upper - lower >= 2 * BUCKETS && i < BUCKETS
      requires begin == Edge(lower, upper - lower, i) && end == Edge(lower, upper - lower, i + 1)
      modifies output, this`lastTimestampOut, storage.acc.buf
      ensures var r := Bucket(storage.sha256, storage.items, lower, upper, upperBound, i);
              (ok <==> RangeFits(r, old(lastTimestampOut))) &&
              (ok ==> output.hexbuf == old(output.hexbuf) + EncodeRange(r, old(lastTimestampOut))) &&
              lastTimestampOut == r.bound.timestamp
    {
      hide EncodeRange, RangeFits, FingerprintOf, Edge, MinimalBound, Ordered;
      EdgeBounds(lower, upper - lower, i);
      var ourFingerprint := storage.Fingerprint(begin, end);
      var nextBound := upperBound;
      if end != upper {
        nextBound := GetMinimalBound(storage.items[end - 1], storage.items[end]);
      }
      assert Bucket(storage.sha256, storage.items, lower, upper, upperBound, i) ==
             Range(nextBound, Fingerprint(ourFingerprint));
      hide Bucket, FullIds;
      ok := WriteFingerprint(ourFingerprint, nextBound, output);
    }

    method WriteFingerprint(fp: string, bound: Item, output: StringHexWriter) returns (ok: bool)
      modifies output, this`lastTimestampOut
      ensures var r := Range(bound, Fingerprint(fp));
              (ok <==> RangeFits(r, old(lastTimestampOut))) &&
              (ok ==> output.hexbuf == old(output.hexbuf) + EncodeRange(r, old(lastTimestampOut)))
      ensures lastTimestampOut == bound.timestamp
    {
      hide EncodeBound, BoundFits;
      ok := WriteBound(output, bound);
      output.WriteByte(FINGERPRINT_MODE);
      output.WriteHex(fp);
    }

    method SplitRange(lower: nat, upper: nat, upperBound: Item, output: StringHexWriter) returns (ok: bool)
      requires Valid() && lower <= upper <= |storage.items|
      modifies output, this`lastTimestampOut, storage.acc.buf
      ensures var m := Split(storage.sha256, storage.items, lower, upper, upperBound);
              (ok <==> RangesFit(m, old(lastTimestampOut))) &&
              (ok ==> output.hexbuf == old(output.hexbuf) + EncodeRanges(m, old(lastTimestampOut)) &&
                      lastTimestampOut == LastTimestamp(m, old(lastTimestampOut)))
    {
      hide EncodeRange, RangeFits, FingerprintOf, Edge, MinimalBound, Ordered, FullIds;
      var numElems := upper - lower;
      if numElems < BUCKETS * 2 {
        ok := WriteIdList(lower, upper, upperBound, output);
        ghost var r := Range(upperBound, IdList(Ids(storage.items[lower..upper])));
        EncodeAppendOne([], r, old(lastTimestampOut));
        assert [] + [r] == [r];
        return;
      }
      ok := SplitIntoBuckets(lower, upper, upperBound, output);
    }

    method SplitIntoBuckets(lower: nat, upper: nat, upperBound: Item, output: StringHexWriter) returns (ok: bool)
      requires Valid() && lower <= upper <= |storage.items| && upper - lower >= 2 * BUCKETS
      modifies output, this`lastTimestampOut, storage.acc.buf
      ensures var m := Buckets(storage.sha256, storage.items, lower, upper, upperBound, BUCKETS);
              (ok <==> RangesFit(m, old(lastTimestampOut))) &&
              (ok ==> output.hexbuf == old(output.hexbuf) + EncodeRanges(m, old(lastTimestampOut)) &&
                      lastTimestampOut == LastTimestamp(m, old(lastTimestampOut)))
    {
      hide EncodeRange, RangeFits, Bucket, Edge, Ordered, FullIds, EncodeRanges, RangesFit;
      NothingToWrite(lastTimestampOut);
      var numElems := upper - lower;
      var itemsPerBucket, bucketsWithExtra := numElems / BUCKETS, numElems % BUCKETS;
      var curr := lower;
      ghost var m := [];
      ghost var last := lastTimestampOut;
      ok := true;
      EdgeSteps(lower, numElems, 0);
      for i := 0 to BUCKETS
        invariant curr == Edge(lower, numElems, i)
        invariant m == Buckets(storage.sha256, storage.items, lower, upper, upperBound, i)
        invariant ok <==> RangesFit(m, last)
        invariant ok ==> output.hexbuf == old(output.hexbuf) + EncodeRanges(m, last) &&
                         lastTimestampOut == LastTimestamp(m, last)
      {
        EdgeNext(lower, numElems, i);
        var begin := curr;
        curr := curr + itemsPerBucket + (if i < bucketsWithExtra then 1 else 0);
        ghost var r := Bucket(storage.sha256, storage.items, lower, upper, upperBound, i);
        EncodeAppendOne(m, r, last);
        m := m + [r];
        if ok {
          ok := WriteBucket(lower, upper, upperBound, i, begin, curr, output);
        }
      }
    }

    method ReadIds(reader: StringHexReader, numIds: int) returns (r: Option<seq<string>>)
      requires reader.Valid()
      modifies reader`idx
      ensures var d := DecodeIds(old(reader.Rest()), numIds);
              match d
              case None => r.None?
              case Some((ids, rest)) => r == Some(ids) && reader.Valid() && reader.Rest() == rest
    {
      var ids: seq<string> := [];
      var i := 0;
      PrependNothing(DecodeIds(reader.Rest(), numIds));
      while i < numIds
        invariant reader.Valid() && 0 <= i
        invariant DecodeIds(old(reader.Rest()), numIds) == Prepend(ids, DecodeIds(reader.Rest(), numIds - i))
      {
        var id := reader.ReadString(ID_LENGTH);
        if id.None? {
          return None;
        }
        PrependOne(ids, id.value, DecodeIds(reader.Rest(), numIds - i - 1));
        ids := ids + [id.value];
        i := i + 1;
      }
      assert ids + [] == ids;
      r := Some(ids);
    }

    method ReadPayload(reader: StringHexReader) returns (r: Option<Payload>)
      requires reader.Valid()
      modifies reader`idx
      ensures var d := DecodePayload(old(reader.Rest()));
              match d
              case None => r.None?
              case Some((p, rest)) => r == Some(p) && reader.Valid() && reader.Rest() == rest
    {
      hide DecodeVarInt, DecodeIds;
      var modeVal := ReadVarInt(reader);
      if modeVal.None? {
        return None;
      }
      match modeVal.value % 256 {
        case 0 =>
          r := Some(Skip);
        case 1 =>
          var theirFingerprint := reader.ReadString(FINGERPRINT_SIZE * 2);
          r := if theirFingerprint.None? then None else Some(Fingerprint(theirFingerprint.value));
        case 2 =>
          var numIds := ReadVarInt(reader);
          if numIds.None? {
            return None;
          }
          var ids := ReadIds(reader, numIds.value);
          r := if ids.None? then None else Some(IdList(ids.value));
        case _ =>
          r := None;
      }
    }

    method ReadRange(reader: StringHexReader) returns (r: Option<Range>)
      requires reader.Valid()
      modifies reader`idx, this`lastTimestampIn
      ensures var d := DecodeRange(old(reader.Rest()), old(lastTimestampIn));
              match d
              case None => r.None?
              case Some((range, rest)) =>
                r == Some(range) && lastTimestampIn == range.bound.timestamp && reader.Valid() && reader.Rest() == rest
    {
      hide DecodeBound, DecodePayload;
      var bound := ReadBound(reader);
      if bound.None? {
        return None;
      }
      var payload := ReadPayload(reader);
      r := if payload.None? then None else Some(Range(bound.value, payload.value));
    }

    method FinishSkip(prevBound: Item, skipping: bool, output: StringHexWriter) returns (ok: bool)
      modifies output, this`lastTimestampOut
      ensures var m := SkipBefore(prevBound, skipping);
              (ok <==> RangesFit(m, old(lastTimestampOut))) &&
              (ok ==> output.hexbuf == old(output.hexbuf) + EncodeRanges(m, old(lastTimestampOut)) &&
                      lastTimestampOut == LastTimestamp(m, old(lastTimestampOut)))
    {
      hide EncodeBound, BoundFits;
      ok := true;
      if skipping {
        ok := WriteBound(output, prevBound);
        output.WriteByte(SKIP_MODE);
        ghost var r := Range(prevBound, Skip);
        EncodeAppendOne([], r, old(lastTimestampOut));
        assert [] + [r] == [r];
      }
    }

    // Tell what we have and they do not list; theirItems keeps what they list
    // and we do not have.
    method CompareIds(lower: nat, upper: nat, ids: seq<string>) returns (theirItems: set<string>)
      requires lower <= upper <= |storage.items|
      modifies this`haves
      ensures isClient ==> haves == old(haves) + Unlisted(storage.items[lower..upper], IdSet(ids))
      ensures !isClient ==> haves == old(haves)
      ensures theirItems == IdSet(ids) - IdSet(Ids(storage.items[lower..upper]))
    {
      hide IdSet, Ids;
      theirItems := CollectIds(ids);
      ghost var items := storage.items;
      NoIds(items[lower..lower]);
      for i := lower to upper
        invariant theirItems == IdSet(ids) - IdSet(Ids(items[lower..i]))
        invariant isClient ==>
            haves + Unlisted(items[i..upper], theirItems) == old(haves) + Unlisted(items[lower..upper], IdSet(ids))
        invariant !isClient ==> haves == old(haves)
      {
        ghost var rest := items[i..upper];
        assert rest[0] == items[i] && rest[1..] == items[i + 1..upper];
        IdSetGrows(items[lower..i], items[i]);
        assert items[lower..i + 1] == items[lower..i] + [items[i]];
        var id := storage.items[i].id;
        if id in theirItems {
          theirItems := theirItems - {id};
        } else if isClient {
          haves := haves + [id];
        }
      }
    }

    method CollectIds(ids: seq<string>) returns (theirItems: set<string>)
      ensures theirItems == IdSet(ids)
    {
      theirItems := {};
      for i := 0 to |ids|
        invariant theirItems == IdSet(ids[..i])
      {
        assert ids[..i + 1] == ids[..i] + [ids[i]];
        theirItems := theirItems + {ids[i]};
      }
      assert ids[..|ids|] == ids;
    }

    method TellHaveNots(ids: set<string>)
      modifies this`haveNots
      ensures multiset(haveNots) == multiset(old(haveNots)) + multiset(ids)
    {
      var left := ids;
      while left != {}
        invariant left <= ids
        invariant multiset(haveNots) == multiset(old(haveNots)) + multiset(ids - left)
        decreases left
      {
        var id :| id in left;
        assert ids - (left - {id}) == (ids - left) + {id};
        haveNots := haveNots + [id];
        left := left - {id};
      }
      assert ids - {} == ids;
    }

    // finishSkip, then the split of the range.
    method ReplySplit(lower: nat, upper: nat, bound: Item, prevBound: Item, skipping: bool, output: StringHexWriter)
      returns (ok: bool)
      requires Valid() && lower <= upper <= |storage.items|
      modifies output, this`lastTimestampOut, storage.acc.buf
      ensures var m := SkipBefore(prevBound, skipping) + Split(storage.sha256, storage.items, lower, upper, bound);
              (ok <==> RangesFit(m, old(lastTimestampOut))) &&
              (ok ==> output.hexbuf == old(output.hexbuf) + EncodeRanges(m, old(lastTimestampOut)) &&
                      lastTimestampOut == LastTimestamp(m, old(lastTimestampOut)))
    {
      hide RangesFit, EncodeRanges, Split, Ordered;
      ghost var skip, reply := SkipBefore(prevBound, skipping),
                               Split(storage.sha256, storage.items, lower, upper, bound);
      EncodeAppend(skip, reply, lastTimestampOut);
      LastOfTwo(skip, reply, lastTimestampOut);
      hide FullIds, LastTimestamp;
      ok := FinishSkip(prevBound, skipping, output);
      if ok {
        ok := SplitRange(lower, upper, bound, output);
      }
    }

    // finishSkip, then our own ids of the range.
    method ReplyIds(lower: nat, upper: nat, bound: Item, prevBound: Item, skipping: bool, output: StringHexWriter)
      returns (ok: bool)
      requires Valid() && lower <= upper <= |storage.items|
      modifies output, this`lastTimestampOut
      ensures var m := SkipBefore(prevBound, skipping) + [Range(bound, IdList(Ids(storage.items[lower..upper])))];
              (ok <==> RangesFit(m, old(lastTimestampOut))) &&
              (ok ==> output.hexbuf == old(output.hexbuf) + EncodeRanges(m, old(lastTimestampOut)) &&
                      lastTimestampOut == LastTimestamp(m, old(lastTimestampOut)))
    {
      hide RangesFit, EncodeRanges, RangeFits, EncodeRange, Ordered, FullIds;
      ghost var reply := Range(bound, IdList(Ids(storage.items[lower..upper])));
      EncodeAppendOne(SkipBefore(prevBound, skipping), reply, lastTimestampOut);
      ok := FinishSkip(prevBound, skipping, output);
      if ok {
        ok := WriteIdList(lower, upper, bound, output);
      }
    }

    // A range with a fingerprint: skipped if ours agrees, else split.
    method HandleFingerprint(theirFingerprint: string, lower: nat, upper: nat, bound: Item, prevBound: Item,
                             skipping: bool,
                             output: StringHexWriter)
      returns (ok: bool, skipping': bool)
      requires Valid() && lower <= upper <= |storage.items|
      modifies output, this`lastTimestampOut, storage.acc.buf
      ensures var d := Delta(storage.sha256, storage.items, isClient, lower, upper, prevBound, skipping,
                             Range(bound, Fingerprint(theirFingerprint)));
              (ok <==> RangesFit(d.out, old(lastTimestampOut))) &&
              (ok ==> output.hexbuf == old(output.hexbuf) + EncodeRanges(d.out, old(lastTimestampOut)) &&
                      lastTimestampOut == LastTimestamp(d.out, old(lastTimestampOut)) && skipping' == d.skipping &&
                      haves == old(haves) + d.haves && multiset(haveNots) == multiset(old(haveNots)) + d.haveNots)
    {
      hide RangesFit, EncodeRanges, Split, FingerprintOf, Ordered, Unlisted, IdSet, Ids, LastTimestamp, FullIds,
        SkipBefore, Delta;
      NothingToWrite(lastTimestampOut);
      DeltaOfFingerprint(storage.sha256, storage.items, isClient, lower, upper, prevBound, skipping, bound,
                         theirFingerprint);
      var ourFingerprint := storage.Fingerprint(lower, upper);
      ok := true;
      skipping' := theirFingerprint == ourFingerprint;
      if !skipping' {
        ok := ReplySplit(lower, upper, bound, prevBound, skipping, output);
      }
    }

    // A range with ids: the client tells the difference, the server lists its own.
    method HandleIdList(ids: seq<string>, lower: nat, upper: nat, bound: Item, prevBound: Item, skipping: bool,
                        output: StringHexWriter)
      returns (ok: bool, skipping': bool)
      requires Valid() && lower <= upper <= |storage.items|
      modifies output, this`lastTimestampOut, this`haves, this`haveNots
      ensures var d := Delta(storage.sha256, storage.items, isClient, lower, upper, prevBound, skipping,
                             Range(bound, IdList(ids)));
              (ok <==> RangesFit(d.out, old(lastTimestampOut))) &&
              (ok ==> output.hexbuf == old(output.hexbuf) + EncodeRanges(d.out, old(lastTimestampOut)) &&
                      lastTimestampOut == LastTimestamp(d.out, old(lastTimestampOut)) && skipping' == d.skipping &&
                      haves == old(haves) + d.haves && multiset(haveNots) == multiset(old(haveNots)) + d.haveNots)
    {
      hide RangesFit, EncodeRanges, Split, FingerprintOf, Ordered, Unlisted, IdSet, Ids, LastTimestamp, FullIds,
        SkipBefore, Delta;
      NothingToWrite(lastTimestampOut);
      DeltaOfIdList(storage.sha256, storage.items, isClient, lower, upper, prevBound, skipping, bound, ids);
      ok := true;
      skipping' := isClient;
      var theirItems := CompareIds(lower, upper, ids);
      if isClient {
        TellHaveNots(theirItems);
      } else {
        ok := ReplyIds(lower, upper, bound, prevBound, skipping, output);
      }
    }

    // The switch of reconcileAux on one range.
    method HandleRange(r: Range, lower: nat, upper: nat, prevBound: Item, skipping: bool, output: StringHexWriter)
      returns (ok: bool, skipping': bool)
      requires Valid() && lower <= upper <= |storage.items|
      modifies output, this`lastTimestampOut, this`haves, this`haveNots, storage.acc.buf
      ensures var d := Delta(storage.sha256, storage.items, isClient, lower, upper, prevBound, skipping, r);
              (ok <==> RangesFit(d.out, old(lastTimestampOut))) &&
              (ok ==> output.hexbuf == old(output.hexbuf) + EncodeRanges(d.out, old(lastTimestampOut)) &&
                      lastTimestampOut == LastTimestamp(d.out, old(lastTimestampOut)) && skipping' == d.skipping &&
                      haves == old(haves) + d.haves && multiset(haveNots) == multiset(old(haveNots)) + d.haveNots)
    {
      hide RangesFit, EncodeRanges, Split, FingerprintOf, Ordered, Unlisted, IdSet, Ids, LastTimestamp, FullIds,
        SkipBefore, Delta;
      match r.payload {
        case Skip =>
          DeltaOfSkip(storage.sha256, storage.items, isClient, lower, upper, prevBound, skipping, r.bound);
          NothingToWrite(lastTimestampOut);
          ok, skipping' := true, true;
        case Fingerprint(theirFingerprint) =>
          ok, skipping' := HandleFingerprint(theirFingerprint, lower, upper, r.bound, prevBound, skipping, output);
        case IdList(ids) =>
          ok, skipping' := HandleIdList(ids, lower, upper, r.bound, prevBound, skipping, output);
      }
    }

    // The loop variables and buffers of reconcileAux hold what p says; haves
    // and haveNots started out as told and toldNot.
    static ghost predicate Tracks(p: Progress, prevIndex: nat, prevBound: Item, skipping: bool, hexbuf: string,
                                  last: int,
                                  told: seq<string>, haves: seq<string>, toldNot: multiset<string>,
                                  haveNots: seq<string>)
    {
      p.prevIndex == prevIndex && p.prevBound == prevBound && p.skipping == skipping &&
      RangesFit(p.out, 0) && last == LastTimestamp(p.out, 0) &&
      hexbuf == HexByte(PROTOCOL_VERSION) + EncodeRanges(p.out, 0) &&
      haves == told + p.haves && multiset(haveNots) == toldNot + p.haveNots
    }

    static lemma TracksStart(haves: seq<string>, haveNots: seq<string>)
      ensures Tracks(START, 0, ORIGIN, false, HexByte(PROTOCOL_VERSION), 0, haves, haves, multiset(haveNots), haveNots)
    {
      hide HexByte;
      assert haves + [] == haves && multiset(haveNots) + multiset{} == multiset(haveNots);
      assert HexByte(PROTOCOL_VERSION) + "" == HexByte(PROTOCOL_VERSION);
    }

    static lemma TracksMeans(p: Progress, prevIndex: nat, prevBound: Item, skipping: bool, hexbuf: string, last: int,
                             told: seq<string>, haves: seq<string>, toldNot: multiset<string>, haveNots: seq<string>)
      requires Tracks(p, prevIndex, prevBound, skipping, hexbuf, last, told, haves, toldNot, haveNots)
      ensures RangesFit(p.out, 0) && hexbuf == HexByte(PROTOCOL_VERSION) + EncodeRanges(p.out, 0)
      ensures haves == told + p.haves && multiset(haveNots) == toldNot + p.haveNots
    {
    }

    // One turn of the loop of reconcileAux once its range is read.
    method AnswerRange(r: Range, prevIndex: nat, prevBound: Item, skipping: bool, fullOutput: StringHexWriter,
                       partialOutput: StringHexWriter, ghost p: Progress, ghost told: seq<string>,
                       ghost toldNot: multiset<string>)
      returns (ok: bool, upper: nat, skipping': bool)
      requires Valid() && prevIndex <= |storage.items| && fullOutput != partialOutput && partialOutput.hexbuf == ""
      requires Tracks(p, prevIndex, prevBound, skipping, fullOutput.hexbuf, lastTimestampOut, told, haves, toldNot,
                      haveNots)
      modifies this`lastTimestampOut, this`haves, this`haveNots, storage.acc.buf, fullOutput, partialOutput
      ensures var q := Step(storage.sha256, storage.items, isClient, p, r);
              upper == q.prevIndex <= |storage.items| &&
              (ok <==> RangesFit(q.out, 0)) && (ok ==> Tracks(q, upper, r.bound, skipping', fullOutput.hexbuf,
                                                              lastTimestampOut, told, haves, toldNot, haveNots))
    {
      hide RangesFit, EncodeRanges, Ordered, FullIds, Step, Delta, LastTimestamp;
      var size := storage.Size();
      upper := storage.FindLowerBound(prevIndex, size, r.bound);
      assert storage.items[prevIndex..|storage.items|] == storage.items[prevIndex..];
      ghost var d := Delta(storage.sha256, storage.items, isClient, prevIndex, upper, prevBound, skipping, r);
      StepAddsDelta(storage.sha256, storage.items, isClient, p, r, upper);
      EncodeAppend(p.out, d.out, 0);
      LastOfTwo(p.out, d.out, 0);
      ok, skipping' := HandleRange(r, prevIndex, upper, prevBound, skipping, partialOutput);
      if ok {
        ghost var before := fullOutput.hexbuf;
        fullOutput.WriteHex(partialOutput.hexbuf);
        Associate(HexByte(PROTOCOL_VERSION), EncodeRanges(p.out, 0), EncodeRanges(d.out, LastTimestamp(p.out, 0)));
        assert "" + EncodeRanges(d.out, LastTimestamp(p.out, 0)) == EncodeRanges(d.out, LastTimestamp(p.out, 0));
        Associate(told, p.haves, d.haves);
      }
    }

    // reconcileAux after the protocol version has matched.
    method ReconcileRanges(reader: StringHexReader) returns (r: Result<string>)
      requires Valid() && reader.Valid() && lastTimestampIn == lastTimestampOut == 0
      modifies reader`idx, this`lastTimestampIn, this`lastTimestampOut, this`haves, this`haveNots, storage.acc.buf
      ensures var (complete, q) := Finish(storage.sha256, storage.items, isClient, START, old(reader.Rest()), 0);
              (r.Ok? <==> complete && RangesFit(q.out, 0)) &&
              (r.Ok? ==> r.value == HexByte(PROTOCOL_VERSION) + EncodeRanges(q.out, 0) &&
                         haves == old(haves) + q.haves && multiset(haveNots) == multiset(old(haveNots)) + q.haveNots)
    {
      hide Ordered, FullIds, DecodeRange, RangesFit, EncodeRanges, Step, HexByte, Tracks, Finish;
      var fullOutput := new StringHexWriter();
      var partialOutput := new StringHexWriter();
      fullOutput.WriteByte(PROTOCOL_VERSION);
      var prevBound, prevIndex, skipping := ORIGIN, 0, false;
      ghost var p := START;
      ghost var result := Finish(storage.sha256, storage.items, isClient, START, reader.Rest(), 0);
      ghost var told, toldNot := haves, multiset(haveNots);
      assert "" + HexByte(PROTOCOL_VERSION) == HexByte(PROTOCOL_VERSION);
      TracksStart(haves, haveNots);
      var left := reader.Len();
      while left > 0
        invariant reader.Valid() && left == |reader.Rest()|
        invariant p.prevIndex == prevIndex <= |storage.items|
        invariant Tracks(p, prevIndex, prevBound, skipping, fullOutput.hexbuf, lastTimestampOut, told, haves, toldNot,
                         haveNots)
        invariant Finish(storage.sha256, storage.items, isClient, p, reader.Rest(), lastTimestampIn) == result
        decreases left
      {
        partialOutput.Reset();
        FinishOne(storage.sha256, storage.items, isClient, p, reader.Rest(), lastTimestampIn);
        var range := ReadRange(reader);
        if range.None? {
          return Err("failed to decode a range");
        }
        var ok;
        ok, prevIndex, skipping := AnswerRange(range.value, prevIndex, prevBound, skipping, fullOutput, partialOutput,
                                               p, told, toldNot);
        p := Step(storage.sha256, storage.items, isClient, p, range.value);
        if !ok {
          return Err("run-time panic: varint out of range");
        }
        prevBound := range.value.bound;
        left := reader.Len();
      }
      FinishNone(storage.sha256, storage.items, isClient, p, reader.Rest(), lastTimestampIn);
      TracksMeans(p, prevIndex, prevBound, skipping, fullOutput.hexbuf, lastTimestampOut, told, haves, toldNot,
                  haveNots);
      r := Ok(fullOutput.hexbuf);
    }

    // The reply to any message at all: an error if it cannot be read to the end
    // (or makes the writer panic), the bare version to a server of another
    // version, and otherwise the reply to its ranges. A client with nothing to
    // reply is done.
    method Reconcile(msg: string) returns (r: Result<string>)
      requires Valid() && !closed
      modifies this, storage.acc.buf
      ensures Valid() && isClient == old(isClient)
      ensures UnhexByte(msg).None? ==> r.Err?
      ensures UnhexByte(msg).Some? && UnhexByte(msg).value != PROTOCOL_VERSION ==>
                if isClient then r.Err? else r == Ok(HexByte(PROTOCOL_VERSION))
      ensures UnhexByte(msg) == Some(PROTOCOL_VERSION) ==>
                var (complete, q) := Finish(storage.sha256, storage.items, isClient, START, msg[2..], 0);
                (r.Ok? <==> complete && RangesFit(q.out, 0)) &&
                (r.Ok? ==> (closed <==> isClient && q.out == []) &&
                           r.value == (if closed then "" else HexByte(PROTOCOL_VERSION) + EncodeRanges(q.out, 0)) &&
                           haves == old(haves) + q.haves && multiset(haveNots) == multiset(old(haveNots)) + q.haveNots)
    {
      hide Finish, RangesFit, EncodeRanges, HexByte, Ordered, FullIds, UnhexByte;
      initialized := true;
      var reader := new StringHexReader(msg);
      assert msg[0..] == msg;
      lastTimestampIn, lastTimestampOut := 0, 0;
      var pv := reader.ReadHexByte();
      if pv.None? {
        return Err("failed to read pv");
      }
      if pv.value != PROTOCOL_VERSION {
        if isClient {
          return Err("unsupported negentropy protocol version");
        }
        VersionIsOneByte();
        return Ok(HexByte(PROTOCOL_VERSION));
      }
      r := ReconcileRanges(reader);
      if r.Ok? {
        ghost var q := Finish(storage.sha256, storage.items, isClient, START, msg[2..], 0).1;
        OnlyVersionMeansNoRanges(q.out);
        if |r.value| == 2 && isClient {
          closed := true;
          return Ok("");
        }
      }
    }

    // The first message of a client.
    method Start() returns (r: Result<string>)
      requires Valid()
      modifies this, storage.acc.buf
      ensures Valid() && isClient && closed == old(closed) && haves == old(haves) && haveNots == old(haveNots)
      ensures var m := Split(storage.sha256, storage.items, 0, |storage.items|, INFINITE);
              (r.Ok? <==> RangesFit(m, old(lastTimestampOut))) &&
              (r.Ok? ==> r.value == HexByte(PROTOCOL_VERSION) + EncodeRanges(m, old(lastTimestampOut)))
    {
      hide Split, RangesFit, EncodeRanges, HexByte, Ordered, FullIds;
      initialized := true;
      isClient := true;
      var output := new StringHexWriter();
      output.WriteByte(PROTOCOL_VERSION);
      var size := storage.Size();
      var ok := SplitRange(0, size, INFINITE, output);
      assert "" + HexByte(PROTOCOL_VERSION) == HexByte(PROTOCOL_VERSION);
      r := if ok then Ok(output.hexbuf) else Err("run-time panic: varint out of range");
    }
  }

  lemma VersionIsOneByte()
    ensures |HexByte(PROTOCOL_VERSION)| == 2 && HexByte(PROTOCOL_VERSION) == "61"
  {
  }

  // A reply of two hex digits is the version and no range.
  lemma OnlyVersionMeansNoRanges(m: seq<Range>)
    ensures RangesFit(m, 0) ==> (|HexByte(PROTOCOL_VERSION) + EncodeRanges(m, 0)| == 2 <==> m == [])
  {
    if m != [] {
      var n := TimestampField(m[0].bound.timestamp, 0);
      if 0 <= n < VARINT_LIMIT {
        VarIntIsNotEmpty(n);
      }
    }
  }

  lemma VarIntIsNotEmpty(n: nat)
    requires n < VARINT_LIMIT
    ensures |EncodeVar(n)| > 0
  {
    HexAppend(VarIntBytes(n), []);
  }

  // Whether the unread characters s can all be read, and what the ranges read
  // from them make of p.
  ghost function Finish(h: Hash, items: seq<Item>, isClient: bool, p: Progress, s: string, last: int): (bool, Progress)
    requires FullIds(items) && p.prevIndex <= |items|
  {
    var parsed := DecodeRanges(s, last);
    (parsed.complete, Process(h, items, isClient, p, parsed.ranges))
  }

  lemma FinishNone(h: Hash, items: seq<Item>, isClient: bool, p: Progress, s: string, last: int)
    requires FullIds(items) && p.prevIndex <= |items| && s == ""
    ensures Finish(h, items, isClient, p, s, last) == (true, p)
  {
    hide FullIds;
  }

  lemma FinishOne(h: Hash, items: seq<Item>, isClient: bool, p: Progress, s: string, last: int)
    requires FullIds(items) && p.prevIndex <= |items| && s != ""
    ensures var d := DecodeRange(s, last);
            match d
            case None => Finish(h, items, isClient, p, s, last).0 == false
            case Some((r, rest)) =>
              var q := Step(h, items, isClient, p, r);
              (RangesFit(Finish(h, items, isClient, p, s, last).1.out, 0) ==> RangesFit(q.out, 0)) &&
              Finish(h, items, isClient, q, rest, r.bound.timestamp) == Finish(h, items, isClient, p, s, last)
  {
    hide FullIds, DecodeRange, Step, RangesFit;
    var d := DecodeRange(s, last);
    if d.Some? {
      var parsed, more := DecodeRanges(s, last), DecodeRanges(d.value.1, d.value.0.bound.timestamp);
      assert parsed.ranges[0] == d.value.0 && parsed.ranges[1..] == more.ranges;
      FitsIsPrefixClosed(Step(h, items, isClient, p, d.value.0).out, Finish(h, items, isClient, p, s, last).1.out, 0);
    }
  }

  lemma FitsIsPrefixClosed(m: seq<Range>, m': seq<Range>, last: int)
    requires m <= m'
    ensures RangesFit(m', last) ==> RangesFit(m, last)
  {
    assert m' == m + m'[|m|..];
    EncodeAppend(m, m'[|m|..], last);
  }

  ghost function Prepend(ids: seq<string>, more: Option<(seq<string>, string)>): Option<(seq<string>, string)> {
    if more.None? then None else Some((ids + more.value.0, more.value.1))
  }

  lemma PrependNothing(more: Option<(seq<string>, string)>)
    ensures Prepend([], more) == more
  {
    if more.Some? {
      assert [] + more.value.0 == more.value.0;
    }
  }

  lemma PrependOne(ids: seq<string>, id: string, more: Option<(seq<string>, string)>)
    ensures Prepend(ids + [id], more) == Prepend(ids, Prepend([id], more))
  {
    if more.Some? {
      assert ids + [id] + more.value.0 == ids + ([id] + more.value.0);
    }
  }

  lemma NoIds(xs: seq<Item>)
    requires xs == []
    ensures IdSet(Ids(xs)) == {}
  {
  }

  lemma IdSetGrows(xs: seq<Item>, x: Item)
    ensures IdSet(Ids(xs + [x])) == IdSet(Ids(xs)) + {x.id}
  {
    assert Ids(xs + [x]) == Ids(xs) + [x.id];
  }

  lemma NothingToWrite(last: int)
    ensures RangesFit([], last) && EncodeRanges([], last) == "" && LastTimestamp([], last) == last
  {
  }

  lemma LastOfTwo(m: seq<Range>, m': seq<Range>, last: int)
    ensures LastTimestamp(m + m', last) == LastTimestamp(m', LastTimestamp(m, last))
  {
  }
}
