// Negentropy messages: a list of ranges, each with its upper bound, and how
// such a list is spelled on the wire ("Negentropy Protocol V1", appendix of
// NIP-77).
module Messages {
  import opened Wrappers
  import opened HexIO
  import opened VarInt
  import opened Items
  import opened Vectors

  datatype Payload = Skip | Fingerprint(fp: string) | IdList(ids: seq<string>)

  datatype Range = Range(bound: Item, payload: Payload)

  const PROTOCOL_VERSION: byte := 0x61

  const SKIP_MODE: byte := 0
  const FINGERPRINT_MODE: byte := 1
  const ID_LIST_MODE: byte := 2

  // ----- writing -----

  // What writeTimestamp passes to writeVarInt: 0 for infinity, otherwise one
  // more than the distance from the timestamp written before.
  function TimestampField(timestamp: int, last: int): int {
    if timestamp == MAX_TIMESTAMP then 0 else WrapInt64(timestamp - last + 1)
  }

  function EncodeVar(n: int): string {
    if 0 <= n < VARINT_LIMIT then Hex(VarIntBytes(n)) else ""
  }

  function EncodeBound(b: Item, last: int): string {
    EncodeVar(TimestampField(b.timestamp, last)) + (EncodeVar(|b.id| / 2) + b.id)
  }

  // The bound is written without running out of the varint buffer.
  predicate BoundFits(b: Item, last: int) {
    0 <= TimestampField(b.timestamp, last) < VARINT_LIMIT && |b.id| / 2 < VARINT_LIMIT
  }

  function Join(ids: seq<string>): string {
    if ids == [] then "" else ids[0] + Join(ids[1..])
  }

  function EncodePayload(p: Payload): string {
    match p
    case Skip => HexByte(SKIP_MODE)
    case Fingerprint(fp) => HexByte(FINGERPRINT_MODE) + fp
    case IdList(ids) => HexByte(ID_LIST_MODE) + (EncodeVar(|ids|) + Join(ids))
  }

  predicate PayloadFits(p: Payload) {
    p.IdList? ==> |p.ids| < VARINT_LIMIT
  }

  function EncodeRange(r: Range, last: int): string {
    EncodeBound(r.bound, last) + EncodePayload(r.payload)
  }

  predicate RangeFits(r: Range, last: int) {
    BoundFits(r.bound, last) && PayloadFits(r.payload)
  }

  function EncodeRanges(m: seq<Range>, last: int): string {
    if m == [] then "" else EncodeRange(m[0], last) + EncodeRanges(m[1..], m[0].bound.timestamp)
  }

  predicate RangesFit(m: seq<Range>, last: int) {
    m == [] || (RangeFits(m[0], last) && RangesFit(m[1..], m[0].bound.timestamp))
  }

  // lastTimestampOut after m, and the bound that a range after m begins at.
  function LastTimestamp(m: seq<Range>, last: int): int {
    if m == [] then last else m[|m| - 1].bound.timestamp
  }

  function LastBound(m: seq<Range>, lo: Item): Item {
    if m == [] then lo else m[|m| - 1].bound
  }

  lemma EncodeAppend(m: seq<Range>, m': seq<Range>, last: int)
    ensures EncodeRanges(m + m', last) == EncodeRanges(m, last) + EncodeRanges(m', LastTimestamp(m, last))
    ensures RangesFit(m + m', last) <==> RangesFit(m, last) && RangesFit(m', LastTimestamp(m, last))
  {
    TextAppend(m, m', last);
    FitAppend(m, m', last);
  }

  lemma Associate<T>(a: seq<T>, b: seq<T>, c: seq<T>)
    ensures a + (b + c) == a + b + c
  {
  }

  lemma EncodeRangesUnfolds(m: seq<Range>, last: int)
    ensures EncodeRanges(m, last) ==
            if m == [] then "" else EncodeRange(m[0], last) + EncodeRanges(m[1..], m[0].bound.timestamp)
  {
  }

  lemma {:induction false} TextAppend(m: seq<Range>, m': seq<Range>, last: int)
    ensures EncodeRanges(m + m', last) == EncodeRanges(m, last) + EncodeRanges(m', LastTimestamp(m, last))
  {
    hide EncodeRange, EncodeRanges, RangesFit;
    EncodeRangesUnfolds(m, last);
    if m == [] {
      assert m + m' == m';
    } else {
      TextAppend(m[1..], m', m[0].bound.timestamp);
      EncodeRangesUnfolds(m + m', last);
      assert (m + m')[0] == m[0] && (m + m')[1..] == m[1..] + m';
      Associate(EncodeRange(m[0], last), EncodeRanges(m[1..], m[0].bound.timestamp),
                EncodeRanges(m', LastTimestamp(m, last)));
    }
  }

  lemma {:induction false} FitAppend(m: seq<Range>, m': seq<Range>, last: int)
    ensures RangesFit(m + m', last) <==> RangesFit(m, last) && RangesFit(m', LastTimestamp(m, last))
  {
    hide RangeFits;
    if m == [] {
      assert m + m' == m';
    } else {
      FitAppend(m[1..], m', m[0].bound.timestamp);
      assert (m + m')[0] == m[0] && (m + m')[1..] == m[1..] + m';
    }
  }

  lemma EncodeAppendOne(m: seq<Range>, r: Range, last: int)
    ensures EncodeRanges(m + [r], last) == EncodeRanges(m, last) + EncodeRange(r, LastTimestamp(m, last))
    ensures RangesFit(m + [r], last) <==> RangesFit(m, last) && RangeFits(r, LastTimestamp(m, last))
  {
    hide EncodeRange, RangeFits;
    EncodeAppend(m, [r], last);
    assert EncodeRanges([r], LastTimestamp(m, last)) == EncodeRange(r, LastTimestamp(m, last)) + "";
  }

  lemma SmallNumbersAreOneByte(n: nat)
    requires n < 128
    ensures EncodeVar(n) == HexByte(n)
  {
    hide HexByte;
    assert VarIntBytes(n) == [n];
    assert Hex([n]) == HexByte(n) + Hex([]);
  }

  // A skip to time 5 from time 0.
  lemma SkipSpelledOut()
    ensures EncodeRange(Range(Item(5, ""), Skip), 0) == "060000"
  {
    hide EncodeVar;
    SmallNumbersAreOneByte(6);
    SmallNumbersAreOneByte(0);
  }

  // A fingerprint to the id prefix ab at time 7 from time 5.
  lemma FingerprintSpelledOut()
    ensures EncodeRange(Range(Item(7, "ab"), Fingerprint("0f")), 5) == "0301ab010f"
  {
    hide EncodeVar;
    SmallNumbersAreOneByte(3);
    SmallNumbersAreOneByte(1);
  }

  // Two ids to the end.
  lemma IdListSpelledOut()
    ensures EncodeRange(Range(INFINITE, IdList(["cd", "ef"])), 7) == "00000202cdef"
  {
    hide EncodeVar;
    SmallNumbersAreOneByte(0);
    SmallNumbersAreOneByte(2);
    assert ["cd", "ef"][1..] == ["ef"] && ["ef"][1..] == [];
  }

  // ----- reading -----

  function DecodeTimestamp(field: int, last: int): int {
    if field == 0 then MAX_TIMESTAMP else WrapInt64(last + WrapInt64(field - 1))
  }

  // readBound over the unread characters s; last is lastTimestampIn.
  function DecodeBound(s: string, last: int): (r: Option<(Item, string)>)
    ensures r.Some? ==> |r.value.1| < |s|
  {
    var field := DecodeVarInt(s, 0);
    if field.None? then None
    else
      var length := DecodeVarInt(field.value.1, 0);
      if length.None? then None
      else
        var size, rest := WrapInt64(length.value.0 * 2), length.value.1;
        if 0 <= size <= |rest| then Some((Item(DecodeTimestamp(field.value.0, last), rest[..size]), rest[size..]))
        else None
  }

  function DecodeIds(s: string, n: int): (r: Option<(seq<string>, string)>)
    ensures r.Some? ==> |r.value.1| <= |s|
    decreases |s|
  {
    if n <= 0 then Some(([], s))
    else if |s| < ID_LENGTH then None
    else
      var more := DecodeIds(s[ID_LENGTH..], n - 1);
      if more.None? then None else Some(([s[..ID_LENGTH]] + more.value.0, more.value.1))
  }

  // The mode is cut down to a byte before it is looked at.
  function DecodePayload(s: string): (r: Option<(Payload, string)>)
    ensures r.Some? ==> |r.value.1| <= |s|
  {
    var mode := DecodeVarInt(s, 0);
    if mode.None? then None
    else
      var rest := mode.value.1;
      match mode.value.0 % 256
      case 0 => Some((Skip, rest))
      case 1 =>
        if |rest| < 2 * FINGERPRINT_SIZE then None
        else Some((Fingerprint(rest[..2 * FINGERPRINT_SIZE]), rest[2 * FINGERPRINT_SIZE..]))
      case 2 =>
        var n := DecodeVarInt(rest, 0);
        if n.None? then None
        else
          var ids := DecodeIds(n.value.1, n.value.0);
          if ids.None? then None else Some((IdList(ids.value.0), ids.value.1))
      case _ => None
  }

  // A mode other than these three is an error, whatever follows.
  lemma ModeTellsThePayload(s: string, mode: int, rest: string)
    requires DecodeVarInt(s, 0) == Some((mode, rest))
    ensures DecodePayload(s).Some? ==> mode % 256 <= 2
    ensures DecodePayload(s).Some? ==> (DecodePayload(s).value.0.Skip? <==> mode % 256 == 0)
    ensures DecodePayload(s).Some? ==> (DecodePayload(s).value.0.Fingerprint? <==> mode % 256 == 1)
    ensures mode % 256 == 1 ==> (DecodePayload(s).Some? <==> |rest| >= 32)
  {
    hide DecodeVarInt;
  }

  function DecodeRange(s: string, last: int): (r: Option<(Range, string)>)
    ensures r.Some? ==> |r.value.1| < |s|
  {
    var bound := DecodeBound(s, last);
    if bound.None? then None
    else
      var payload := DecodePayload(bound.value.1);
      if payload.None? then None else Some((Range(bound.value.0, payload.value.0), payload.value.1))
  }

  // The ranges read before the end of the message or the first that does not
  // read, and whether the end was reached.
  datatype Parsed = Parsed(ranges: seq<Range>, complete: bool)

  function DecodeRanges(s: string, last: int): Parsed
    decreases |s|
  {
    if s == "" then Parsed([], true)
    else
      var r := DecodeRange(s, last);
      if r.None? then Parsed([], false)
      else
        var more := DecodeRanges(r.value.1, r.value.0.bound.timestamp);
        Parsed([r.value.0] + more.ranges, more.complete)
  }

  // ----- round trips -----

  predicate WellFormedBound(b: Item, last: int) {
    (b.timestamp == MAX_TIMESTAMP || last <= b.timestamp < VARINT_LIMIT - 1) &&
    |b.id| % 2 == 0 && |b.id| <= ID_LENGTH
  }

  predicate WellFormedPayload(p: Payload) {
    match p
    case Skip => true
    case Fingerprint(fp) => |fp| == 2 * FINGERPRINT_SIZE
    case IdList(ids) => |ids| < VARINT_LIMIT && forall i :: 0 <= i < |ids| ==> |ids[i]| == ID_LENGTH
  }

  // Timestamps never decrease, and every part has its size.
  predicate WellFormed(m: seq<Range>, last: int) {
    m == [] ||
    (WellFormedBound(m[0].bound, last) && WellFormedPayload(m[0].payload) && WellFormed(m[1..], m[0].bound.timestamp))
  }

  lemma EncodeVarRoundTrip(n: nat, rest: string)
    requires n < VARINT_LIMIT
    ensures DecodeVarInt(EncodeVar(n) + rest, 0) == Some((n, rest))
  {
    hide DecodeVarInt, VarIntBytes;
    VarIntRoundTrip(n, rest);
  }

  lemma BoundRoundTrip(b: Item, last: int, rest: string)
    requires 0 <= last && WellFormedBound(b, last)
    ensures BoundFits(b, last)
    ensures DecodeBound(EncodeBound(b, last) + rest, last) == Some((b, rest))
  {
    hide EncodeVar, DecodeVarInt;
    var field, length := TimestampField(b.timestamp, last), |b.id| / 2;
    var afterField := EncodeVar(length) + (b.id + rest);
    assert EncodeBound(b, last) + rest == EncodeVar(field) + afterField;
    EncodeVarRoundTrip(field, afterField);
    EncodeVarRoundTrip(length, b.id + rest);
    assert (b.id + rest)[..2 * length] == b.id && (b.id + rest)[2 * length..] == rest;
    assert DecodeTimestamp(field, last) == b.timestamp;
  }

  lemma {:induction false} IdsRoundTrip(ids: seq<string>, rest: string)
    requires forall i :: 0 <= i < |ids| ==> |ids[i]| == ID_LENGTH
    ensures DecodeIds(Join(ids) + rest, |ids|) == Some((ids, rest))
  {
    if ids == [] {
      assert Join(ids) + rest == rest;
    } else {
      var s, more := Join(ids) + rest, Join(ids[1..]) + rest;
      assert s == ids[0] + more;
      IdsRoundTrip(ids[1..], rest);
      assert s[..ID_LENGTH] == ids[0] && s[ID_LENGTH..] == more;
      assert ids == [ids[0]] + ids[1..];
    }
  }

  lemma ModeRoundTrip(mode: byte, rest: string)
    requires mode < 128
    ensures DecodeVarInt(HexByte(mode) + rest, 0) == Some((mode, rest))
  {
    OneDigit(0, mode, rest);
  }

  lemma PayloadRoundTrip(p: Payload, rest: string)
    requires WellFormedPayload(p)
    ensures DecodePayload(EncodePayload(p) + rest) == Some((p, rest))
  {
    hide EncodeVar, DecodeVarInt, DecodeIds, Join, HexByte;
    match p
    case Skip =>
      ModeRoundTrip(SKIP_MODE, rest);
    case Fingerprint(fp) =>
      assert EncodePayload(p) + rest == HexByte(FINGERPRINT_MODE) + (fp + rest);
      ModeRoundTrip(FINGERPRINT_MODE, fp + rest);
      assert (fp + rest)[..|fp|] == fp && (fp + rest)[|fp|..] == rest;
    case IdList(ids) =>
      var tail := Join(ids) + rest;
      assert EncodePayload(p) + rest == HexByte(ID_LIST_MODE) + (EncodeVar(|ids|) + tail);
      ModeRoundTrip(ID_LIST_MODE, EncodeVar(|ids|) + tail);
      EncodeVarRoundTrip(|ids|, tail);
      IdsRoundTrip(ids, rest);
  }

  lemma RangeRoundTrip(r: Range, last: int, rest: string)
    requires 0 <= last && WellFormedBound(r.bound, last) && WellFormedPayload(r.payload)
    ensures RangeFits(r, last)
    ensures DecodeRange(EncodeRange(r, last) + rest, last) == Some((r, rest))
  {
    hide EncodeBound, EncodePayload, DecodeBound, DecodePayload, BoundFits;
    assert EncodeRange(r, last) + rest == EncodeBound(r.bound, last) + (EncodePayload(r.payload) + rest);
    BoundRoundTrip(r.bound, last, EncodePayload(r.payload) + rest);
    PayloadRoundTrip(r.payload, rest);
  }

  // A message decodes to exactly the list of ranges encoded.
  lemma {:induction false} MessageRoundTrip(m: seq<Range>, last: int)
    requires 0 <= last && WellFormed(m, last)
    ensures RangesFit(m, last)
    ensures DecodeRanges(EncodeRanges(m, last), last) == Parsed(m, true)
  {
    hide EncodeRange, DecodeRange, RangeFits;
    if m != [] {
      var rest := EncodeRanges(m[1..], m[0].bound.timestamp);
      RangeRoundTrip(m[0], last, rest);
      MessageRoundTrip(m[1..], m[0].bound.timestamp);
      assert m == [m[0]] + m[1..];
      var s := EncodeRanges(m, last);
      assert DecodeRange(s, last) == Some((m[0], rest));
    }
  }
}
