// Skipped ranges are written lazily, as one. This says that the reader gets
// the same message as if each were written.
module Coalescing {
  import opened VarInt
  import opened Items
  import opened Vectors
  import opened Messages
  import opened Splitting
  import opened Reconciling
  import opened Differences
  import opened Honesty
  import opened Settling

  // What a message does with the point x of the order. A range is known by
  // where it begins and ends; what lies beyond the last bound is skipped.
  datatype Treatment = Skipped | Treated(lo: Item, range: Range)

  ghost function TreatmentAt(m: seq<Range>, lo: Item, x: Item): Treatment {
    if m == [] then Skipped
    else if Less(x, m[0].bound) then (if m[0].payload.Skip? then Skipped else Treated(lo, m[0]))
    else TreatmentAt(m[1..], m[0].bound, x)
  }

  ghost predicate Rising(m: seq<Range>, lo: Item) {
    m == [] || (!Less(m[0].bound, lo) && Rising(m[1..], m[0].bound))
  }

  // The reply to one range with nothing left pending: a skip is written at once.
  function PlainReply(h: Hash, items: seq<Item>, isClient: bool, p: Progress, r: Range): seq<Range>
    requires FullIds(items) && p.prevIndex <= |items|
  {
    var upper := p.prevIndex + LowerBound(items[p.prevIndex..], r.bound);
    match r.payload
    case Skip => [Range(r.bound, Skip)]
    case Fingerprint(fp) =>
      if fp == FingerprintOf(h, items[p.prevIndex..upper]) then [Range(r.bound, Skip)]
      else Split(h, items, p.prevIndex, upper, r.bound)
    case IdList(ids) =>
      if isClient then [Range(r.bound, Skip)] else [Range(r.bound, IdList(Ids(items[p.prevIndex..upper])))]
  }

  function PlainReplies(h: Hash, items: seq<Item>, isClient: bool, p: Progress, m: seq<Range>): seq<Range>
    requires FullIds(items) && p.prevIndex <= |items|
    decreases |m|
  {
    if m == [] then []
    else PlainReply(h, items, isClient, p, m[0]) +
         PlainReplies(h, items, isClient, Step(h, items, isClient, p, m[0]), m[1..])
  }

  lemma {:induction false} RisingAppend(m: seq<Range>, m': seq<Range>, lo: Item)
    ensures Rising(m + m', lo) <==> Rising(m, lo) && Rising(m', LastBound(m, lo))
  {
    hide Less;
    if m == [] {
      assert m + m' == m';
    } else {
      assert (m + m')[0] == m[0] && (m + m')[1..] == m[1..] + m';
      RisingAppend(m[1..], m', m[0].bound);
    }
  }

  lemma {:induction false} RisingUpward(m: seq<Range>, lo: Item)
    requires Rising(m, lo)
    ensures !Less(LastBound(m, lo), lo)
  {
    hide Less;
    LessIsTotal(lo, lo);
    if m != [] {
      RisingUpward(m[1..], m[0].bound);
      LessIsTransitive(lo, m[0].bound, LastBound(m, lo));
    }
  }

  // Below the last bound of m the first part decides, above it the second.
  lemma {:induction false} TreatmentAppend(m: seq<Range>, m': seq<Range>, lo: Item, x: Item)
    requires Rising(m, lo) && !Less(x, lo)
    ensures TreatmentAt(m + m', lo, x) ==
            if Less(x, LastBound(m, lo)) then TreatmentAt(m, lo, x) else TreatmentAt(m', LastBound(m, lo), x)
    ensures !Less(x, LastBound(m, lo)) ==> TreatmentAt(m, lo, x) == Skipped
  {
    hide Less;
    if m == [] {
      assert m + m' == m';
    } else {
      assert (m + m')[0] == m[0] && (m + m')[1..] == m[1..] + m';
      RisingUpward(m[1..], m[0].bound);
      if Less(x, m[0].bound) {
        LessIsTransitive(x, m[0].bound, LastBound(m, lo));
      } else {
        TreatmentAppend(m[1..], m', m[0].bound, x);
      }
    }
  }

  // Points before the origin are before every message.
  ghost predicate InOrder(x: Item) {
    !Less(x, ORIGIN)
  }

  ghost predicate Alike(m: seq<Range>, m': seq<Range>) {
    forall x :: InOrder(x) ==> TreatmentAt(m, ORIGIN, x) == TreatmentAt(m', ORIGIN, x)
  }

  // The coalesced output so far and the plain one: alike, and a pending skip
  // is what the first still lacks.
  ghost predicate InStep(out: seq<Range>, plain: seq<Range>, prevBound: Item, skipping: bool) {
    Rising(out, ORIGIN) && Rising(plain, ORIGIN) && Alike(out, plain) && LastBound(plain, ORIGIN) == prevBound &&
    !Less(prevBound, LastBound(out, ORIGIN)) && (!skipping ==> LastBound(out, ORIGIN) == prevBound)
  }

  // The output so far can be encoded, and so can a skip up to the last bound.
  ghost predicate Fits(out: seq<Range>, prevBound: Item) {
    WellFormed(out, 0) && GoodBound(prevBound) && prevBound.timestamp >= LastTimestamp(out, 0)
  }

  lemma {:induction false} WellFormedAppend(m: seq<Range>, m': seq<Range>, last: int)
    ensures WellFormed(m + m', last) <==> WellFormed(m, last) && WellFormed(m', LastTimestamp(m, last))
  {
    hide WellFormedBound, WellFormedPayload;
    if m == [] {
      assert m + m' == m';
    } else {
      assert (m + m')[0] == m[0] && (m + m')[1..] == m[1..] + m';
      WellFormedAppend(m[1..], m', m[0].bound.timestamp);
    }
  }

  lemma AppendKeepsAlike(out: seq<Range>, plain: seq<Range>, reply: seq<Range>)
    requires Rising(out, ORIGIN) && Rising(plain, ORIGIN) && Alike(out, plain)
    requires LastBound(out, ORIGIN) == LastBound(plain, ORIGIN)
    ensures Alike(out + reply, plain + reply)
  {
    hide Less, Rising, LastBound, TreatmentAt;
    forall x | InOrder(x)
      ensures TreatmentAt(out + reply, ORIGIN, x) == TreatmentAt(plain + reply, ORIGIN, x)
    {
      TreatmentAppend(out, reply, ORIGIN, x);
      TreatmentAppend(plain, reply, ORIGIN, x);
    }
  }

  // A skip written at the end changes nothing for the reader.
  lemma SkipChangesNothing(m: seq<Range>, b: Item)
    requires Rising(m, ORIGIN) && !Less(b, LastBound(m, ORIGIN))
    ensures Alike(m + [Range(b, Skip)], m) && Rising(m + [Range(b, Skip)], ORIGIN)
    ensures LastBound(m + [Range(b, Skip)], ORIGIN) == b
  {
    hide Less;
    var skip := [Range(b, Skip)];
    assert skip[1..] == [];
    RisingAppend(m, skip, ORIGIN);
    forall x | InOrder(x)
      ensures TreatmentAt(m + skip, ORIGIN, x) == TreatmentAt(m, ORIGIN, x)
    {
      TreatmentAppend(m, skip, ORIGIN, x);
    }
  }

  lemma SkipStep(out: seq<Range>, plain: seq<Range>, prevBound: Item, skipping: bool, b: Item)
    requires InStep(out, plain, prevBound, skipping) && !Less(b, prevBound)
    ensures InStep(out, plain + [Range(b, Skip)], b, true)
  {
    hide Less, Rising, TreatmentAt, LastBound;
    SkipChangesNothing(plain, b);
    LessIsTransitive(LastBound(out, ORIGIN), prevBound, b);
  }

  lemma ReplyStep(out: seq<Range>, plain: seq<Range>, prevBound: Item, skipping: bool, reply: seq<Range>, b: Item)
    requires InStep(out, plain, prevBound, skipping) && Rising(reply, prevBound)
    requires LastBound(reply, prevBound) == b && reply != []
    ensures InStep(out + SkipBefore(prevBound, skipping) + reply, plain + reply, b, false)
  {
    hide Less, Rising, TreatmentAt;
    var flushed := out + SkipBefore(prevBound, skipping);
    if skipping {
      SkipChangesNothing(out, prevBound);
    } else {
      assert flushed == out;
    }
    AppendKeepsAlike(flushed, plain, reply);
    RisingAppend(flushed, reply, ORIGIN);
    RisingAppend(plain, reply, ORIGIN);
    LessIsTotal(b, b);
    assert LastBound(flushed + reply, ORIGIN) == b == LastBound(plain + reply, ORIGIN);
  }

  // A message whose bounds go up and fit on the wire.
  ghost predicate RisingMessage(m: seq<Range>, lo: Item) {
    m == [] || (!Less(m[0].bound, lo) && GoodBound(m[0].bound) && RisingMessage(m[1..], m[0].bound))
  }

  lemma {:induction false} CoverRises(m: seq<Range>, lo: Item)
    requires Covers(m, lo)
    ensures Rising(m, lo)
  {
    hide Less;
    if m != [] {
      CoverRises(m[1..], m[0].bound);
    }
  }

  lemma SplitRises(h: Hash, items: seq<Item>, lo: Item, hi: Item)
    requires Side(items) && FullIds(items) && GoodBound(hi) && !Less(hi, lo)
    ensures LowerBound(items, lo) <= LowerBound(items, hi)
    ensures var m := Split(h, items, LowerBound(items, lo), LowerBound(items, hi), hi);
            Rising(m, lo) && LastBound(m, lo) == hi && m != []
  {
    hide Side, FullIds, GoodBound, Less, LowerBound, Split, Good, Covers, Levels, Slice;
    SplitAnswers(h, items, [], Levels(|Slice(items, lo, hi)|) + Levels(|Slice([], lo, hi)|), lo, hi);
    CoverRises(Split(h, items, LowerBound(items, lo), LowerBound(items, hi), hi), lo);
  }

  // A step either leaves its skip pending or writes what was pending and its reply.
  lemma StepWrites(h: Hash, items: seq<Item>, isClient: bool, p: Progress, r: Range)
    requires FullIds(items) && p.prevIndex <= |items|
    ensures var q, reply := Step(h, items, isClient, p, r), PlainReply(h, items, isClient, p, r);
            q.prevIndex == p.prevIndex + LowerBound(items[p.prevIndex..], r.bound) && q.prevBound == r.bound &&
            if q.skipping then q.out == p.out && reply == [Range(r.bound, Skip)]
            else q.out == p.out + SkipBefore(p.prevBound, p.skipping) + reply
  {
    hide FullIds, LowerBound, FingerprintOf, Split, Unlisted, IdSet, Ids, SkipBefore;
  }

  lemma OneRises(hi: Item, payload: Payload, lo: Item)
    requires !Less(hi, lo)
    ensures Rising([Range(hi, payload)], lo) && LastBound([Range(hi, payload)], lo) == hi
  {
    assert [Range(hi, payload)][1..] == [];
  }

  lemma ReplyRises(h: Hash, items: seq<Item>, isClient: bool, p: Progress, r: Range)
    requires Side(items) && FullIds(items) && GoodBound(r.bound) && !Less(r.bound, p.prevBound)
    requires p.prevIndex == LowerBound(items, p.prevBound)
    ensures p.prevIndex + LowerBound(items[p.prevIndex..], r.bound) == LowerBound(items, r.bound)
    ensures var reply := PlainReply(h, items, isClient, p, r);
            Rising(reply, p.prevBound) && LastBound(reply, p.prevBound) == r.bound && reply != []
  {
    hide FullIds, Less, LowerBound, FingerprintOf, Split, Ids, GoodBound, Strict, DistinctIds, Separable, Rising,
      LastBound, Slice, Between;
    OursIsBetween(items, p, r.bound);
    SplitRises(h, items, p.prevBound, r.bound);
    var upper := LowerBound(items, r.bound);
    OneRises(r.bound, Skip, p.prevBound);
    OneRises(r.bound, IdList(Ids(items[p.prevIndex..upper])), p.prevBound);
  }

  // ----- the reply fits on the wire -----

  lemma OneFits(hi: Item, payload: Payload, last: int)
    requires GoodBound(hi) && hi.timestamp >= last && WellFormedPayload(payload)
    ensures WellFormed([Range(hi, payload)], last)
  {
    assert [Range(hi, payload)][1..] == [];
  }

  lemma LessIsLater(hi: Item, lo: Item)
    requires !Less(hi, lo)
    ensures hi.timestamp >= lo.timestamp
  {
  }

  lemma SplitFits(h: Hash, items: seq<Item>, lo: Item, hi: Item)
    requires Side(items) && FullIds(items) && GoodBound(hi) && !Less(hi, lo)
    ensures LowerBound(items, lo) <= LowerBound(items, hi)
    ensures WellFormed(Split(h, items, LowerBound(items, lo), LowerBound(items, hi), hi), lo.timestamp)
  {
    hide FullIds, GoodBound, Less, LowerBound, Split, Good, Covers, Levels, Slice, Strict, DistinctIds, Separable,
      WellFormed;
    var k := Levels(|Slice(items, lo, hi)|) + Levels(|Slice([], lo, hi)|);
    EmptyIsStrict();
    SplitAnswers(h, items, [], k, lo, hi);
    GoodIsWellFormed(h, items, [], k - 1, Split(h, items, LowerBound(items, lo), LowerBound(items, hi), hi), lo);
  }

  lemma EmptyIsStrict()
    ensures Strict([])
  {
  }

  lemma ListFits(items: seq<Item>, part: seq<Item>)
    requires FullIds(part) && |part| <= |items| < VARINT_LIMIT
    ensures WellFormedPayload(IdList(Ids(part)))
  {
  }

  lemma ReplyFits(h: Hash, items: seq<Item>, isClient: bool, p: Progress, r: Range)
    requires Side(items) && FullIds(items) && GoodBound(r.bound) && !Less(r.bound, p.prevBound)
    requires p.prevIndex == LowerBound(items, p.prevBound)
    ensures WellFormed(PlainReply(h, items, isClient, p, r), p.prevBound.timestamp)
  {
    hide FullIds, Less, LowerBound, FingerprintOf, Split, Ids, GoodBound, Strict, DistinctIds, Separable, WellFormed,
      Slice, WellFormedPayload;
    OursIsBetween(items, p, r.bound);
    SplitFits(h, items, p.prevBound, r.bound);
    LessIsLater(r.bound, p.prevBound);
    ListFits(items, Slice(items, p.prevBound, r.bound));
    SkipFits(r.bound, p.prevBound.timestamp);
    OneFits(r.bound, IdList(Ids(Slice(items, p.prevBound, r.bound))), p.prevBound.timestamp);
  }

  lemma SkipFits(hi: Item, last: int)
    requires GoodBound(hi) && hi.timestamp >= last
    ensures WellFormed([Range(hi, Skip)], last)
  {
    OneFits(hi, Skip, last);
  }

  lemma ReplyStepFits(out: seq<Range>, plain: seq<Range>, prevBound: Item, skipping: bool, reply: seq<Range>, b: Item)
    requires InStep(out, plain, prevBound, skipping) && Fits(out, prevBound) && GoodBound(b)
    requires WellFormed(reply, prevBound.timestamp) && LastBound(reply, prevBound) == b && reply != []
    ensures Fits(out + SkipBefore(prevBound, skipping) + reply, b)
  {
    hide Less, Rising, Alike, WellFormed;
    var flushed := out + SkipBefore(prevBound, skipping);
    if skipping {
      SkipFits(prevBound, LastTimestamp(out, 0));
      WellFormedAppend(out, [Range(prevBound, Skip)], 0);
    } else {
      assert flushed == out;
    }
    assert WellFormed(flushed, 0) && LastTimestamp(flushed, 0) == prevBound.timestamp;
    WellFormedAppend(flushed, reply, 0);
  }

  // ----- the whole reply -----

  lemma InStepMeans(out: seq<Range>, plain: seq<Range>, prevBound: Item, skipping: bool)
    requires InStep(out, plain, prevBound, skipping) && Fits(out, prevBound)
    ensures Alike(out, plain) && Rising(out, ORIGIN) && WellFormed(out, 0)
  {
    hide Alike, Rising, Less;
  }

  lemma LaterBoundFits(out: seq<Range>, prevBound: Item, b: Item)
    requires Fits(out, prevBound) && GoodBound(b) && !Less(b, prevBound)
    ensures Fits(out, b)
  {
    LessIsLater(b, prevBound);
  }

  lemma {:induction false} ProcessKeepsStep(h: Hash, items: seq<Item>, isClient: bool, p: Progress, m: seq<Range>,
                                            plain: seq<Range>)
    requires Side(items) && FullIds(items) && RisingMessage(m, p.prevBound) && Fits(p.out, p.prevBound)
    requires p.prevIndex == LowerBound(items, p.prevBound) && InStep(p.out, plain, p.prevBound, p.skipping)
    ensures var out := Process(h, items, isClient, p, m).out;
            Alike(out, plain + PlainReplies(h, items, isClient, p, m)) && Rising(out, ORIGIN) && WellFormed(out, 0)
    decreases |m|
  {
    hide Side, FullIds, Less, LowerBound, Step, PlainReply, GoodBound, Rising, SkipBefore, InStep, Alike, LastBound,
      Fits, WellFormed;
    if m == [] {
      InStepMeans(p.out, plain, p.prevBound, p.skipping);
      assert plain + [] == plain;
    } else {
      var r, q := m[0], Step(h, items, isClient, p, m[0]);
      var reply, more := PlainReply(h, items, isClient, p, r), PlainReplies(h, items, isClient, q, m[1..]);
      StepWrites(h, items, isClient, p, r);
      ReplyRises(h, items, isClient, p, r);
      ReplyFits(h, items, isClient, p, r);
      if q.skipping {
        SkipStep(p.out, plain, p.prevBound, p.skipping, r.bound);
        LaterBoundFits(p.out, p.prevBound, r.bound);
      } else {
        ReplyStep(p.out, plain, p.prevBound, p.skipping, reply, r.bound);
        ReplyStepFits(p.out, plain, p.prevBound, p.skipping, reply, r.bound);
      }
      ProcessKeepsStep(h, items, isClient, q, m[1..], plain + reply);
      assert plain + reply + more == plain + (reply + more);
    }
  }

  // What the other side decodes of the reply treats every point of the order
  // as the reply with every skip written does; its bounds never decrease, and
  // neither do its timestamps.
  lemma CoalescingKeepsTreatment(h: Hash, items: seq<Item>, isClient: bool, m: seq<Range>)
    requires Side(items) && FullIds(items) && RisingMessage(m, ORIGIN)
    ensures var out := Process(h, items, isClient, START, m).out;
            var read := DecodeRanges(EncodeRanges(out, 0), 0);
            Rising(out, ORIGIN) && WellFormed(out, 0) && read == Parsed(out, true) &&
            Alike(read.ranges, PlainReplies(h, items, isClient, START, m))
  {
    hide Side, FullIds, Less, Process, PlainReplies, RisingMessage, TreatmentAt, Slice, Between, DecodeRanges,
      EncodeRanges;
    OriginIsLowest(items);
    ProcessKeepsStep(h, items, isClient, START, m, []);
    assert [] + PlainReplies(h, items, isClient, START, m) == PlainReplies(h, items, isClient, START, m);
    MessageRoundTrip(Process(h, items, isClient, START, m).out, 0);
  }

  lemma OriginIsLowest(items: seq<Item>)
    requires Side(items)
    ensures LowerBound(items, ORIGIN) == 0 && !Less(ORIGIN, ORIGIN)
  {
    hide LowerBound;
    CompareStringsFlips("", "");
    forall i | 0 <= i < |items|
      ensures !Less(items[i], ORIGIN)
    {
      assert CompareStrings(items[i].id, "") >= 0;
    }
    LowerBoundIsTheCut(items, ORIGIN, 0);
  }
}
