// Two session objects passing messages over the wire until the client is done.
module Synchronization {
  import opened Wrappers
  import opened HexIO
  import opened VarInt
  import opened Items
  import opened Vectors
  import opened Messages
  import opened Splitting
  import opened Reconciling
  import opened Differences
  import opened Honesty
  import opened Settling
  import opened Runs
  import opened NegentropySession

  ghost function Spelled(m: seq<Range>): string {
    HexByte(PROTOCOL_VERSION) + EncodeRanges(m, 0)
  }

  // An honest message goes over the wire as it is.
  lemma GoodMessageTravels(h: Hash, xs: seq<Item>, ys: seq<Item>, isClient: bool, k: int, m: seq<Range>)
    requires FullIds(xs) && FullIds(ys) && |xs| < VARINT_LIMIT && Good(h, xs, ys, k, m, ORIGIN)
    ensures RangesFit(m, 0) && UnhexByte(Spelled(m)) == Some(PROTOCOL_VERSION)
    ensures |Spelled(m)| >= 2
    ensures Finish(h, ys, isClient, START, Spelled(m)[2..], 0) == (true, Answer(h, ys, isClient, m))
  {
    hide Good, FullIds, EncodeRanges, RangesFit, DecodeRanges, WellFormed, Process, HexByte;
    GoodIsWellFormed(h, xs, ys, k, m, ORIGIN);
    MessageRoundTrip(m, 0);
    HexByteRoundTrip(PROTOCOL_VERSION, EncodeRanges(m, 0));
  }

  // n gets the message m of xs.
  method Deliver(n: Negentropy, msg: string, ghost m: seq<Range>, ghost xs: seq<Item>, ghost k: int)
    returns (reply: string)
    requires n.Valid() && !n.closed && FullIds(xs) && Peers(n.storage.sha256, xs, n.storage.items)
    requires msg == Spelled(m) && Good(n.storage.sha256, xs, n.storage.items, k, m, ORIGIN)
    modifies n, n.storage.acc.buf
    ensures n.Valid() && n.isClient == old(n.isClient)
    ensures var q := Answer(n.storage.sha256, n.storage.items, n.isClient, m);
            Answered(n.storage.sha256, xs, n.storage.items, k, m, q) && (n.closed <==> n.isClient && q.out == []) &&
            reply == (if n.closed then "" else Spelled(q.out)) &&
            n.haves == old(n.haves) + q.haves && multiset(n.haveNots) == multiset(old(n.haveNots)) + q.haveNots
  {
    hide Good, FullIds, Peers, Finish, Process, RangesFit, EncodeRanges, HexByte, Ordered;
    ghost var h, ys := n.storage.sha256, n.storage.items;
    PeersAreShort(h, xs, ys);
    GoodMessageTravels(h, xs, ys, n.isClient, k, m);
    AnswerSettles(h, xs, ys, n.isClient, k, m);
    ghost var q := Answer(h, ys, n.isClient, m);
    GoodMessageTravels(h, ys, xs, n.isClient, k - 1, q.out);
    var r := n.Reconcile(msg);
    reply := r.value;
  }

  lemma PeersAreShort(h: Hash, xs: seq<Item>, ys: seq<Item>)
    requires Peers(h, xs, ys)
    ensures |xs| < VARINT_LIMIT && |ys| < VARINT_LIMIT
  {
    hide Collisionless, IdsAgree, Strict, DistinctIds, Separable;
  }

  // The state of a run between two messages: m is on its way, and what the
  // client has been told and what m leaves open are the two differences.
  ghost predicate InFlight(h: Hash, a: seq<Item>, b: seq<Item>, k: int, m: seq<Range>, toClient: bool,
                           haves: multiset<string>, haveNots: multiset<string>, messages: nat)
    requires FullIds(a) && FullIds(b)
  {
    (if toClient then Good(h, b, a, k, m, ORIGIN) else Good(h, a, b, k, m, ORIGIN)) &&
    haves + Open(Minus(a, b), m, ORIGIN) == multiset(IdSet(Ids(a)) - IdSet(Ids(b))) &&
    haveNots + Open(Minus(b, a), m, ORIGIN) == multiset(IdSet(Ids(b)) - IdSet(Ids(a))) &&
    messages + (if k >= 0 then k + 3 else if toClient then 1 else 2) <= LevelsBetween(a, b) + 2
  }

  // The client has been told everything.
  ghost predicate Settled(a: seq<Item>, b: seq<Item>, haves: multiset<string>, haveNots: multiset<string>,
                          messages: nat) {
    haves == multiset(IdSet(Ids(a)) - IdSet(Ids(b))) && haveNots == multiset(IdSet(Ids(b)) - IdSet(Ids(a))) &&
    messages <= LevelsBetween(a, b) + 2
  }

  lemma Opened(h: Hash, a: seq<Item>, b: seq<Item>)
    requires FullIds(a) && FullIds(b) && Peers(h, a, b)
    ensures InFlight(h, a, b, LevelsBetween(a, b) - 1, Opening(h, a), false, multiset{}, multiset{}, 0)
  {
    hide Good, FullIds, Peers, Minus, Open, IdSet, Ids, Opening, LevelsBetween, Covers;
    OpeningIsGood(h, a, b);
    OpeningIsOpen(h, a, b, a, b);
    OpeningIsOpen(h, a, b, b, a);
  }

  lemma ClientTurn(h: Hash, a: seq<Item>, b: seq<Item>, k: int, m: seq<Range>, haves: multiset<string>,
                   haveNots: multiset<string>,
                   messages: nat, q: Progress)
    requires FullIds(a) && FullIds(b) && InFlight(h, a, b, k, m, true, haves, haveNots, messages)
    requires q == Answer(h, a, true, m) && Answered(h, b, a, k, m, q)
    ensures if q.out == [] then Settled(a, b, haves + multiset(q.haves), haveNots + q.haveNots, messages + 1)
            else k >= 0 && InFlight(h, a, b, k - 1, q.out, false, haves + multiset(q.haves), haveNots + q.haveNots,
                                    messages + 1)
  {
    hide Good, FullIds, Minus, IdSet, Ids, LevelsBetween, Answer;
    LastAnswer(h, b, a, k, m);
    TellOn(haves, multiset(q.haves), Open(Minus(a, b), m, ORIGIN), multiset{},
           multiset(IdSet(Ids(a)) - IdSet(Ids(b))), Open(Minus(a, b), q.out, ORIGIN));
    TellOn(haveNots, q.haveNots, Open(Minus(b, a), m, ORIGIN), multiset{},
           multiset(IdSet(Ids(b)) - IdSet(Ids(a))), Open(Minus(b, a), q.out, ORIGIN));
  }

  lemma ServerTurn(h: Hash, a: seq<Item>, b: seq<Item>, k: int, m: seq<Range>, haves: multiset<string>,
                   haveNots: multiset<string>,
                   messages: nat, q: Progress)
    requires FullIds(a) && FullIds(b) && InFlight(h, a, b, k, m, false, haves, haveNots, messages)
    requires q == Answer(h, b, false, m) && Answered(h, a, b, k, m, q)
    ensures InFlight(h, a, b, k - 1, q.out, true, haves, haveNots, messages + 1)
  {
    hide Good, FullIds, Minus, IdSet, Ids, LevelsBetween, Process, Open;
    ServerIsSilent(h, b, START, m);
  }

  method ClientReceives(client: Negentropy, msg: string, ghost b: seq<Item>, ghost m: seq<Range>, ghost k: int,
                        ghost messages: nat)
    returns (reply: string, ghost m': seq<Range>)
    requires client.Valid() && client.isClient && !client.closed && FullIds(client.storage.items) && FullIds(b)
    requires Peers(client.storage.sha256, client.storage.items, b) && msg == Spelled(m)
    requires InFlight(client.storage.sha256, client.storage.items, b, k, m, true,
                      multiset(client.haves), multiset(client.haveNots), messages)
    modifies client, client.storage.acc.buf
    ensures client.Valid() && client.isClient && (client.closed <==> reply == "")
    ensures if reply == "" then Settled(client.storage.items, b, multiset(client.haves), multiset(client.haveNots),
                                        messages + 1)
            else k >= 0 && reply == Spelled(m') &&
                 InFlight(client.storage.sha256, client.storage.items, b, k - 1, m', false,
                          multiset(client.haves), multiset(client.haveNots), messages + 1)
  {
    hide Good, FullIds, Peers, Answer, EncodeRanges, HexByte, Ordered, Minus, Open, IdSet, Ids, LevelsBetween,
      Answered, InFlight, Settled, Spelled;
    ghost var h, a := client.storage.sha256, client.storage.items;
    ghost var haves, haveNots, q := multiset(client.haves), multiset(client.haveNots), Answer(h, a, true, m);
    PeersSwap(h, a, b);
    InFlightIsGood(h, a, b, k, m, true, haves, haveNots, messages);
    reply := Deliver(client, msg, m, b, k);
    m' := q.out;
    ClientTurn(h, a, b, k, m, haves, haveNots, messages, q);
    SpelledIsNotEmpty(m');
  }

  method ServerReceives(server: Negentropy, msg: string, ghost a: seq<Item>, ghost m: seq<Range>, ghost k: int,
                        ghost haves: multiset<string>, ghost haveNots: multiset<string>, ghost messages: nat)
    returns (reply: string, ghost m': seq<Range>)
    requires server.Valid() && !server.isClient && !server.closed && FullIds(server.storage.items) && FullIds(a)
    requires Peers(server.storage.sha256, a, server.storage.items) && msg == Spelled(m)
    requires InFlight(server.storage.sha256, a, server.storage.items, k, m, false, haves, haveNots, messages)
    modifies server, server.storage.acc.buf
    ensures server.Valid() && !server.isClient && !server.closed && reply == Spelled(m') && reply != ""
    ensures InFlight(server.storage.sha256, a, server.storage.items, k - 1, m', true, haves, haveNots, messages + 1)
  {
    hide Good, FullIds, Peers, Answer, EncodeRanges, HexByte, Ordered, Minus, Open, IdSet, Ids, LevelsBetween,
      Answered, InFlight, Spelled;
    ghost var h, b := server.storage.sha256, server.storage.items;
    ghost var q := Answer(h, b, false, m);
    InFlightIsGood(h, a, b, k, m, false, haves, haveNots, messages);
    reply := Deliver(server, msg, m, a, k);
    m' := q.out;
    ServerTurn(h, a, b, k, m, haves, haveNots, messages, q);
    SpelledIsNotEmpty(m');
  }

  // Messages back and forth until one is empty.
  method Exchange(client: Negentropy, server: Negentropy, first: string, ghost opening: seq<Range>, ghost levels: int)
    returns (messages: nat)
    requires client.Valid() && server.Valid() && client != server && client.storage != server.storage
    requires client.storage.acc.buf != server.storage.acc.buf && client.storage.sha256 == server.storage.sha256
    requires FullIds(client.storage.items) && FullIds(server.storage.items)
    requires Peers(client.storage.sha256, client.storage.items, server.storage.items)
    requires client.isClient && !client.closed && !server.isClient
    requires !server.closed && first == Spelled(opening) && first != ""
    requires InFlight(client.storage.sha256, client.storage.items, server.storage.items, levels, opening, false,
                      multiset(client.haves), multiset(client.haveNots), 0)
    modifies client, server, client.storage.acc.buf, server.storage.acc.buf
    ensures client.closed
    ensures Settled(client.storage.items, server.storage.items, multiset(client.haves), multiset(client.haveNots),
                    messages)
  {
    hide FullIds, Peers, EncodeRanges, HexByte, Ordered, InFlight, Settled, Spelled;
    ghost var h, a, b := client.storage.sha256, client.storage.items, server.storage.items;
    ghost var m, k := opening, levels;
    var msg := first;
    messages := 0;
    var toClient := false;
    while msg != ""
      invariant client.Valid() && server.Valid() && client.isClient && !server.isClient && !server.closed
      invariant client.closed <==> msg == ""
      invariant if msg == "" then Settled(a, b, multiset(client.haves), multiset(client.haveNots), messages)
                else msg == Spelled(m) &&
                     InFlight(h, a, b, k, m, toClient, multiset(client.haves), multiset(client.haveNots), messages)
      decreases if msg == "" then 0 else 1, if k < 0 then 0 else k + 1, if toClient then 0 else 1
    {
      if toClient {
        msg, m := ClientReceives(client, msg, b, m, k, messages);
      } else {
        msg, m := ServerReceives(server, msg, a, m, k, multiset(client.haves), multiset(client.haveNots), messages);
      }
      messages := messages + 1;
      toClient := !toClient;
      k := k - 1;
    }
  }

  // A complete synchronization, started by a fresh client: every message
  // reads, the client learns both differences exactly, and it takes at most
  // two messages more than there are levels.
  method Synchronize(client: Negentropy, server: Negentropy) returns (messages: nat)
    requires client.Valid() && server.Valid() && client != server && client.storage != server.storage
    requires client.storage.acc.buf != server.storage.acc.buf && client.storage.sha256 == server.storage.sha256
    requires FullIds(client.storage.items) && FullIds(server.storage.items)
    requires Peers(client.storage.sha256, client.storage.items, server.storage.items)
    requires !client.closed && !server.closed && !server.isClient && client.lastTimestampOut == 0
    requires client.haves == client.haveNots == []
    modifies client, server, client.storage.acc.buf, server.storage.acc.buf
    ensures client.closed
    ensures multiset(client.haves) == multiset(IdSet(Ids(client.storage.items)) - IdSet(Ids(server.storage.items)))
    ensures multiset(client.haveNots) == multiset(IdSet(Ids(server.storage.items)) - IdSet(Ids(client.storage.items)))
    ensures messages <= LevelsBetween(client.storage.items, server.storage.items) + 2
  {
    hide Good, FullIds, Peers, RangesFit, EncodeRanges, HexByte, Ordered, IdSet, Ids, LevelsBetween, Split, InFlight;
    ghost var h, a, b := client.storage.sha256, client.storage.items, server.storage.items;
    ghost var m, k := Opening(h, a), LevelsBetween(a, b) - 1;
    Opened(h, a, b);
    PeersAreShort(h, a, b);
    InFlightIsGood(h, a, b, k, m, false, multiset{}, multiset{}, 0);
    GoodMessageTravels(h, a, b, false, k, m);
    SpelledIsNotEmpty(m);
    var r := client.Start();
    messages := Exchange(client, server, r.value, m, k);
  }

  lemma InFlightIsGood(h: Hash, a: seq<Item>, b: seq<Item>, k: int, m: seq<Range>, toClient: bool,
                       haves: multiset<string>, haveNots: multiset<string>, messages: nat)
    requires FullIds(a) && FullIds(b) && InFlight(h, a, b, k, m, toClient, haves, haveNots, messages)
    ensures if toClient then Good(h, b, a, k, m, ORIGIN) else Good(h, a, b, k, m, ORIGIN)
  {
    hide Good, FullIds, Minus, Open, IdSet, Ids, LevelsBetween;
  }

  lemma SpelledIsNotEmpty(m: seq<Range>)
    ensures Spelled(m) != ""
  {
    hide EncodeRanges;
  }
}
