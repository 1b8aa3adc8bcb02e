// A whole run: client and server answer each other until the client has
// nothing left to ask.
module Runs {
  import opened Items
  import opened Vectors
  import opened Messages
  import opened Splitting
  import opened Reconciling
  import opened Differences
  import opened Honesty
  import opened Settling

  // What ys makes of a whole message.
  function Answer(h: Hash, ys: seq<Item>, isClient: bool, m: seq<Range>): Progress
    requires FullIds(ys)
  {
    Process(h, ys, isClient, START, m)
  }

  // From p to q, ys has dealt with all of m.
  ghost predicate Processed(h: Hash, xs: seq<Item>, ys: seq<Item>, k: int, p: Progress, m: seq<Range>, q: Progress)
    requires FullIds(xs) && FullIds(ys)
  {
    Midway(h, xs, ys, k, q, []) && p.haves <= q.haves && p.haveNots <= q.haveNots &&
    multiset(q.haves[|p.haves|..]) + Open(Minus(ys, xs), q.out, ORIGIN) ==
    Open(Minus(ys, xs), p.out, ORIGIN) + Open(Minus(ys, xs), m, p.prevBound) &&
    q.haveNots - p.haveNots + Open(Minus(xs, ys), q.out, ORIGIN) ==
    Open(Minus(xs, ys), p.out, ORIGIN) + Open(Minus(xs, ys), m, p.prevBound)
  }

  lemma NothingProcessed(h: Hash, xs: seq<Item>, ys: seq<Item>, k: int, p: Progress)
    requires FullIds(xs) && FullIds(ys) && Midway(h, xs, ys, k, p, [])
    ensures Processed(h, xs, ys, k, p, [], p)
  {
    hide FullIds, Midway, Minus;
  }

  lemma OneMoreProcessed(h: Hash, xs: seq<Item>, ys: seq<Item>, k: int, p: Progress, m: seq<Range>, s: Progress,
                         q: Progress)
    requires FullIds(xs) && FullIds(ys) && m != []
    requires Stepped(h, xs, ys, k, p, m, s) && Processed(h, xs, ys, k, s, m[1..], q)
    ensures Processed(h, xs, ys, k, p, m, q)
  {
    hide FullIds, Midway, Minus, Open;
    var toldHaves, toldHaveNots := multiset(s.haves[|p.haves|..]), s.haveNots - p.haveNots;
    assert q.haves[|p.haves|..] == s.haves[|p.haves|..] + q.haves[|s.haves|..];
    TellOn(toldHaves, multiset(q.haves[|s.haves|..]), Open(Minus(ys, xs), s.out, ORIGIN),
           Open(Minus(ys, xs), m[1..], m[0].bound),
           Open(Minus(ys, xs), p.out, ORIGIN) + Open(Minus(ys, xs), m, p.prevBound),
           Open(Minus(ys, xs), q.out, ORIGIN));
    assert q.haveNots - p.haveNots == toldHaveNots + (q.haveNots - s.haveNots);
    TellOn(toldHaveNots, q.haveNots - s.haveNots, Open(Minus(xs, ys), s.out, ORIGIN),
           Open(Minus(xs, ys), m[1..], m[0].bound),
           Open(Minus(xs, ys), p.out, ORIGIN) + Open(Minus(xs, ys), m, p.prevBound),
           Open(Minus(xs, ys), q.out, ORIGIN));
  }

  lemma TellOn(told: multiset<string>, told': multiset<string>, out: multiset<string>, rest: multiset<string>,
               before: multiset<string>, after: multiset<string>)
    requires told + out + rest == before && told' + after == out + rest
    ensures told + told' + after == before
  {
    assert told + (told' + after) == told + told' + after;
    assert told + (out + rest) == told + out + rest;
  }

  lemma {:induction false} ProcessSettles(h: Hash, xs: seq<Item>, ys: seq<Item>, isClient: bool, k: int, p: Progress,
                                          m: seq<Range>)
    requires FullIds(xs) && FullIds(ys) && Peers(h, xs, ys) && p.prevIndex <= |ys| && Midway(h, xs, ys, k, p, m)
    ensures Processed(h, xs, ys, k, p, m, Process(h, ys, isClient, p, m))
    decreases |m|
  {
    hide FullIds, Midway, Step, Peers, Settles, Processed;
    if m == [] {
      NothingProcessed(h, xs, ys, k, p);
    } else {
      var s := Step(h, ys, isClient, p, m[0]);
      StepSettles(h, xs, ys, isClient, k, p, m);
      assert Midway(h, xs, ys, k, s, m[1..]);
      hide Stepped;
      ProcessSettles(h, xs, ys, isClient, k, s, m[1..]);
      OneMoreProcessed(h, xs, ys, k, p, m, s, Process(h, ys, isClient, p, m));
    }
  }

  lemma OriginIsFirst(xs: seq<Item>)
    requires Side(xs)
    ensures LowerBound(xs, ORIGIN) == 0 && LowerBound(xs, INFINITE) == |xs|
    ensures Between(xs, ORIGIN, INFINITE) == xs == Slice(xs, ORIGIN, INFINITE)
    ensures !Less(INFINITE, ORIGIN) && !Less(ORIGIN, ORIGIN)
  {
    hide CompareStrings;
    CompareStringsFlips("", "");
    forall i | 0 <= i < |xs|
      ensures !Less(xs[i], ORIGIN) && Less(xs[i], INFINITE)
    {
      EmptyIsLeast(xs[i].id);
    }
    hide Less, Between;
    LowerBoundIsTheCut(xs, ORIGIN, 0);
    LowerBoundIsTheCut(xs, INFINITE, |xs|);
    BetweenSlice(xs, ORIGIN, INFINITE, 0, |xs|);
  }

  // q is an honest answer to m, and what it tells or leaves open is what was
  // open in m.
  ghost predicate Answered(h: Hash, xs: seq<Item>, ys: seq<Item>, k: int, m: seq<Range>, q: Progress)
    requires FullIds(xs) && FullIds(ys)
  {
    Good(h, ys, xs, k - 1, q.out, ORIGIN) &&
    multiset(q.haves) + Open(Minus(ys, xs), q.out, ORIGIN) == Open(Minus(ys, xs), m, ORIGIN) &&
    q.haveNots + Open(Minus(xs, ys), q.out, ORIGIN) == Open(Minus(xs, ys), m, ORIGIN)
  }

  lemma AnswerSettles(h: Hash, xs: seq<Item>, ys: seq<Item>, isClient: bool, k: int, m: seq<Range>)
    requires FullIds(xs) && FullIds(ys) && Peers(h, xs, ys) && Good(h, xs, ys, k, m, ORIGIN)
    ensures Answered(h, xs, ys, k, m, Answer(h, ys, isClient, m))
  {
    hide FullIds, Minus, Process, Less, LowerBound, Side, IdsAgree, Collisionless, GoodBound, Slice, Between,
      IdsBetween;
    var q := Answer(h, ys, isClient, m);
    assert Midway(h, xs, ys, k, START, m) by { OriginIsFirst(ys); }
    ProcessSettles(h, xs, ys, isClient, k, START, m);
    hide Midway;
    assert Good(h, ys, xs, k - 1, q.out, ORIGIN) by { MidwayIsGood(h, xs, ys, k, q); }
    hide Good, Peers;
    assert q.haves[0..] == q.haves && q.haveNots - multiset{} == q.haveNots;
    assert Open(Minus(xs, ys), [], ORIGIN) == Open(Minus(ys, xs), [], ORIGIN) == multiset{};
  }

  lemma MidwayIsGood(h: Hash, xs: seq<Item>, ys: seq<Item>, k: int, q: Progress)
    requires FullIds(xs) && FullIds(ys) && Midway(h, xs, ys, k, q, [])
    ensures Good(h, ys, xs, k - 1, q.out, ORIGIN)
  {
    hide FullIds;
  }

  // The server tells nobody anything.
  lemma {:induction false} ServerIsSilent(h: Hash, ys: seq<Item>, p: Progress, m: seq<Range>)
    requires FullIds(ys) && p.prevIndex <= |ys|
    ensures var q := Process(h, ys, false, p, m);
            q.haves == p.haves && q.haveNots == p.haveNots
    decreases |m|
  {
    hide FullIds, FingerprintOf, Split, LowerBound;
    if m != [] {
      ServerIsSilent(h, ys, Step(h, ys, false, p, m[0]), m[1..]);
    }
  }

  // Without fingerprints, the client has nothing to reply.
  lemma {:induction false} ClientFinishes(h: Hash, xs: seq<Item>, ys: seq<Item>, k: int, p: Progress, m: seq<Range>)
    requires FullIds(xs) && FullIds(ys) && p.prevIndex <= |ys| && k < 0 && Good(h, xs, ys, k, m, p.prevBound)
    ensures Process(h, ys, true, p, m).out == p.out
    decreases |m|
  {
    hide FullIds, FingerprintOf, Split, LowerBound, Less, Slice, Unlisted;
    if m != [] {
      ClientFinishes(h, xs, ys, k, Step(h, ys, true, p, m[0]), m[1..]);
    }
  }

  datatype Outcome = Outcome(haves: seq<string>, haveNots: multiset<string>, messages: nat)

  // The run from a message on, with at most k levels of splitting left: what
  // the client is told, and how many messages are sent.
  ghost function Run(h: Hash, client: seq<Item>, server: seq<Item>, k: int, m: seq<Range>, toClient: bool): (o: Outcome)
    requires FullIds(client) && FullIds(server) && Peers(h, client, server)
    requires if toClient then Good(h, server, client, k, m, ORIGIN) else Good(h, client, server, k, m, ORIGIN)
    decreases if k < 0 then 0 else k + 1, if toClient then 0 else 1
  {
    hide Peers, Good, Process, Open, Minus, FullIds;
    if toClient then
      PeersSwap(h, client, server);
      AnswerSettles(h, server, client, true, k, m);
      var q := Answer(h, client, true, m);
      if q.out == [] then Outcome(q.haves, q.haveNots, 1)
      else
        assert k >= 0 by { LastAnswer(h, server, client, k, m); }
        var o := Run(h, client, server, k - 1, q.out, false);
        Outcome(q.haves + o.haves, q.haveNots + o.haveNots, 1 + o.messages)
    else
      AnswerSettles(h, client, server, false, k, m);
      var o := Run(h, client, server, k - 1, Answer(h, server, false, m).out, true);
      o.(messages := 1 + o.messages)
  }

  lemma LastAnswer(h: Hash, xs: seq<Item>, ys: seq<Item>, k: int, m: seq<Range>)
    requires FullIds(xs) && FullIds(ys) && Good(h, xs, ys, k, m, ORIGIN)
    ensures k < 0 ==> Answer(h, ys, true, m).out == []
  {
    hide FullIds, Good, Process;
    if k < 0 {
      ClientFinishes(h, xs, ys, k, START, m);
    }
  }

  // What a run tells the client is what was open in its first message.
  lemma {:induction false} RunTells(h: Hash, client: seq<Item>, server: seq<Item>, k: int, m: seq<Range>,
                                    toClient: bool)
    requires FullIds(client) && FullIds(server) && Peers(h, client, server)
    requires if toClient then Good(h, server, client, k, m, ORIGIN) else Good(h, client, server, k, m, ORIGIN)
    ensures var o := Run(h, client, server, k, m, toClient);
            multiset(o.haves) == Open(Minus(client, server), m, ORIGIN) &&
            o.haveNots == Open(Minus(server, client), m, ORIGIN) &&
            o.messages <= if k >= 0 then k + 3 else if toClient then 1 else 2
    decreases if k < 0 then 0 else k + 1, if toClient then 0 else 1
  {
    hide FullIds, Peers, Good, Process, Minus;
    PeersSwap(h, client, server);
    if toClient {
      AnswerSettles(h, server, client, true, k, m);
      LastAnswer(h, server, client, k, m);
      var q := Answer(h, client, true, m);
      if q.out != [] {
        hide Open;
        RunTells(h, client, server, k - 1, q.out, false);
      }
    } else {
      AnswerSettles(h, client, server, false, k, m);
      ServerIsSilent(h, server, START, m);
      hide Open;
      RunTells(h, client, server, k - 1, Answer(h, server, false, m).out, true);
    }
  }

  // What Start writes.
  function Opening(h: Hash, client: seq<Item>): seq<Range>
    requires FullIds(client)
  {
    Split(h, client, 0, |client|, INFINITE)
  }

  ghost function LevelsBetween(xs: seq<Item>, ys: seq<Item>): nat {
    Levels(|xs|) + Levels(|ys|)
  }

  lemma OpeningIsGood(h: Hash, client: seq<Item>, server: seq<Item>)
    requires FullIds(client) && FullIds(server) && Peers(h, client, server)
    ensures Good(h, client, server, LevelsBetween(client, server) - 1, Opening(h, client), ORIGIN)
    ensures Covers(Opening(h, client), ORIGIN) && LastBound(Opening(h, client), ORIGIN) == INFINITE
  {
    hide FullIds, Split, Less, LowerBound, Between, Good, Covers, Slice, Levels, Collisionless, IdsAgree;
    OriginIsFirst(client);
    OriginIsFirst(server);
    SplitAnswers(h, client, server, LevelsBetween(client, server), ORIGIN, INFINITE);
  }

  // At first, all of the difference is open.
  lemma OpeningIsOpen(h: Hash, client: seq<Item>, server: seq<Item>, xs: seq<Item>, ys: seq<Item>)
    requires FullIds(client) && FullIds(server) && Peers(h, client, server)
    requires (xs == client && ys == server) || (xs == server && ys == client)
    ensures Open(Minus(xs, ys), Opening(h, client), ORIGIN) == multiset(IdSet(Ids(xs)) - IdSet(Ids(ys)))
  {
    PeersSwap(h, client, server);
    hide FullIds, Less, LowerBound, Between, Covers, Slice, Levels, Collisionless, Opening, Open, Minus, IdSet,
      IdsBetween, Good;
    OpeningIsGood(h, client, server);
    OpenOfCover(Minus(xs, ys), Opening(h, client), ORIGIN);
    OriginIsFirst(xs);
    OriginIsFirst(ys);
    ListedHaveNotsAreTheDifference(ys, xs, ORIGIN, INFINITE);
  }

  ghost function Reconciliation(h: Hash, client: seq<Item>, server: seq<Item>): Outcome
    requires FullIds(client) && FullIds(server) && Peers(h, client, server)
  {
    OpeningIsGood(h, client, server);
    Run(h, client, server, LevelsBetween(client, server) - 1, Opening(h, client), false)
  }

  // A complete run tells the client each id it alone has and each id it lacks,
  // exactly once, within a number of messages logarithmic in the two sizes.
  lemma ReconciliationIsExact(h: Hash, client: seq<Item>, server: seq<Item>)
    requires FullIds(client) && FullIds(server) && Peers(h, client, server)
    ensures var o := Reconciliation(h, client, server);
            multiset(o.haves) == multiset(IdSet(Ids(client)) - IdSet(Ids(server))) &&
            o.haveNots == multiset(IdSet(Ids(server)) - IdSet(Ids(client))) &&
            o.messages <= LevelsBetween(client, server) + 2 <= |client| + |server| + 2
  {
    hide FullIds, Peers, Good, Minus, Run, Open, IdSet, LevelsBetween, Opening;
    OpeningIsGood(h, client, server);
    OpeningIsOpen(h, client, server, client, server);
    OpeningIsOpen(h, client, server, server, client);
    RunTells(h, client, server, LevelsBetween(client, server) - 1, Opening(h, client), false);
    FewLevels(client, server);
  }

  lemma FewLevels(xs: seq<Item>, ys: seq<Item>)
    ensures LevelsBetween(xs, ys) <= |xs| + |ys|
  {
    LevelsAreLogarithmic(|xs|);
    LevelsAreLogarithmic(|ys|);
  }
}
