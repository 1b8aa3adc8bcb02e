// How a REQ ends: the filters are taken up one by one, the channels their
// queries return are drained side by side, and a counter tells when the end of
// stored events may be announced.
module EndOfStored {
  import opened Events

  // What a query of a filter returns.
  datatype Query = Fails | NoChannel | Channel(events: seq<Event>)

  // A filter as its handler meets it.
  datatype Request = Request(limitZero: bool, rejected: bool, queries: seq<Query>)

  // Where the handler of the message is. AtFilter(n) is the wait for the counter.
  datatype Phase = AtFilter(i: nat) | AtQuery(i: nat, q: nat) | Refusing(i: nat) | Refused | Finished

  // The goroutine that drains the channel of query q of filter f.
  datatype Worker = Worker(f: nat, q: nat, sent: nat, closed: bool)

  datatype Frame = Stored(f: nat, q: nat, event: Event) | Notice | Closed | Eose

  // listening counts the filters that a listener has been added for.
  datatype State = State(counter: int, phase: Phase, workers: seq<Worker>, written: seq<Frame>, listening: nat)

  datatype Step = Handler | Work(w: nat)

  function Start(reqs: seq<Request>): State {
    State(|reqs|, AtFilter(0), [], [], 0)
  }

  predicate IsQuery(reqs: seq<Request>, f: nat, q: nat) {
    f < |reqs| && q < |reqs[f].queries| && !reqs[f].limitZero && !reqs[f].rejected
  }

  predicate IsChannel(reqs: seq<Request>, f: nat, q: nat) {
    IsQuery(reqs, f, q) && reqs[f].queries[q].Channel?
  }

  function EventsOf(reqs: seq<Request>, f: nat, q: nat): seq<Event> {
    if IsChannel(reqs, f, q) then reqs[f].queries[q].events else []
  }

  predicate Enabled(reqs: seq<Request>, s: State, step: Step) {
    match step
    case Work(w) => w < |s.workers| && !s.workers[w].closed
    case Handler =>
      match s.phase
      case AtFilter(i) => i < |reqs| || (i == |reqs| && s.counter == 0)
      case AtQuery(i, q) => i < |reqs|
      case Refusing(_) => true
      case Refused => false
      case Finished => false
  }

  function WorkStep(reqs: seq<Request>, s: State, w: nat): State
    requires w < |s.workers|
  {
    var worker := s.workers[w];
    var events := EventsOf(reqs, worker.f, worker.q);
    if worker.sent < |events| then
      s.(workers := s.workers[w := worker.(sent := worker.sent + 1)],
      written := s.written + [Stored(worker.f, worker.q, events[worker.sent])])
    else
      s.(workers := s.workers[w := worker.(closed := true)], counter := s.counter - 1)
  }

  function QueryStep(s: State, i: nat, q: nat, query: Query): State {
    var next := s.(phase := AtQuery(i, q + 1));
    match query
    case Fails => next.(written := s.written + [Notice], counter := s.counter - 1)
    case NoChannel => next.(counter := s.counter - 1)
    case Channel(_) => next.(workers := s.workers + [Worker(i, q, 0, false)])
  }

  function HandlerStep(reqs: seq<Request>, s: State): State {
    match s.phase
    case AtFilter(i) =>
      if i >= |reqs| then s.(phase := Finished, written := s.written + [Eose])
      else if reqs[i].limitZero then
        s.(phase := AtFilter(i + 1), counter := s.counter - 1, listening := s.listening + 1)
      else if reqs[i].rejected then s.(phase := Refusing(i), counter := s.counter - 1)
      else s.(phase := AtQuery(i, 0), counter := s.counter + |reqs[i].queries|)
    case AtQuery(i, q) =>
      if i < |reqs| && q < |reqs[i].queries| then QueryStep(s, i, q, reqs[i].queries[q])
      else s.(phase := AtFilter(i + 1), counter := s.counter - 1, listening := s.listening + 1)
    case Refusing(_) => s.(phase := Refused, written := s.written + [Closed])
    case Refused => s
    case Finished => s
  }

  function Next(reqs: seq<Request>, s: State, step: Step): State
    requires Enabled(reqs, s, step)
  {
    match step
    case Work(w) => WorkStep(reqs, s, w)
    case Handler => HandlerStep(reqs, s)
  }

  // ----- what every step keeps -----

  function Active(workers: seq<Worker>): nat {
    if workers == [] then 0
    else Active(workers[..|workers| - 1]) + if workers[|workers| - 1].closed then 0 else 1
  }

  // What the handler itself still has to count down.
  function Owed(reqs: seq<Request>, p: Phase): int {
    match p
    case AtFilter(i) => |reqs| - i
    case AtQuery(i, q) => |reqs| - i + (if i < |reqs| then |reqs[i].queries| - q else 0)
    case Refusing(i) => |reqs| - i - 1
    case Refused => 0
    case Finished => 0
  }

  // The handler has taken up query q of filter f.
  predicate TakenUp(p: Phase, f: nat, q: nat) {
    match p
    case AtFilter(i) => f < i
    case AtQuery(i, cur) => f < i || (f == i && q < cur)
    case Refusing(i) => f < i
    case Refused => true
    case Finished => true
  }

  predicate PhaseIsFine(reqs: seq<Request>, p: Phase) {
    match p
    case AtFilter(i) => i <= |reqs| && NoneRejected(reqs, i)
    case AtQuery(i, q) =>
      i < |reqs| && q <= |reqs[i].queries| && !reqs[i].limitZero && !reqs[i].rejected && NoneRejected(reqs, i)
    case Refusing(i) => i < |reqs| && reqs[i].rejected
    case Refused => true
    case Finished => NoneRejected(reqs, |reqs|)
  }

  predicate NoneRejected(reqs: seq<Request>, n: nat) {
    forall k :: 0 <= k < n && k < |reqs| && !reqs[k].limitZero ==> !reqs[k].rejected
  }

  predicate WorkerIsFine(reqs: seq<Request>, p: Phase, w: Worker) {
    IsChannel(reqs, w.f, w.q) && TakenUp(p, w.f, w.q) && w.sent <= |EventsOf(reqs, w.f, w.q)| &&
    (w.closed ==> w.sent == |EventsOf(reqs, w.f, w.q)|)
  }

  ghost predicate WorkersAreFine(reqs: seq<Request>, p: Phase, workers: seq<Worker>) {
    (forall w :: 0 <= w < |workers| ==> WorkerIsFine(reqs, p, workers[w])) &&
    (forall v, w :: 0 <= v < w < |workers| ==> !(workers[v].f == workers[w].f && workers[v].q == workers[w].q))
  }

  predicate HasWorker(workers: seq<Worker>, f: nat, q: nat) {
    exists w :: 0 <= w < |workers| && workers[w].f == f && workers[w].q == q
  }

  ghost predicate ChannelsAreWorkedOn(reqs: seq<Request>, p: Phase, workers: seq<Worker>) {
    !p.Refused? ==> forall f: nat, q: nat :: IsChannel(reqs, f, q) && TakenUp(p, f, q) ==> HasWorker(workers, f, q)
  }

  // What has been written of one channel.
  function Of(written: seq<Frame>, f: nat, q: nat): seq<Event> {
    if written == [] then []
    else
      var last := written[|written| - 1];
      var before := Of(written[..|written| - 1], f, q);
      if last.Stored? && last.f == f && last.q == q then before + [last.event] else before
  }

  // Each worker has written its channel up to where it is, and nobody else has.
  ghost predicate WrittenInOrder(reqs: seq<Request>, s: State) {
    (forall w :: 0 <= w < |s.workers| ==>
                   s.workers[w].sent <= |EventsOf(reqs, s.workers[w].f, s.workers[w].q)| &&
                   Of(s.written, s.workers[w].f, s.workers[w].q) ==
                   EventsOf(reqs, s.workers[w].f, s.workers[w].q)[..s.workers[w].sent]) &&
    (forall f: nat, q: nat :: !HasWorker(s.workers, f, q) ==> Of(s.written, f, q) == [])
  }

  // The announcement comes last and once, the refusal never with it.
  ghost predicate EndsOnce(s: State) {
    (s.phase.Finished? ==> s.written != [] && s.written[|s.written| - 1] == Eose && Active(s.workers) == 0) &&
    (forall k :: 0 <= k < |s.written| && s.written[k] == Eose ==> s.phase.Finished? && k == |s.written| - 1) &&
    (forall k :: 0 <= k < |s.written| && s.written[k] == Closed ==> s.phase.Refused?)
  }

  ghost predicate Counted(reqs: seq<Request>, s: State) {
    if s.phase.Refused? then s.counter >= Active(s.workers) else s.counter == Owed(reqs, s.phase) + Active(s.workers)
  }

  predicate IsFirstRejected(reqs: seq<Request>, n: nat) {
    n < |reqs| && !reqs[n].limitZero && reqs[n].rejected && NoneRejected(reqs, n)
  }

  // A listener has been added for every filter before the one at hand.
  predicate Listens(reqs: seq<Request>, s: State) {
    match s.phase
    case AtFilter(i) => s.listening == i
    case AtQuery(i, _) => s.listening == i
    case Refusing(i) => s.listening == i && IsFirstRejected(reqs, i)
    case Refused => IsFirstRejected(reqs, s.listening)
    case Finished => s.listening == |reqs|
  }

  function FailsIn(queries: seq<Query>, q: nat): nat {
    if q == 0 || q > |queries| then 0 else FailsIn(queries, q - 1) + if queries[q - 1].Fails? then 1 else 0
  }

  // The queries that have failed for the first n filters.
  function FailsBefore(reqs: seq<Request>, n: nat): nat {
    if n == 0 || n > |reqs| then 0
    else
      var last := reqs[n - 1];
      FailsBefore(reqs, n - 1) + if last.limitZero then 0 else FailsIn(last.queries, |last.queries|)
  }

  function FailsSoFar(reqs: seq<Request>, s: State): nat {
    match s.phase
    case AtFilter(i) => FailsBefore(reqs, i)
    case AtQuery(i, q) => FailsBefore(reqs, i) + if i < |reqs| then FailsIn(reqs[i].queries, q) else 0
    case Refusing(i) => FailsBefore(reqs, i)
    case Refused => FailsBefore(reqs, s.listening)
    case Finished => FailsBefore(reqs, |reqs|)
  }

  // How many frames there are that are not stored events.
  ghost predicate FramesAreCounted(reqs: seq<Request>, s: State) {
    multiset(s.written)[Closed] == (if s.phase.Refused? then 1 else 0) &&
    multiset(s.written)[Eose] == (if s.phase.Finished? then 1 else 0) &&
    multiset(s.written)[Notice] == FailsSoFar(reqs, s)
  }

  ghost predicate Invariant(reqs: seq<Request>, s: State) {
    PhaseIsFine(reqs, s.phase) && WorkersAreFine(reqs, s.phase, s.workers) &&
    ChannelsAreWorkedOn(reqs, s.phase, s.workers) && WrittenInOrder(reqs, s) && EndsOnce(s) && Counted(reqs, s) &&
    Listens(reqs, s) && FramesAreCounted(reqs, s)
  }

  lemma {:induction false} ActiveAfter(workers: seq<Worker>, w: nat, worker: Worker)
    requires w < |workers|
    ensures Active(workers[w := worker]) ==
            Active(workers) - (if workers[w].closed then 0 else 1) + (if worker.closed then 0 else 1)
  {
    var last := |workers| - 1;
    var changed := workers[w := worker];
    if w < last {
      ActiveAfter(workers[..last], w, worker);
      assert changed[..last] == workers[..last][w := worker];
    } else {
      assert changed[..last] == workers[..last];
    }
  }

  lemma ActiveGrows(workers: seq<Worker>, worker: Worker)
    ensures Active(workers + [worker]) == Active(workers) + if worker.closed then 0 else 1
  {
    assert (workers + [worker])[..|workers|] == workers;
  }

  lemma OfGrows(written: seq<Frame>, frame: Frame, f: nat, q: nat)
    ensures Of(written + [frame], f, q) ==
            if frame.Stored? && frame.f == f && frame.q == q then Of(written, f, q) + [frame.event]
            else Of(written, f, q)
  {
    assert (written + [frame])[..|written|] == written;
  }

  lemma {:induction false} OneIsActive(workers: seq<Worker>, w: nat)
    requires w < |workers| && !workers[w].closed
    ensures Active(workers) > 0
  {
    if w < |workers| - 1 {
      OneIsActive(workers[..|workers| - 1], w);
    }
  }

  lemma {:induction false} NoneIsActive(workers: seq<Worker>)
    requires Active(workers) == 0
    ensures forall w :: 0 <= w < |workers| ==> workers[w].closed
  {
    if workers != [] {
      NoneIsActive(workers[..|workers| - 1]);
      assert workers == workers[..|workers| - 1] + [workers[|workers| - 1]];
    }
  }

  lemma StartIsFine(reqs: seq<Request>)
    ensures Invariant(reqs, Start(reqs))
  {
  }

  // ----- a worker's step -----

  lemma SameWorkerThere(workers: seq<Worker>, w: nat, worker: Worker, f: nat, q: nat)
    requires w < |workers| && worker.f == workers[w].f && worker.q == workers[w].q
    ensures HasWorker(workers[w := worker], f, q) <==> HasWorker(workers, f, q)
  {
    var changed := workers[w := worker];
    if v :| 0 <= v < |workers| && workers[v].f == f && workers[v].q == q {
      assert changed[v].f == f && changed[v].q == q;
    }
    if v :| 0 <= v < |changed| && changed[v].f == f && changed[v].q == q {
      assert workers[v].f == f && workers[v].q == q;
    }
  }

  lemma WorkKeepsWorkers(reqs: seq<Request>, s: State, w: nat)
    requires WorkersAreFine(reqs, s.phase, s.workers) && ChannelsAreWorkedOn(reqs, s.phase, s.workers)
    requires w < |s.workers| && !s.workers[w].closed
    ensures var t := WorkStep(reqs, s, w);
            WorkersAreFine(reqs, t.phase, t.workers) && ChannelsAreWorkedOn(reqs, t.phase, t.workers)
  {
    hide TakenUp, EventsOf, IsChannel, HasWorker;
    var t := WorkStep(reqs, s, w);
    assert WorkerIsFine(reqs, s.phase, s.workers[w]);
    forall f: nat, q: nat
      ensures HasWorker(s.workers, f, q) ==> HasWorker(t.workers, f, q)
    {
      SameWorkerThere(s.workers, w, t.workers[w], f, q);
    }
  }

  lemma WorkKeepsOrder(reqs: seq<Request>, s: State, w: nat)
    requires WorkersAreFine(reqs, s.phase, s.workers) && WrittenInOrder(reqs, s)
    requires w < |s.workers| && !s.workers[w].closed
    ensures WrittenInOrder(reqs, WorkStep(reqs, s, w))
  {
    hide HasWorker, IsChannel, TakenUp, EventsOf, Of;
    var t := WorkStep(reqs, s, w);
    var worker := s.workers[w];
    var events := EventsOf(reqs, worker.f, worker.q);
    forall f: nat, q: nat
      ensures HasWorker(t.workers, f, q) <==> HasWorker(s.workers, f, q)
    {
      SameWorkerThere(s.workers, w, t.workers[w], f, q);
    }
    if worker.sent < |events| {
      var frame := Stored(worker.f, worker.q, events[worker.sent]);
      forall f: nat, q: nat
        ensures Of(t.written, f, q) == if f == worker.f && q == worker.q then Of(s.written, f, q) + [frame.event]
                                       else Of(s.written, f, q)
      {
        OfGrows(s.written, frame, f, q);
      }
      assert events[..worker.sent + 1] == events[..worker.sent] + [frame.event];
      WorkerIsThere(s.workers, w);
    }
  }

  lemma WorkerIsThere(workers: seq<Worker>, w: nat)
    requires w < |workers|
    ensures HasWorker(workers, workers[w].f, workers[w].q)
  {
  }

  lemma WorkKeepsTheCount(reqs: seq<Request>, s: State, w: nat)
    requires EndsOnce(s) && Counted(reqs, s) && w < |s.workers| && !s.workers[w].closed
    ensures EndsOnce(WorkStep(reqs, s, w)) && Counted(reqs, WorkStep(reqs, s, w))
  {
    hide EventsOf, Owed;
    OneIsActive(s.workers, w);
    ActiveAfter(s.workers, w, WorkStep(reqs, s, w).workers[w]);
  }

  lemma OneMoreFrame(written: seq<Frame>, frame: Frame)
    ensures multiset(written + [frame]) == multiset(written) + multiset{frame}
  {
  }

  lemma WorkKeepsFrames(reqs: seq<Request>, s: State, w: nat)
    requires FramesAreCounted(reqs, s) && w < |s.workers|
    ensures FramesAreCounted(reqs, WorkStep(reqs, s, w))
  {
    hide EventsOf, FailsBefore, FailsIn;
    var worker := s.workers[w];
    var events := EventsOf(reqs, worker.f, worker.q);
    if worker.sent < |events| {
      OneMoreFrame(s.written, Stored(worker.f, worker.q, events[worker.sent]));
    }
  }

  lemma WorkKeeps(reqs: seq<Request>, s: State, w: nat)
    requires Invariant(reqs, s) && w < |s.workers| && !s.workers[w].closed
    ensures Invariant(reqs, WorkStep(reqs, s, w))
  {
    hide WorkersAreFine, ChannelsAreWorkedOn, WrittenInOrder, EndsOnce, Counted, EventsOf, IsFirstRejected,
      FramesAreCounted;
    WorkKeepsWorkers(reqs, s, w);
    WorkKeepsOrder(reqs, s, w);
    WorkKeepsTheCount(reqs, s, w);
    WorkKeepsFrames(reqs, s, w);
  }

  // ----- a step of the handler -----

  lemma OtherFramesKeepOrder(reqs: seq<Request>, s: State, t: State)
    requires WrittenInOrder(reqs, s) && t.workers == s.workers
    requires t.written == s.written ||
             (|t.written| == |s.written| + 1 && t.written[..|s.written|] == s.written &&
              !t.written[|s.written|].Stored?)
    ensures WrittenInOrder(reqs, t)
  {
    hide HasWorker, EventsOf;
    forall f: nat, q: nat
      ensures Of(t.written, f, q) == Of(s.written, f, q)
    {
    }
  }

  lemma HandlerKeepsOrder(reqs: seq<Request>, s: State)
    requires WrittenInOrder(reqs, s) && ChannelsAreWorkedOn(reqs, s.phase, s.workers) && PhaseIsFine(reqs, s.phase)
    requires WorkersAreFine(reqs, s.phase, s.workers)
    ensures WrittenInOrder(reqs, HandlerStep(reqs, s))
  {
    hide WrittenInOrder, ChannelsAreWorkedOn;
    var t := HandlerStep(reqs, s);
    if t.workers == s.workers {
      OtherFramesKeepOrder(reqs, s, t);
    } else {
      NewWorkerKeepsOrder(reqs, s, t, s.phase.i, s.phase.q);
    }
  }

  lemma NewWorkerKeepsOrder(reqs: seq<Request>, s: State, t: State, i: nat, q: nat)
    requires WrittenInOrder(reqs, s) && WorkersAreFine(reqs, s.phase, s.workers)
    requires s.phase == AtQuery(i, q) && t.workers == s.workers + [Worker(i, q, 0, false)] && t.written == s.written
    ensures WrittenInOrder(reqs, t)
  {
    hide EventsOf, Of, IsChannel;
    assert !HasWorker(s.workers, i, q);
    forall f: nat, p: nat
      ensures HasWorker(s.workers, f, p) ==> HasWorker(t.workers, f, p)
    {
      if v :| 0 <= v < |s.workers| && s.workers[v].f == f && s.workers[v].q == p {
        assert t.workers[v].f == f && t.workers[v].q == p;
      }
    }
    WorkerIsThere(t.workers, |s.workers|);
  }

  lemma HandlerKeepsWorkers(reqs: seq<Request>, s: State)
    requires PhaseIsFine(reqs, s.phase) && WorkersAreFine(reqs, s.phase, s.workers) && Enabled(reqs, s, Handler)
    ensures PhaseIsFine(reqs, HandlerStep(reqs, s).phase)
    ensures WorkersAreFine(reqs, HandlerStep(reqs, s).phase, HandlerStep(reqs, s).workers)
  {
    var t := HandlerStep(reqs, s);
    hide EventsOf;
    forall w | 0 <= w < |s.workers|
      ensures WorkerIsFine(reqs, t.phase, s.workers[w])
    {
      assert WorkerIsFine(reqs, s.phase, s.workers[w]);
    }
  }

  lemma HandlerKeepsChannels(reqs: seq<Request>, s: State)
    requires PhaseIsFine(reqs, s.phase) && ChannelsAreWorkedOn(reqs, s.phase, s.workers) && Enabled(reqs, s, Handler)
    ensures ChannelsAreWorkedOn(reqs, HandlerStep(reqs, s).phase, HandlerStep(reqs, s).workers)
  {
    hide EventsOf, HasWorker;
    var t := HandlerStep(reqs, s);
    forall f: nat, q: nat | IsChannel(reqs, f, q) && TakenUp(t.phase, f, q) && !t.phase.Refused?
      ensures HasWorker(t.workers, f, q)
    {
      if TakenUp(s.phase, f, q) {
        WorkersOnlyCome(s.workers, t.workers, f, q);
      } else {
        assert s.phase == AtQuery(f, q);
        WorkerIsThere(t.workers, |s.workers|);
      }
    }
  }

  lemma WorkersOnlyCome(workers: seq<Worker>, more: seq<Worker>, f: nat, q: nat)
    requires HasWorker(workers, f, q) && workers <= more
    ensures HasWorker(more, f, q)
  {
    var v :| 0 <= v < |workers| && workers[v].f == f && workers[v].q == q;
    assert more[v] == workers[v];
  }

  lemma HandlerKeepsTheEnd(reqs: seq<Request>, s: State)
    requires PhaseIsFine(reqs, s.phase) && EndsOnce(s) && Counted(reqs, s) && Enabled(reqs, s, Handler)
    ensures EndsOnce(HandlerStep(reqs, s))
  {
  }

  lemma HandlerKeepsTheCount(reqs: seq<Request>, s: State)
    requires PhaseIsFine(reqs, s.phase) && Counted(reqs, s) && Enabled(reqs, s, Handler)
    ensures Counted(reqs, HandlerStep(reqs, s))
  {
    if s.phase.AtQuery? {
      ActiveGrows(s.workers, Worker(s.phase.i, s.phase.q, 0, false));
    }
  }

  lemma HandlerKeepsListening(reqs: seq<Request>, s: State)
    requires PhaseIsFine(reqs, s.phase) && Listens(reqs, s) && Enabled(reqs, s, Handler)
    ensures Listens(reqs, HandlerStep(reqs, s))
  {
  }

  lemma QueryKeepsFrames(reqs: seq<Request>, s: State, i: nat, q: nat)
    requires s.phase == AtQuery(i, q) && i < |reqs| && !reqs[i].limitZero && q <= |reqs[i].queries|
    requires FramesAreCounted(reqs, s)
    ensures FramesAreCounted(reqs, HandlerStep(reqs, s))
  {
    hide FailsBefore, FailsIn;
    OneMoreFrame(s.written, Notice);
    OneMoreQuery(reqs[i].queries, q);
    OneMoreFilter(reqs, i);
  }

  lemma OneMoreQuery(queries: seq<Query>, q: nat)
    ensures q < |queries| ==> FailsIn(queries, q + 1) == FailsIn(queries, q) + if queries[q].Fails? then 1 else 0
  {
  }

  lemma OneMoreFilter(reqs: seq<Request>, i: nat)
    ensures FailsBefore(reqs, 0) == 0
    ensures i < |reqs| ==>
              FailsBefore(reqs, i + 1) ==
              FailsBefore(reqs, i) + if reqs[i].limitZero then 0 else FailsIn(reqs[i].queries, |reqs[i].queries|)
  {
    hide FailsIn;
  }

  lemma NoQueryYet(queries: seq<Query>)
    ensures FailsIn(queries, 0) == 0
  {
  }

  lemma FilterKeepsFrames(reqs: seq<Request>, s: State, i: nat)
    requires s.phase == AtFilter(i) && i <= |reqs| && Listens(reqs, s) && FramesAreCounted(reqs, s)
    ensures FramesAreCounted(reqs, HandlerStep(reqs, s))
  {
    hide FailsBefore, FailsIn;
    OneMoreFrame(s.written, Eose);
    OneMoreFilter(reqs, i);
    if i < |reqs| {
      NoQueryYet(reqs[i].queries);
    }
  }

  lemma HandlerKeepsFrames(reqs: seq<Request>, s: State)
    requires PhaseIsFine(reqs, s.phase) && Listens(reqs, s) && FramesAreCounted(reqs, s)
    ensures FramesAreCounted(reqs, HandlerStep(reqs, s))
  {
    hide NoneRejected, FailsBefore, FailsIn, FramesAreCounted;
    match s.phase
    case AtFilter(i) => FilterKeepsFrames(reqs, s, i);
    case AtQuery(i, q) => QueryKeepsFrames(reqs, s, i, q);
    case Refusing(i) => RefusalKeepsFrames(reqs, s);
    case Refused =>
    case Finished =>
  }

  lemma RefusalKeepsFrames(reqs: seq<Request>, s: State)
    requires s.phase.Refusing? && Listens(reqs, s) && FramesAreCounted(reqs, s)
    ensures FramesAreCounted(reqs, HandlerStep(reqs, s))
  {
    hide FailsBefore, NoneRejected;
    OneMoreFrame(s.written, Closed);
  }

  lemma HandlerKeeps(reqs: seq<Request>, s: State)
    requires Invariant(reqs, s) && Enabled(reqs, s, Handler)
    ensures Invariant(reqs, HandlerStep(reqs, s))
  {
    hide WorkersAreFine, ChannelsAreWorkedOn, WrittenInOrder, EndsOnce, Counted, HandlerStep, PhaseIsFine, Enabled,
      Listens, FramesAreCounted;
    HandlerKeepsWorkers(reqs, s);
    HandlerKeepsChannels(reqs, s);
    HandlerKeepsOrder(reqs, s);
    HandlerKeepsTheEnd(reqs, s);
    HandlerKeepsTheCount(reqs, s);
    HandlerKeepsListening(reqs, s);
    HandlerKeepsFrames(reqs, s);
  }

  // ----- all interleavings -----

  predicate IsRun(reqs: seq<Request>, states: seq<State>, steps: seq<Step>) {
    |states| == |steps| + 1 && states[0] == Start(reqs) &&
    forall k :: 0 <= k < |steps| ==>
                  Enabled(reqs, states[k], steps[k]) && states[k + 1] == Next(reqs, states[k], steps[k])
  }

  lemma {:induction false} RunsKeepTheInvariant(reqs: seq<Request>, states: seq<State>, steps: seq<Step>, k: nat)
    requires IsRun(reqs, states, steps) && k < |states|
    ensures Invariant(reqs, states[k])
  {
    hide Invariant, Enabled, Next;
    if k == 0 {
      StartIsFine(reqs);
    } else {
      RunsKeepTheInvariant(reqs, states, steps, k - 1);
      StepKeeps(reqs, states[k - 1], steps[k - 1]);
    }
  }

  lemma StepKeeps(reqs: seq<Request>, s: State, step: Step)
    requires Invariant(reqs, s) && Enabled(reqs, s, step)
    ensures Invariant(reqs, Next(reqs, s, step))
  {
    hide Invariant, HandlerStep, WorkStep;
    match step
    case Work(w) => WorkKeeps(reqs, s, w);
    case Handler => HandlerKeeps(reqs, s);
  }

  lemma EoseComesLast(reqs: seq<Request>, s: State, k: nat)
    requires Invariant(reqs, s) && k < |s.written| && s.written[k] == Eose
    ensures k == |s.written| - 1 && NoneRejected(reqs, |reqs|) && s.listening == |reqs|
    ensures forall f: nat, q: nat :: IsQuery(reqs, f, q) ==> Of(s.written[..k], f, q) == EventsOf(reqs, f, q)
    ensures forall j :: 0 <= j < |s.written| ==> s.written[j] != Closed
  {
    NoneIsActive(s.workers);
    forall f: nat, q: nat | IsQuery(reqs, f, q)
      ensures Of(s.written[..k], f, q) == EventsOf(reqs, f, q)
    {
      assert s.written == s.written[..k] + [Eose];
      OfGrows(s.written[..k], Eose, f, q);
      if IsChannel(reqs, f, q) {
        assert TakenUp(s.phase, f, q);
        assert HasWorker(s.workers, f, q);
        var w :| 0 <= w < |s.workers| && s.workers[w].f == f && s.workers[w].q == q;
        assert WorkerIsFine(reqs, s.phase, s.workers[w]);
        assert EventsOf(reqs, f, q)[..|EventsOf(reqs, f, q)|] == EventsOf(reqs, f, q);
      }
    }
  }

  // In every run, whoever sees the announcement has seen every event of every
  // channel of every filter, each channel in its order; no filter was rejected,
  // each has its listener, and nothing of this request follows.
  lemma AnnouncedAfterEverything(reqs: seq<Request>, states: seq<State>, steps: seq<Step>, n: nat, k: nat)
    requires IsRun(reqs, states, steps) && n < |states|
    requires k < |states[n].written| && states[n].written[k] == Eose
    ensures k == |states[n].written| - 1 && NoneRejected(reqs, |reqs|) && states[n].listening == |reqs|
    ensures forall f: nat, q: nat :: IsQuery(reqs, f, q) ==> Of(states[n].written[..k], f, q) == EventsOf(reqs, f, q)
    ensures Closed !in states[n].written
  {
    hide Invariant, IsRun, Of, EventsOf;
    RunsKeepTheInvariant(reqs, states, steps, n);
    EoseComesLast(reqs, states[n], k);
  }

  // Once the refusal is out, the listeners of the filters before the rejected
  // one are there to stay: none is left if and only if it was the first.
  lemma RefusalLeavesListeners(reqs: seq<Request>, states: seq<State>, steps: seq<Step>, n: nat)
    requires IsRun(reqs, states, steps) && n < |states| && Closed in states[n].written
    ensures IsFirstRejected(reqs, states[n].listening)
    ensures states[n].listening == 0 <==> IsFirstRejected(reqs, 0)
  {
    RunsKeepTheInvariant(reqs, states, steps, n);
  }

  // Nothing gets stuck: as long as the request has neither been announced nor
  // refused, someone can go on.
  lemma SomeoneCanGoOn(reqs: seq<Request>, s: State) returns (step: Step)
    requires Invariant(reqs, s) && !s.phase.Finished? && !s.phase.Refused?
    ensures Enabled(reqs, s, step)
  {
    step := Handler;
    if s.phase == AtFilter(|reqs|) && s.counter > 0 {
      var w := SomeWorkerIsOpen(s.workers);
      step := Work(w);
    }
  }

  // A run that has ended has been answered: with EOSE if no filter is rejected,
  // with CLOSED if one is, exactly once and never with both. Each query that
  // failed has had its notice.
  lemma EndedIsAnswered(reqs: seq<Request>, states: seq<State>, steps: seq<Step>, n: nat)
    requires IsRun(reqs, states, steps) && n < |states| && forall step :: !Enabled(reqs, states[n], step)
    ensures multiset(states[n].written)[Eose] == if NoneRejected(reqs, |reqs|) then 1 else 0
    ensures multiset(states[n].written)[Closed] == if NoneRejected(reqs, |reqs|) then 0 else 1
    ensures multiset(states[n].written)[Notice] == FailsBefore(reqs, states[n].listening)
    ensures if NoneRejected(reqs, |reqs|) then states[n].listening == |reqs|
            else IsFirstRejected(reqs, states[n].listening)
  {
    hide Enabled, WorkersAreFine, ChannelsAreWorkedOn, WrittenInOrder, EndsOnce, Counted, FailsBefore, IsRun;
    RunsKeepTheInvariant(reqs, states, steps, n);
    if !states[n].phase.Finished? && !states[n].phase.Refused? {
      var step := SomeoneCanGoOn(reqs, states[n]);
    }
  }

  lemma {:induction false} SomeWorkerIsOpen(workers: seq<Worker>) returns (w: nat)
    requires Active(workers) > 0
    ensures w < |workers| && !workers[w].closed
  {
    w := |workers| - 1;
    if workers[w].closed {
      w := SomeWorkerIsOpen(workers[..w]);
    }
  }

  // In no interleaving does the counter fall below zero, which would be a
  // panic, or a refused request get its announcement.
  lemma NoRunPanics(reqs: seq<Request>, states: seq<State>, steps: seq<Step>, k: nat)
    requires IsRun(reqs, states, steps) && k < |states|
    ensures states[k].counter >= 0
    ensures Eose in states[k].written ==> Closed !in states[k].written
  {
    RunsKeepTheInvariant(reqs, states, steps, k);
  }

  // ----- every run ends -----

  function QueriesCost(queries: seq<Query>, q: nat): nat
    decreases |queries| - q
  {
    if q >= |queries| then 0
    else 1 + (if queries[q].Channel? then |queries[q].events| + 1 else 0) + QueriesCost(queries, q + 1)
  }

  function FiltersCost(reqs: seq<Request>, i: nat): nat
    decreases |reqs| - i
  {
    if i >= |reqs| then 1 else 2 + QueriesCost(reqs[i].queries, 0) + FiltersCost(reqs, i + 1)
  }

  function HandlerCost(reqs: seq<Request>, p: Phase): nat {
    match p
    case AtFilter(i) => FiltersCost(reqs, i)
    case AtQuery(i, q) => (if i < |reqs| then QueriesCost(reqs[i].queries, q) else 0) + 1 + FiltersCost(reqs, i + 1)
    case Refusing(_) => 1
    case Refused => 0
    case Finished => 0
  }

  function WorkerCost(reqs: seq<Request>, w: Worker): int {
    if w.closed then 0 else |EventsOf(reqs, w.f, w.q)| - w.sent + 1
  }

  function WorkersCost(reqs: seq<Request>, workers: seq<Worker>): int {
    if workers == [] then 0
    else WorkersCost(reqs, workers[..|workers| - 1]) + WorkerCost(reqs, workers[|workers| - 1])
  }

  function Cost(reqs: seq<Request>, s: State): int {
    HandlerCost(reqs, s.phase) + WorkersCost(reqs, s.workers)
  }

  lemma {:induction false} CostAfter(reqs: seq<Request>, workers: seq<Worker>, w: nat, worker: Worker)
    requires w < |workers|
    ensures WorkersCost(reqs, workers[w := worker]) ==
            WorkersCost(reqs, workers) - WorkerCost(reqs, workers[w]) + WorkerCost(reqs, worker)
  {
    hide WorkerCost;
    var last := |workers| - 1;
    var changed := workers[w := worker];
    if w < last {
      CostAfter(reqs, workers[..last], w, worker);
      assert changed[..last] == workers[..last][w := worker];
    } else {
      assert changed[..last] == workers[..last];
    }
  }

  lemma {:induction false} CostIsNatural(reqs: seq<Request>, p: Phase, workers: seq<Worker>)
    requires forall w :: 0 <= w < |workers| ==> WorkerIsFine(reqs, p, workers[w])
    ensures WorkersCost(reqs, workers) >= 0
  {
    if workers != [] {
      CostIsNatural(reqs, p, workers[..|workers| - 1]);
      assert WorkerIsFine(reqs, p, workers[|workers| - 1]);
    }
  }

  lemma StepCosts(reqs: seq<Request>, s: State, step: Step)
    requires Invariant(reqs, s) && Enabled(reqs, s, step)
    ensures Cost(reqs, Next(reqs, s, step)) < Cost(reqs, s)
  {
    hide WorkersAreFine, ChannelsAreWorkedOn, WrittenInOrder, EndsOnce, Counted, HandlerStep, WorkersCost;
    match step
    case Work(w) =>
      CostAfter(reqs, s.workers, w, WorkStep(reqs, s, w).workers[w]);
      SentIsBounded(reqs, s, w);
    case Handler =>
      HandlerStepCosts(reqs, s);
  }

  lemma SentIsBounded(reqs: seq<Request>, s: State, w: nat)
    requires WorkersAreFine(reqs, s.phase, s.workers) && w < |s.workers|
    ensures s.workers[w].sent <= |EventsOf(reqs, s.workers[w].f, s.workers[w].q)|
  {
    assert WorkerIsFine(reqs, s.phase, s.workers[w]);
  }

  lemma HandlerStepCosts(reqs: seq<Request>, s: State)
    requires PhaseIsFine(reqs, s.phase) && Enabled(reqs, s, Handler)
    ensures Cost(reqs, HandlerStep(reqs, s)) < Cost(reqs, s)
  {
    if s.phase.AtQuery? {
      var newcomer := Worker(s.phase.i, s.phase.q, 0, false);
      assert (s.workers + [newcomer])[..|s.workers|] == s.workers;
    }
  }

  // No run takes more steps than there are filters, queries and events to take.
  lemma {:induction false} RunsAreShort(reqs: seq<Request>, states: seq<State>, steps: seq<Step>, k: nat)
    requires IsRun(reqs, states, steps) && k < |states|
    ensures k + Cost(reqs, states[k]) <= FiltersCost(reqs, 0) && k <= FiltersCost(reqs, 0)
  {
    hide Invariant, Enabled, Next, FiltersCost;
    if k == 0 {
      assert WorkersCost(reqs, []) == 0;
    } else {
      RunsAreShort(reqs, states, steps, k - 1);
      RunsKeepTheInvariant(reqs, states, steps, k - 1);
      StepCosts(reqs, states[k - 1], steps[k - 1]);
    }
    RunsKeepTheInvariant(reqs, states, steps, k);
    StateCostsNothingNegative(reqs, states[k]);
  }

  lemma StateCostsNothingNegative(reqs: seq<Request>, s: State)
    requires Invariant(reqs, s)
    ensures Cost(reqs, s) >= 0
  {
    CostIsNatural(reqs, s.phase, s.workers);
  }

  // And every run goes on to such an end.
  lemma {:induction false} EveryRunEnds(reqs: seq<Request>, states: seq<State>, steps: seq<Step>)
    returns (allStates: seq<State>, allSteps: seq<Step>)
    requires IsRun(reqs, states, steps)
    ensures IsRun(reqs, allStates, allSteps) && states <= allStates && steps <= allSteps
    ensures forall step :: !Enabled(reqs, allStates[|allSteps|], step)
    decreases FiltersCost(reqs, 0) - |steps|
  {
    hide Enabled, Next, FiltersCost;
    allStates, allSteps := states, steps;
    if step :| Enabled(reqs, states[|steps|], step) {
      var more := states + [Next(reqs, states[|steps|], step)];
      RunsGoOn(reqs, states, steps, step);
      RunsAreShort(reqs, more, steps + [step], |steps| + 1);
      allStates, allSteps := EveryRunEnds(reqs, more, steps + [step]);
    }
  }

  lemma RunsGoOn(reqs: seq<Request>, states: seq<State>, steps: seq<Step>, step: Step)
    requires IsRun(reqs, states, steps) && Enabled(reqs, states[|steps|], step)
    ensures IsRun(reqs, states + [Next(reqs, states[|steps|], step)], steps + [step])
  {
    hide Enabled, Next;
  }
}
