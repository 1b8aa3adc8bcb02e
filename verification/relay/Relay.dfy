// A relay with its clients and listeners, and the relays it routes subscriptions to.
module Registry {
  import opened Wrappers
  import opened Events
  import opened Listeners

  class Relay {
    var clients: Clients<Relay>
    var listeners: seq<Listener>
    // The relays that subscriptions of these clients may be routed to.
    ghost var routes: set<Relay>

    ghost function Snapshot(): (l: Lists<Relay>)
      reads this, routes
    {
      map r | r in routes :: r.listeners
    }

    ghost predicate Tracks(gone: WebSocket, dealt: nat, hole: Option<(Relay, nat)>)
      reads this, routes
    {
      this in routes && Consistent(clients, gone, dealt, Snapshot(), hole)
    }

    ghost predicate Valid()
      reads this, routes
    {
      Tracks(WebSocket(0), 0, None)
    }

    constructor ()
      ensures Valid() && clients == map[] && listeners == [] && routes == {this}
    {
      clients, listeners, routes := map[], [], {this};
    }

    // A relay that serves nobody yet can be routed to.
    ghost method AddRoute(subrelay: Relay)
      requires Valid() && subrelay !in routes && subrelay.listeners == []
      modifies this`routes
      ensures Valid() && routes == old(routes) + {subrelay}
    {
      routes := routes + {subrelay};
      assert Snapshot() == old(Snapshot())[subrelay := []];
      assert forall w, t: nat :: Live(clients, WebSocket(0), 0, w, t) ==> PointsAt(clients[w][t], w, old(Snapshot()));
    }

    method Connect(ws: WebSocket)
      requires Valid() && ws !in clients
      modifies this`clients
      ensures Valid() && clients == old(clients)[ws := []]
    {
      NewClientIsConsistent(clients, WebSocket(0), Snapshot(), ws);
      clients := clients[ws := []];
      assert Snapshot() == old(Snapshot());
    }

    method AddListener(ws: WebSocket, id: string, subrelay: Relay, filter: Filter, cancel: nat)
      requires Valid() && subrelay in routes
      modifies this`clients, subrelay`listeners
      ensures Valid()
      ensures ws !in old(clients) ==> clients == old(clients) && subrelay.listeners == old(subrelay.listeners)
      ensures ws in old(clients) ==>
                var spec := ListenerSpec(id, cancel, |old(subrelay.listeners)|, subrelay);
                subrelay.listeners == old(subrelay.listeners) + [Listener(id, filter, ws)] &&
                clients == old(clients)[ws := old(clients[ws]) + [spec]]
    {
      if ws in clients {
        var spec, x := ListenerSpec(id, cancel, |subrelay.listeners|, subrelay), Listener(id, filter, ws);
        NewListenerIsConsistent(clients, WebSocket(0), Snapshot(), ws, spec, x);
        clients := clients[ws := clients[ws] + [spec]];
        subrelay.listeners := subrelay.listeners + [x];
        assert Snapshot() == old(Snapshot())[subrelay := subrelay.listeners];
      }
    }

    // Swap-delete of the listener at i: the last one takes its place, and the
    // spec of the moved one must be found.
    method Unlist(srl: Relay, i: nat)
      requires i < |srl.listeners|
      requires i < |srl.listeners| - 1 ==>
                 srl.listeners[|srl.listeners| - 1].ws in clients &&
                 FindSpec(clients[srl.listeners[|srl.listeners| - 1].ws], srl, |srl.listeners| - 1) != -1
      modifies this`clients, srl`listeners
      ensures srl.listeners == SwapDelete(old(srl.listeners), i)
      ensures clients == MoveLast(old(clients), srl, i, old(srl.listeners))
    {
      if i != |srl.listeners| - 1 {
        var movedFromIndex := |srl.listeners| - 1;
        var moved := srl.listeners[movedFromIndex];
        srl.listeners := srl.listeners[i := moved];
        var movedSpecs := clients[moved.ws];
        var k := FindSpec(movedSpecs, srl, movedFromIndex);
        clients := clients[moved.ws := movedSpecs[k := movedSpecs[k].(index := i)]];
      }
      srl.listeners := srl.listeners[..|srl.listeners| - 1];
    }

    // Going down the specs, each one of that name is swap-deleted together with
    // its listener. Returns what was cancelled.
    method RemoveListenerId(ws: WebSocket, id: string) returns (cancelled: seq<nat>)
      requires Valid()
      modifies this`clients, routes`listeners
      ensures Valid()
      ensures forall r :: r in routes ==> Without(r.listeners, old(r.listeners), ws, Some(id))
      ensures cancelled == if ws in old(clients) then CancelsOf(old(clients[ws]), id) else []
      ensures OthersKept(clients, old(clients), ws) && (ws in clients <==> ws in old(clients))
      ensures ws in clients ==> forall k :: 0 <= k < |clients[ws]| ==> clients[ws][k].id != id
    {
      hide Consistent, Without, OthersKept, CancelsOf, Removing, KeptBut;
      cancelled := [];
      ghost var was, wasL := clients, Snapshot();
      NobodyIsGone(clients, WebSocket(0), ws, wasL);
      if ws in clients {
        RemovingStarts(clients, wasL, ws, id);
        cancelled := RemoveSpecs(ws, id);
        RemovingEnds(clients, Snapshot(), was, wasL, ws, id);
      } else {
        NobodyHasNothing(clients, wasL, ws, Some(id));
        KeptByDefault(clients, ws);
      }
      NobodyIsGone(clients, ws, WebSocket(0), Snapshot());
      assert forall r :: r in routes ==> Snapshot()[r] == r.listeners && wasL[r] == old(r.listeners);
    }

    method RemoveSpecs(ws: WebSocket, id: string) returns (cancelled: seq<nat>)
      requires ws in clients && this in routes
      requires Removing(clients, Snapshot(), clients, Snapshot(), ws, id, |clients[ws]| - 1)
      modifies this`clients, routes`listeners
      ensures Removing(clients, Snapshot(), old(clients), old(Snapshot()), ws, id, -1)
      ensures cancelled == CancelsOf(old(clients[ws]), id)
    {
      cancelled := [];
      ghost var was, wasL := clients, Snapshot();
      var s := |clients[ws]| - 1;
      while s >= 0
        invariant Removing(clients, Snapshot(), was, wasL, ws, id, s)
        invariant cancelled == CancelsOf(was[ws][s + 1..], id)
      {
        hide Consistent, OthersKept, KeptBut;
        assert was[ws][s..][1..] == was[ws][s + 1..];
        var spec := clients[ws][s];
        if spec.id == id {
          cancelled := cancelled + [spec.cancel];
          RemoveSpec(ws, id, s, was, wasL);
        } else {
          RemovingPasses(clients, Snapshot(), was, wasL, ws, id, s);
        }
        s := s - 1;
      }
      assert was[ws][0..] == was[ws];
    }

    method RemoveSpec(ws: WebSocket, id: string, s: nat, ghost was: Clients<Relay>, ghost wasL: Lists<Relay>)
      requires ws in clients && s < |clients[ws]| && clients[ws][s].id == id
      requires Removing(clients, Snapshot(), was, wasL, ws, id, s)
      modifies this`clients, routes`listeners
      ensures Removing(clients, Snapshot(), was, wasL, ws, id, s - 1)
    {
      hide Consistent, OthersKept, KeptBut, Removing, Reindexes, StalePointNowhere, MoveLast, FindSpec, SwapDelete;
      var spec := clients[ws][s];
      ghost var c, l := clients, Snapshot();
      RemovingCanUnlist(c, l, was, wasL, ws, id, s);
      clients := clients[ws := SwapDelete(clients[ws], s)];
      UnlistingClosesHole(clients, ws, 0, l, spec.subrelay, spec.index);
      MovingReindexes(clients, spec.subrelay, spec.index, l[spec.subrelay]);
      Unlist(spec.subrelay, spec.index);
      assert Snapshot() == l[spec.subrelay := SwapDelete(l[spec.subrelay], spec.index)];
      RemovingRemoves(c, l, was, wasL, ws, id, s, clients, Snapshot());
    }

    // All listeners of a client are swap-deleted and the client is deleted.
    method RemoveClientAndListeners(ws: WebSocket)
      requires Valid()
      modifies this`clients, routes`listeners
      ensures Valid()
      ensures forall r :: r in routes ==> Without(r.listeners, old(r.listeners), ws, None)
      ensures OthersKept(clients, old(clients), ws) && ws !in clients
    {
      hide Consistent, Without, OthersKept, Leaving, KeptBut;
      ghost var was, wasL := clients, Snapshot();
      NobodyIsGone(clients, WebSocket(0), ws, wasL);
      if ws in clients {
        LeavingStarts(clients, wasL, ws);
        UnlistAll(ws);
        LeavingEnds(clients, Snapshot(), was, wasL, ws);
      } else {
        NobodyHasNothing(clients, wasL, ws, None);
        KeptByDefault(clients, ws);
        assert clients - {ws} == clients;
      }
      ghost var l := Snapshot();
      clients := clients - {ws};
      assert Snapshot() == l;
      NobodyIsGone(clients, ws, WebSocket(0), Snapshot());
      assert forall r :: r in routes ==> Snapshot()[r] == r.listeners && wasL[r] == old(r.listeners);
    }

    method UnlistAll(ws: WebSocket)
      requires ws in clients && this in routes
      requires Leaving(clients, Snapshot(), clients, Snapshot(), ws, 0)
      modifies this`clients, routes`listeners
      ensures ws in clients && Leaving(clients, Snapshot(), old(clients), old(Snapshot()), ws, |clients[ws]|)
    {
      ghost var was, wasL := clients, Snapshot();
      for s := 0 to |clients[ws]|
        invariant ws in clients && |clients[ws]| == |was[ws]|
        invariant Leaving(clients, Snapshot(), was, wasL, ws, s)
      {
        UnlistSpec(ws, s, was, wasL);
      }
    }

    method UnlistSpec(ws: WebSocket, s: nat, ghost was: Clients<Relay>, ghost wasL: Lists<Relay>)
      requires ws in clients && s < |clients[ws]|
      requires Leaving(clients, Snapshot(), was, wasL, ws, s)
      modifies this`clients, routes`listeners
      ensures ws in clients && |clients[ws]| == old(|clients[ws]|)
      ensures Leaving(clients, Snapshot(), was, wasL, ws, s + 1)
    {
      hide Consistent, OthersKept, KeptBut, Leaving, StalePointNowhere, MoveLast, FindSpec, SwapDelete;
      var spec := clients[ws][s];
      ghost var c, l := clients, Snapshot();
      LeavingCanUnlist(c, l, was, wasL, ws, s);
      if spec.index != |spec.subrelay.listeners| - 1 {
        clients := Reindexed(clients, ws, s, -1);
      }
      ghost var marked := clients;
      UnlistingClosesHole(clients, ws, s + 1, l, spec.subrelay, spec.index);
      MovingReindexes(clients, spec.subrelay, spec.index, l[spec.subrelay]);
      Unlist(spec.subrelay, spec.index);
      assert Snapshot() == l[spec.subrelay := SwapDelete(l[spec.subrelay], spec.index)];
      ReindexesAlong(clients, marked, c);
      if spec.index == |l[spec.subrelay]| - 1 {
        LeavingHasStale(c, l, was, wasL, ws, s);
        CutSpecIsPastTheEnd(c, ws, s, l, spec.subrelay);
        CutMovesNobody(c, spec.subrelay, spec.index, l[spec.subrelay]);
      }
      LeavingRemoves(c, l, was, wasL, ws, s, clients, Snapshot());
    }

    // Writes the event to every listener that wants it and nobody prevents,
    // and counts them.
    method NotifyListeners(event: Event, preventBroadcast: seq<(WebSocket, Event) -> bool>)
      returns (sent: seq<Listener>, count: nat)
      ensures sent == Notified(listeners, event, preventBroadcast) && count == |sent|
      ensures forall x :: multiset(sent)[x] ==
                          if Matches(x.filter, event) && forall h :: 0 <= h < |preventBroadcast| ==>
                                                                       !preventBroadcast[h](x.ws, event)
                          then multiset(listeners)[x] else 0
    {
      sent, count := [], 0;
      for i := 0 to |listeners|
        invariant sent == Notified(listeners[..i], event, preventBroadcast) && count == |sent|
      {
        assert listeners[..i + 1][..i] == listeners[..i];
        var l := listeners[i];
        if Matches(l.filter, event) {
          var prevented, h := false, 0;
          while h < |preventBroadcast| && !prevented
            invariant h <= |preventBroadcast|
            invariant prevented ==> exists j :: 0 <= j < |preventBroadcast| && preventBroadcast[j](l.ws, event)
            invariant !prevented ==> forall j :: 0 <= j < h ==> !preventBroadcast[j](l.ws, event)
          {
            prevented := preventBroadcast[h](l.ws, event);
            h := h + 1;
          }
          if !prevented {
            sent, count := sent + [l], count + 1;
          }
        }
      }
      assert listeners[..|listeners|] == listeners;
      forall x
        ensures multiset(sent)[x] == if Wants(x, event, preventBroadcast) then multiset(listeners)[x] else 0
      {
        NotifiedAreThoseThatWant(listeners, event, preventBroadcast, x);
      }
    }
  }
}
