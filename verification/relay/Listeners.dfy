// The subscription registry: each client's list of subscription specs and each
// relay's list of listeners point into each other, and both are edited by
// swap-delete. This module treats the two tables as values; the relay that
// holds them is in Relay.dfy.
module Listeners {
  import opened Wrappers
  import opened Events

  // A connection, compared by identity.
  datatype WebSocket = WebSocket(id: nat)

  // cancel stands for the cancel function of the subscription's context, and
  // subrelay names the relay that holds the listener.
  datatype ListenerSpec<R> = ListenerSpec(id: string, cancel: nat, index: int, subrelay: R)

  datatype Listener = Listener(id: string, filter: Filter, ws: WebSocket)

  type Clients<R> = map<WebSocket, seq<ListenerSpec<R>>>

  type Lists<R> = map<R, seq<Listener>>

  // ----- the invariant -----

  // Spec s of ws counts, unless ws is being removed and its first specs have
  // been dealt with already.
  predicate Live<R>(c: Clients<R>, gone: WebSocket, dealt: nat, ws: WebSocket, s: nat) {
    ws in c && s < |c[ws]| && !(ws == gone && s < dealt)
  }

  predicate Owns(l: Listener, ws: WebSocket, id: string) {
    l.ws == ws && l.id == id
  }

  predicate PointsAt<R(==)>(spec: ListenerSpec<R>, ws: WebSocket, l: Lists<R>) {
    spec.subrelay in l && 0 <= spec.index < |l[spec.subrelay]| && Owns(l[spec.subrelay][spec.index], ws, spec.id)
  }

  predicate Claims<R(==)>(spec: ListenerSpec<R>, r: R, i: int) {
    spec.subrelay == r && spec.index == i
  }

  ghost predicate Claimed<R>(c: Clients<R>, gone: WebSocket, dealt: nat, ws: WebSocket, r: R, i: nat) {
    exists s: nat :: Live(c, gone, dealt, ws, s) && Claims(c[ws][s], r, i)
  }

  ghost predicate SpecsPoint<R>(c: Clients<R>, gone: WebSocket, dealt: nat, l: Lists<R>) {
    forall ws, s: nat :: Live(c, gone, dealt, ws, s) ==> PointsAt(c[ws][s], ws, l)
  }

  ghost predicate ClaimsAreUnique<R>(c: Clients<R>, gone: WebSocket, dealt: nat) {
    forall ws, s: nat, t: nat ::
      (Live(c, gone, dealt, ws, s) && Live(c, gone, dealt, ws, t) &&
       Claims(c[ws][s], c[ws][t].subrelay, c[ws][t].index)) ==> s == t
  }

  ghost predicate AllClaimedBut<R>(c: Clients<R>, gone: WebSocket, dealt: nat, l: Lists<R>, hole: Option<(R, nat)>) {
    forall r, i: nat :: (r in l && i < |l[r]|) ==>
                          (Claimed(c, gone, dealt, l[r][i].ws, r, i) <==> hole != Some((r, i)))
  }

  // Specs and listeners are in bijection. With a hole (r, i), that listener is
  // about to be removed and no spec claims it any more.
  ghost predicate Consistent<R>(c: Clients<R>, gone: WebSocket, dealt: nat, l: Lists<R>, hole: Option<(R, nat)>) {
    SpecsPoint(c, gone, dealt, l) && ClaimsAreUnique(c, gone, dealt) && AllClaimedBut(c, gone, dealt, l, hole) &&
    (hole.Some? ==> hole.value.0 in l && hole.value.1 < |l[hole.value.0]|)
  }

  // What a client that is being removed leaves behind points nowhere.
  ghost predicate StalePointNowhere<R>(c: Clients<R>, gone: WebSocket, dealt: nat, l: Lists<R>) {
    forall s :: gone in c && 0 <= s < dealt && s < |c[gone]| ==> Nowhere(c[gone][s], l)
  }

  predicate Nowhere<R>(spec: ListenerSpec<R>, l: Lists<R>) {
    spec.subrelay in l && !(0 <= spec.index < |l[spec.subrelay]|)
  }

  // ----- the edits -----

  function SwapDelete<T>(xs: seq<T>, i: nat): (r: seq<T>)
    requires i < |xs|
    ensures |r| == |xs| - 1
    ensures forall k :: 0 <= k < |r| ==> r[k] == if k == i then xs[|xs| - 1] else xs[k]
  {
    xs[i := xs[|xs| - 1]][..|xs| - 1]
  }

  // slices.IndexFunc: the first spec that claims the listener, or -1.
  function FindSpec<R(==)>(specs: seq<ListenerSpec<R>>, r: R, i: int): (k: int)
    ensures -1 <= k < |specs|
    ensures k >= 0 ==> Claims(specs[k], r, i)
    ensures forall j :: 0 <= j < |specs| && (j < k || k == -1) ==> !Claims(specs[j], r, i)
  {
    if specs == [] then -1
    else if Claims(specs[0], r, i) then 0
    else
      var k := FindSpec(specs[1..], r, i);
      if k == -1 then -1 else k + 1
  }

  function Reindexed<R>(c: Clients<R>, ws: WebSocket, s: nat, i: int): Clients<R>
    requires ws in c && s < |c[ws]|
  {
    c[ws := c[ws][s := c[ws][s].(index := i)]]
  }

  // The same subscription, perhaps re-indexed.
  predicate SameSpec<R(==)>(a: ListenerSpec<R>, b: ListenerSpec<R>) {
    a.(index := 0) == b.(index := 0)
  }

  predicate SameSpecs<R(==)>(a: seq<ListenerSpec<R>>, b: seq<ListenerSpec<R>>) {
    |a| == |b| && forall t :: 0 <= t < |a| ==> SameSpec(a[t], b[t])
  }

  ghost predicate Reindexes<R>(c: Clients<R>, was: Clients<R>) {
    c.Keys == was.Keys && forall ws :: ws in c ==> SameSpecs(c[ws], was[ws])
  }

  // The last listener of r takes place i, and its spec learns of it.
  function MoveLast<R(==)>(c: Clients<R>, r: R, i: nat, xs: seq<Listener>): Clients<R>
    requires i < |xs|
  {
    var last := |xs| - 1;
    var ws := xs[last].ws;
    if i == last || ws !in c || FindSpec(c[ws], r, last) == -1 then c
    else Reindexed(c, ws, FindSpec(c[ws], r, last), i)
  }

  lemma SwapDeleteRemovesOne<T>(xs: seq<T>, i: nat)
    requires i < |xs|
    ensures multiset(SwapDelete(xs, i)) == multiset(xs) - multiset{xs[i]}
  {
    var last := |xs| - 1;
    assert xs == xs[..last] + [xs[last]];
    if i < last {
      assert xs[..last] == xs[..i] + [xs[i]] + xs[i + 1..last];
      assert SwapDelete(xs, i) == xs[..i] + [xs[last]] + xs[i + 1..last];
    } else {
      assert SwapDelete(xs, i) == xs[..last];
    }
  }

  // ----- dropping a spec leaves a hole -----

  lemma DroppedSpecLeavesHole<R>(c: Clients<R>, gone: WebSocket, l: Lists<R>, ws: WebSocket, s: nat)
    requires Consistent(c, gone, 0, l, None) && ws in c && s < |c[ws]|
    ensures PointsAt(c[ws][s], ws, l)
    ensures Consistent(c[ws := SwapDelete(c[ws], s)], gone, 0, l, Some((c[ws][s].subrelay, c[ws][s].index)))
  {
    var spec, specs := c[ws][s], SwapDelete(c[ws], s);
    var c' := c[ws := specs];
    var last := |c[ws]| - 1;
    assert Live(c, gone, 0, ws, s);
    assert Live(c, gone, 0, ws, last);
    forall w, t: nat | Live(c', gone, 0, w, t)
      ensures PointsAt(c'[w][t], w, l)
      ensures !Claims(c'[w][t], spec.subrelay, spec.index)
      ensures forall u: nat :: (Live(c', gone, 0, w, u) && Claims(c'[w][t], c'[w][u].subrelay, c'[w][u].index)) ==>
                                 t == u
    {
      var t' := if w == ws && t == s then last else t;
      assert Live(c, gone, 0, w, t') && c[w][t'] == c'[w][t];
      forall u: nat | Live(c', gone, 0, w, u) && Claims(c'[w][t], c'[w][u].subrelay, c'[w][u].index)
        ensures t == u
      {
        var u' := if w == ws && u == s then last else u;
        assert Live(c, gone, 0, w, u') && c[w][u'] == c'[w][u];
      }
    }
    forall r, i: nat | r in l && i < |l[r]|
      ensures Claimed(c', gone, 0, l[r][i].ws, r, i) <==> !Claims(spec, r, i)
    {
      var w := l[r][i].ws;
      assert Claimed(c, gone, 0, w, r, i);
      var t: nat :| Live(c, gone, 0, w, t) && Claims(c[w][t], r, i);
      if !Claims(spec, r, i) {
        var t' := if w == ws && t == last then s else t;
        assert Live(c', gone, 0, w, t') && Claims(c'[w][t'], r, i);
      }
    }
  }

  // ----- so does passing over a spec of the client being removed -----

  lemma PassedSpecLeavesHole<R>(c: Clients<R>, gone: WebSocket, dealt: nat, l: Lists<R>)
    requires Consistent(c, gone, dealt, l, None) && gone in c && dealt < |c[gone]|
    ensures PointsAt(c[gone][dealt], gone, l)
    ensures Consistent(c, gone, dealt + 1, l, Some((c[gone][dealt].subrelay, c[gone][dealt].index)))
  {
    var spec := c[gone][dealt];
    assert Live(c, gone, dealt, gone, dealt);
    assert forall w, t: nat :: Live(c, gone, dealt + 1, w, t) ==> Live(c, gone, dealt, w, t);
    forall r, i: nat | r in l && i < |l[r]|
      ensures Claimed(c, gone, dealt + 1, l[r][i].ws, r, i) <==> !Claims(spec, r, i)
    {
      var w := l[r][i].ws;
      assert Claimed(c, gone, dealt, w, r, i);
      var t: nat :| Live(c, gone, dealt, w, t) && Claims(c[w][t], r, i);
      if !Claims(spec, r, i) {
        assert Live(c, gone, dealt + 1, w, t);
      }
    }
  }

  // The index of a spec that no longer counts may be overwritten.
  lemma StaleIndexIsFree<R>(c: Clients<R>, gone: WebSocket, dealt: nat, l: Lists<R>, hole: Option<(R, nat)>, s: nat,
                            i: int)
    requires Consistent(c, gone, dealt, l, hole) && gone in c && s < dealt && s < |c[gone]|
    ensures Consistent(Reindexed(c, gone, s, i), gone, dealt, l, hole)
  {
    var c' := Reindexed(c, gone, s, i);
    forall w, t: nat
      ensures Live(c', gone, dealt, w, t) <==> Live(c, gone, dealt, w, t)
      ensures Live(c, gone, dealt, w, t) ==> c'[w][t] == c[w][t]
    {
    }
    forall w, r, i: nat
      ensures Claimed(c', gone, dealt, w, r, i) <==> Claimed(c, gone, dealt, w, r, i)
    {
      if Claimed(c, gone, dealt, w, r, i) {
        var t: nat :| Live(c, gone, dealt, w, t) && Claims(c[w][t], r, i);
        assert Live(c', gone, dealt, w, t) && Claims(c'[w][t], r, i);
      }
    }
  }

  // ----- removing the listener closes the hole -----

  lemma StaleClaimsNothing<R>(c: Clients<R>, gone: WebSocket, dealt: nat, l: Lists<R>, s: nat, r: R, i: nat)
    requires StalePointNowhere(c, gone, dealt, l) && gone in c && s < dealt && s < |c[gone]| && r in l && i < |l[r]|
    ensures !Claims(c[gone][s], r, i)
  {
    assert Nowhere(c[gone][s], l);
  }

  // A relay that is routed to may serve clients of its own as well. Then only
  // the listeners of the clients in c are claimed there.
  ghost predicate OwnAreClaimedBut<R>(c: Clients<R>, gone: WebSocket, dealt: nat, l: Lists<R>, hole: Option<(R, nat)>) {
    forall r, i: nat :: (r in l && i < |l[r]| && l[r][i].ws in c) ==>
                          (Claimed(c, gone, dealt, l[r][i].ws, r, i) <==> hole != Some((r, i)))
  }

  // Reading a missing key gives no specs.
  function SpecsOf<R>(c: Clients<R>, ws: WebSocket): seq<ListenerSpec<R>> {
    if ws in c then c[ws] else []
  }

  // The search for the spec of the last listener fails, and the handler panics,
  // exactly when that listener is of a client the other relay serves itself.
  lemma MovedSpecIsFoundIff<R>(c: Clients<R>, gone: WebSocket, dealt: nat, l: Lists<R>, r: R, i: nat)
    requires OwnAreClaimedBut(c, gone, dealt, l, Some((r, i))) && StalePointNowhere(c, gone, dealt, l)
    requires r in l && i < |l[r]| - 1
    ensures var ws := l[r][|l[r]| - 1].ws; var k := FindSpec(SpecsOf(c, ws), r, |l[r]| - 1);
                                           (k != -1 <==> ws in c) && (ws in c ==> Live(c, gone, dealt, ws, k))
  {
    hide StalePointNowhere;
    var last := |l[r]| - 1;
    var ws := l[r][last].ws;
    if ws in c {
      assert Claimed(c, gone, dealt, ws, r, last);
      var t: nat :| Live(c, gone, dealt, ws, t) && Claims(c[ws][t], r, last);
      forall s: nat | gone in c && s < dealt && s < |c[gone]|
        ensures !Claims(c[gone][s], r, last)
      {
        StaleClaimsNothing(c, gone, dealt, l, s, r, last);
      }
    }
  }

  // If no relay is routed to that serves clients of its own, the search always
  // succeeds, whoever owns the last listener.
  lemma MovedSpecIsFound<R>(c: Clients<R>, gone: WebSocket, dealt: nat, l: Lists<R>, r: R, i: nat)
    requires Consistent(c, gone, dealt, l, Some((r, i))) && StalePointNowhere(c, gone, dealt, l)
    requires i < |l[r]| - 1
    ensures var last := |l[r]| - 1; var ws := l[r][last].ws;
                                    ws in c && FindSpec(c[ws], r, last) >= 0 &&
                                    Live(c, gone, dealt, ws, FindSpec(c[ws], r, last))
  {
    hide StalePointNowhere;
    assert Claimed(c, gone, dealt, l[r][|l[r]| - 1].ws, r, |l[r]| - 1);
    MovedSpecIsFoundIff(c, gone, dealt, l, r, i);
  }

  lemma MovingTheLastClosesHole<R>(c: Clients<R>, gone: WebSocket, dealt: nat, l: Lists<R>, r: R, i: nat, k: nat)
    requires Consistent(c, gone, dealt, l, Some((r, i))) && i < |l[r]| - 1
    requires Live(c, gone, dealt, l[r][|l[r]| - 1].ws, k) && Claims(c[l[r][|l[r]| - 1].ws][k], r, |l[r]| - 1)
    ensures Consistent(Reindexed(c, l[r][|l[r]| - 1].ws, k, i), gone, dealt, l[r := SwapDelete(l[r], i)], None)
  {
    var last := |l[r]| - 1;
    var ws := l[r][last].ws;
    var c' := Reindexed(c, ws, k, i);
    var l': Lists<R> := l[r := SwapDelete(l[r], i)];
    assert !Claimed(c, gone, dealt, l[r][i].ws, r, i);
    forall w, t: nat | Live(c', gone, dealt, w, t)
      ensures Live(c, gone, dealt, w, t)
      ensures PointsAt(c'[w][t], w, l')
      ensures !(w == ws && t == k) ==> c'[w][t] == c[w][t] && !Claims(c[w][t], r, i) && !Claims(c[w][t], r, last)
    {
      assert Live(c, gone, dealt, w, t) && PointsAt(c[w][t], w, l);
    }
    forall r', j: nat | r' in l' && j < |l'[r']|
      ensures Claimed(c', gone, dealt, l'[r'][j].ws, r', j)
    {
      if r' == r && j == i {
        assert Live(c', gone, dealt, ws, k) && Claims(c'[ws][k], r', j);
      } else {
        var w := l'[r'][j].ws;
        assert Claimed(c, gone, dealt, w, r', j);
        var t: nat :| Live(c, gone, dealt, w, t) && Claims(c[w][t], r', j);
        assert Live(c', gone, dealt, w, t) && Claims(c'[w][t], r', j);
      }
    }
  }

  lemma CuttingTheLastClosesHole<R>(c: Clients<R>, gone: WebSocket, dealt: nat, l: Lists<R>, r: R, i: nat)
    requires Consistent(c, gone, dealt, l, Some((r, i))) && i == |l[r]| - 1
    ensures Consistent(c, gone, dealt, l[r := SwapDelete(l[r], i)], None)
  {
    var l' := l[r := SwapDelete(l[r], i)];
    assert !Claimed(c, gone, dealt, l[r][i].ws, r, i);
    forall w, t: nat | Live(c, gone, dealt, w, t)
      ensures PointsAt(c[w][t], w, l')
    {
      assert PointsAt(c[w][t], w, l);
    }
    forall r', j: nat | r' in l' && j < |l'[r']|
      ensures Claimed(c, gone, dealt, l'[r'][j].ws, r', j)
    {
      assert Claimed(c, gone, dealt, l[r'][j].ws, r', j);
    }
  }

  lemma StaleStayNowhere<R>(c: Clients<R>, gone: WebSocket, dealt: nat, l: Lists<R>, r: R, i: nat, k: nat)
    requires StalePointNowhere(c, gone, dealt, l) && r in l && i < |l[r]| - 1
    requires Live(c, gone, dealt, l[r][|l[r]| - 1].ws, k)
    ensures StalePointNowhere(Reindexed(c, l[r][|l[r]| - 1].ws, k, i), gone, dealt, l[r := SwapDelete(l[r], i)])
  {
    var c' := Reindexed(c, l[r][|l[r]| - 1].ws, k, i);
    forall s | gone in c' && 0 <= s < dealt && s < |c'[gone]|
      ensures Nowhere(c'[gone][s], l[r := SwapDelete(l[r], i)])
    {
      assert c'[gone][s] == c[gone][s] && Nowhere(c[gone][s], l);
    }
  }

  // Swap-delete of one listener, whose own spec is already out of the way.
  lemma UnlistingClosesHole<R>(c: Clients<R>, gone: WebSocket, dealt: nat, l: Lists<R>, r: R, i: nat)
    requires Consistent(c, gone, dealt, l, Some((r, i)))
    requires r in l && i < |l[r]| && (i == |l[r]| - 1 || StalePointNowhere(c, gone, dealt, l))
    ensures i < |l[r]| - 1 ==> l[r][|l[r]| - 1].ws in c && FindSpec(c[l[r][|l[r]| - 1].ws], r, |l[r]| - 1) != -1
    ensures Consistent(MoveLast(c, r, i, l[r]), gone, dealt, l[r := SwapDelete(l[r], i)], None)
    ensures i < |l[r]| - 1 ==> StalePointNowhere(MoveLast(c, r, i, l[r]), gone, dealt, l[r := SwapDelete(l[r], i)])
  {
    hide Consistent, StalePointNowhere, FindSpec, SwapDelete;
    if i == |l[r]| - 1 {
      CuttingTheLastClosesHole(c, gone, dealt, l, r, i);
    } else {
      MovedSpecIsFound(c, gone, dealt, l, r, i);
      var last := |l[r]| - 1;
      var k := FindSpec(c[l[r][last].ws], r, last);
      MovingTheLastClosesHole(c, gone, dealt, l, r, i, k);
      StaleStayNowhere(c, gone, dealt, l, r, i, k);
    }
  }

  lemma MovingReindexes<R>(c: Clients<R>, r: R, i: nat, xs: seq<Listener>)
    requires i < |xs|
    ensures Reindexes(MoveLast(c, r, i, xs), c)
  {
  }

  // ----- adding a client, adding a listener, forgetting a client -----

  lemma NewClientIsConsistent<R>(c: Clients<R>, gone: WebSocket, l: Lists<R>, ws: WebSocket)
    requires Consistent(c, gone, 0, l, None) && ws !in c
    ensures Consistent(c[ws := []], gone, 0, l, None)
  {
    var c' := c[ws := []];
    forall w, t: nat
      ensures Live(c', gone, 0, w, t) <==> Live(c, gone, 0, w, t)
    {
    }
    forall w, r, i: nat
      ensures Claimed(c', gone, 0, w, r, i) <==> Claimed(c, gone, 0, w, r, i)
    {
      if Claimed(c, gone, 0, w, r, i) {
        var t: nat :| Live(c, gone, 0, w, t) && Claims(c[w][t], r, i);
        assert Live(c', gone, 0, w, t) && Claims(c'[w][t], r, i);
      }
    }
  }

  lemma NewListenerIsConsistent<R>(c: Clients<R>, gone: WebSocket, l: Lists<R>, ws: WebSocket, spec: ListenerSpec<R>,
                                   x: Listener)
    requires Consistent(c, gone, 0, l, None) && ws in c && Owns(x, ws, spec.id)
    requires spec.subrelay in l && spec.index == |l[spec.subrelay]|
    ensures Consistent(c[ws := c[ws] + [spec]], gone, 0, l[spec.subrelay := l[spec.subrelay] + [x]], None)
  {
    var c' := c[ws := c[ws] + [spec]];
    var l': Lists<R> := l[spec.subrelay := l[spec.subrelay] + [x]];
    forall w, t: nat | Live(c', gone, 0, w, t)
      ensures PointsAt(c'[w][t], w, l')
      ensures !(w == ws && t == |c[ws]|) ==> Live(c, gone, 0, w, t) && !Claims(c'[w][t], spec.subrelay, spec.index)
    {
      if !(w == ws && t == |c[ws]|) {
        assert Live(c, gone, 0, w, t) && PointsAt(c[w][t], w, l);
      }
    }
    forall r, i: nat | r in l' && i < |l'[r]|
      ensures Claimed(c', gone, 0, l'[r][i].ws, r, i)
    {
      if r == spec.subrelay && i == spec.index {
        assert Live(c', gone, 0, ws, |c[ws]|) && Claims(c'[ws][|c[ws]|], r, i);
      } else {
        var w := l[r][i].ws;
        assert Claimed(c, gone, 0, w, r, i);
        var t: nat :| Live(c, gone, 0, w, t) && Claims(c[w][t], r, i);
        assert Live(c', gone, 0, w, t) && Claims(c'[w][t], r, i);
      }
    }
  }

  // Once all its specs are dealt with, the client owns no listener and can go.
  lemma ForgottenClientOwnsNothing<R>(c: Clients<R>, gone: WebSocket, l: Lists<R>)
    requires gone in c && Consistent(c, gone, |c[gone]|, l, None)
    ensures forall r, i: nat :: r in l && i < |l[r]| ==> l[r][i].ws != gone
    ensures Consistent(c - {gone}, gone, 0, l, None)
  {
    var c' := c - {gone};
    assert forall w, t: nat :: Live(c', gone, 0, w, t) <==> Live(c, gone, |c[gone]|, w, t);
    forall r, i: nat | r in l && i < |l[r]|
      ensures l[r][i].ws != gone && Claimed(c', gone, 0, l[r][i].ws, r, i)
    {
      var w := l[r][i].ws;
      assert Claimed(c, gone, |c[gone]|, w, r, i);
      var t: nat :| Live(c, gone, |c[gone]|, w, t) && Claims(c[w][t], r, i);
      assert Live(c', gone, 0, w, t) && Claims(c'[w][t], r, i);
    }
  }

  // Cutting the last listener off leaves the spec that pointed at it past the end.
  lemma CutSpecIsPastTheEnd<R>(c: Clients<R>, gone: WebSocket, dealt: nat, l: Lists<R>, r: R)
    requires StalePointNowhere(c, gone, dealt, l) && gone in c && dealt < |c[gone]|
    requires r in l && |l[r]| > 0 && Claims(c[gone][dealt], r, |l[r]| - 1)
    ensures StalePointNowhere(c, gone, dealt + 1, l[r := SwapDelete(l[r], |l[r]| - 1)])
  {
    forall s | 0 <= s < dealt + 1 && s < |c[gone]|
      ensures Nowhere(c[gone][s], l[r := SwapDelete(l[r], |l[r]| - 1)])
    {
      assert s < dealt ==> Nowhere(c[gone][s], l);
    }
  }

  // Index -1 points nowhere.
  lemma MarkedSpecIsNowhere<R>(c: Clients<R>, gone: WebSocket, dealt: nat, l: Lists<R>)
    requires StalePointNowhere(c, gone, dealt, l) && gone in c && dealt < |c[gone]| && c[gone][dealt].subrelay in l
    ensures StalePointNowhere(Reindexed(c, gone, dealt, -1), gone, dealt + 1, l)
  {
    var c' := Reindexed(c, gone, dealt, -1);
    forall s | 0 <= s < dealt + 1 && s < |c'[gone]|
      ensures Nowhere(c'[gone][s], l)
    {
      assert s < dealt ==> Nowhere(c[gone][s], l);
    }
  }

  // With no spec of that name left, no listener of that name is left.
  lemma NoSpecNoListener<R>(c: Clients<R>, gone: WebSocket, l: Lists<R>, ws: WebSocket, id: string)
    requires Consistent(c, gone, 0, l, None)
    requires ws in c ==> forall k :: 0 <= k < |c[ws]| ==> c[ws][k].id != id
    ensures forall r, i: nat :: r in l && i < |l[r]| ==> !Owns(l[r][i], ws, id)
  {
    forall r, i: nat | r in l && i < |l[r]|
      ensures !Owns(l[r][i], ws, id)
    {
      var w := l[r][i].ws;
      assert Claimed(c, gone, 0, w, r, i);
      var t: nat :| Live(c, gone, 0, w, t) && Claims(c[w][t], r, i);
      assert PointsAt(c[w][t], w, l);
    }
  }

  // While no client is being removed, it does not matter which one it would be.
  lemma NobodyIsGone<R>(c: Clients<R>, gone: WebSocket, other: WebSocket, l: Lists<R>)
    requires Consistent(c, gone, 0, l, None)
    ensures Consistent(c, other, 0, l, None)
  {
    assert forall w, t: nat :: Live(c, other, 0, w, t) <==> Live(c, gone, 0, w, t);
    forall w, r, i: nat
      ensures Claimed(c, gone, 0, w, r, i) ==> Claimed(c, other, 0, w, r, i)
    {
      if Claimed(c, gone, 0, w, r, i) {
        var t: nat :| Live(c, gone, 0, w, t) && Claims(c[w][t], r, i);
        assert Live(c, other, 0, w, t) && Claims(c[w][t], r, i);
      }
    }
  }

  // ----- what removal means -----

  // Everyone but this client keeps the same subscriptions, perhaps re-indexed.
  ghost predicate OthersKept<R>(c: Clients<R>, was: Clients<R>, ws: WebSocket) {
    forall w :: w != ws ==> (w in c <==> w in was) && (w in c && w in was ==> SameSpecs(c[w], was[w]))
  }

  lemma KeptByDefault<R>(c: Clients<R>, ws: WebSocket)
    ensures OthersKept(c, c, ws)
  {
  }

  // An entry of this client, and of this subscription unless all are meant.
  predicate Among(x: Listener, ws: WebSocket, id: Option<string>) {
    x.ws == ws && (id.Some? ==> x.id == id.value)
  }

  // Those entries may have gone, all others are still there.
  ghost predicate KeptBut(now: seq<Listener>, was: seq<Listener>, ws: WebSocket, id: Option<string>) {
    forall x :: !Among(x, ws, id) ==> multiset(now)[x] == multiset(was)[x]
  }

  // Exactly those entries have gone.
  ghost predicate Without(now: seq<Listener>, was: seq<Listener>, ws: WebSocket, id: Option<string>) {
    forall x :: multiset(now)[x] == if Among(x, ws, id) then 0 else multiset(was)[x]
  }

  lemma NoneLeftIsWithout(now: seq<Listener>, was: seq<Listener>, ws: WebSocket, id: Option<string>)
    requires KeptBut(now, was, ws, id) && forall i :: 0 <= i < |now| ==> !Among(now[i], ws, id)
    ensures Without(now, was, ws, id)
  {
    forall x
      ensures multiset(now)[x] == if Among(x, ws, id) then 0 else multiset(was)[x]
    {
      if Among(x, ws, id) {
        assert x !in now;
      }
    }
  }

  // The cancel functions of one subscription's specs, last spec first.
  function CancelsOf<R>(specs: seq<ListenerSpec<R>>, id: string): seq<nat> {
    if specs == [] then []
    else CancelsOf(specs[1..], id) + (if specs[0].id == id then [specs[0].cancel] else [])
  }

  // Every subscription of that name is cancelled, the last one first.
  lemma {:induction false} CancelsAreOfThatName<R>(specs: seq<ListenerSpec<R>>, last: ListenerSpec<R>, id: string)
    ensures CancelsOf(specs + [last], id) ==
            (if last.id == id then [last.cancel] else []) + CancelsOf(specs, id)
  {
    if specs == [] {
      assert specs + [last] == [last] && [last][1..] == [];
    } else {
      CancelsAreOfThatName(specs[1..], last, id);
      assert (specs + [last])[1..] == specs[1..] + [last];
    }
  }

  // The step that removes one of them.
  lemma OneFewer(was: seq<Listener>, now: seq<Listener>, i: nat, ws: WebSocket, id: Option<string>)
    requires i < |now| && Among(now[i], ws, id)
    requires KeptBut(now, was, ws, id)
    ensures KeptBut(SwapDelete(now, i), was, ws, id)
  {
    SwapDeleteRemovesOne(now, i);
  }

  // ----- removing one subscription of a client, from its last spec down -----

  // Specs above s have been looked at.
  ghost predicate Removing<R>(c: Clients<R>, l: Lists<R>, was: Clients<R>, wasL: Lists<R>, ws: WebSocket, id: string,
                              s: int) {
    Consistent(c, ws, 0, l, None) && OthersKept(c, was, ws) && l.Keys == wasL.Keys &&
    ws in c && ws in was && -1 <= s < |c[ws]| && s < |was[ws]| &&
    (forall k :: 0 <= k <= s ==> SameSpec(c[ws][k], was[ws][k])) &&
    (forall k :: s < k < |c[ws]| ==> c[ws][k].id != id) &&
    forall r :: r in l ==> KeptBut(l[r], wasL[r], ws, Some(id))
  }

  lemma RemovingStarts<R>(c: Clients<R>, l: Lists<R>, ws: WebSocket, id: string)
    requires Consistent(c, ws, 0, l, None) && ws in c
    ensures Removing(c, l, c, l, ws, id, |c[ws]| - 1)
  {
    hide Consistent;
  }

  lemma RemovingPasses<R>(c: Clients<R>, l: Lists<R>, was: Clients<R>, wasL: Lists<R>, ws: WebSocket, id: string,
                          s: nat)
    requires Removing(c, l, was, wasL, ws, id, s) && c[ws][s].id != id
    ensures Removing(c, l, was, wasL, ws, id, s - 1)
  {
    hide Consistent, OthersKept, KeptBut;
  }

  // Its spec dropped, the listener can be swap-deleted.
  lemma RemovingCanUnlist<R>(c: Clients<R>, l: Lists<R>, was: Clients<R>, wasL: Lists<R>, ws: WebSocket, id: string,
                             s: nat)
    requires Removing(c, l, was, wasL, ws, id, s)
    ensures PointsAt(c[ws][s], ws, l)
    ensures Consistent(c[ws := SwapDelete(c[ws], s)], ws, 0, l, Some((c[ws][s].subrelay, c[ws][s].index)))
    ensures StalePointNowhere(c[ws := SwapDelete(c[ws], s)], ws, 0, l)
  {
    hide Consistent, OthersKept, KeptBut;
    DroppedSpecLeavesHole(c, ws, l, ws, s);
  }

  lemma RemovingRemoves<R>(c: Clients<R>, l: Lists<R>, was: Clients<R>, wasL: Lists<R>, ws: WebSocket, id: string,
                           s: nat,
                           c': Clients<R>, l': Lists<R>)
    requires Removing(c, l, was, wasL, ws, id, s) && c[ws][s].id == id && PointsAt(c[ws][s], ws, l)
    requires Consistent(c', ws, 0, l', None)
    requires Reindexes(c', c[ws := SwapDelete(c[ws], s)])
    requires l' == l[c[ws][s].subrelay := SwapDelete(l[c[ws][s].subrelay], c[ws][s].index)]
    ensures Removing(c', l', was, wasL, ws, id, s - 1)
  {
    hide Consistent, KeptBut, SwapDelete;
    var dropped := c[ws := SwapDelete(c[ws], s)];
    assert SameSpecs(c'[ws], dropped[ws]);
    forall w | w != ws
      ensures (w in c' <==> w in was) && (w in c' && w in was ==> SameSpecs(c'[w], was[w]))
    {
      assert w in c ==> dropped[w] == c[w];
    }
    OneFewer(wasL[c[ws][s].subrelay], l[c[ws][s].subrelay], c[ws][s].index, ws, Some(id));
  }

  lemma RemovingEnds<R>(c: Clients<R>, l: Lists<R>, was: Clients<R>, wasL: Lists<R>, ws: WebSocket, id: string)
    requires Removing(c, l, was, wasL, ws, id, -1)
    ensures Consistent(c, ws, 0, l, None) && OthersKept(c, was, ws)
    ensures ws in c && forall k :: 0 <= k < |c[ws]| ==> c[ws][k].id != id
    ensures l.Keys == wasL.Keys && forall r :: r in l ==> Without(l[r], wasL[r], ws, Some(id))
  {
    hide Consistent, OthersKept, Without, KeptBut;
    NoSpecNoListener(c, ws, l, ws, id);
    forall r | r in l
      ensures Without(l[r], wasL[r], ws, Some(id))
    {
      NoneLeftIsWithout(l[r], wasL[r], ws, Some(id));
    }
  }

  // Without a client there is nothing to remove.
  lemma NobodyHasNothing<R>(c: Clients<R>, l: Lists<R>, ws: WebSocket, id: Option<string>)
    requires Consistent(c, ws, 0, l, None) && ws !in c
    ensures forall r :: r in l ==> Without(l[r], l[r], ws, id)
  {
    hide Consistent, Without;
    forall r | r in l
      ensures Without(l[r], l[r], ws, id)
    {
      NobodyOwns(c, l, ws, r);
      NoneLeftIsWithout(l[r], l[r], ws, id);
    }
  }

  lemma NobodyOwns<R>(c: Clients<R>, l: Lists<R>, ws: WebSocket, r: R)
    requires Consistent(c, ws, 0, l, None) && ws !in c && r in l
    ensures forall i :: 0 <= i < |l[r]| ==> l[r][i].ws != ws
  {
    assert forall i: nat :: i < |l[r]| ==> Claimed(c, ws, 0, l[r][i].ws, r, i);
  }

  // ----- removing a client, from its first spec up -----

  // The first s specs have been dealt with.
  ghost predicate Leaving<R>(c: Clients<R>, l: Lists<R>, was: Clients<R>, wasL: Lists<R>, ws: WebSocket, s: nat) {
    Consistent(c, ws, s, l, None) && StalePointNowhere(c, ws, s, l) && OthersKept(c, was, ws) && l.Keys == wasL.Keys &&
    ws in c && ws in was && s <= |c[ws]| == |was[ws]| &&
    forall r :: r in l ==> KeptBut(l[r], wasL[r], ws, None)
  }

  lemma LeavingStarts<R>(c: Clients<R>, l: Lists<R>, ws: WebSocket)
    requires Consistent(c, ws, 0, l, None) && ws in c
    ensures Leaving(c, l, c, l, ws, 0)
  {
    hide Consistent;
  }

  // Its spec passed over, and marked unless its listener is the last, the
  // listener can be swap-deleted.
  lemma LeavingCanUnlist<R>(c: Clients<R>, l: Lists<R>, was: Clients<R>, wasL: Lists<R>, ws: WebSocket, s: nat)
    requires Leaving(c, l, was, wasL, ws, s) && s < |c[ws]|
    ensures PointsAt(c[ws][s], ws, l)
    ensures var spec := c[ws][s]; var r, i := spec.subrelay, spec.index;
                                  if i == |l[r]| - 1 then Consistent(c, ws, s + 1, l, Some((r, i)))
                                  else Consistent(Reindexed(c, ws, s, -1), ws, s + 1, l, Some((r, i))) &&
                                       StalePointNowhere(Reindexed(c, ws, s, -1), ws, s + 1, l)
  {
    hide Consistent, StalePointNowhere, OthersKept, KeptBut;
    PassedSpecLeavesHole(c, ws, s, l);
    StaleIndexIsFree(c, ws, s + 1, l, Some((c[ws][s].subrelay, c[ws][s].index)), s, -1);
    MarkedSpecIsNowhere(c, ws, s, l);
  }

  lemma LeavingHasStale<R>(c: Clients<R>, l: Lists<R>, was: Clients<R>, wasL: Lists<R>, ws: WebSocket, s: nat)
    requires Leaving(c, l, was, wasL, ws, s)
    ensures StalePointNowhere(c, ws, s, l)
  {
  }

  lemma CutMovesNobody<R>(c: Clients<R>, r: R, i: nat, xs: seq<Listener>)
    requires i == |xs| - 1
    ensures MoveLast(c, r, i, xs) == c
  {
  }

  lemma ReindexesAlong<R>(c'': Clients<R>, c': Clients<R>, c: Clients<R>)
    requires Reindexes(c'', c') && c.Keys == c'.Keys && forall ws :: ws in c ==> SameSpecs(c'[ws], c[ws])
    ensures Reindexes(c'', c)
  {
    forall ws | ws in c
      ensures SameSpecs(c''[ws], c[ws])
    {
      assert SameSpecs(c''[ws], c'[ws]);
      forall t | 0 <= t < |c''[ws]|
        ensures SameSpec(c''[ws][t], c[ws][t])
      {
        assert SameSpec(c''[ws][t], c'[ws][t]) && SameSpec(c'[ws][t], c[ws][t]);
      }
    }
  }

  lemma LeavingRemoves<R>(c: Clients<R>, l: Lists<R>, was: Clients<R>, wasL: Lists<R>, ws: WebSocket, s: nat,
                          c': Clients<R>, l': Lists<R>)
    requires Leaving(c, l, was, wasL, ws, s) && s < |c[ws]| && PointsAt(c[ws][s], ws, l)
    requires Consistent(c', ws, s + 1, l', None) && StalePointNowhere(c', ws, s + 1, l')
    requires Reindexes(c', c)
    requires l' == l[c[ws][s].subrelay := SwapDelete(l[c[ws][s].subrelay], c[ws][s].index)]
    ensures Leaving(c', l', was, wasL, ws, s + 1)
  {
    hide Consistent, StalePointNowhere, KeptBut, SwapDelete;
    OneFewer(wasL[c[ws][s].subrelay], l[c[ws][s].subrelay], c[ws][s].index, ws, None);
    assert SameSpecs(c'[ws], c[ws]);
    forall w | w != ws
      ensures (w in c' <==> w in was) && (w in c' && w in was ==> SameSpecs(c'[w], was[w]))
    {
      assert w in c' ==> SameSpecs(c'[w], c[w]);
    }
  }

  lemma LeavingEnds<R>(c: Clients<R>, l: Lists<R>, was: Clients<R>, wasL: Lists<R>, ws: WebSocket)
    requires ws in c && Leaving(c, l, was, wasL, ws, |c[ws]|)
    ensures Consistent(c - {ws}, ws, 0, l, None) && OthersKept(c - {ws}, was, ws)
    ensures l.Keys == wasL.Keys && forall r :: r in l ==> Without(l[r], wasL[r], ws, None)
  {
    hide Consistent, StalePointNowhere, KeptBut, Without, SameSpecs;
    ForgottenClientOwnsNothing(c, ws, l);
    forall r | r in l
      ensures Without(l[r], wasL[r], ws, None)
    {
      NoneLeftIsWithout(l[r], wasL[r], ws, None);
    }
  }

  // ----- whom an event reaches -----

  predicate Wants(x: Listener, e: Event, preventBroadcast: seq<(WebSocket, Event) -> bool>) {
    Matches(x.filter, e) && forall h :: 0 <= h < |preventBroadcast| ==> !preventBroadcast[h](x.ws, e)
  }

  function Notified(xs: seq<Listener>, e: Event, preventBroadcast: seq<(WebSocket, Event) -> bool>): seq<Listener> {
    if xs == [] then []
    else
      var rest := Notified(xs[..|xs| - 1], e, preventBroadcast);
      if Wants(xs[|xs| - 1], e, preventBroadcast) then rest + [xs[|xs| - 1]] else rest
  }

  // In the order of the list.
  lemma {:induction false} NotifiedInOrder(xs: seq<Listener>, ys: seq<Listener>, e: Event,
                                           preventBroadcast: seq<(WebSocket, Event) -> bool>)
    ensures Notified(xs + ys, e, preventBroadcast) ==
            Notified(xs, e, preventBroadcast) + Notified(ys, e, preventBroadcast)
  {
    hide Wants;
    if ys == [] {
      assert xs + ys == xs;
    } else {
      NotifiedInOrder(xs, ys[..|ys| - 1], e, preventBroadcast);
      assert (xs + ys)[..|xs + ys| - 1] == xs + ys[..|ys| - 1];
    }
  }

  lemma {:induction false} NotifiedAreThoseThatWant(xs: seq<Listener>, e: Event,
                                                    preventBroadcast: seq<(WebSocket, Event) -> bool>, x: Listener)
    ensures multiset(Notified(xs, e, preventBroadcast))[x] == if Wants(x, e, preventBroadcast) then multiset(xs)[x]
                                                              else 0
  {
    if xs != [] {
      var last := |xs| - 1;
      NotifiedAreThoseThatWant(xs[..last], e, preventBroadcast, x);
      assert xs == xs[..last] + [xs[last]];
    }
  }
}
