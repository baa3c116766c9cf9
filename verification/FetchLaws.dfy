/** What every interleaving of the fetch protocol keeps, and what follows: no
    deadlock, no lost wake-up, one leader, exact wait edges, exact clean-up. */
module FetchLaws {
  import opened Prelude
  import opened StateSpec
  import opened WaitGraph
  import opened FlightDesk
  import opened FetchProtocol

  // -------------------------------------------------------------- wait edges

  ghost predicate SameBut(t: Table, u: Table, chain: seq<Link>, key: Key, up: bool) {
    && u.Keys == t.Keys
    && forall c | c in t ::
         u[c] == if Link(c, t[c].id) in chain then t[c].(waits := Moved(t[c].waits, key, up)) else t[c]
  }

  /** A chain names each leadership once, so each of its flights moves by one. */
  lemma {:induction false} EdgesPointwise(t: Table, chain: seq<Link>, key: Key, up: bool)
    requires Falling(chain)
    ensures SameBut(t, Edges(t, chain, key, up), chain, key, up)
    decreases |chain|
  {
    if chain != [] {
      var l, rest := chain[0], chain[1..];
      assert forall x :: x in chain <==> x == l || x in rest;
      assert l !in rest;
      EdgesPointwise(EdgeAt(t, l, key, up), rest, key, up);
    }
  }

  lemma EdgesFor(t: Table, chain: seq<Link>, key: Key, up: bool, a: Key, b: Key)
    requires SameBut(t, Edges(t, chain, key, up), chain, key, up)
    requires Edge(Edges(t, chain, key, up), a, b)
    ensures Edge(t, a, b) || (up && b == key && a in t && Link(a, t[a].id) in chain)
  {
  }

  lemma InsideMore(ws: map<nat, Waiter>, w: nat, x: Waiter, l: Link, k: Key)
    requires w !in ws
    ensures |Inside(ws[w := x], l, k)| == |Inside(ws, l, k)| + (if x.key == k && l in x.chain then 1 else 0)
  {
    var here := x.key == k && l in x.chain;
    assert Inside(ws[w := x], l, k) == Inside(ws, l, k) + (if here then {w} else {});
    assert w !in Inside(ws, l, k);
  }

  lemma InsideLess(ws: map<nat, Waiter>, w: nat, l: Link, k: Key)
    requires w in ws
    ensures |Inside(ws - {w}, l, k)| == |Inside(ws, l, k)| - (if ws[w].key == k && l in ws[w].chain then 1 else 0)
  {
    InsideMore(ws - {w}, w, ws[w], l, k);
    assert (ws - {w})[w := ws[w]] == ws;
  }

  lemma CountUp(t: Table, ws: map<nat, Waiter>, w: nat, x: Waiter)
    requires EdgesExact(t, ws) && w !in ws && Falling(x.chain)
    ensures EdgesExact(Edges(t, x.chain, x.key, true), ws[w := x])
  {
    var u := Edges(t, x.chain, x.key, true);
    EdgesPointwise(t, x.chain, x.key, true);
    forall c | c in u ensures EdgesExactOf(ws[w := x], c, u[c]) {
      assert EdgesExactOf(ws, c, t[c]);
      forall k
        ensures CountAt(u[c].waits, k) == |Inside(ws[w := x], Link(c, u[c].id), k)|
          && (k in u[c].waits ==> 0 < u[c].waits[k])
      {
        InsideMore(ws, w, x, Link(c, u[c].id), k);
      }
    }
  }

  /** An edge is only ever taken away by a waiter that holds it: its count is
      positive, and it is back to zero exactly when its last waiter leaves. */
  lemma CountDown(t: Table, ws: map<nat, Waiter>, w: nat)
    requires EdgesExact(t, ws) && w in ws && Falling(ws[w].chain)
    ensures EdgesExact(Edges(t, ws[w].chain, ws[w].key, false), ws - {w})
    ensures forall c | c in t && Link(c, t[c].id) in ws[w].chain :: 0 < CountAt(t[c].waits, ws[w].key)
  {
    var x := ws[w];
    var u := Edges(t, x.chain, x.key, false);
    EdgesPointwise(t, x.chain, x.key, false);
    forall c | c in u
      ensures EdgesExactOf(ws - {w}, c, u[c])
      ensures Link(c, t[c].id) in x.chain ==> 0 < CountAt(t[c].waits, x.key)
    {
      assert EdgesExactOf(ws, c, t[c]);
      if Link(c, t[c].id) in x.chain {
        assert w in Inside(ws, Link(c, t[c].id), x.key);
      }
      forall k
        ensures CountAt(u[c].waits, k) == |Inside(ws - {w}, Link(c, u[c].id), k)|
          && (k in u[c].waits ==> 0 < u[c].waits[k])
      {
        InsideLess(ws, w, Link(c, u[c].id), k);
      }
    }
  }

  // ---------------------------------------------------------- lead counts

  lemma LedElsewhere(t: Table, u: Table, m: nat)
    requires t.Keys == u.Keys && forall k | k in t :: t[k].owner == u[k].owner && t[k].depth == u[k].depth
    ensures forall vm :: Led(t, vm, m) == Led(u, vm, m)
  {
  }

  lemma EndedCounts(d: Desk, vm: nat, ks: set<Key>)
    requires LeadsExact(d) && ks <= Led(d.flights, vm, 0)
    ensures LeadsExact(EndedSome(d, vm, ks))
  {
    var t := d.flights;
    forall v
      ensures |Led(t - ks, v, 0)| == |Led(t, v, 0)| - (if v == vm then |ks| else 0)
      ensures |Led(t - ks, v, 1)| == |Led(t, v, 1)| - (if v == vm then |Nested(t, ks)| else 0)
    {
      if v == vm {
        assert Led(t - ks, v, 0) == Led(t, v, 0) - ks;
        assert Led(t - ks, v, 1) == Led(t, v, 1) - Nested(t, ks);
        assert Nested(t, ks) <= Led(t, v, 1);
      } else {
        assert Led(t - ks, v, 0) == Led(t, v, 0);
        assert Led(t - ks, v, 1) == Led(t, v, 1);
      }
    }
  }

  lemma RemovedIsEnded(d: Desk, key: Key)
    requires key in d.flights
    ensures Removed(d, key) == EndedSome(d, d.flights[key].owner, {key})
  {
    if d.flights[key].depth > 0 {
      assert Nested(d.flights, {key}) == {key};
    } else {
      assert Nested(d.flights, {key}) == {};
    }
  }

  lemma LedStarted(d: Desk, key: Key, vm: nat, v: nat, m: nat)
    requires key !in d.flights
    ensures
      var counts := v == vm && LeadsOf(d.vms, vm).depth >= m;
      |Led(Started(d, key, vm).flights, v, m)| == |Led(d.flights, v, m)| + (if counts then 1 else 0)
  {
    var counts := v == vm && LeadsOf(d.vms, vm).depth >= m;
    var before := Led(d.flights, v, m);
    assert key !in before;
    assert Led(Started(d, key, vm).flights, v, m) == before + (if counts then {key} else {});
  }

  lemma StartedCounts(d: Desk, key: Key, vm: nat)
    requires LeadsExact(d) && key !in d.flights
    ensures LeadsExact(Started(d, key, vm))
  {
    hide Led;
    forall v
      ensures LeadsOf(Started(d, key, vm).vms, v).all == |Led(Started(d, key, vm).flights, v, 0)|
      ensures LeadsOf(Started(d, key, vm).vms, v).nested == |Led(Started(d, key, vm).flights, v, 1)|
    {
      LedStarted(d, key, vm, v, 0);
      LedStarted(d, key, vm, v, 1);
    }
  }

  // ---------------------------------------------- flights leaving the table

  /** `g` is `f` after flights left: the table shrank, their channels were
      settled, and nothing else about chains or waiters changed. */
  ghost predicate Shrunk(f: Fetching, g: Fetching) {
    && g.desk.flights.Keys <= f.desk.flights.Keys
    && (forall k | k in g.desk.flights :: g.desk.flights[k] == f.desk.flights[k])
    && g.desk.nextFlight == f.desk.nextFlight
    && g.chains == f.chains && g.waiters == f.waiters && g.guards <= f.guards
  }

  lemma ShrinkingKeeps(f: Fetching, g: Fetching)
    requires Recorded(f) && Seated(f) && EdgesExact(f.desk.flights, f.waiters) && Acyclic(f.desk.flights)
    requires Shrunk(f, g)
    ensures Recorded(g) && Seated(g) && EdgesExact(g.desk.flights, g.waiters) && Acyclic(g.desk.flights)
  {
    FewerEdgesKeepAcyclic(f.desk.flights, g.desk.flights);
    forall c | c in g.desk.flights ensures EdgesExactOf(g.waiters, c, g.desk.flights[c]) {
      assert EdgesExactOf(f.waiters, c, f.desk.flights[c]);
    }
  }

  lemma HangingUpConnects(f: Fetching, g: Fetching)
    requires Recorded(f) && Connected(f) && Shrunk(f, g)
    requires g.chans == HungUp(f.chans, f.desk.flights, g.desk.flights)
    ensures Connected(g)
  {
    forall i | i in g.chains && g.chains[i] != []
      ensures g.chans[i].Open? <==> Holds(g.desk.flights, KeyOf(g.chains, i), i)
    {
      HungUpAt(f, g, i);
    }
  }

  lemma HungUpAt(f: Fetching, g: Fetching, i: nat)
    requires Recorded(f) && Connected(f) && Shrunk(f, g) && i in f.chains && f.chains[i] != []
    requires g.chans == HungUp(f.chans, f.desk.flights, g.desk.flights)
    ensures g.chans[i].Open? <==> Holds(g.desk.flights, KeyOf(f.chains, i), i)
  {
    var key := KeyOf(f.chains, i);
    hide GoodChain;
    if Holds(f.desk.flights, key, i) && key !in g.desk.flights {
      assert f.desk.flights[key].id == i;
    }
  }

  lemma EndedShallow(f: Fetching, g: Fetching)
    requires Shallow(f) && Shrunk(f, g) && g.returning == f.returning
    requires forall vm :: LeadsOf(g.desk.vms, vm).depth == LeadsOf(f.desk.vms, vm).depth
    ensures Shallow(g)
  {
  }

  lemma EndedSomeShrinks(d: Desk, vm: nat, ks: set<Key>)
    ensures
      var e := EndedSome(d, vm, ks);
      && e.flights == d.flights - ks && e.nextFlight == d.nextFlight
      && forall v :: LeadsOf(e.vms, v).depth == LeadsOf(d.vms, v).depth
  {
    if ks == {} { assert d.flights - ks == d.flights; }
  }

  // --------------------------------------------------------------- the steps

  predicate Guarded(f: Fetching, id: nat) { id in f.guards && id in f.chains && f.chains[id] != [] }

  ghost predicate SettledOnly(f: Fetching, key: Key, id: nat, chans: map<nat, Chan>) {
    if Holds(f.desk.flights, key, id)
    then
      && id in chans && chans.Keys == f.chans.Keys && !chans[id].Open?
      && forall i | i in chans && i != id :: chans[i] == f.chans[i]
    else chans == f.chans
  }

  lemma TakenIsEnded(d: Desk, key: Key, id: nat)
    ensures
      var ks := if Holds(d.flights, key, id) then {key} else {};
      var vm := if Holds(d.flights, key, id) then d.flights[key].owner else 0;
      Taken(d, key, id) == EndedSome(d, vm, ks) && ks <= Led(d.flights, vm, 0)
  {
    if Holds(d.flights, key, id) { RemovedIsEnded(d, key); }
  }

  lemma TakingKeeps(f: Fetching, id: nat, chans: map<nat, Chan>)
    requires Inv(f) && Guarded(f, id) && SettledOnly(f, KeyOf(f.chains, id), id, chans)
    ensures Inv(f.(desk := Taken(f.desk, KeyOf(f.chains, id), id), guards := f.guards - {id}, chans := chans))
  {
    var key := KeyOf(f.chains, id);
    var g := f.(desk := Taken(f.desk, key, id), guards := f.guards - {id}, chans := chans);
    TakingConnects(f, id, chans);
    hide Recorded, Connected, Seated, EdgesExact, Acyclic, LeadsExact, Shallow, SettledOnly, Taken, Led, EndedSome;
    TakenIsEnded(f.desk, key, id);
    var ks := if Holds(f.desk.flights, key, id) then {key} else {};
    var vm := if Holds(f.desk.flights, key, id) then f.desk.flights[key].owner else 0;
    EndedSomeShrinks(f.desk, vm, ks);
    EndedCounts(f.desk, vm, ks);
    ShrinkingKeeps(f, g);
    EndedShallow(f, g);
  }

  lemma TakingConnects(f: Fetching, id: nat, chans: map<nat, Chan>)
    requires Recorded(f) && Connected(f) && Guarded(f, id) && SettledOnly(f, KeyOf(f.chains, id), id, chans)
    ensures Connected(f.(desk := Taken(f.desk, KeyOf(f.chains, id), id), guards := f.guards - {id}, chans := chans))
  {
    var key := KeyOf(f.chains, id);
    var d := Taken(f.desk, key, id);
    assert d.flights == if Holds(f.desk.flights, key, id) then f.desk.flights - {key} else f.desk.flights;
    hide Taken;
    forall i | i in f.chains && f.chains[i] != []
      ensures chans[i].Open? <==> Holds(d.flights, KeyOf(f.chains, i), i)
    {
      assert GoodChain(f.chains, i) && GoodChain(f.chains, id);
    }
  }

  lemma FinishChans(f: Fetching, key: Key, id: nat, shared: Shared)
    requires Connected(f) && Guarded(f, id)
    ensures SettledOnly(f, key, id, Finished(f, key, id, shared).chans)
  {
    assert id in f.chans;
    hide Connected, Taken;
  }

  lemma FinishKeeps(f: Fetching, id: nat, shared: Shared)
    requires Inv(f) && Guarded(f, id)
    ensures Inv(Finished(f, KeyOf(f.chains, id), id, shared))
  {
    FinishChans(f, KeyOf(f.chains, id), id, shared);
    hide Inv, SettledOnly, Taken;
    TakingKeeps(f, id, Finished(f, KeyOf(f.chains, id), id, shared).chans);
  }

  lemma DropChans(f: Fetching, id: nat)
    requires Recorded(f) && Connected(f) && Guarded(f, id)
    ensures SettledOnly(f, KeyOf(f.chains, id), id, Dropped(f, KeyOf(f.chains, id), id).chans)
  {
    var key := KeyOf(f.chains, id);
    var t := f.desk.flights;
    var u := Taken(f.desk, key, id).flights;
    assert u == if Holds(t, key, id) then t - {key} else t;
    if Holds(t, key, id) {
      assert key in t && t[key].id == id && key !in u;
    }
  }

  lemma DropGuardKeeps(f: Fetching, id: nat)
    requires Inv(f) && Guarded(f, id)
    ensures Inv(Dropped(f, KeyOf(f.chains, id), id))
  {
    DropChans(f, id);
    hide Inv;
    TakingKeeps(f, id, Dropped(f, KeyOf(f.chains, id), id).chans);
  }

  lemma StartKeeps(f: Fetching, key: Key, vm: nat, parent: Option<nat>)
    requires Inv(f) && key !in f.desk.flights && vm !in f.returning
    requires parent.Some? ==> parent.value in f.chains
    ensures Inv(Begun(f, Started(f.desk, key, vm), key, f.desk.nextFlight + 1, ChainOf(f, parent)))
  {
    var chain := ChainOf(f, parent);
    var d, id := Started(f.desk, key, vm), f.desk.nextFlight + 1;
    var g := Begun(f, d, key, id, chain);
    StartRecords(f, g, key, vm, parent);
    StartEdges(f, g, key, vm);
    StartShallow(f, g, key, vm);
    hide Recorded, Connected, Seated, EdgesExact, Acyclic, LeadsExact, Shallow;
    StartedCounts(f.desk, key, vm);
  }

  lemma StartShallow(f: Fetching, g: Fetching, key: Key, vm: nat)
    requires Shallow(f) && vm !in f.returning
    requires g.desk == Started(f.desk, key, vm) && g.returning == f.returning
    ensures Shallow(g)
  {
  }

  lemma StartEdges(f: Fetching, g: Fetching, key: Key, vm: nat)
    requires Recorded(f) && Seated(f) && EdgesExact(f.desk.flights, f.waiters) && Acyclic(f.desk.flights)
    requires key !in f.desk.flights && g.desk == Started(f.desk, key, vm) && g.waiters == f.waiters
    ensures EdgesExact(g.desk.flights, g.waiters) && Acyclic(g.desk.flights)
  {
    var t, u, id := f.desk.flights, g.desk.flights, f.desk.nextFlight + 1;
    FewerEdgesKeepAcyclic(t, u);
    forall c | c in u ensures EdgesExactOf(g.waiters, c, u[c]) {
      if c == key {
        forall k ensures Inside(g.waiters, Link(c, id), k) == {} {
          forall x | x in g.waiters ensures Link(c, id) !in g.waiters[x].chain {
            ChainOfWaiter(f, x);
          }
        }
      } else {
        assert EdgesExactOf(f.waiters, c, t[c]);
      }
    }
  }

  /** Every link of a waiter's chain is a flight that was started. */
  lemma ChainOfWaiter(f: Fetching, x: nat)
    requires Recorded(f) && Seated(f) && x in f.waiters
    ensures Falling(f.waiters[x].chain)
    ensures forall l | l in f.waiters[x].chain :: l.id in f.chains && l.id <= f.desk.nextFlight
  {
    var chain := f.waiters[x].chain;
    assert GoodWaiter(f.chains, f.waiters[x]);
    if chain != [] { assert GoodChain(f.chains, chain[0].id); }
  }

  lemma ChainOfParent(f: Fetching, parent: Option<nat>)
    requires Recorded(f) && (parent.Some? ==> parent.value in f.chains)
    ensures Falling(ChainOf(f, parent))
    ensures forall l | l in ChainOf(f, parent) ::
      l.id in f.chains && f.chains[l.id] != [] && f.chains[l.id][0] == l && l.id <= f.desk.nextFlight
  {
    if parent.Some? { assert GoodChain(f.chains, parent.value); }
  }

  lemma StartRecords(f: Fetching, g: Fetching, key: Key, vm: nat, parent: Option<nat>)
    requires Recorded(f) && Connected(f) && Seated(f) && key !in f.desk.flights
    requires parent.Some? ==> parent.value in f.chains
    requires g == Begun(f, Started(f.desk, key, vm), key, f.desk.nextFlight + 1, ChainOf(f, parent))
    ensures Recorded(g) && Connected(g) && Seated(g)
  {
    hide GoodChain, Recorded, Connected, Seated, ChainOf;
    GrownChain(f, g.chains, key, parent);
    assert f.desk.nextFlight + 1 !in f.chains by { ChainNumbers(f); }
    StartSeats(f, g);
    StartConnects(f, g, key, vm);
    StartTable(f, g, key, vm);
  }

  lemma ChainNumbers(f: Fetching)
    requires Recorded(f)
    ensures forall i :: i in f.chains <==> 1 <= i <= f.desk.nextFlight
  {
  }

  lemma StartTable(f: Fetching, g: Fetching, key: Key, vm: nat)
    requires Recorded(f) && key !in f.desk.flights
    requires g.desk == Started(f.desk, key, vm) && g.guards == f.guards + {f.desk.nextFlight + 1}
    requires g.chains.Keys == f.chains.Keys + {f.desk.nextFlight + 1} && Extends(f.chains, g.chains)
    requires forall i | i in g.chains :: GoodChain(g.chains, i)
    requires g.chains[f.desk.nextFlight + 1] != [] && g.chains[f.desk.nextFlight + 1][0].key == key
    ensures Recorded(g)
  {
    hide GoodChain;
  }

  /** Chains already recorded are kept. */
  ghost predicate Extends(before: map<nat, seq<Link>>, after: map<nat, seq<Link>>) {
    forall i | i in before :: i in after && after[i] == before[i]
  }

  lemma StartSeats(f: Fetching, g: Fetching)
    requires Seated(f) && g.waiters == f.waiters && Extends(f.chains, g.chains)
    ensures Seated(g)
  {
    forall x | x in g.waiters ensures GoodWaiter(g.chains, g.waiters[x]) {
      assert GoodWaiter(f.chains, f.waiters[x]);
    }
  }

  lemma StartConnects(f: Fetching, g: Fetching, key: Key, vm: nat)
    requires Recorded(f) && Connected(f) && key !in f.desk.flights
    requires g.desk == Started(f.desk, key, vm) && g.chans == f.chans[f.desk.nextFlight + 1 := Open]
    requires g.chains.Keys == f.chains.Keys + {f.desk.nextFlight + 1} && Extends(f.chains, g.chains)
    requires g.chains[f.desk.nextFlight + 1] != [] && g.chains[f.desk.nextFlight + 1][0].key == key
    ensures Connected(g)
  {
    hide GoodChain;
  }

  lemma GrownChain(f: Fetching, chains: map<nat, seq<Link>>, key: Key, parent: Option<nat>)
    requires Recorded(f) && (parent.Some? ==> parent.value in f.chains)
    requires
      var id := f.desk.nextFlight + 1;
      chains == f.chains[id := [Link(key, id)] + ChainOf(f, parent)]
    ensures forall i | i in chains :: GoodChain(chains, i)
  {
    var id := f.desk.nextFlight + 1;
    ChainOfParent(f, parent);
    var chain := ChainOf(f, parent);
    assert id !in f.chains;
    forall i | i in chains ensures GoodChain(chains, i) {
      if i == id {
        assert chains[id] == [Link(key, id)] + chain;
        NewChainGood(f.chains, chains, key, id, chain);
      } else {
        OldChainGood(f.chains, chains, i);
      }
    }
  }

  lemma NewChainGood(before: map<nat, seq<Link>>, after: map<nat, seq<Link>>, key: Key, id: nat, chain: seq<Link>)
    requires Extends(before, after) && id in after && after[id] == [Link(key, id)] + chain && Falling(chain)
    requires forall l | l in chain :: l.id in before && before[l.id] != [] && before[l.id][0] == l && l.id < id
    ensures GoodChain(after, id)
  {
    forall j | 0 <= j < |chain| ensures chain[j].id < id { assert chain[j] in chain; }
  }

  lemma OldChainGood(before: map<nat, seq<Link>>, after: map<nat, seq<Link>>, i: nat)
    requires Extends(before, after) && i in before && GoodChain(before, i)
    ensures GoodChain(after, i)
  {
  }

  lemma WaitKeeps(f: Fetching, key: Key, parent: Option<nat>, w: nat)
    requires Inv(f) && key in f.desk.flights && w !in f.waiters
    requires parent.Some? ==> parent.value in f.chains
    requires ChainOf(f, parent) == [] || !WouldDeadlock(f.desk.flights, key, ChainOf(f, parent))
    ensures
      var chain := ChainOf(f, parent);
      var x := Waiter(key, f.desk.flights[key].id, chain);
      Inv(f.(desk := f.desk.(flights := Edges(f.desk.flights, chain, key, true)), waiters := f.waiters[w := x]))
  {
    var chain := ChainOf(f, parent);
    var t, u := f.desk.flights, Edges(f.desk.flights, chain, key, true);
    var x := Waiter(key, t[key].id, chain);
    var g := f.(desk := f.desk.(flights := u), waiters := f.waiters[w := x]);
    SeatOneMore(f, parent, key, w);
    hide Recorded, Connected, Seated, EdgesExact, Acyclic, LeadsExact, Shallow, Edges, ChainOf, WouldDeadlock;
    ChainOfParent(f, parent);
    EdgesPointwise(t, chain, key, true);
    CountUp(t, f.waiters, w, x);
    if chain == [] {
      AcyclicWithoutChain(t, key, true);
    } else {
      WaitingStaysAcyclic(t, key, chain);
    }
    SteadyKeeps(f, g, chain, key, true);
  }

  lemma AcyclicWithoutChain(t: Table, key: Key, up: bool)
    ensures Edges(t, [], key, up) == t
  {
  }

  lemma SeatOneMore(f: Fetching, parent: Option<nat>, key: Key, w: nat)
    requires Recorded(f) && Seated(f) && key in f.desk.flights && w !in f.waiters
    ensures
      var x := Waiter(key, f.desk.flights[key].id, ChainOf(f, parent));
      forall g: Fetching | g.chains == f.chains && g.waiters == f.waiters[w := x] :: Seated(g)
  {
    var chain := ChainOf(f, parent);
    if chain != [] { assert GoodChain(f.chains, parent.value); }
  }

  /** A wait the search allowed closes no cycle. */
  lemma WaitingStaysAcyclic(t: Table, key: Key, chain: seq<Link>)
    requires Acyclic(t) && Falling(chain) && !WouldDeadlock(t, key, chain)
    ensures Acyclic(Edges(t, chain, key, true))
  {
    hide Acyclic, Reaches, Edges, Edge;
    var u := Edges(t, chain, key, true);
    EdgesPointwise(t, chain, key, true);
    var sources := set l | l in chain :: l.key;
    forall c | c in sources ensures !Reaches(t, key, c) {
      var l :| l in chain && l.key == c;
      var i :| 0 <= i < |chain| && chain[i] == l;
      assert Named(chain, c);
    }
    forall a, b | Edge(u, a, b) ensures Edge(t, a, b) || (a in sources && b == key) {
      EdgesFor(t, chain, key, true, a, b);
      if !Edge(t, a, b) { assert Link(a, t[a].id).key in sources; }
    }
    AddingKeepsAcyclic(t, u, key, sources);
  }

  /** Only wait counts moved: what does not mention them is kept. */
  lemma SteadyKeeps(f: Fetching, g: Fetching, chain: seq<Link>, key: Key, up: bool)
    requires Recorded(f) && Connected(f) && Shallow(f) && LeadsExact(f.desk)
    requires SameBut(f.desk.flights, g.desk.flights, chain, key, up)
    requires g.desk == f.desk.(flights := g.desk.flights)
    requires g == f.(desk := g.desk, waiters := g.waiters)
    ensures Recorded(g) && Connected(g) && Shallow(g) && LeadsExact(g.desk)
  {
    SteadyTable(f.desk.flights, g.desk.flights, chain, key, up);
    hide SameBut;
    SteadyLeads(f.desk, g.desk);
    hide LeadsExact;
    SteadyShallow(f, g);
    hide Shallow, GoodChain;
  }

  ghost predicate Alike(t: Table, u: Table) {
    && t.Keys == u.Keys
    && forall k | k in t :: t[k].id == u[k].id && t[k].owner == u[k].owner && t[k].depth == u[k].depth
  }

  lemma SteadyTable(t: Table, u: Table, chain: seq<Link>, key: Key, up: bool)
    requires SameBut(t, u, chain, key, up)
    ensures Alike(t, u)
  {
  }

  lemma SteadyLeads(d: Desk, e: Desk)
    requires LeadsExact(d) && Alike(d.flights, e.flights) && e.vms == d.vms
    ensures LeadsExact(e)
  {
    LedElsewhere(d.flights, e.flights, 0);
    LedElsewhere(d.flights, e.flights, 1);
  }

  lemma SteadyShallow(f: Fetching, g: Fetching)
    requires Shallow(f) && Alike(f.desk.flights, g.desk.flights)
    requires g.desk.vms == f.desk.vms && g.returning == f.returning
    ensures Shallow(g)
  {
  }

  lemma StopWaitingKeeps(f: Fetching, w: nat)
    requires Inv(f) && w in f.waiters
    ensures Inv(Stopped(f, w))
  {
    var g := Stopped(f, w);
    var chain, key := f.waiters[w].chain, f.waiters[w].key;
    var t, u := f.desk.flights, g.desk.flights;
    assert u == Edges(t, chain, key, false);
    assert Seated(g);
    hide Recorded, Connected, Seated, EdgesExact, Acyclic, LeadsExact, Shallow, Edges, Edge;
    ChainOfWaiter(f, w);
    EdgesPointwise(t, chain, key, false);
    CountDown(t, f.waiters, w);
    forall a, b | Edge(u, a, b) ensures Edge(t, a, b) {
      EdgesFor(t, chain, key, false, a, b);
    }
    FewerEdgesKeepAcyclic(t, u);
    SteadyKeeps(f, g, chain, key, false);
  }

  /** Only a VM's resume depth moved. */
  lemma DepthKeeps(f: Fetching, vm: nat, depth: nat, returning: map<nat, nat>)
    requires Inv(f)
    requires
      var g := f.(desk := WithDepth(f.desk, vm, depth), returning := returning);
      Shallow(g)
    ensures Inv(f.(desk := WithDepth(f.desk, vm, depth), returning := returning))
  {
    var g := f.(desk := WithDepth(f.desk, vm, depth), returning := returning);
    assert g.desk.flights == f.desk.flights && LeadsExact(g.desk);
    hide LeadsExact, Shallow, EdgesExact, Acyclic;
  }

  lemma EnterKeeps(f: Fetching, vm: nat)
    requires Inv(f) && vm !in f.returning
    ensures Inv(Entered(f, vm))
  {
    hide Recorded, Connected, Seated, EdgesExact, Acyclic, LeadsExact;
    DepthKeeps(f, vm, LeadsOf(f.desk.vms, vm).depth + 1, f.returning);
  }

  lemma LeaveKeeps(f: Fetching, vm: nat)
    requires Inv(f) && vm !in f.returning && 0 < LeadsOf(f.desk.vms, vm).depth
    ensures Inv(Left(f, vm))
  {
    hide Recorded, Connected, Seated, EdgesExact, Acyclic, LeadsExact;
    var depth := LeadsOf(f.desk.vms, vm).depth;
    DepthKeeps(f, vm, depth - 1, f.returning[vm := depth]);
  }

  lemma EndingKeeps(f: Fetching, vm: nat, minDepth: nat)
    requires Inv(f)
    ensures
      var d := Ended(f.desk, vm, minDepth);
      var g := f.(desk := d, chans := HungUp(f.chans, f.desk.flights, d.flights));
      Inv(g) && d.flights == f.desk.flights - Led(f.desk.flights, vm, minDepth)
      && forall v :: LeadsOf(d.vms, v).depth == LeadsOf(f.desk.vms, v).depth
  {
    var ks := Led(f.desk.flights, vm, minDepth);
    var d := Ended(f.desk, vm, minDepth);
    var g := f.(desk := d, chans := HungUp(f.chans, f.desk.flights, d.flights));
    assert ks <= Led(f.desk.flights, vm, 0);
    hide Recorded, Connected, Seated, EdgesExact, Acyclic, LeadsExact, Shallow, Led, EndedSome, HungUp;
    EndedSomeShrinks(f.desk, vm, ks);
    EndedCounts(f.desk, vm, ks);
    ShrinkingKeeps(f, g);
    HangingUpConnects(f, g);
    EndedShallow(f, g);
  }

  lemma SweepKeeps(f: Fetching, vm: nat)
    requires Inv(f) && vm in f.returning
    ensures Inv(Swept(f, vm))
  {
    hide Recorded, Connected, Seated, EdgesExact, Acyclic, LeadsExact, Ended, AfterResume, HungUp;
    var depth := f.returning[vm];
    SweepIsExact(f.desk, vm, depth);
    EndingKeeps(f, vm, depth);
    var d := Ended(f.desk, vm, depth);
    var mid := f.(desk := d, chans := HungUp(f.chans, f.desk.flights, d.flights));
    var g := Swept(f, vm);
    assert g == mid.(returning := f.returning - {vm});
    forall k | k in d.flights && d.flights[k].owner == vm ensures d.flights[k].depth < depth {
      assert k !in Led(f.desk.flights, vm, depth);
    }
    assert Shallow(g);
    ReturningIsApart(mid, g);
  }

  lemma ReturningIsApart(f: Fetching, g: Fetching)
    requires Inv(f) && Shallow(g) && g == f.(returning := g.returning)
    ensures Inv(g)
  {
    hide Shallow, EdgesExact, Acyclic, LeadsExact;
  }

  lemma EndRunKeeps(f: Fetching, vm: nat)
    requires Inv(f) && vm !in f.returning
    ensures Inv(RunOver(f, vm))
  {
    hide Recorded, Connected, Seated, EdgesExact, Acyclic, LeadsExact, Ended, RunEnded, HungUp;
    EndRunIsExact(f.desk, vm);
    EndingKeeps(f, vm, 0);
    var d := Ended(f.desk, vm, 0);
    var mid := f.(desk := d, chans := HungUp(f.chans, f.desk.flights, d.flights));
    var g := RunOver(f, vm);
    forall k | k in d.flights ensures d.flights[k].owner != vm {
      assert k !in Led(f.desk.flights, vm, 0);
    }
    assert g.desk == WithDepth(d, vm, 0) && g.desk.flights == d.flights;
    assert g == mid.(desk := WithDepth(mid.desk, vm, 0), returning := mid.returning);
    DepthKeeps(mid, vm, 0, mid.returning);
  }

  lemma JoinKeeps(f: Fetching, key: Key, vm: nat, parent: Option<nat>, w: nat)
    requires Inv(f) && Enabled(f, Join(key, vm, parent, w))
    ensures Inv(AfterJoin(f, key, vm, ChainOf(f, parent), w))
  {
    hide Inv, ChainOf, Edges, Started, WouldDeadlock;
    var chain := ChainOf(f, parent);
    if key !in f.desk.flights {
      StartKeeps(f, key, vm, parent);
    } else if chain == [] || !WouldDeadlock(f.desk.flights, key, chain) {
      AcyclicWithoutChain(f.desk.flights, key, true);
      WaitKeeps(f, key, parent, w);
    }
  }

  /** Every step of every party keeps the invariant. */
  lemma StepKeepsInv(f: Fetching, s: Step)
    requires Inv(f) && Enabled(f, s)
    ensures Inv(Next(f, s))
  {
    hide Inv, AfterJoin, Finished, Dropped, Stopped, Entered, Left, Swept, RunOver;
    match s
    case Join(key, vm, parent, w) => JoinKeeps(f, key, vm, parent, w);
    case Finish(id, shared) => FinishKeeps(f, id, shared);
    case DropGuard(id) => DropGuardKeeps(f, id);
    case StopWaiting(w) => StopWaitingKeeps(f, w);
    case EnterResume(vm) => EnterKeeps(f, vm);
    case LeaveResume(vm) => LeaveKeeps(f, vm);
    case SweepResume(vm) => SweepKeeps(f, vm);
    case EndRun(vm) => EndRunKeeps(f, vm);
  }

  // --------------------------------------------------- exact VM clean-up

  /** Skipping the scan when nothing is nested removes what a scan would. */
  lemma SweepIsExact(d: Desk, vm: nat, depth: nat)
    requires LeadsExact(d) && 0 < depth
    ensures AfterResume(d, vm, depth) == Ended(d, vm, depth)
  {
    assert Led(d.flights, vm, depth) <= Led(d.flights, vm, 1);
  }

  /** Skipping the scan when the VM leads nothing removes what a scan would, and
      no flight the VM leads outlives its run. */
  lemma EndRunIsExact(d: Desk, vm: nat)
    requires LeadsExact(d)
    ensures RunEnded(d, vm) == WithDepth(Ended(d, vm, 0), vm, 0)
    ensures Led(RunEnded(d, vm).flights, vm, 0) == {}
  {
    EndedSomeShrinks(d, vm, Led(d.flights, vm, 0));
  }
}
