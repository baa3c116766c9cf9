/** What each step of the fetch protocol does, read off the table, the channels and the
    waiters themselves: who leads, who waits, who loads inline, and what is left when a
    flight, a waiter, a resume or a run ends. */
module FetchSteps {
  import opened Prelude
  import opened StateSpec
  import opened WaitGraph
  import opened FlightDesk
  import opened FetchProtocol
  import opened FetchLaws
  import opened FetchTheorems

  // ----------------------------------------------------- the protocol, step by step

  /** The loaders a caller sits in: the flight whose loader it is in, and those that
      flight was started in. */
  function ChainAt(f: Fetching, parent: Option<nat>): seq<Link>
    requires parent.Some? ==> parent.value in f.chains
  {
    match parent case None => [] case Some(id) => f.chains[id]
  }

  /** `g` is `f` with a new flight of `key`, its channel open, led from inside `chain`. */
  ghost predicate LeadsNew(f: Fetching, key: Key, vm: nat, chain: seq<Link>, g: Fetching) {
    var id := f.desk.nextFlight + 1;
    && id !in f.chans
    && g.desk.flights == f.desk.flights[key := Flight(id, map[], vm, DepthIn(f.desk.vms, vm))]
    && g.chans == f.chans[id := Open] && g.chains == f.chains[id := [Link(key, id)] + chain]
    && g.guards == f.guards + {id} && g.waiters == f.waiters && g.returning == f.returning
  }

  /** `g` is `f` with `w` waiting on the flight of `key` that is in the table. */
  ghost predicate WaitsOn(f: Fetching, key: Key, chain: seq<Link>, w: nat, g: Fetching) {
    && key in f.desk.flights
    && g.waiters == f.waiters[w := Waiter(key, f.desk.flights[key].id, chain)]
    && SameFlights(f.desk.flights, g.desk.flights) && CountsMoved(f.desk.flights, g.desk.flights, chain, key, true)
    && g.chans == f.chans && g.chains == f.chains && g.guards == f.guards && g.returning == f.returning
  }

  /** At every point of every run, a caller that joins leads a new flight iff its key
      is not in the table; waits on exactly the flight in the table, inside its chain,
      iff there is one and no key of the chain is reachable from it (so always, outside
      any loader); and changes nothing, loading inline, iff one is. */
  lemma JoinMeans(fs: seq<Fetching>, steps: seq<Step>, n: nat, key: Key, vm: nat, parent: Option<nat>, w: nat)
    requires IsRun(fs, steps) && n < |fs|
    requires vm !in fs[n].returning && w !in fs[n].waiters && (parent.Some? ==> parent.value in fs[n].chains)
    ensures Enabled(fs[n], Join(key, vm, parent, w))
    ensures
      var f, g, chain := fs[n], Next(fs[n], Join(key, vm, parent, w)), ChainAt(fs[n], parent);
      && (LeadsNew(f, key, vm, chain, g) <==> key !in f.desk.flights)
      && (WaitsOn(f, key, chain, w, g) <==> key in f.desk.flights && !Cornered(f.desk.flights, key, chain))
      && (g == f <==> key in f.desk.flights && Cornered(f.desk.flights, key, chain))
      && (parent.None? && key in f.desk.flights ==> WaitsOn(f, key, [], w, g))
  {
    hide IsRun;
    RunKeepsInv(fs, steps, n);
    var f, chain := fs[n], ChainAt(fs[n], parent);
    assert f.desk.nextFlight + 1 !in f.chans;
    hide Inv, CountsMoved, Cornered, JoinMiss;
    JoinMissMeans(f.desk, key, vm, chain);
    assert ChainOf(f, parent) == chain;
    if key in f.desk.flights && chain == [] { NotCornered(f.desk.flights, key); }
    JoinUnfolds(f, key, vm, chain, w);
  }

  lemma NotCornered(t: Table, key: Key)
    ensures !Cornered(t, key, [])
  {
  }

  lemma JoinUnfolds(f: Fetching, key: Key, vm: nat, chain: seq<Link>, w: nat)
    ensures
      var (d, j) := JoinMiss(f.desk, key, vm, chain);
      AfterJoin(f, key, vm, chain, w) == match j
        case Lead(id) => Begun(f, d, key, id, chain)
        case Wait(id, _) => f.(desk := d, waiters := f.waiters[w := Waiter(key, id, chain)])
        case Inline => f
  {
    hide JoinMiss;
  }

  /** Flights left the table, and their channels closed; nothing else moved. */
  ghost predicate Gone(f: Fetching, g: Fetching, left: set<Key>) {
    && g.desk.flights == f.desk.flights - left
    && g.waiters == f.waiters && g.chains == f.chains && g.guards == f.guards && g.chans.Keys == f.chans.Keys
    && forall i | i in f.chans ::
         g.chans[i] == if exists k | k in left && k in f.desk.flights :: f.desk.flights[k].id == i
                       then Closed else f.chans[i]
  }

  /** The keys of the flights `vm` started at resume depth `depth` or deeper. */
  function StartedAt(t: Table, vm: nat, depth: nat): set<Key> {
    set k | k in t && t[k].owner == vm && depth <= t[k].depth
  }

  /** What the steps other than joining do. */
  ghost predicate Does(f: Fetching, s: Step, g: Fetching) {
    match s
    case Join(_, _, _, _) => true
    case Finish(id, shared) => id in f.chains && f.chains[id] != [] &&
      var key := f.chains[id][0].key;
      var here := key in f.desk.flights && f.desk.flights[key].id == id;
      && g.desk.flights == (if here then f.desk.flights - {key} else f.desk.flights)
      && g.chans == (if here then f.chans[id := Sent(shared)] else f.chans)
      && g.waiters == f.waiters && g.chains == f.chains && g.guards == f.guards - {id}
    case DropGuard(id) => id in f.chains && f.chains[id] != [] &&
      var key := f.chains[id][0].key;
      var here := key in f.desk.flights && f.desk.flights[key].id == id;
      && g.desk.flights == (if here then f.desk.flights - {key} else f.desk.flights)
      && g.chans == (if here then f.chans[id := Closed] else f.chans)
      && g.waiters == f.waiters && g.chains == f.chains && g.guards == f.guards - {id}
    case StopWaiting(w) => w in f.waiters
      && g.waiters == f.waiters - {w} && g.chans == f.chans && g.chains == f.chains && g.guards == f.guards
      && SameFlights(f.desk.flights, g.desk.flights)
      && CountsMoved(f.desk.flights, g.desk.flights, f.waiters[w].chain, f.waiters[w].key, false)
    case EnterResume(vm) => Deepened(f, g, vm, DepthIn(f.desk.vms, vm) + 1) && g.returning == f.returning
    case LeaveResume(vm) =>
      && Deepened(f, g, vm, DepthIn(f.desk.vms, vm) - 1)
      && g.returning == f.returning[vm := DepthIn(f.desk.vms, vm)]
    case SweepResume(vm) => vm in f.returning
      && Gone(f, g, StartedAt(f.desk.flights, vm, f.returning[vm])) && g.returning == f.returning - {vm}
      && forall v :: DepthIn(g.desk.vms, v) == DepthIn(f.desk.vms, v)
    case EndRun(vm) =>
      && Gone(f, g, StartedAt(f.desk.flights, vm, 0)) && g.returning == f.returning
      && forall v :: DepthIn(g.desk.vms, v) == if v == vm then 0 else DepthIn(f.desk.vms, v)
  }

  /** Only the resume depth of `vm` moved. */
  ghost predicate Deepened(f: Fetching, g: Fetching, vm: nat, depth: int) {
    && g.desk.flights == f.desk.flights && g.waiters == f.waiters && g.chans == f.chans && g.chains == f.chains
    && g.guards == f.guards
    && forall v :: DepthIn(g.desk.vms, v) == if v == vm then depth else DepthIn(f.desk.vms, v)
  }

  lemma FinishMeans(f: Fetching, id: nat, shared: Shared)
    requires Inv(f) && Guarded(f, id)
    ensures Does(f, Finish(id, shared), Finished(f, KeyOf(f.chains, id), id, shared))
  {
    hide Inv;
  }

  lemma DropMeans(f: Fetching, id: nat)
    requires Inv(f) && Guarded(f, id)
    ensures Does(f, DropGuard(id), Dropped(f, KeyOf(f.chains, id), id))
  {
    var key := KeyOf(f.chains, id);
    var t := f.desk.flights;
    var here := Holds(t, key, id);
    assert Recorded(f) && Connected(f);
    var u := Taken(f.desk, key, id).flights;
    assert u == if here then t - {key} else t;
    hide Inv, Recorded, Connected, Taken;
    var chans := HungUp(f.chans, t, u);
    if here {
      OpenInTable(f, key);
      DropCloses(f.chans, t, key, id);
      assert chans == f.chans[id := Closed];
    } else {
      HangUpNothing(f);
    }
    hide HungUp;
  }

  lemma DropCloses(chans: map<nat, Chan>, t: Table, key: Key, id: nat)
    requires key in t && t[key].id == id && id in chans && chans[id].Open?
    ensures HungUp(chans, t, t - {key}) == chans[id := Closed]
  {
    var u := t - {key};
    assert key in t && t[key].id == id && key !in u;
    assert forall k | k in t && k !in u :: k == key;
  }

  lemma OpenInTable(f: Fetching, key: Key)
    requires Recorded(f) && Connected(f) && key in f.desk.flights
    ensures f.desk.flights[key].id in f.chans && f.chans[f.desk.flights[key].id].Open?
  {
    var id := f.desk.flights[key].id;
    assert GoodChain(f.chains, id);
    assert Holds(f.desk.flights, KeyOf(f.chains, id), id);
  }

  /** Channels of flights in the table are open, so those of the flights that left
      close. */
  lemma HungUpMeans(f: Fetching, g: Fetching, left: set<Key>)
    requires Recorded(f) && Connected(f) && left <= f.desk.flights.Keys
    requires g.desk.flights == f.desk.flights - left && g.chans == HungUp(f.chans, f.desk.flights, g.desk.flights)
    requires g.waiters == f.waiters && g.chains == f.chains && g.guards == f.guards
    ensures Gone(f, g, left)
  {
    hide Recorded, Connected;
    forall i | i in f.chans
      ensures g.chans[i] == if exists k | k in left && k in f.desk.flights :: f.desk.flights[k].id == i
                            then Closed else f.chans[i]
    {
      if k :| k in left && k in f.desk.flights && f.desk.flights[k].id == i {
        assert k in f.desk.flights && k !in g.desk.flights;
        OpenInTable(f, k);
      }
    }
  }

  lemma SweepMeans(f: Fetching, vm: nat)
    requires Inv(f) && vm in f.returning
    ensures Does(f, SweepResume(vm), Swept(f, vm))
  {
    var depth := f.returning[vm];
    assert 0 < depth;
    SweepIsExact(f.desk, vm, depth);
    var left := Led(f.desk.flights, vm, depth);
    assert left == StartedAt(f.desk.flights, vm, depth);
    EndedSomeShrinks(f.desk, vm, left);
    var g := Swept(f, vm);
    assert g.desk == EndedSome(f.desk, vm, left);
    assert Recorded(f) && Connected(f);
    hide Inv, HungUp, EndedSome, Ended, AfterResume, Led, StartedAt, Gone, Recorded, Connected;
    HungUpMeans(f, g, left);
  }

  lemma EndRunMeans(f: Fetching, vm: nat)
    requires Inv(f) && vm !in f.returning
    ensures Does(f, EndRun(vm), RunOver(f, vm))
  {
    EndRunIsExact(f.desk, vm);
    var left := Led(f.desk.flights, vm, 0);
    assert left == StartedAt(f.desk.flights, vm, 0);
    EndedSomeShrinks(f.desk, vm, left);
    var g := RunOver(f, vm);
    assert g.desk == WithDepth(EndedSome(f.desk, vm, left), vm, 0);
    assert Recorded(f) && Connected(f);
    hide Inv, HungUp, EndedSome, Ended, RunEnded, Led, StartedAt, Gone, Recorded, Connected;
    HungUpMeans(f, g, left);
  }

  lemma StopMeans(f: Fetching, w: nat)
    requires w in f.waiters
    ensures Does(f, StopWaiting(w), Stopped(f, w))
  {
    EdgesMean(f.desk.flights, f.waiters[w].chain, f.waiters[w].key, false);
    hide Edges, CountsMoved;
  }

  lemma ResumeMeans(f: Fetching, vm: nat)
    ensures Does(f, EnterResume(vm), Entered(f, vm))
    ensures 0 < LeadsOf(f.desk.vms, vm).depth ==> Does(f, LeaveResume(vm), Left(f, vm))
  {
  }

  /** At every point of every run, each step does exactly this. */
  lemma StepMeans(fs: seq<Fetching>, steps: seq<Step>, n: nat, s: Step)
    requires IsRun(fs, steps) && n < |fs| && Enabled(fs[n], s) && !s.Join?
    ensures Does(fs[n], s, Next(fs[n], s))
  {
    hide IsRun;
    RunKeepsInv(fs, steps, n);
    var f := fs[n];
    hide Inv, Does, Finished, Dropped, Stopped, Entered, Left, Swept, RunOver, AfterJoin;
    match s
    case Finish(id, shared) => FinishMeans(f, id, shared);
    case DropGuard(id) => DropMeans(f, id);
    case StopWaiting(w) => StopMeans(f, w);
    case EnterResume(vm) => ResumeMeans(f, vm);
    case LeaveResume(vm) => ResumeMeans(f, vm);
    case SweepResume(vm) => SweepMeans(f, vm);
    case EndRun(vm) => EndRunMeans(f, vm);
  }
}
