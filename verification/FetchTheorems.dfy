/** What the invariant of the fetch protocol means for its callers, over every run. */
module FetchTheorems {
  import opened StateSpec
  import opened WaitGraph
  import opened FlightDesk
  import opened FetchProtocol
  import opened FetchLaws

  ghost predicate IsRun(fs: seq<Fetching>, steps: seq<Step>) {
    && |fs| == |steps| + 1 && fs[0] == QUIET
    && forall i | 0 <= i < |steps| :: Enabled(fs[i], steps[i]) && fs[i + 1] == Next(fs[i], steps[i])
  }

  lemma {:induction false} RunKeepsInv(fs: seq<Fetching>, steps: seq<Step>, n: nat)
    requires IsRun(fs, steps) && n < |fs|
    ensures Inv(fs[n])
  {
    hide Inv, Enabled, Next;
    if n == 0 {
      QuietInv();
    } else {
      RunKeepsInv(fs, steps, n - 1);
      StepKeepsInv(fs[n - 1], steps[n - 1]);
    }
  }

  /** Caller `w` sits inside the loader of the flight now in the table for `c`. */
  predicate SitsIn(f: Fetching, w: nat, c: Key) {
    w in f.waiters && c in f.desk.flights && Link(c, f.desk.flights[c].id) in f.waiters[w].chain
  }

  predicate Stuck(f: Fetching, w: nat) { w in f.waiters && f.waiters[w].key in f.desk.flights }

  /** At every point of every run the wait graph is acyclic, and if any flight is
      in the table, some flight has no caller inside its loader that waits on a
      flight in the table: its loader can finish. */
  lemma DeadlockFree(fs: seq<Fetching>, steps: seq<Step>, n: nat)
    requires IsRun(fs, steps) && n < |fs|
    ensures Acyclic(fs[n].desk.flights)
    ensures fs[n].desk.flights != map[] ==>
      exists c | c in fs[n].desk.flights :: forall w :: SitsIn(fs[n], w, c) ==> !Stuck(fs[n], w)
  {
    hide IsRun;
    RunKeepsInv(fs, steps, n);
    var f := fs[n];
    var t := f.desk.flights;
    if t != map[] {
      SomeFlightIsIdle(t);
      var c :| c in t && Idle(t, c);
      forall w | SitsIn(f, w, c) ensures !Stuck(f, w) {
        EdgeOfWaiter(f, w, c);
      }
    }
  }

  /** A waiter inside a loader is an edge from that loader's flight. */
  lemma EdgeOfWaiter(f: Fetching, w: nat, c: Key)
    requires EdgesExact(f.desk.flights, f.waiters) && SitsIn(f, w, c)
    ensures Edge(f.desk.flights, c, f.waiters[w].key)
  {
    var fl := f.desk.flights[c];
    var k := f.waiters[w].key;
    assert EdgesExactOf(f.waiters, c, fl);
    assert w in Inside(f.waiters, Link(c, fl.id), k);
  }

  /** And only waiters are edges: none outlives its waiter, none is inherited by
      a later flight of the same key. */
  lemma EdgesAreWaiters(fs: seq<Fetching>, steps: seq<Step>, n: nat, c: Key, k: Key)
    requires IsRun(fs, steps) && n < |fs| && c in fs[n].desk.flights
    ensures
      var f := fs[n];
      && CountAt(f.desk.flights[c].waits, k) == |Inside(f.waiters, Link(c, f.desk.flights[c].id), k)|
      && (Edge(f.desk.flights, c, k) <==> exists w :: SitsIn(f, w, c) && f.waiters[w].key == k)
  {
    hide IsRun;
    RunKeepsInv(fs, steps, n);
    var f := fs[n];
    var fl := f.desk.flights[c];
    assert EdgesExactOf(f.waiters, c, fl);
    var here := Inside(f.waiters, Link(c, fl.id), k);
    if k in fl.waits {
      assert 0 < |here|;
      var w :| w in here;
      assert SitsIn(f, w, c) && f.waiters[w].key == k;
    }
    forall w | SitsIn(f, w, c) && f.waiters[w].key == k ensures Edge(f.desk.flights, c, k) {
      assert w in here;
    }
  }

  /** A waiter is on a flight in the table, or its outcome is there to read, or
      its channel closed and it goes round again: no wake-up is lost. */
  lemma NoLostWakeUp(fs: seq<Fetching>, steps: seq<Step>, n: nat, w: nat)
    requires IsRun(fs, steps) && n < |fs| && w in fs[n].waiters
    ensures
      var f := fs[n];
      var x := f.waiters[w];
      x.id in f.chans && (f.chans[x.id].Open? <==> Holds(f.desk.flights, x.key, x.id))
  {
    hide IsRun, EdgesExact, Acyclic, LeadsExact, Shallow;
    RunKeepsInv(fs, steps, n);
    assert GoodWaiter(fs[n].chains, fs[n].waiters[w]);
  }

  /** One leader a key, one key a leader. */
  lemma OneLeader(fs: seq<Fetching>, steps: seq<Step>, n: nat, j: Key, k: Key)
    requires IsRun(fs, steps) && n < |fs| && j in fs[n].desk.flights && k in fs[n].desk.flights
    requires fs[n].desk.flights[j].id == fs[n].desk.flights[k].id
    ensures j == k
  {
    hide IsRun, EdgesExact, Acyclic, LeadsExact, Shallow, Connected, Seated;
    RunKeepsInv(fs, steps, n);
  }

  /** A flight is resolved at most once: a settled channel never changes. */
  lemma ResolvedOnce(f: Fetching, s: Step, i: nat)
    requires Inv(f) && Enabled(f, s) && i in f.chans && !f.chans[i].Open?
    ensures i in Next(f, s).chans && Next(f, s).chans[i] == f.chans[i]
  {
    hide EdgesExact, Acyclic, LeadsExact, Shallow, Seated, Taken, Edges, RunEnded, AfterResume, Started, WouldDeadlock,
      ChainOf, LeadsOf, WithDepth;
    match s
    case Finish(id, shared) => assert GoodChain(f.chains, id);
    case Join(key, vm, parent, w) => assert f.desk.nextFlight + 1 !in f.chains;
    case _ =>
  }

  lemma {:induction false} SettledForGood(fs: seq<Fetching>, steps: seq<Step>, m: nat, n: nat, i: nat)
    requires IsRun(fs, steps) && m <= n < |fs| && i in fs[m].chans && !fs[m].chans[i].Open?
    ensures i in fs[n].chans && fs[n].chans[i] == fs[m].chans[i]
    decreases n - m
  {
    hide Inv, Enabled, Next;
    if m < n {
      RunKeepsInv(fs, steps, m);
      ResolvedOnce(fs[m], steps[m], i);
      SettledForGood(fs, steps, m + 1, n, i);
    }
  }

  /** A stale guard never touches a later flight of its key, nor any channel. */
  lemma StaleGuardIsHarmless(f: Fetching, id: nat, shared: Shared)
    requires Guarded(f, id) && !Holds(f.desk.flights, KeyOf(f.chains, id), id)
    ensures Next(f, Finish(id, shared)) == f.(guards := f.guards - {id})
    ensures Next(f, DropGuard(id)) == f.(guards := f.guards - {id})
  {
    HangUpNothing(f);
  }

  lemma HangUpNothing(f: Fetching)
    ensures HungUp(f.chans, f.desk.flights, f.desk.flights) == f.chans
  {
  }

  /** A leader that finishes in time reaches every waiter of its flight; one that
      is dropped wakes each to go round again. Either way the key is free. */
  lemma EveryWaiterHears(f: Fetching, id: nat, shared: Shared)
    requires Inv(f) && Guarded(f, id) && Holds(f.desk.flights, KeyOf(f.chains, id), id)
    ensures
      var key := KeyOf(f.chains, id);
      var g, h := Next(f, Finish(id, shared)), Next(f, DropGuard(id));
      && key !in g.desk.flights && key !in h.desk.flights
      && id in h.chans && h.chans[id] == Closed
      && g.waiters == h.waiters == f.waiters
      && id in g.chans && g.chans[id] == Sent(shared)
  {
    hide EdgesExact, Acyclic, LeadsExact, Shallow, Seated;
    assert f.chans[id].Open?;
    var key := KeyOf(f.chains, id);
    assert f.desk.flights[key].id == id && key !in Taken(f.desk, key, id).flights;
  }

  /** Between steps of a VM's own thread, its counts are those of the table and
      no flight it leads started deeper than the resumes now running. */
  lemma NothingOutlivesItsResume(fs: seq<Fetching>, steps: seq<Step>, n: nat, vm: nat)
    requires IsRun(fs, steps) && n < |fs| && vm !in fs[n].returning
    ensures Led(fs[n].desk.flights, vm, LeadsOf(fs[n].desk.vms, vm).depth + 1) == {}
    ensures LeadsOf(fs[n].desk.vms, vm).all == |Led(fs[n].desk.flights, vm, 0)|
    ensures LeadsOf(fs[n].desk.vms, vm).nested == |Led(fs[n].desk.flights, vm, 1)|
  {
    hide IsRun, Recorded, Connected, Seated, EdgesExact, Acyclic;
    RunKeepsInv(fs, steps, n);
  }

  /** Once its run is over a VM leads nothing, though the scan may be skipped. */
  lemma NothingOutlivesItsRun(fs: seq<Fetching>, steps: seq<Step>, n: nat, vm: nat)
    requires IsRun(fs, steps) && n < |steps| && steps[n] == EndRun(vm)
    ensures Led(fs[n + 1].desk.flights, vm, 0) == {}
    ensures fs[n + 1].desk.flights == fs[n].desk.flights - Led(fs[n].desk.flights, vm, 0)
  {
    RunKeepsInv(fs, steps, n);
    hide Recorded, Connected, Seated, EdgesExact, Acyclic, Shallow;
    EndRunIsExact(fs[n].desk, vm);
    EndedSomeShrinks(fs[n].desk, vm, Led(fs[n].desk.flights, vm, 0));
  }
}
