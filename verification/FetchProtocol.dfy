/** The single-flight protocol as a transition system: any number of callers, on
    any VMs, interleaved arbitrarily. Beside the flight table it records what the
    table does not: each flight's channel, the guards still held, the waiters with
    the chain of loaders each sits in, and the resumes about to be swept. */
module FetchProtocol {
  import opened Prelude
  import opened StateSpec
  import opened WaitGraph
  import opened FlightDesk

  /** A leader's outcome, shared with its waiters. */
  datatype Shared = Loaded(value: Option<Prim>) | Failed | Rejected

  datatype Chan = Open | Sent(shared: Shared) | Closed

  /** A caller waiting on flight `id` of `key`, inside the loaders `chain`
      (innermost first; empty for a caller inside none). */
  datatype Waiter = Waiter(key: Key, id: nat, chain: seq<Link>)

  datatype Fetching = Fetching(
    desk: Desk,
    chans: map<nat, Chan>,
    chains: map<nat, seq<Link>>,
    guards: set<nat>,
    waiters: map<nat, Waiter>,
    returning: map<nat, nat>)

  const QUIET := Fetching(EMPTY_DESK, map[], map[], {}, map[], map[])

  datatype Step =
    | Join(key: Key, vm: nat, parent: Option<nat>, w: nat)
    | Finish(id: nat, shared: Shared)
    | DropGuard(id: nat)
    | StopWaiting(w: nat)
    | EnterResume(vm: nat)
    | LeaveResume(vm: nat)
    | SweepResume(vm: nat)
    | EndRun(vm: nat)

  /** The key flight `id` was started for. */
  function KeyOf(chains: map<nat, seq<Link>>, id: nat): Key
    requires id in chains && chains[id] != []
  {
    chains[id][0].key
  }

  function ChainOf(f: Fetching, parent: Option<nat>): seq<Link> {
    if parent.Some? && parent.value in f.chains then f.chains[parent.value] else []
  }

  predicate Enabled(f: Fetching, s: Step) {
    match s
    case Join(_, vm, parent, w) =>
      vm !in f.returning && w !in f.waiters && (parent.Some? ==> parent.value in f.chains)
    case Finish(id, _) => id in f.guards && id in f.chains && f.chains[id] != []
    case DropGuard(id) => id in f.guards && id in f.chains && f.chains[id] != []
    case StopWaiting(w) => w in f.waiters
    case EnterResume(vm) => vm !in f.returning
    case LeaveResume(vm) => vm !in f.returning && 0 < LeadsOf(f.desk.vms, vm).depth
    case SweepResume(vm) => vm in f.returning
    case EndRun(vm) => vm !in f.returning
  }

  /** Flights that left the table drop their senders: an open channel closes. */
  function HungUp(chans: map<nat, Chan>, before: Table, after: Table): map<nat, Chan> {
    map i | i in chans ::
      if chans[i].Open? && exists k :: k in before && before[k].id == i && k !in after then Closed else chans[i]
  }

  function Begun(f: Fetching, d: Desk, key: Key, id: nat, chain: seq<Link>): Fetching {
    f.(desk := d, chans := f.chans[id := Open], chains := f.chains[id := [Link(key, id)] + chain],
       guards := f.guards + {id})
  }

  ghost function AfterJoin(f: Fetching, key: Key, vm: nat, chain: seq<Link>, w: nat): Fetching {
    var (d, j) := JoinMiss(f.desk, key, vm, chain);
    match j
    case Lead(id) => Begun(f, d, key, id, chain)
    case Wait(id, _) => f.(desk := d, waiters := f.waiters[w := Waiter(key, id, chain)])
    case Inline => f
  }

  /** Flight `id` is finished: its outcome is sent and it leaves the table, but
      only if the table still holds that leadership. */
  function Finished(f: Fetching, key: Key, id: nat, shared: Shared): Fetching {
    f.(desk := Taken(f.desk, key, id), guards := f.guards - {id},
       chans := if Holds(f.desk.flights, key, id) then f.chans[id := Sent(shared)] else f.chans)
  }

  function Dropped(f: Fetching, key: Key, id: nat): Fetching {
    var d := Taken(f.desk, key, id);
    f.(desk := d, guards := f.guards - {id}, chans := HungUp(f.chans, f.desk.flights, d.flights))
  }

  function Stopped(f: Fetching, w: nat): Fetching
    requires w in f.waiters
  {
    var x := f.waiters[w];
    f.(desk := f.desk.(flights := Edges(f.desk.flights, x.chain, x.key, false)), waiters := f.waiters - {w})
  }

  function Entered(f: Fetching, vm: nat): Fetching {
    f.(desk := WithDepth(f.desk, vm, LeadsOf(f.desk.vms, vm).depth + 1))
  }

  function Left(f: Fetching, vm: nat): Fetching
    requires 0 < LeadsOf(f.desk.vms, vm).depth
  {
    var depth := LeadsOf(f.desk.vms, vm).depth;
    f.(desk := WithDepth(f.desk, vm, depth - 1), returning := f.returning[vm := depth])
  }

  function Swept(f: Fetching, vm: nat): Fetching
    requires vm in f.returning
  {
    var d := AfterResume(f.desk, vm, f.returning[vm]);
    f.(desk := d, returning := f.returning - {vm}, chans := HungUp(f.chans, f.desk.flights, d.flights))
  }

  function RunOver(f: Fetching, vm: nat): Fetching {
    var d := RunEnded(f.desk, vm);
    f.(desk := d, chans := HungUp(f.chans, f.desk.flights, d.flights))
  }

  ghost function Next(f: Fetching, s: Step): Fetching
    requires Enabled(f, s)
  {
    match s
    case Join(key, vm, parent, w) => AfterJoin(f, key, vm, ChainOf(f, parent), w)
    case Finish(id, shared) => Finished(f, KeyOf(f.chains, id), id, shared)
    case DropGuard(id) => Dropped(f, KeyOf(f.chains, id), id)
    case StopWaiting(w) => Stopped(f, w)
    case EnterResume(vm) => Entered(f, vm)
    case LeaveResume(vm) => Left(f, vm)
    case SweepResume(vm) => Swept(f, vm)
    case EndRun(vm) => RunOver(f, vm)
  }

  // --------------------------------------------------------------- invariant

  predicate Falling(chain: seq<Link>) { forall i, j | 0 <= i < j < |chain| :: chain[j].id < chain[i].id }

  predicate GoodChain(chains: map<nat, seq<Link>>, i: nat)
    requires i in chains
  {
    && chains[i] != [] && chains[i][0].id == i && Falling(chains[i])
    && forall l | l in chains[i] :: l.id in chains && chains[l.id] != [] && chains[l.id][0] == l
  }

  /** Every flight ever started has a chain, and only those. */
  ghost predicate Recorded(f: Fetching) {
    && (forall i :: i in f.chains <==> 1 <= i <= f.desk.nextFlight)
    && (forall i | i in f.chains :: GoodChain(f.chains, i))
    && (forall k | k in f.desk.flights ::
          f.desk.flights[k].id in f.chains && f.chains[f.desk.flights[k].id][0].key == k)
    && f.guards <= f.chains.Keys
  }

  /** A channel is open exactly while its flight is in the table. */
  ghost predicate Connected(f: Fetching) {
    && f.chans.Keys == f.chains.Keys
    && forall i | i in f.chains && f.chains[i] != [] ::
         f.chans[i].Open? <==> Holds(f.desk.flights, KeyOf(f.chains, i), i)
  }

  predicate GoodWaiter(chains: map<nat, seq<Link>>, w: Waiter) {
    && w.id in chains && chains[w.id] != [] && chains[w.id][0].key == w.key
    && (w.chain != [] ==> w.chain[0].id in chains && w.chain == chains[w.chain[0].id])
  }

  ghost predicate Seated(f: Fetching) {
    forall w | w in f.waiters :: GoodWaiter(f.chains, f.waiters[w])
  }

  /** The live waiters for `k` whose chain names the leadership `l`. */
  ghost function Inside(ws: map<nat, Waiter>, l: Link, k: Key): set<nat> {
    set w | w in ws && ws[w].key == k && l in ws[w].chain
  }

  ghost predicate EdgesExactOf(ws: map<nat, Waiter>, c: Key, fl: Flight) {
    forall k :: CountAt(fl.waits, k) == |Inside(ws, Link(c, fl.id), k)| && (k in fl.waits ==> 0 < fl.waits[k])
  }

  /** Wait-edge accounting. */
  ghost predicate EdgesExact(t: Table, ws: map<nat, Waiter>) {
    forall c | c in t :: EdgesExactOf(ws, c, t[c])
  }

  ghost predicate LeadsExact(d: Desk) {
    forall vm :: LeadsOf(d.vms, vm).all == |Led(d.flights, vm, 0)|
              && LeadsOf(d.vms, vm).nested == |Led(d.flights, vm, 1)|
  }

  ghost predicate Shallow(f: Fetching) {
    && (forall vm | vm in f.returning :: f.returning[vm] == LeadsOf(f.desk.vms, vm).depth + 1)
    && forall k | k in f.desk.flights ::
         var fl := f.desk.flights[k];
         fl.depth <= (if fl.owner in f.returning then f.returning[fl.owner] else LeadsOf(f.desk.vms, fl.owner).depth)
  }

  ghost predicate Inv(f: Fetching) {
    && Recorded(f)
    && Connected(f)
    && Seated(f)
    && EdgesExact(f.desk.flights, f.waiters)
    && Acyclic(f.desk.flights)
    && LeadsExact(f.desk)
    && Shallow(f)
  }

  lemma QuietInv()
    ensures Inv(QUIET)
  {
    var t := QUIET.desk.flights;
    forall p | Path(t, p) && 1 < |p| ensures p[0] != p[|p| - 1] {
      var hop := Hop(t, p, 0);
    }
    forall vm ensures Led(t, vm, 0) == {} && Led(t, vm, 1) == {} { }
  }
}
