/** The flight table of `fetch` and each VM's lead counts: joining, wait edges,
    and every way a flight leaves the table. */
module FlightDesk {
  import opened Prelude
  import opened StateSpec
  import opened WaitGraph

  /** Per VM: flights it leads, those started inside a Lua-level resume, and how
      many such resumes are running now. */
  datatype Leads = Leads(all: int, nested: int, depth: nat)

  type Vms = map<nat, Leads>

  datatype Desk = Desk(flights: Table, nextFlight: nat, vms: Vms)

  const EMPTY_DESK := Desk(map[], 0, map[])

  function LeadsOf(vms: Vms, vm: nat): Leads { if vm in vms then vms[vm] else Leads(0, 0, 0) }

  // ------------------------------------------------------------- wait edges

  function Raised(waits: map<Key, nat>, key: Key): map<Key, nat> {
    waits[key := (if key in waits then waits[key] else 0) + 1]
  }

  function Lowered(waits: map<Key, nat>, key: Key): map<Key, nat> {
    if key !in waits then waits
    else if waits[key] > 1 then waits[key := waits[key] - 1]
    else waits - {key}
  }

  function Moved(waits: map<Key, nat>, key: Key, up: bool): map<Key, nat> {
    if up then Raised(waits, key) else Lowered(waits, key)
  }

  /** The wait edge of one link: only if that leadership is still in the table. */
  function EdgeAt(t: Table, l: Link, key: Key, up: bool): Table {
    if l.key in t && t[l.key].id == l.id
    then t[l.key := t[l.key].(waits := Moved(t[l.key].waits, key, up))]
    else t
  }

  function Edges(t: Table, chain: seq<Link>, key: Key, up: bool): Table
    decreases |chain|
  {
    if chain == [] then t else Edges(EdgeAt(t, chain[0], key, up), chain[1..], key, up)
  }

  // --------------------------------------------------------------- removals

  function Unled(vms: Vms, vm: nat, all: int, nested: int): Vms {
    var l := LeadsOf(vms, vm);
    vms[vm := l.(all := l.all - all, nested := l.nested - nested)]
  }

  function Removed(d: Desk, key: Key): Desk {
    if key !in d.flights then d else
      var f := d.flights[key];
      d.(flights := d.flights - {key}, vms := Unled(d.vms, f.owner, 1, if f.depth > 0 then 1 else 0))
  }

  predicate Holds(t: Table, key: Key, id: nat) { key in t && t[key].id == id }

  function Taken(d: Desk, key: Key, id: nat): Desk {
    if Holds(d.flights, key, id) then Removed(d, key) else d
  }

  /** The flights `vm` leads at resume depth `minDepth` or deeper. */
  function Led(t: Table, vm: nat, minDepth: nat): set<Key> {
    set k | k in t && t[k].owner == vm && t[k].depth >= minDepth
  }

  function Nested(t: Table, ks: set<Key>): set<Key> { set k | k in ks && k in t && t[k].depth > 0 }

  function EndedSome(d: Desk, vm: nat, ks: set<Key>): Desk {
    if ks == {} then d else
      d.(flights := d.flights - ks, vms := Unled(d.vms, vm, |ks|, |Nested(d.flights, ks)|))
  }

  function Ended(d: Desk, vm: nat, minDepth: nat): Desk {
    EndedSome(d, vm, Led(d.flights, vm, minDepth))
  }

  function WithDepth(d: Desk, vm: nat, depth: nat): Desk {
    d.(vms := d.vms[vm := LeadsOf(d.vms, vm).(depth := depth)])
  }

  /** After the resume at `depth` returned: a scan only if something is nested. */
  function AfterResume(d: Desk, vm: nat, depth: nat): Desk {
    if LeadsOf(d.vms, vm).nested != 0 then Ended(d, vm, depth) else d
  }

  /** After a run ended: a scan only if the VM leads anything. */
  function RunEnded(d: Desk, vm: nat): Desk {
    WithDepth(if LeadsOf(d.vms, vm).all != 0 then Ended(d, vm, 0) else d, vm, 0)
  }

  // ----------------------------------------------------------------- joining

  datatype Joined = Lead(id: nat) | Wait(id: nat, sameVm: bool) | Inline

  function Started(d: Desk, key: Key, vm: nat): Desk {
    var l := LeadsOf(d.vms, vm);
    var id := d.nextFlight + 1;
    Desk(d.flights[key := Flight(id, map[], vm, l.depth)],
         id,
         d.vms[vm := l.(all := l.all + 1, nested := if l.depth > 0 then l.nested + 1 else l.nested)])
  }

  /** The miss path of `fetch`, for a caller on `vm` inside the loaders `chain`. */
  ghost function JoinMiss(d: Desk, key: Key, vm: nat, chain: seq<Link>): (Desk, Joined) {
    if key in d.flights then
      var f := d.flights[key];
      if chain == [] then (d, Wait(f.id, f.owner == vm))
      else if WouldDeadlock(d.flights, key, chain) then (d, Inline)
      else (d.(flights := Edges(d.flights, chain, key, true)), Wait(f.id, f.owner == vm))
    else (Started(d, key, vm), Lead(d.nextFlight + 1))
  }

  // ------------------------------------------------ what joining means

  function CountAt(waits: map<Key, nat>, k: Key): nat { if k in waits then waits[k] else 0 }

  /** How many links of the chain name the leadership `id` of `c`. */
  function Times(chain: seq<Link>, c: Key, id: nat): nat {
    if chain == [] then 0 else
      Times(chain[..|chain| - 1], c, id) + if chain[|chain| - 1] == Link(c, id) then 1 else 0
  }

  /** The same flights, led as they were. */
  ghost predicate SameFlights(t: Table, u: Table) {
    && t.Keys == u.Keys
    && forall c | c in t :: u[c].id == t[c].id && u[c].owner == t[c].owner && u[c].depth == t[c].depth
  }

  /** Each leadership in the table gains one wait on `key` for each link that names it,
      or loses one, but never below none; no other count moves. */
  ghost predicate CountsMoved(t: Table, u: Table, chain: seq<Link>, key: Key, up: bool) {
    forall c | c in t && c in u ::
      && (forall k | k != key :: CountAt(u[c].waits, k) == CountAt(t[c].waits, k))
      && var n := CountAt(t[c].waits, key);
         var m := Times(chain, c, t[c].id);
         CountAt(u[c].waits, key) == if up then n + m else if m < n then n - m else 0
  }

  lemma {:induction false} EdgesMean(t: Table, chain: seq<Link>, key: Key, up: bool)
    ensures SameFlights(t, Edges(t, chain, key, up))
    ensures CountsMoved(t, Edges(t, chain, key, up), chain, key, up)
    decreases |chain|
  {
    if chain != [] {
      var n := |chain| - 1;
      EdgesMean(t, chain[..n], key, up);
      EdgesSnoc(t, chain, key, up);
      hide Edges, Times, SameFlights, CountsMoved;
      EdgeMeans(t, Edges(t, chain[..n], key, up), chain, key, up);
    }
  }

  lemma {:induction false} EdgesSnoc(t: Table, chain: seq<Link>, key: Key, up: bool)
    requires chain != []
    ensures Edges(t, chain, key, up)
         == EdgeAt(Edges(t, chain[..|chain| - 1], key, up), chain[|chain| - 1], key, up)
    decreases |chain|
  {
    hide EdgeAt;
    if |chain| > 1 {
      EdgesSnoc(EdgeAt(t, chain[0], key, up), chain[1..], key, up);
      assert chain[1..][..|chain| - 2] == chain[..|chain| - 1][1..];
    }
  }

  lemma EdgeMeans(t: Table, u: Table, chain: seq<Link>, key: Key, up: bool)
    requires chain != [] && SameFlights(t, u)
    requires CountsMoved(t, u, chain[..|chain| - 1], key, up)
    ensures
      var v := EdgeAt(u, chain[|chain| - 1], key, up);
      SameFlights(t, v) && CountsMoved(t, v, chain, key, up)
  {
    var l, most := chain[|chain| - 1], chain[..|chain| - 1];
    var v := EdgeAt(u, l, key, up);
    assert SameFlights(t, v);
    forall c | c in t
      ensures forall k | k != key :: CountAt(v[c].waits, k) == CountAt(t[c].waits, k)
      ensures
        var n := CountAt(t[c].waits, key);
        var m := Times(chain, c, t[c].id);
        CountAt(v[c].waits, key) == if up then n + m else if m < n then n - m else 0
    {
      TimesMore(chain, c, t[c].id);
      MovedCount(u[c].waits, key, up);
      hide Moved, CountAt, Times;
      assert v[c].waits == if l == Link(c, t[c].id) then Moved(u[c].waits, key, up) else u[c].waits;
    }
    hide EdgeAt, CountAt, Times, SameFlights;
  }

  lemma TimesMore(chain: seq<Link>, c: Key, id: nat)
    requires chain != []
    ensures Times(chain, c, id)
         == Times(chain[..|chain| - 1], c, id) + if chain[|chain| - 1] == Link(c, id) then 1 else 0
  {
  }

  lemma MovedCount(waits: map<Key, nat>, key: Key, up: bool)
    ensures forall k | k != key :: CountAt(Moved(waits, key, up), k) == CountAt(waits, k)
    ensures
      var n := CountAt(waits, key);
      CountAt(Moved(waits, key, up), key) == if up then n + 1 else if n > 1 then n - 1 else 0
  {
  }

  /** A key of the chain is reachable from `key` along wait edges: waiting on `key`
      there would be waiting on oneself. */
  ghost predicate Cornered(t: Table, key: Key, chain: seq<Link>) {
    exists i :: 0 <= i < |chain| && Reaches(t, key, chain[i].key)
  }

  lemma CorneredIs(t: Table, key: Key, chain: seq<Link>)
    ensures WouldDeadlock(t, key, chain) <==> Cornered(t, key, chain)
  {
    hide Reaches;
    if k :| Named(chain, k) && Reaches(t, key, k) {
      var i :| 0 <= i < |chain| && chain[i].key == k;
    }
    if i :| 0 <= i < |chain| && Reaches(t, key, chain[i].key) {
      assert Named(chain, chain[i].key);
    }
  }

  function DepthIn(vms: Vms, vm: nat): nat { if vm in vms then vms[vm].depth else 0 }

  /** What joining does to the table and says to the caller. */
  ghost predicate JoinedBy(d: Desk, key: Key, vm: nat, chain: seq<Link>, e: Desk, j: Joined) {
    if key !in d.flights then
      && j == Lead(d.nextFlight + 1) && e.nextFlight == d.nextFlight + 1
      && e.flights == d.flights[key := Flight(d.nextFlight + 1, map[], vm, DepthIn(d.vms, vm))]
      && forall v :: DepthIn(e.vms, v) == DepthIn(d.vms, v)
    else if Cornered(d.flights, key, chain) then
      j == Inline && e == d
    else
      && j == Wait(d.flights[key].id, d.flights[key].owner == vm)
      && SameFlights(d.flights, e.flights) && CountsMoved(d.flights, e.flights, chain, key, true)
      && e.nextFlight == d.nextFlight && e.vms == d.vms
  }

  /** A caller leads a new flight where there is none; loads inline where waiting would
      be waiting on itself; and otherwise waits on the flight there is. */
  lemma JoinMissMeans(d: Desk, key: Key, vm: nat, chain: seq<Link>)
    ensures JoinedBy(d, key, vm, chain, JoinMiss(d, key, vm, chain).0, JoinMiss(d, key, vm, chain).1)
  {
    CorneredIs(d.flights, key, chain);
    EdgesMean(d.flights, chain, key, true);
    hide Edges, CountsMoved, WouldDeadlock, Reaches;
    if chain == [] {
      NoEdges(d.flights, key);
    }
  }

  lemma NoEdges(t: Table, key: Key)
    ensures Edges(t, [], key, true) == t
  {
  }

  // --------------------------------------------------------- implementation

  class FlightTable {
    var flights: Table
    var nextFlight: nat
    var vms: Vms

    ghost function Abs(): Desk
      reads this
    {
      Desk(flights, nextFlight, vms)
    }

    constructor ()
      ensures Abs() == EMPTY_DESK
    {
      flights, nextFlight, vms := map[], 0, map[];
    }

    /** Add (`up`) or remove one wait edge to `key` on each flight in `chain` that
        is still the same leadership. No count is ever zero, so none underflows. */
    method Edge(chain: seq<Link>, key: Key, up: bool)
      requires forall c, k | c in flights && k in flights[c].waits :: 0 < flights[c].waits[k]
      modifies `flights
      ensures flights == Edges(old(flights), chain, key, up)
      ensures SameFlights(old(flights), flights) && CountsMoved(old(flights), flights, chain, key, up)
      ensures forall c, k | c in flights && k in flights[c].waits :: 0 < flights[c].waits[k]
    {
      EdgesMean(flights, chain, key, up);
      hide SameFlights, CountsMoved;
      var i := 0;
      while i < |chain|
        invariant 0 <= i <= |chain|
        invariant forall c, k | c in flights && k in flights[c].waits :: 0 < flights[c].waits[k]
        invariant Edges(flights, chain[i..], key, up) == Edges(old(flights), chain, key, up)
      {
        var c, id := chain[i].key, chain[i].id;
        assert chain[i..][0] == chain[i] && chain[i..][1..] == chain[i + 1..];
        if c in flights && flights[c].id == id {
          var f := flights[c];
          if up {
            var n: nat := if key in f.waits then f.waits[key] else 0;
            flights := flights[c := f.(waits := f.waits[key := n + 1])];
          } else if key in f.waits {
            var n: nat := f.waits[key] - 1;
            flights := flights[c := f.(waits := if n == 0 then f.waits - {key} else f.waits[key := n])];
          } else {
            assert flights[c := f.(waits := f.waits)] == flights;
          }
        }
        i := i + 1;
      }
    }

    /** The only place a flight leaves the table, so its owner's counts stay exact. */
    method RemoveFlight(key: Key) returns (f: Option<Flight>)
      modifies `flights, `vms
      ensures Abs() == Removed(old(Abs()), key)
      ensures f == if key in old(flights) then Some(old(flights[key])) else None
    {
      if key !in flights {
        return None;
      }
      f := Some(flights[key]);
      flights := flights - {key};
      var l := LeadsOf(vms, f.value.owner);
      vms := vms[f.value.owner := l.(all := l.all - 1)];
      if f.value.depth > 0 {
        l := LeadsOf(vms, f.value.owner);
        vms := vms[f.value.owner := l.(nested := l.nested - 1)];
      }
    }

    method TakeFlight(key: Key, id: nat) returns (f: Option<Flight>)
      modifies `flights, `vms
      ensures Abs() == Taken(old(Abs()), key, id)
      ensures f.Some? <==> Holds(old(flights), key, id)
    {
      if key in flights && flights[key].id == id {
        f := RemoveFlight(key);
      } else {
        f := None;
      }
    }

    /** Remove the flights `vm` leads at resume depth `minDepth` or deeper, in
        whatever order the table yields them. */
    method EndFlights(vm: nat, minDepth: nat)
      modifies `flights, `vms
      ensures Abs() == Ended(old(Abs()), vm, minDepth)
    {
      ghost var d := Abs();
      var parked := Led(flights, vm, minDepth);
      assert parked == Led(d.flights, vm, minDepth);
      EndNone(d, vm);
      hide *;
      var todo := parked;
      assert parked - todo == {};
      while todo != {}
        invariant todo <= parked
        invariant Abs() == EndedSome(d, vm, parked - todo)
        decreases |todo|
      {
        var k :| k in todo;
        EndOneMore(d, vm, minDepth, parked - todo, k);
        assert parked - todo + {k} == parked - (todo - {k});
        var _ := RemoveFlight(k);
        todo := todo - {k};
      }
      assert parked - todo == parked;
      EndedIs(d, vm, minDepth);
    }

    method Resumed(vm: nat, depth: nat)
      modifies `flights, `vms
      ensures Abs() == AfterResume(old(Abs()), vm, depth)
    {
      if LeadsOf(vms, vm).nested != 0 {
        EndFlights(vm, depth);
      }
    }

    method EndRun(vm: nat)
      modifies `flights, `vms
      ensures Abs() == RunEnded(old(Abs()), vm)
    {
      if LeadsOf(vms, vm).all != 0 {
        EndFlights(vm, 0);
      }
      vms := vms[vm := LeadsOf(vms, vm).(depth := 0)];
    }

    /** Entering a Lua-level resume; the result is the depth it runs at. */
    method EnterResume(vm: nat) returns (depth: nat)
      modifies `vms
      ensures depth == LeadsOf(old(vms), vm).depth + 1
      ensures Abs() == WithDepth(old(Abs()), vm, depth)
    {
      depth := LeadsOf(vms, vm).depth + 1;
      vms := vms[vm := LeadsOf(vms, vm).(depth := depth)];
    }

    /** The resume at `depth` returned, however. */
    method ReturnFromResume(vm: nat, depth: nat)
      requires 0 < depth
      modifies `flights, `vms
      ensures Abs() == AfterResume(WithDepth(old(Abs()), vm, depth - 1), vm, depth)
    {
      vms := vms[vm := LeadsOf(vms, vm).(depth := depth - 1)];
      Resumed(vm, depth);
    }

    /** The miss path of a `fetch` on `vm` inside the loaders of `chain`. */
    method Join(key: Key, vm: nat, chain: seq<Link>) returns (j: Joined)
      requires forall c, k | c in flights && k in flights[c].waits :: 0 < flights[c].waits[k]
      modifies this
      ensures (Abs(), j) == JoinMiss(old(Abs()), key, vm, chain)
      ensures JoinedBy(old(Abs()), key, vm, chain, Abs(), j)
      ensures forall c, k | c in flights && k in flights[c].waits :: 0 < flights[c].waits[k]
    {
      hide JoinedBy;
      JoinMissMeans(Abs(), key, vm, chain);
      var depth := LeadsOf(vms, vm).depth;
      if key in flights {
        var f := flights[key];
        if chain == [] {
          return Wait(f.id, f.owner == vm);
        }
        var deadlock := WaitsFor(flights, key, chain);
        if deadlock {
          return Inline;
        }
        Edge(chain, key, true);
        return Wait(f.id, f.owner == vm);
      }
      nextFlight := nextFlight + 1;
      var l := LeadsOf(vms, vm);
      vms := vms[vm := l.(all := l.all + 1)];
      if depth > 0 {
        vms := vms[vm := vms[vm].(nested := l.nested + 1)];
      }
      assert vms == Started(old(Abs()), key, vm).vms;
      flights := flights[key := Flight(nextFlight, map[], vm, depth)];
      return Lead(nextFlight);
    }
  }

  lemma EndedIs(d: Desk, vm: nat, minDepth: nat)
    ensures Ended(d, vm, minDepth) == EndedSome(d, vm, Led(d.flights, vm, minDepth))
  {
  }

  lemma EndNone(d: Desk, vm: nat)
    ensures EndedSome(d, vm, {}) == d
  {
  }

  lemma EndOneMore(d: Desk, vm: nat, minDepth: nat, gone: set<Key>, k: Key)
    requires gone + {k} <= Led(d.flights, vm, minDepth) && k !in gone
    ensures Removed(EndedSome(d, vm, gone), k) == EndedSome(d, vm, gone + {k})
  {
    var e := EndedSome(d, vm, gone);
    assert k in e.flights && e.flights[k] == d.flights[k];
    assert d.flights - gone - {k} == d.flights - (gone + {k});
    assert d.flights - {k} == d.flights - ({} + {k});
    NestedPush(d.flights, gone, k);
    assert |gone + {k}| == |gone| + 1;
  }

  lemma NestedPush(t: Table, gone: set<Key>, k: Key)
    requires k !in gone && k in t
    ensures |Nested(t, gone + {k})| == |Nested(t, gone)| + (if t[k].depth > 0 then 1 else 0)
  {
    if t[k].depth > 0 {
      assert Nested(t, gone + {k}) == Nested(t, gone) + {k};
    } else {
      assert Nested(t, gone + {k}) == Nested(t, gone);
    }
  }
}
