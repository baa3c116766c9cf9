/** The steps of `fetch` that touch the store and the flight table under one
    lock: joining, finishing, and dropping either guard. */
module FetchStore {
  import opened StateSpec
  import opened WaitGraph
  import opened FlightDesk
  import opened StateStore
  import F = FetchProtocol
  import S = SharedState

  datatype Joining = Hit(value: Prim) | Missed(how: Joined)

  class SharedStore {
    const inner: Inner
    const table: FlightTable
    const limits: Limits

    /** The store's indexes agree and no wait count in the table is zero. */
    ghost predicate Valid()
      reads this, inner, table
    {
      && inner.Valid()
      && forall c, k | c in table.flights && k in table.flights[c].waits :: 0 < table.flights[c].waits[k]
    }

    constructor (limits: Limits)
      ensures Valid() && fresh(inner) && fresh(table) && this.limits == limits
      ensures inner.Abs() == EMPTY && table.Abs() == EMPTY_DESK
    {
      this.limits := limits;
      inner := new Inner();
      table := new FlightTable();
    }

    /** Re-check for a fresh value, which a leader may just have stored; else wait
        on the flight of `key`, lead one, or load inline where waiting would
        deadlock. `chain` lists the loaders the caller sits in. */
    method Join(key: Key, vm: nat, chain: seq<Link>, now: nat) returns (r: Joining)
      requires Valid()
      modifies inner, table
      ensures Valid()
      ensures inner.Abs() == S.JoinEffect(old(inner.Abs()), key, now).store
      ensures match ValueAt(old(inner.Abs()), key, now)
        case Some(v) => r == Hit(v) && table.Abs() == old(table.Abs())
        case None =>
          && r.Missed? && (table.Abs(), r.how) == JoinMiss(old(table.Abs()), key, vm, chain)
          && JoinedBy(old(table.Abs()), key, vm, chain, table.Abs(), r.how)
    {
      var v := inner.Get(key, now);
      if v.Some? {
        return Hit(v.value);
      }
      var how := table.Join(key, vm, chain);
      return Missed(how);
    }

    /** Store what was loaded unless something fresh is there by now (a value that
        cannot fit goes uncached), then end the flight if it is still this one:
        `published` tells whether its waiters get the outcome. */
    method Finish(key: Key, id: nat, shared: F.Shared, w: Write, now: nat) returns (published: bool)
      requires Valid()
      modifies inner, table
      ensures Valid()
      ensures inner.Abs() == S.FinishEffect(old(inner.Abs()), key, shared, w, now, limits).store
      ensures table.Abs() == Taken(old(table.Abs()), key, id)
      ensures published <==> Holds(old(table.flights), key, id)
    {
      if shared.Loaded? && shared.value.Some? {
        var v := inner.Version(key, now);
        if v == 0 {
          var _ := inner.Put(key, shared.value, w, now, limits);
        }
      }
      var f := table.TakeFlight(key, id);
      return f.Some?;
    }

    /** A leader that ends with no outcome. */
    method DropLead(key: Key, id: nat)
      requires Valid()
      modifies table
      ensures Valid() && inner.Abs() == old(inner.Abs())
      ensures table.Abs() == Taken(old(table.Abs()), key, id)
    {
      var _ := table.TakeFlight(key, id);
    }

    /** A waiter that stops waiting, however, takes its edges back. */
    method DropWait(chain: seq<Link>, key: Key)
      requires Valid()
      modifies table
      ensures Valid() && inner.Abs() == old(inner.Abs())
      ensures table.Abs() == old(table.Abs()).(flights := Edges(old(table.flights), chain, key, false))
    {
      table.Edge(chain, key, false);
    }
  }
}
