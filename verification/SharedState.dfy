/** `lur.state` as its callers share it: the store and the fetch protocol behind
    one lock, driven by any interleaving of gets, writes, optimistic updates and
    fetches. Beside the two it records every write ever made, by version, and the
    updates under way with what each read. */
module SharedState {
  import opened Prelude
  import opened StateSpec
  import opened StateLaws
  import F = FetchProtocol
  import L = FetchLaws

  /** An optimistic update (or compare-and-set) between its read and its write. */
  datatype Pending = Pending(key: Key, read: Option<Prim>, version: nat)

  datatype Sys = Sys(
    store: Store,
    writes: map<nat, (Key, Prim)>,
    pending: map<nat, Pending>,
    fetch: F.Fetching)

  const START := Sys(EMPTY, map[], map[], F.QUIET)

  datatype Act =
    | GetKey(key: Key)
    | LookUp(key: Key)
    | SetKey(key: Key, value: Option<Prim>, w: Write)
    | Increment(key: Key, delta: int, w: Write)
    | Snapshot(p: nat, key: Key)
    | Commit(p: nat, value: Option<Prim>, w: Write)
    | FetchJoin(key: Key, vm: nat, parent: Option<nat>, waiter: nat)
    | FetchFinish(id: nat, shared: F.Shared, w: Write)
    | InlineStore(key: Key, loaded: Prim, w: Write)
    | Flight(step: F.Step)

  predicate Enabled(s: Sys, a: Act) {
    match a
    case Commit(p, _, _) => p in s.pending
    case FetchJoin(key, vm, parent, x) => F.Enabled(s.fetch, F.Join(key, vm, parent, x))
    case FetchFinish(id, shared, _) => F.Enabled(s.fetch, F.Finish(id, shared))
    case Flight(step) => !step.Join? && !step.Finish? && F.Enabled(s.fetch, step)
    case _ => true
  }

  /** The store after an action, and the write it made, if any. */
  datatype Effect = Effect(store: Store, wrote: Option<(Key, Prim)>)

  ghost function PutEffect(s: Store, key: Key, value: Option<Prim>, w: Write, now: nat, lim: Limits): Effect {
    var (t, o) := Put(s, key, value, w, now, lim);
    Effect(t, if o.Stored? && value.Some? then Some((key, value.value)) else None)
  }

  ghost function CasEffect(s: Store, key: Key, expected: nat, value: Option<Prim>, w: Write, now: nat, lim: Limits)
    : Effect
  {
    if VersionAt(s, key, now) != expected then Effect(Reap(s, key, now), None)
    else PutEffect(Reap(s, key, now), key, value, w, now, lim)
  }

  ghost function CountEffect(s: Store, key: Key, delta: int, w: Write, now: nat, lim: Limits): Effect {
    var (t, r) := Incr(s, key, delta, w, now, lim);
    Effect(t, if r.Counted? then Some((key, Num(r.n))) else None)
  }

  /** A leader stores what it loaded only where nothing fresh is. */
  ghost function FinishEffect(s: Store, key: Key, shared: F.Shared, w: Write, now: nat, lim: Limits): Effect {
    if shared.Loaded? && shared.value.Some? then CasEffect(s, key, 0, shared.value, w, now, lim)
    else Effect(s, None)
  }

  ghost function JoinEffect(s: Store, key: Key, now: nat): Effect { Effect(Get(s, key, now).0, None) }

  ghost function StoreEffect(s: Sys, a: Act, now: nat, lim: Limits): Effect
    requires Enabled(s, a)
  {
    match a
    case GetKey(key) => Effect(Get(s.store, key, now).0, None)
    case LookUp(key) => Effect(Lookup(s.store, key, now).0, None)
    case SetKey(key, value, w) => PutEffect(s.store, key, value, w, now, lim)
    case Increment(key, delta, w) => CountEffect(s.store, key, delta, w, now, lim)
    case Snapshot(_, key) => Effect(Reap(s.store, key, now), None)
    case Commit(p, value, w) => CasEffect(s.store, s.pending[p].key, s.pending[p].version, value, w, now, lim)
    case FetchJoin(key, _, _, _) => JoinEffect(s.store, key, now)
    case FetchFinish(id, shared, w) => FinishEffect(s.store, F.KeyOf(s.fetch.chains, id), shared, w, now, lim)
    case InlineStore(key, value, w) => CasEffect(s.store, key, 0, Some(value), w, now, lim)
    case Flight(_) => Effect(s.store, None)
  }

  ghost function FetchEffect(s: Sys, a: Act, now: nat): F.Fetching
    requires Enabled(s, a)
  {
    match a
    case FetchJoin(key, vm, parent, x) =>
      if Live(s.store, key, now).Some? then s.fetch else F.Next(s.fetch, F.Join(key, vm, parent, x))
    case FetchFinish(id, shared, _) => F.Next(s.fetch, F.Finish(id, shared))
    case Flight(step) => F.Next(s.fetch, step)
    case _ => s.fetch
  }

  function PendingEffect(s: Sys, a: Act, now: nat): map<nat, Pending> {
    match a
    case Snapshot(p, key) => s.pending[p := Pending(key, ValueAt(s.store, key, now), VersionAt(s.store, key, now))]
    case Commit(p, _, _) => s.pending - {p}
    case _ => s.pending
  }

  ghost function Next(s: Sys, a: Act, now: nat, lim: Limits): Sys
    requires Enabled(s, a)
  {
    var e := StoreEffect(s, a, now, lim);
    Sys(e.store,
        if e.wrote.Some? then s.writes[e.store.lastVersion := e.wrote.value] else s.writes,
        PendingEffect(s, a, now),
        FetchEffect(s, a, now))
  }

  // --------------------------------------------------------------- invariant

  /** Every entry is the write its version names; every version ever used is. */
  ghost predicate Remembered(s: Store, writes: map<nat, (Key, Prim)>) {
    && (forall v | v in writes :: 1 <= v <= s.lastVersion)
    && forall k | k in s.entries ::
         s.entries[k].version in writes && writes[s.entries[k].version] == (k, s.entries[k].value)
  }

  ghost predicate Read(p: Pending, writes: map<nat, (Key, Prim)>) {
    if p.version == 0 then p.read.None?
    else p.version in writes && p.read.Some? && writes[p.version] == (p.key, p.read.value)
  }

  ghost predicate AllRead(pending: map<nat, Pending>, writes: map<nat, (Key, Prim)>) {
    forall p | p in pending :: Read(pending[p], writes)
  }

  ghost predicate SysInv(s: Sys, lim: Limits) {
    && Inv(s.store, lim)
    && Remembered(s.store, s.writes)
    && AllRead(s.pending, s.writes)
    && F.Inv(s.fetch)
  }

  /** What a store action may do to the entries: lose some, or write one. */
  ghost predicate Behaves(s: Store, e: Effect) {
    if e.wrote.Some? then Wrote(s, e.store, e.wrote.value.0, e.wrote.value.1) else Shrinks(s, e.store)
  }

  lemma ReapKeeps(s: Store, key: Key, now: nat, lim: Limits)
    requires Inv(s, lim)
    ensures Inv(Reap(s, key, now), lim) && Shrinks(s, Reap(s, key, now))
  {
    PurgeKeeps(s, {key});
    hide Sound, Capped, Purge;
    if key in s.entries && s.entries[key].Dead(now) { ShrinkingKeepsCaps(s, Purge(s, {key}), lim); }
  }

  lemma ReadsKeep(s: Store, key: Key, now: nat, lim: Limits)
    requires Inv(s, lim)
    ensures Inv(Get(s, key, now).0, lim) && Shrinks(s, Get(s, key, now).0)
    ensures Inv(Lookup(s, key, now).0, lim) && Shrinks(s, Lookup(s, key, now).0)
  {
    ReapKeeps(s, key, now, lim);
    TouchKeeps(s, key);
    hide Sound, Capped, Touch, Reap;
    ShrinkingKeepsCaps(s, Touch(s, key), lim);
  }

  lemma PutBehaves(s: Store, key: Key, value: Option<Prim>, w: Write, now: nat, lim: Limits)
    requires Inv(s, lim)
    ensures
      var e := PutEffect(s, key, value, w, now, lim);
      Inv(e.store, lim) && Behaves(s, e)
  {
    hide Inv, Put, Shrinks, Wrote;
    PutKeeps(s, key, value, w, now, lim);
    var (t, o) := Put(s, key, value, w, now, lim);
    assert PutEffect(s, key, value, w, now, lim).store == t;
    assert o.Stored? && value.Some? ==> PutEffect(s, key, value, w, now, lim).wrote == Some((key, value.value));
  }

  lemma ThroughShrink(s: Store, t: Store, e: Effect)
    requires Shrinks(s, t) && Behaves(t, e)
    ensures Behaves(s, e)
  {
  }

  lemma CasBehaves(s: Store, key: Key, expected: nat, value: Option<Prim>, w: Write, now: nat, lim: Limits)
    requires Inv(s, lim)
    ensures
      var e := CasEffect(s, key, expected, value, w, now, lim);
      Inv(e.store, lim) && Behaves(s, e)
  {
    hide Inv, PutEffect, Reap, VersionAt, Shrinks, Wrote;
    var t := Reap(s, key, now);
    ReapKeeps(s, key, now, lim);
    PutBehaves(t, key, value, w, now, lim);
    ThroughShrink(s, t, PutEffect(t, key, value, w, now, lim));
  }

  lemma CountBehaves(s: Store, key: Key, delta: int, w: Write, now: nat, lim: Limits)
    requires Inv(s, lim)
    ensures
      var e := CountEffect(s, key, delta, w, now, lim);
      Inv(e.store, lim) && Behaves(s, e)
  {
    hide Inv, Put, Reap, ValueAt, Shrinks, Wrote;
    var t := Reap(s, key, now);
    ReapKeeps(s, key, now, lim);
    var cur := ValueAt(s, key, now);
    var base := if cur.Some? && cur.value.Num? then cur.value.n else 0;
    var n := base + delta;
    PutBehaves(t, key, Some(Num(n)), w, now, lim);
    ThroughShrink(s, t, PutEffect(t, key, Some(Num(n)), w, now, lim));
    var (u, r) := Incr(s, key, delta, w, now, lim);
    assert r.NotInteger? || r.Overflow? ==> u == t;
    if r.Counted? || r.NoSpace? {
      var (v, o) := Put(t, key, Some(Num(n)), w, now, lim);
      assert u == v && (o.Stored? <==> r.Counted?);
      assert r.Counted? ==> r.n == n;
      assert CountEffect(s, key, delta, w, now, lim) == PutEffect(t, key, Some(Num(n)), w, now, lim);
    }
  }

  lemma StoreBehaves(s: Sys, a: Act, now: nat, lim: Limits)
    requires Inv(s.store, lim) && Enabled(s, a)
    ensures
      var e := StoreEffect(s, a, now, lim);
      Inv(e.store, lim) && Behaves(s.store, e)
  {
    hide Inv, PutEffect, CasEffect, CountEffect, Reap, Get, Lookup, F.Next, Wrote;
    match a
    case GetKey(key) => ReadsKeep(s.store, key, now, lim);
    case LookUp(key) => ReadsKeep(s.store, key, now, lim);
    case SetKey(key, value, w) => PutBehaves(s.store, key, value, w, now, lim);
    case Increment(key, delta, w) => CountBehaves(s.store, key, delta, w, now, lim);
    case Snapshot(_, key) => ReapKeeps(s.store, key, now, lim);
    case Commit(p, value, w) => CasBehaves(s.store, s.pending[p].key, s.pending[p].version, value, w, now, lim);
    case FetchJoin(key, _, _, _) => ReadsKeep(s.store, key, now, lim);
    case FetchFinish(id, shared, w) =>
      if shared.Loaded? { CasBehaves(s.store, F.KeyOf(s.fetch.chains, id), 0, shared.value, w, now, lim); }
    case InlineStore(key, value, w) => CasBehaves(s.store, key, 0, Some(value), w, now, lim);
    case Flight(_) =>
  }

  lemma MemoryKept(s: Store, e: Effect, writes: map<nat, (Key, Prim)>)
    requires Remembered(s, writes) && Behaves(s, e)
    ensures
      var after := if e.wrote.Some? then writes[e.store.lastVersion := e.wrote.value] else writes;
      && Remembered(e.store, after)
      && (forall v | v in writes :: v in after && after[v] == writes[v])
      && s.lastVersion <= e.store.lastVersion
  {
  }

  lemma SnapshotReads(s: Store, key: Key, now: nat, writes: map<nat, (Key, Prim)>, lim: Limits)
    requires Inv(s, lim) && Remembered(s, writes)
    ensures Read(Pending(key, ValueAt(s, key, now), VersionAt(s, key, now)), writes)
  {
  }

  lemma FetchKept(s: Sys, a: Act, now: nat)
    requires F.Inv(s.fetch) && Enabled(s, a)
    ensures F.Inv(FetchEffect(s, a, now))
  {
    hide F.Inv, F.Next, F.Enabled, Live;
    match a
    case FetchJoin(key, vm, parent, x) =>
      if Live(s.store, key, now).None? { L.StepKeepsInv(s.fetch, F.Join(key, vm, parent, x)); }
    case FetchFinish(id, shared, _) => L.StepKeepsInv(s.fetch, F.Finish(id, shared));
    case Flight(step) => L.StepKeepsInv(s.fetch, step);
    case _ =>
  }

  /** Every action of every caller, at any time, keeps the whole invariant; and
      no write is ever forgotten or its version used again. */
  lemma ActKeepsInv(s: Sys, a: Act, now: nat, lim: Limits)
    requires SysInv(s, lim) && Enabled(s, a)
    ensures SysInv(Next(s, a, now, lim), lim)
    ensures forall v | v in s.writes ::
      v in Next(s, a, now, lim).writes && Next(s, a, now, lim).writes[v] == s.writes[v]
    ensures s.store.lastVersion <= Next(s, a, now, lim).store.lastVersion
  {
    hide F.Inv, Inv, StoreEffect, FetchEffect, Enabled, Remembered, Behaves, ValueAt, VersionAt;
    var e := StoreEffect(s, a, now, lim);
    StoreBehaves(s, a, now, lim);
    MemoryKept(s.store, e, s.writes);
    FetchKept(s, a, now);
    if a.Snapshot? { SnapshotReads(s.store, a.key, now, s.writes, lim); }
  }

  ghost predicate IsRun(ss: seq<Sys>, acts: seq<(Act, nat)>, lim: Limits) {
    && |ss| == |acts| + 1 && ss[0] == START
    && forall i | 0 <= i < |acts| ::
         Enabled(ss[i], acts[i].0) && ss[i + 1] == Next(ss[i], acts[i].0, acts[i].1, lim)
  }

  lemma {:induction false} RunKeepsInv(ss: seq<Sys>, acts: seq<(Act, nat)>, lim: Limits, n: nat)
    requires IsRun(ss, acts, lim) && n < |ss|
    ensures SysInv(ss[n], lim)
  {
    hide SysInv, Next, Enabled;
    if n == 0 {
      StartInv(lim);
    } else {
      RunKeepsInv(ss, acts, lim, n - 1);
      ActKeepsInv(ss[n - 1], acts[n - 1].0, acts[n - 1].1, lim);
    }
  }

  lemma StartInv(lim: Limits)
    ensures SysInv(START, lim)
  {
    hide F.Inv, Inv;
    EmptyInv(lim);
    F.QuietInv();
  }

  // ------------------------------------------------------------------ no ABA

  /** If the version an update read is still current, so is the value (or the
      absence) it read, whatever ran in between: deletes, recreations, expiry. */
  lemma NoAba(s: Sys, p: nat, now: nat, lim: Limits)
    requires SysInv(s, lim) && p in s.pending
    requires VersionAt(s.store, s.pending[p].key, now) == s.pending[p].version
    ensures ValueAt(s.store, s.pending[p].key, now) == s.pending[p].read
  {
    hide F.Inv, Capped, Indexed, Measured, Bounded;
    assert Read(s.pending[p], s.writes);
  }

  /** One atomic application of `f` to the live value. */
  ghost function Applied(s: Store, key: Key, f: Option<Prim> -> Option<Prim>, w: Write, now: nat, lim: Limits)
    : (Store, Outcome)
  {
    Put(Reap(s, key, now), key, f(ValueAt(s, key, now)), w, now, lim)
  }

  /** An update that commits is one atomic application of its function, at the
      moment of the commit; one that lost a race changes no fresh entry. */
  lemma UpdateIsAtomic(s: Sys, p: nat, f: Option<Prim> -> Option<Prim>, w: Write, now: nat, lim: Limits)
    requires SysInv(s, lim) && p in s.pending
    ensures
      var x := s.pending[p];
      var (t, r) := CompareAndSet(s.store, x.key, x.version, f(x.read), w, now, lim);
      && t == Next(s, Commit(p, f(x.read), w), now, lim).store
      && (if VersionAt(s.store, x.key, now) == x.version
          then (t, if r.NoRoom? then Full else Stored) == Applied(s.store, x.key, f, w, now, lim)
          else r.Differs? && t == Reap(s.store, x.key, now))
  {
    hide SysInv, Put, Reap, VersionAt, ValueAt;
    if VersionAt(s.store, s.pending[p].key, now) == s.pending[p].version {
      NoAba(s, p, now, lim);
    }
  }

  /** What a finishing leader (or an inline load) stores never replaces a fresh
      value that was written while its loader ran. */
  lemma FetchNeverOverwritesFresh(s: Store, key: Key, shared: F.Shared, w: Write, now: nat, lim: Limits)
    requires Inv(s, lim) && Live(s, key, now).Some?
    ensures FinishEffect(s, key, shared, w, now, lim) == Effect(s, None)
    ensures forall v :: CasEffect(s, key, 0, Some(v), w, now, lim) == Effect(s, None)
  {
    hide Capped, Indexed, Measured, Bounded;
    assert 1 <= s.entries[key].version;
  }

  // ------------------------------------------------------- pinned entries

  /** The key an action may write. */
  function Target(s: Sys, a: Act): Option<Key>
    requires Enabled(s, a)
  {
    match a
    case SetKey(key, _, _) => Some(key)
    case Increment(key, _, _) => Some(key)
    case Commit(p, _, _) => Some(s.pending[p].key)
    case FetchFinish(id, _, _) => Some(F.KeyOf(s.fetch.chains, id))
    case InlineStore(key, _, _) => Some(key)
    case _ => None
  }

  predicate PinnedAt(s: Store, k: Key) { k in s.entries && !s.entries[k].evictable && s.entries[k].expires.None? }

  lemma PutSparesPinned(s: Store, key: Key, value: Option<Prim>, w: Write, now: nat, lim: Limits, k: Key)
    requires Inv(s, lim) && PinnedAt(s, k) && k != key
    ensures PinnedAt(Put(s, key, value, w, now, lim).0, k)
    ensures Put(s, key, value, w, now, lim).0.entries[k] == s.entries[k]
  {
    hide Indexed, Versioned, Measured, Bounded, Capped, PutValue;
    if value.Some? { PutSparesFresh(s, key, value.value, w, now, lim); }
  }

  lemma ReapSparesPinned(s: Store, key: Key, now: nat, k: Key)
    requires PinnedAt(s, k)
    ensures PinnedAt(Reap(s, key, now), k) && Reap(s, key, now).entries[k] == s.entries[k]
    ensures PinnedAt(Touch(s, key), k) && Touch(s, key).entries[k] == s.entries[k]
  {
  }

  lemma ActSparesPinned(s: Sys, a: Act, now: nat, lim: Limits, k: Key)
    requires SysInv(s, lim) && Enabled(s, a) && PinnedAt(s.store, k) && Target(s, a) != Some(k)
    ensures PinnedAt(Next(s, a, now, lim).store, k)
    ensures Next(s, a, now, lim).store.entries[k] == s.store.entries[k]
  {
    hide F.Inv, Inv, Put, Reap, Touch, F.Next, F.Enabled, Live, Remembered, AllRead;
    var t := Target(s, a);
    var key := match a
      case GetKey(key) => key
      case LookUp(key) => key
      case Snapshot(_, key) => key
      case FetchJoin(key, _, _, _) => key
      case _ => if t.Some? then t.value else k;
    ReapSparesPinned(s.store, key, now, k);
    ReapKeeps(s.store, key, now, lim);
    if key != k {
      forall value, w { PutSparesPinned(s.store, key, value, w, now, lim, k); }
      forall value, w { PutSparesPinned(Reap(s.store, key, now), key, value, w, now, lim, k); }
    }
  }

  /** Over any run, a non-evictable entry with no expiry keeps its value and its
      version until an action targets its own key. */
  lemma {:induction false} PinnedSurvives(ss: seq<Sys>, acts: seq<(Act, nat)>, lim: Limits, m: nat, n: nat, k: Key)
    requires IsRun(ss, acts, lim) && m <= n < |ss| && PinnedAt(ss[m].store, k)
    requires forall i | m <= i < n :: Target(ss[i], acts[i].0) != Some(k)
    ensures PinnedAt(ss[n].store, k) && ss[n].store.entries[k] == ss[m].store.entries[k]
    decreases n - m
  {
    hide SysInv, Next, Enabled, Target, PinnedAt;
    if m < n {
      RunKeepsInv(ss, acts, lim, m);
      ActSparesPinned(ss[m], acts[m].0, acts[m].1, lim, k);
      PinnedSurvives(ss, acts, lim, m + 1, n, k);
    }
  }
}
