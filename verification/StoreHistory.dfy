/** What the store remembers of a run: the recency list is the order of last use,
    and `earliest` bounds exactly the entries that had not expired when the store
    was last scanned for expired ones. */
module StoreHistory {
  import opened Prelude
  import opened Recency
  import opened StateSpec
  import opened StateLaws
  import opened SharedState
  import opened WaitGraph

  // -------------------------------------------------- what an action does

  /** An action on the store, reduced to what it does: nothing, use a fresh entry,
      reap a dead one, delete, or try to write from the store `from`. */
  datatype Deed =
    | Idle
    | Use(key: Key)
    | Reaping(key: Key)
    | Delete(from: Store, key: Key)
    | Writing(from: Store, key: Key, value: Prim, w: Write)

  function PutDeed(s: Store, key: Key, value: Option<Prim>, w: Write): Deed {
    match value case None => Delete(s, key) case Some(v) => Writing(s, key, v, w)
  }

  function ReadDeed(s: Store, key: Key, now: nat): Deed {
    if Live(s, key, now).Some? then Use(key) else Reaping(key)
  }

  function CasDeed(s: Store, key: Key, expected: nat, value: Option<Prim>, w: Write, now: nat): Deed {
    if VersionAt(s, key, now) != expected then Reaping(key) else PutDeed(Reap(s, key, now), key, value, w)
  }

  function CountDeed(s: Store, key: Key, delta: int, w: Write, now: nat): Deed {
    var cur := ValueAt(s, key, now);
    if cur.Some? && !cur.value.Num? then Reaping(key) else
      var base := if cur.Some? then cur.value.n else 0;
      if !(I64_MIN <= base <= I64_MAX) || !(I64_MIN <= base + delta <= I64_MAX) then Reaping(key)
      else Writing(Reap(s, key, now), key, Num(base + delta), w)
  }

  function DeedOf(s: Sys, a: Act, now: nat): Deed
    requires Enabled(s, a)
  {
    match a
    case GetKey(key) => ReadDeed(s.store, key, now)
    case LookUp(key) => ReadDeed(s.store, key, now)
    case SetKey(key, value, w) => PutDeed(s.store, key, value, w)
    case Increment(key, delta, w) => CountDeed(s.store, key, delta, w, now)
    case Snapshot(_, key) => Reaping(key)
    case Commit(p, value, w) => CasDeed(s.store, s.pending[p].key, s.pending[p].version, value, w, now)
    case FetchJoin(key, _, _, _) => ReadDeed(s.store, key, now)
    case FetchFinish(id, shared, w) =>
      if shared.Loaded? && shared.value.Some?
      then CasDeed(s.store, F.KeyOf(s.fetch.chains, id), 0, shared.value, w, now)
      else Idle
    case InlineStore(key, value, w) => CasDeed(s.store, key, 0, Some(value), w, now)
    case Flight(_) => Idle
  }

  ghost function Done(s: Store, d: Deed, now: nat, lim: Limits): Store {
    match d
    case Idle => s
    case Use(key) => Touch(s, key)
    case Reaping(key) => Reap(s, key, now)
    case Delete(from, key) => Purge(from, {key})
    case Writing(from, key, value, w) => PutValue(from, key, value, w, now, lim).0
  }

  /** What a write starts from: the store as it is, or with its own key reaped. */
  predicate StartsHere(s: Store, d: Deed, now: nat) {
    match d
    case Delete(from, key) => from == s || from == Reap(s, key, now)
    case Writing(from, key, _, _) => from == s || from == Reap(s, key, now)
    case _ => true
  }

  lemma DeedsAreEffects(s: Sys, a: Act, now: nat, lim: Limits)
    requires Enabled(s, a)
    ensures StoreEffect(s, a, now, lim).store == Done(s.store, DeedOf(s, a, now), now, lim)
    ensures StartsHere(s.store, DeedOf(s, a, now), now)
  {
    hide PutValue, Reap, Touch, Live, Purge, F.Next, F.Enabled, SizeOf;
    match a
    case LookUp(key) => LookupIsRead(s.store, key, now, lim);
    case _ =>
  }

  lemma LookupIsRead(s: Store, key: Key, now: nat, lim: Limits)
    ensures Lookup(s, key, now).0 == Done(s, ReadDeed(s, key, now), now, lim)
  {
  }

  // ------------------------------------------------------------ order of use

  /** The key a deed uses: one it reads fresh, or writes. */
  ghost function UsedBy(d: Deed, now: nat, lim: Limits): Option<Key> {
    match d
    case Use(key) => Some(key)
    case Writing(from, key, value, w) =>
      if PutValue(from, key, value, w, now, lim).1.Stored? then Some(key) else None
    case _ => None
  }

  /** When, in actions counted from 1, the run last used `k`; 0 if it never did. */
  ghost function LastUsed(ss: seq<Sys>, acts: seq<(Act, nat)>, lim: Limits, n: nat, k: Key): nat
    requires IsRun(ss, acts, lim) && n <= |acts|
  {
    if n == 0 then 0
    else if UsedBy(DeedOf(ss[n - 1], acts[n - 1].0, acts[n - 1].1), acts[n - 1].1, lim) == Some(k) then n
    else LastUsed(ss, acts, lim, n - 1, k)
  }

  lemma {:induction false} LastUsedBefore(ss: seq<Sys>, acts: seq<(Act, nat)>, lim: Limits, n: nat, k: Key)
    requires IsRun(ss, acts, lim) && n <= |acts|
    ensures LastUsed(ss, acts, lim, n, k) <= n
  {
    hide IsRun, UsedBy, DeedOf;
    if n > 0 { LastUsedBefore(ss, acts, lim, n - 1, k); }
  }

  ghost predicate UsesCount(d: Deed, now: nat, lim: Limits, used: Key -> nat, after: Key -> nat) {
    forall k ::
      if UsedBy(d, now, lim) == Some(k) then forall j :: j != k ==> used(j) < after(k)
      else after(k) == used(k)
  }

  lemma ShrunkInOrder(s: Store, key: Key, now: nat, used: Key -> nat)
    requires InOrderOf(s.lru, used)
    ensures InOrderOf(Reap(s, key, now).lru, used) && InOrderOf(Purge(s, {key}).lru, used)
    ensures InOrderOf(Sweep(s, now).lru, used) && InOrderOf(DropExpired(s, now).lru, used)
  {
    WithoutInOrder(s.lru, {key}, used);
    WithoutInOrder(s.lru, DeadKeys(s.entries, now), used);
    WithoutInOrder(s.lru, ExpiredKeys(s.entries, now), used);
    hide InOrderOf, Without;
  }

  /** A write, in the recency list: some go, and the written key, if listed, is last. */
  lemma PutInOrder(s: Store, key: Key, value: Prim, w: Write, now: nat, lim: Limits, used: Key -> nat,
                   after: Key -> nat)
    requires Sound(s) && InOrderOf(s.lru, used)
    requires UsesCount(Writing(s, key, value, w), now, lim, used, after)
    ensures InOrderOf(PutValue(s, key, value, w, now, lim).0.lru, after)
  {
    hide FitsAfter, Over, Sound, Live, MetaFor, SizeOf, PutValue, InOrderOf, DropExpired, Sweep, Reap, Others, Elems,
      Without;
    var q, size := Prepared(s, key, now), SizeOf(key, value);
    var p := Purged(s, key, size, now, lim);
    PutInParts(s, key, value, w, now, lim);
    ShrunkInOrder(s, key, now, used);
    ShrunkInOrder(Sweep(s, now), key, now, used);
    ShrunkInOrder(q, key, now, used);
    var (t, o) := PutValue(s, key, value, w, now, lim);
    if o.Full? {
      SameInOrder(t.lru, used, after);
    } else {
      var n := Victims(p, key, size, lim, 0).value;
      var gone := Elems(Others(p, key)[..n]);
      WithoutInOrder(p.lru, gone, used);
      var left := Without(p.lru, gone);
      PushInOrder(left, key, used, after);
      WithoutInOrder(left, {key}, used);
      WithoutMembers(left, {key});
      SameInOrder(Without(left, {key}), used, after);
      assert Without(left, {key}) + [] == Without(left, {key});
    }
  }

  lemma DeedInOrder(s: Store, d: Deed, now: nat, lim: Limits, used: Key -> nat, after: Key -> nat)
    requires Sound(s) && InOrderOf(s.lru, used) && StartsHere(s, d, now) && UsesCount(d, now, lim, used, after)
    ensures InOrderOf(Done(s, d, now, lim).lru, after)
  {
    hide Sound, InOrderOf, PutValue, Reap, Purge, Without;
    match d
    case Idle => SameInOrder(s.lru, used, after);
    case Use(key) =>
      PushInOrder(s.lru, key, used, after);
      if key !in s.entries || !s.entries[key].evictable {
        NotListed(s, key);
        SameInOrder(s.lru, used, after);
      }
    case Reaping(key) =>
      ShrunkInOrder(s, key, now, used);
      SameInOrder(Reap(s, key, now).lru, used, after);
    case Delete(from, key) =>
      ShrunkInOrder(s, key, now, used);
      ShrunkInOrder(from, key, now, used);
      SameInOrder(Purge(from, {key}).lru, used, after);
    case Writing(from, key, value, w) =>
      ShrunkInOrder(s, key, now, used);
      ReapIsSound(s, key, now);
      PutInOrder(from, key, value, w, now, lim, used, after);
  }

  lemma NotListed(s: Store, key: Key)
    requires Sound(s) && (key !in s.entries || !s.entries[key].evictable)
    ensures key !in s.lru
  {
  }

  lemma ReapIsSound(s: Store, key: Key, now: nat)
    requires Sound(s)
    ensures Sound(Reap(s, key, now))
  {
    PurgeKeeps(s, {key});
    hide Sound;
  }

  /** The run's uses up to action `n`. */
  ghost function Uses(ss: seq<Sys>, acts: seq<(Act, nat)>, lim: Limits, n: nat): (f: Key -> nat)
    requires IsRun(ss, acts, lim) && n <= |acts|
    ensures forall k :: f(k) == LastUsed(ss, acts, lim, n, k)
  {
    k => LastUsed(ss, acts, lim, n, k)
  }

  lemma OneMoreUse(ss: seq<Sys>, acts: seq<(Act, nat)>, lim: Limits, n: nat)
    requires IsRun(ss, acts, lim) && 0 < n <= |acts|
    ensures Enabled(ss[n - 1], acts[n - 1].0)
    ensures UsesCount(DeedOf(ss[n - 1], acts[n - 1].0, acts[n - 1].1), acts[n - 1].1, lim,
                      Uses(ss, acts, lim, n - 1), Uses(ss, acts, lim, n))
  {
    assert Enabled(ss[n - 1], acts[n - 1].0);
    hide IsRun, UsedBy, DeedOf, Enabled, Uses;
    var used := Uses(ss, acts, lim, n - 1);
    forall k ensures used(k) < n {
      LastUsedBefore(ss, acts, lim, n - 1, k);
    }
  }

  /** Over every run the recency list holds exactly the evictable entries, in the
      order of their last get, lookup, join or write. */
  lemma {:induction false} ListIsOrderOfUse(ss: seq<Sys>, acts: seq<(Act, nat)>, lim: Limits, n: nat)
    requires IsRun(ss, acts, lim) && n < |ss|
    ensures forall k :: k in ss[n].store.lru <==> k in ss[n].store.entries && ss[n].store.entries[k].evictable
    ensures InOrderOf(ss[n].store.lru, Uses(ss, acts, lim, n))
  {
    hide *;
    RunKeepsInv(ss, acts, lim, n);
    SysSound(ss[n], lim);
    RunLength(ss, acts, lim, n);
    if n == 0 {
      NoneInOrder(Uses(ss, acts, lim, 0));
    } else {
      ListIsOrderOfUse(ss, acts, lim, n - 1);
      StillInOrder(ss, acts, lim, n);
    }
  }

  lemma NoneInOrder(used: Key -> nat)
    ensures InOrderOf(EMPTY.lru, used)
  {
  }

  lemma StillInOrder(ss: seq<Sys>, acts: seq<(Act, nat)>, lim: Limits, n: nat)
    requires IsRun(ss, acts, lim) && 0 < n < |ss| && n <= |acts|
    requires InOrderOf(ss[n - 1].store.lru, Uses(ss, acts, lim, n - 1))
    ensures InOrderOf(ss[n].store.lru, Uses(ss, acts, lim, n))
  {
    hide *;
    RunKeepsInv(ss, acts, lim, n - 1);
    SysSound(ss[n - 1], lim);
    OneMoreUse(ss, acts, lim, n);
    RunStep(ss, acts, lim, n);
    var s, a, now := ss[n - 1], acts[n - 1].0, acts[n - 1].1;
    DeedsAreEffects(s, a, now, lim);
    DeedInOrder(s.store, DeedOf(s, a, now), now, lim, Uses(ss, acts, lim, n - 1), Uses(ss, acts, lim, n));
  }

  lemma RunLength(ss: seq<Sys>, acts: seq<(Act, nat)>, lim: Limits, n: nat)
    requires IsRun(ss, acts, lim) && n < |ss|
    ensures n <= |acts| && (n == 0 ==> ss[n].store == EMPTY)
  {
    hide Next, Enabled;
  }

  lemma RunStep(ss: seq<Sys>, acts: seq<(Act, nat)>, lim: Limits, n: nat)
    requires IsRun(ss, acts, lim) && 0 < n < |ss|
    ensures n <= |acts| && Enabled(ss[n - 1], acts[n - 1].0)
    ensures ss[n].store == StoreEffect(ss[n - 1], acts[n - 1].0, acts[n - 1].1, lim).store
  {
    assert ss[n - 1 + 1] == Next(ss[n - 1], acts[n - 1].0, acts[n - 1].1, lim);
    hide StoreEffect, FetchEffect, PendingEffect, Enabled;
  }

  lemma SysSound(s: Sys, lim: Limits)
    requires SysInv(s, lim)
    ensures Sound(s.store) && forall k :: k in s.store.lru <==> k in s.store.entries && s.store.entries[k].evictable
  {
    hide F.Inv;
  }

  // ------------------------------------------------------- expiry, lazily

  /** Does a write from `from` look for expired entries? */
  ghost predicate Scans(from: Store, key: Key, value: Prim, now: nat, lim: Limits) {
    && !(lim.maxBytes != 0 && SizeOf(key, value) > lim.maxBytes)
    && Over(Prepared(from, key, now), key, SizeOf(key, value), lim)
    && from.earliest.Some? && from.earliest.value <= now
  }

  ghost function ScanAfter(d: Deed, now: nat, lim: Limits, scan: Option<nat>): Option<nat> {
    if d.Writing? && Scans(d.from, d.key, d.value, now, lim) then Some(now) else scan
  }

  /** When the run last scanned the store for expired entries. */
  ghost function LastScan(ss: seq<Sys>, acts: seq<(Act, nat)>, lim: Limits, n: nat): Option<nat>
    requires IsRun(ss, acts, lim) && n <= |acts|
  {
    if n == 0 then None else
      ScanAfter(DeedOf(ss[n - 1], acts[n - 1].0, acts[n - 1].1), acts[n - 1].1, lim, LastScan(ss, acts, lim, n - 1))
  }

  predicate BoundsAt(s: Store, k: Key)
    requires k in s.entries && s.entries[k].expires.Some?
  {
    s.earliest.Some? && s.earliest.value <= s.entries[k].expires.value
  }

  /** Had `k` expired by the last scan? */
  predicate Passed(s: Store, k: Key, scan: Option<nat>)
    requires k in s.entries && s.entries[k].expires.Some?
  {
    scan.Some? && s.entries[k].expires.value <= scan.value
  }

  /** `earliest` bounds every entry that is evictable or had not expired at the last
      scan. */
  ghost predicate ScanBound(s: Store, scan: Option<nat>) {
    forall k | k in s.entries && s.entries[k].expires.Some? && (s.entries[k].evictable || !Passed(s, k, scan)) ::
      BoundsAt(s, k)
  }

  /** And lies after that scan. */
  predicate Ahead(s: Store, scan: Option<nat>) {
    scan.Some? && s.earliest.Some? ==> scan.value < s.earliest.value
  }

  lemma FewerBound(s: Store, t: Store, scan: Option<nat>)
    requires ScanBound(s, scan) && Shrinks(s, t) && t.earliest == s.earliest
    ensures ScanBound(t, scan) && (Ahead(s, scan) ==> Ahead(t, scan))
  {
  }

  /** A scan leaves a mark that bounds all that had not expired. */
  lemma ScanningBounds(s: Store, now: nat, scan: Option<nat>)
    requires ScanBound(s, scan)
    ensures
      var t := DropExpired(s, now);
      var after := if s.earliest.Some? && s.earliest.value <= now then Some(now) else scan;
      ScanBound(t, after) && (Ahead(s, scan) ==> Ahead(t, after))
  {
    if s.earliest.Some? && s.earliest.value <= now {
      var t := DropExpired(s, now);
      hide Without;
      forall k | k in t.entries && t.entries[k].expires.Some? && (t.entries[k].evictable || !Passed(t, k, Some(now)))
        ensures BoundsAt(t, k)
      {
        assert now < t.entries[k].expires.value;
        assert t.entries[k].expires.value in FutureExpiries(t.entries, now);
      }
    }
  }

  lemma MetaAhead(s: Store, key: Key, w: Write, now: nat)
    ensures
      var meta := MetaFor(Live(s, key, now), w, now);
      meta.expires.Some? ==> now < meta.expires.value
  {
  }

  lemma InsertBound(s: Store, key: Key, value: Prim, meta: Meta, size: nat, scan: Option<nat>)
    requires ScanBound(s, scan)
    ensures ScanBound(Insert(s, key, value, meta, size), scan)
    ensures
      Ahead(s, scan) && (scan.Some? && meta.expires.Some? ==> scan.value < meta.expires.value)
      ==> Ahead(Insert(s, key, value, meta, size), scan)
  {
    hide Without;
  }

  predicate By(scan: Option<nat>, now: nat) { scan.Some? ==> scan.value <= now }

  lemma PutBound(s: Store, key: Key, value: Prim, w: Write, now: nat, lim: Limits, scan: Option<nat>)
    requires Sound(s) && ScanBound(s, scan)
    ensures
      var t := PutValue(s, key, value, w, now, lim).0;
      var after := ScanAfter(Writing(s, key, value, w), now, lim, scan);
      ScanBound(t, after) && (Ahead(s, scan) && By(scan, now) ==> Ahead(t, after))
  {
    hide FitsAfter, Over, Sound, Live, MetaFor, SizeOf, PutValue, Prepared, Others, DropExpired, Shrinks, Insert, Evict,
      ScanBound;
    var q, size := Prepared(s, key, now), SizeOf(key, value);
    PutInParts(s, key, value, w, now, lim);
    PreparingChanges(s, key, now);
    FewerBound(s, q, scan);
    if lim.maxBytes == 0 || size <= lim.maxBytes {
      ScanningBounds(q, now, scan);
      var p, after := Purged(s, key, size, now, lim), ScanAfter(Writing(s, key, value, w), now, lim, scan);
      assert ScanBound(p, after) && (Ahead(s, scan) ==> Ahead(p, after));
      MetaAhead(q, key, w, now);
      if Victims(p, key, size, lim, 0).Some? {
        var n := Victims(p, key, size, lim, 0).value;
        EvictShrinks(p, key, n);
        FewerBound(p, Evict(p, key, n), after);
        InsertBound(Evict(p, key, n), key, value, MetaFor(Live(q, key, now), w, now), size, after);
      }
    }
  }

  lemma EvictShrinks(s: Store, key: Key, n: nat)
    requires n <= |Others(s, key)|
    ensures Shrinks(s, Evict(s, key, n)) && Evict(s, key, n).earliest == s.earliest
  {
    hide Without, Others;
  }

  lemma DeedBound(s: Store, d: Deed, now: nat, lim: Limits, scan: Option<nat>)
    requires Sound(s) && ScanBound(s, scan) && StartsHere(s, d, now)
    ensures
      var t, after := Done(s, d, now, lim), ScanAfter(d, now, lim, scan);
      ScanBound(t, after) && (Ahead(s, scan) && By(scan, now) ==> Ahead(t, after) && By(after, now))
  {
    hide Sound, PutValue, Without, ScanBound, Shrinks, Scans;
    ReapShrinks(s, d, now);
    match d
    case Idle =>
    case Use(key) => FewerBound(s, Touch(s, key), scan);
    case Reaping(key) => FewerBound(s, Reap(s, key, now), scan);
    case Delete(from, key) =>
      FewerBound(s, from, scan);
      FewerBound(from, Purge(from, {key}), scan);
    case Writing(from, key, value, w) =>
      ReapIsSound(s, key, now);
      FewerBound(s, from, scan);
      PutBound(from, key, value, w, now, lim, scan);
  }

  lemma ReapShrinks(s: Store, d: Deed, now: nat)
    requires StartsHere(s, d, now)
    ensures d.Use? ==> Shrinks(s, Touch(s, d.key)) && Touch(s, d.key).earliest == s.earliest
    ensures d.Reaping? ==> Shrinks(s, Reap(s, d.key, now)) && Reap(s, d.key, now).earliest == s.earliest
    ensures d.Delete? ==> Shrinks(s, d.from) && d.from.earliest == s.earliest && Shrinks(d.from, Purge(d.from, {d.key}))
    ensures d.Writing? ==> Shrinks(s, d.from) && d.from.earliest == s.earliest
  {
    hide Without;
  }

  /** Over every run, `earliest` bounds every entry that is evictable or had not
      expired when the store was last scanned. */
  lemma {:induction false} RunKeepsScanBound(ss: seq<Sys>, acts: seq<(Act, nat)>, lim: Limits, n: nat)
    requires IsRun(ss, acts, lim) && n < |ss|
    ensures ScanBound(ss[n].store, LastScan(ss, acts, lim, n))
    ensures Clock(acts) ==> Ahead(ss[n].store, LastScan(ss, acts, lim, n))
    ensures Clock(acts) && n > 0 ==> By(LastScan(ss, acts, lim, n), acts[n - 1].1)
  {
    hide *;
    RunLength(ss, acts, lim, n);
    ScanStep(ss, acts, lim, n);
    if n == 0 {
      NothingScanned();
    } else {
      RunKeepsScanBound(ss, acts, lim, n - 1);
      ScanStep(ss, acts, lim, n - 1);
      RunKeepsInv(ss, acts, lim, n - 1);
      SysSound(ss[n - 1], lim);
      RunStep(ss, acts, lim, n);
      var s, a, now := ss[n - 1], acts[n - 1].0, acts[n - 1].1;
      var scan := LastScan(ss, acts, lim, n - 1);
      DeedsAreEffects(s, a, now, lim);
      DeedBound(s.store, DeedOf(s, a, now), now, lim, scan);
      StillBy(acts, n, scan);
    }
  }

  lemma ScanStep(ss: seq<Sys>, acts: seq<(Act, nat)>, lim: Limits, n: nat)
    requires IsRun(ss, acts, lim) && n <= |acts|
    ensures n == 0 ==> LastScan(ss, acts, lim, n) == None
    ensures n > 0 ==> Enabled(ss[n - 1], acts[n - 1].0)
    ensures n > 0 ==>
      var (a, now) := acts[n - 1];
      LastScan(ss, acts, lim, n) == ScanAfter(DeedOf(ss[n - 1], a, now), now, lim, LastScan(ss, acts, lim, n - 1))
  {
    assert n > 0 ==> Enabled(ss[n - 1], acts[n - 1].0);
    hide Enabled, Next, DeedOf, ScanAfter;
  }

  lemma NothingScanned()
    ensures ScanBound(EMPTY, None) && Ahead(EMPTY, None)
  {
  }

  /** The clock never runs back. */
  predicate Clock(acts: seq<(Act, nat)>) { forall i, j | 0 <= i <= j < |acts| :: acts[i].1 <= acts[j].1 }

  lemma StillBy(acts: seq<(Act, nat)>, n: nat, scan: Option<nat>)
    requires 0 < n <= |acts| && (Clock(acts) && n > 1 ==> By(scan, acts[n - 2].1)) && (n == 1 ==> scan.None?)
    ensures Clock(acts) ==> By(scan, acts[n - 1].1)
  {
  }

  /** So a scan that is skipped leaves expired only entries that are not evictable
      and had already expired at the last scan. */
  lemma SkippedScanLeavesOldOnly(ss: seq<Sys>, acts: seq<(Act, nat)>, lim: Limits, n: nat, now: nat, k: Key)
    requires IsRun(ss, acts, lim) && n < |ss| && k in ss[n].store.entries && ss[n].store.entries[k].Expired(now)
    requires ss[n].store.earliest.None? || ss[n].store.earliest.value > now
    ensures !ss[n].store.entries[k].evictable && Passed(ss[n].store, k, LastScan(ss, acts, lim, n))
  {
    RunLength(ss, acts, lim, n);
    hide IsRun, LastScan;
    RunKeepsScanBound(ss, acts, lim, n);
  }

  /** On a clock that never runs back, `earliest` bounds every entry if and only if
      none is left that had expired at the last scan. */
  lemma EarliestIsExact(ss: seq<Sys>, acts: seq<(Act, nat)>, lim: Limits, n: nat)
    requires IsRun(ss, acts, lim) && n < |ss| && Clock(acts)
    ensures
      var s, scan := ss[n].store, LastScan(ss, acts, lim, n);
      (forall k | k in s.entries && s.entries[k].expires.Some? :: BoundsAt(s, k))
      <==> (forall k | k in s.entries && s.entries[k].expires.Some? :: !Passed(s, k, scan))
  {
    RunLength(ss, acts, lim, n);
    hide IsRun, LastScan, Clock;
    RunKeepsScanBound(ss, acts, lim, n);
  }

  // A fetch stores an evictable entry with a stale window; incrementing it pins it, with
  // its expiry and window kept; once it is stale, a set that finds no room scans past it.

  const ONE_ENTRY := Limits(1, 0)
  const BY_FETCH := Write(After(1), Some(true), Some(1_000_000))
  const PINNING := Write(Keep, Some(false), None)

  const PINNED_THEN_STALE: seq<(Act, nat)> := [
    (LookUp(SMALL_KEY), 0),
    (FetchJoin(SMALL_KEY, 0, None, 0), 0),
    (FetchFinish(1, F.Loaded(Some(Num(0))), BY_FETCH), 0),
    (Increment(SMALL_KEY, 1, PINNING), 0),
    (SetKey(OTHER_KEY, Some(Bool(true)), BRIEFLY), 5)]

  /** Could a caller give this write? `fetch` alone gives a stale window, and its
      entries are evictable; only a counter or an update keeps an expiry. */
  predicate Issued(a: Act) {
    match a
    case SetKey(_, _, w) => (w.expiry.Clear? || w.expiry.After?) && w.evictable.Some? && w.staleMs.None?
    case Increment(_, _, w) => !w.expiry.Clear? && w.staleMs.None?
    case Commit(_, _, w) => !w.expiry.AfterIfUnset? && w.staleMs.None?
    case FetchFinish(_, _, w) => w.expiry.After? && w.evictable == Some(true)
    case InlineStore(_, _, w) => w.expiry.After? && w.evictable == Some(true)
    case _ => true
  }

  /** There is a run of calls after which `earliest` misses an entry that expires. */
  lemma EarliestMayMissStale()
    ensures forall i | 0 <= i < |PINNED_THEN_STALE| :: Issued(PINNED_THEN_STALE[i].0)
    ensures exists ss: seq<Sys> ::
      && IsRun(ss, PINNED_THEN_STALE, ONE_ENTRY)
      && SMALL_KEY in ss[5].store.entries && ss[5].store.entries[SMALL_KEY].expires == Some(1)
      && ss[5].store.earliest.None?
  {
    var ss := PinnedRun();
    forall i | 0 <= i < |PINNED_THEN_STALE| ensures Issued(PINNED_THEN_STALE[i].0) { hide IsRun; }
    hide *;
    OneBriefHolds();
    assert ss[5].store.earliest.None?;
  }

  lemma PinnedRun() returns (ss: seq<Sys>)
    ensures IsRun(ss, PINNED_THEN_STALE, ONE_ENTRY) && |ss| == 6
    ensures ss[5].store == OneBrief(Num(1), 2, Some(1_000_000), false).(earliest := None)
  {
    ss := Pinned(PINNED_THEN_STALE[..4]);
    assert PINNED_THEN_STALE[..5] == PINNED_THEN_STALE && PINNED_THEN_STALE[..4][..4] == PINNED_THEN_STALE[..4];
    hide *;
    ScannedPast(ss[4]);
    ss := RunOn(ss, PINNED_THEN_STALE, 4, ONE_ENTRY);
  }

  lemma Pinned(acts: seq<(Act, nat)>) returns (ss: seq<Sys>)
    requires acts == PINNED_THEN_STALE[..4]
    ensures IsRun(ss, acts, ONE_ENTRY) && |ss| == 5
    ensures ss[4].store == OneBrief(Num(1), 2, Some(1_000_000), false)
  {
    assert acts[0] == (LookUp(SMALL_KEY), 0) && acts[1] == (FetchJoin(SMALL_KEY, 0, None, 0), 0);
    assert acts[2] == (FetchFinish(1, F.Loaded(Some(Num(0))), BY_FETCH), 0);
    assert acts[3] == (Increment(SMALL_KEY, 1, PINNING), 0) && acts[..4] == acts;
    hide *;
    RunOfNone(acts, ONE_ENTRY);
    NothingYet(ONE_ENTRY);
    ss := RunOn([START], acts, 0, ONE_ENTRY);
    LeadFirst(ONE_ENTRY);
    ss := RunOn(ss, acts, 1, ONE_ENTRY);
    LoadedFirst(ss[2], ONE_ENTRY);
    ss := RunOn(ss, acts, 2, ONE_ENTRY);
    PinnedNext(ss[3]);
    ss := RunOn(ss, acts, 3, ONE_ENTRY);
  }

  lemma OneBriefHolds()
    ensures
      var s := OneBrief(Num(1), 2, Some(1_000_000), false);
      SMALL_KEY in s.entries && s.entries[SMALL_KEY].expires == Some(1)
  {
  }

  lemma RunOfNone(acts: seq<(Act, nat)>, lim: Limits)
    ensures IsRun([START], acts[..0], lim)
  {
    hide Next, Enabled;
  }

  /** A run goes on with its next action. */
  lemma RunOn(ss: seq<Sys>, acts: seq<(Act, nat)>, n: nat, lim: Limits) returns (more: seq<Sys>)
    requires n < |acts| && IsRun(ss, acts[..n], lim) && Enabled(ss[n], acts[n].0)
    ensures more == ss + [Next(ss[n], acts[n].0, acts[n].1, lim)]
    ensures IsRun(more, acts[..n + 1], lim) && |more| == n + 2 && more[n + 1] == Next(ss[n], acts[n].0, acts[n].1, lim)
  {
    hide Next, Enabled;
    more := ss + [Next(ss[n], acts[n].0, acts[n].1, lim)];
  }

  lemma NothingYet(lim: Limits)
    ensures Enabled(START, LookUp(SMALL_KEY)) && Next(START, LookUp(SMALL_KEY), 0, lim) == START
  {
  }

  lemma LeadFirst(lim: Limits)
    ensures
      var a := FetchJoin(SMALL_KEY, 0, None, 0);
      && Enabled(START, a)
      && var s := Next(START, a, 0, lim);
         s.store == EMPTY && 1 in s.fetch.guards && 1 in s.fetch.chains && s.fetch.chains[1] == [Link(SMALL_KEY, 1)]
  {
    assert [Link(SMALL_KEY, 1)] + [] == [Link(SMALL_KEY, 1)];
  }

  lemma LoadedFirst(s: Sys, lim: Limits)
    requires s.store == EMPTY && 1 in s.fetch.guards && 1 in s.fetch.chains
    requires s.fetch.chains[1] == [Link(SMALL_KEY, 1)] && lim == ONE_ENTRY
    ensures
      var a := FetchFinish(1, F.Loaded(Some(Num(0))), BY_FETCH);
      Enabled(s, a) && Next(s, a, 0, lim).store == OneBrief(Num(0), 1, Some(1_000_000), true)
  {
    LoadedOnce(lim);
    hide CasEffect, OneBrief, FetchEffect, PendingEffect;
  }

  lemma LoadedOnce(lim: Limits)
    requires lim == ONE_ENTRY
    ensures
      CasEffect(EMPTY, SMALL_KEY, 0, Some(Num(0)), BY_FETCH, 0, lim).store == OneBrief(Num(0), 1, Some(1_000_000), true)
  {
    FirstPut(Num(0), BY_FETCH, lim);
    hide PutValue, OneBrief;
  }

  lemma PinnedNext(s: Sys)
    requires s.store == OneBrief(Num(0), 1, Some(1_000_000), true)
    ensures
      var a := Increment(SMALL_KEY, 1, PINNING);
      Enabled(s, a) && Next(s, a, 0, ONE_ENTRY).store == OneBrief(Num(1), 2, Some(1_000_000), false)
  {
    PutAgain(s.store);
    CountedOn(s.store);
    hide CountEffect, OneBrief, FetchEffect, PendingEffect;
  }

  lemma CountedOn(s: Store)
    requires s == OneBrief(Num(0), 1, Some(1_000_000), true)
    ensures CountEffect(s, SMALL_KEY, 1, PINNING, 0, ONE_ENTRY).store
         == PutValue(s, SMALL_KEY, Num(1), PINNING, 0, ONE_ENTRY).0
  {
    hide PutValue, Without, SizeOf;
  }

  lemma PutAgain(s: Store)
    requires s == OneBrief(Num(0), 1, Some(1_000_000), true)
    ensures PutValue(s, SMALL_KEY, Num(1), PINNING, 0, ONE_ENTRY)
         == (OneBrief(Num(1), 2, Some(1_000_000), false), Stored)
  {
    var meta, size := MetaFor(Some(s.entries[SMALL_KEY]), PINNING, 0), SizeOf(SMALL_KEY, Num(1));
    assert s.entries - {SMALL_KEY} == map[];
    WithoutCons(SMALL_KEY, [], {SMALL_KEY});
    assert [SMALL_KEY] + [] == [SMALL_KEY];
    hide Bytes, SizeOf;
    assert !Over(s, SMALL_KEY, size, ONE_ENTRY);
    hide Over;
    assert Insert(s, SMALL_KEY, Num(1), meta, size) == OneBrief(Num(1), 2, Some(1_000_000), false);
    hide Insert, OneBrief;
    assert Prepared(s, SMALL_KEY, 0) == s;
  }

  lemma ScannedPast(s: Sys)
    requires s.store == OneBrief(Num(1), 2, Some(1_000_000), false)
    ensures
      var a := SetKey(OTHER_KEY, Some(Bool(true)), BRIEFLY);
      Enabled(s, a) && Next(s, a, 5, ONE_ENTRY).store == s.store.(earliest := None)
  {
    NoRoomBeside(s.store);
    hide PutValue, OneBrief, FetchEffect, PendingEffect;
  }

  lemma NoRoomBeside(s: Store)
    requires s == OneBrief(Num(1), 2, Some(1_000_000), false)
    ensures PutValue(s, OTHER_KEY, Bool(true), BRIEFLY, 5, ONE_ENTRY) == (s.(earliest := None), Full)
  {
    var p, size := s.(earliest := None), SizeOf(OTHER_KEY, Bool(true));
    OnlyOne(s);
    hide Bytes, Without, Count, SizeOf;
    assert Prepared(s, OTHER_KEY, 5) == s;
    assert DropExpired(s, 5) == p by {
      assert ExpiredKeys(s.entries, 5) == {};
      PurgeChanges(s, {});
      assert FutureExpiries(s.entries, 5) == {};
    }
    hide Prepared, DropExpired;
    assert Over(s, OTHER_KEY, size, ONE_ENTRY) && Over(p, OTHER_KEY, size, ONE_ENTRY);
    FitsAfterNone(p, OTHER_KEY, size, ONE_ENTRY);
    assert Others(p, OTHER_KEY) == [] by { WithoutAbsent<Key>([], {OTHER_KEY}); }
    assert Victims(p, OTHER_KEY, size, ONE_ENTRY, 0).None?;
    hide Victims;
  }

  lemma OnlyOne(s: Store)
    requires s.entries.Keys == {SMALL_KEY}
    ensures Count(s.entries - {OTHER_KEY}) == 1
  {
    assert (s.entries - {OTHER_KEY}).Keys == {SMALL_KEY};
    assert |(s.entries - {OTHER_KEY}).Keys| == |s.entries - {OTHER_KEY}|;
  }
}
