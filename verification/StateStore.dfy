/** The store as it is implemented: a hash map whose evictable entries carry a
    recency tick mirrored in an ordered index, a running byte total, and lazily
    maintained sweep and expiry marks. Every method is proved to do to the
    reference store (`Abs`) what `StateSpec` says. */
module StateStore {
  import opened Prelude
  import opened Recency
  import opened StateSpec
  import opened StateLaws

  datatype Slot = Slot(entry: Entry, tick: nat)

  ghost function Entered(m: map<Key, Slot>): Entries { map k | k in m :: m[k].entry }

  /** The tick index and the evictable slots name each other. */
  ghost predicate Mirrors(m: map<Key, Slot>, order: map<nat, Key>, nextTick: nat) {
    && (forall t | t in order :: t <= nextTick && order[t] in m && m[order[t]].entry.evictable && m[order[t]].tick == t)
    && (forall k | k in m && m[k].entry.evictable :: m[k].tick in order && order[m[k].tick] == k)
  }

  /** The index without `key`. */
  ghost function Unlisted(m: map<Key, Slot>, order: map<nat, Key>, key: Key): map<nat, Key> {
    if key in m && m[key].entry.evictable then order - {m[key].tick} else order
  }

  /** Taking `key` out of both sides takes it out of the list. */
  lemma MirrorDrop(m: map<Key, Slot>, order: map<nat, Key>, nextTick: nat, key: Key)
    requires Mirrors(m, order, nextTick)
    ensures Mirrors(m - {key}, Unlisted(m, order, key), nextTick)
    ensures Oldest(Unlisted(m, order, key)) == Without(Oldest(order), {key})
  {
    hide Oldest, Without;
    OldestDrop(order, Unlisted(m, order, key), {key});
  }

  /** A new newest tick appends its key. */
  lemma MirrorPush(m: map<Key, Slot>, order: map<nat, Key>, nextTick: nat, key: Key, e: Entry)
    requires Mirrors(m, order, nextTick) && key !in m && e.evictable
    ensures Mirrors(m[key := Slot(e, nextTick + 1)], order[nextTick + 1 := key], nextTick + 1)
    ensures Oldest(order[nextTick + 1 := key]) == Oldest(order) + [key]
  {
    hide Oldest;
    OldestPush(order, nextTick + 1, key);
  }

  lemma MirrorAdd(m: map<Key, Slot>, order: map<nat, Key>, nextTick: nat, key: Key, slot: Slot)
    requires Mirrors(m, order, nextTick) && key !in m && !slot.entry.evictable
    ensures Mirrors(m[key := slot], order, nextTick)
  {
  }

  lemma EnteredLess(m: map<Key, Slot>, key: Key)
    ensures Entered(m - {key}) == Entered(m) - {key}
  {
  }

  lemma FutureOfSlots(m: map<Key, Slot>, now: nat)
    ensures (set k | k in m && m[k].entry.expires.Some? && now < m[k].entry.expires.value :: m[k].entry.expires.value)
         == FutureExpiries(Entered(m), now)
  {
    var a := set k | k in m && m[k].entry.expires.Some? && now < m[k].entry.expires.value :: m[k].entry.expires.value;
    var es := Entered(m);
    forall x | x in a ensures x in FutureExpiries(es, now) {
      var k :| k in m && m[k].entry.expires == Some(x) && now < x;
      assert k in es;
    }
    forall x | x in FutureExpiries(es, now) ensures x in a {
      var k :| k in es && es[k].expires == Some(x) && now < x;
      assert k in m;
    }
  }

  lemma EnteredKeys(m: map<Key, Slot>)
    ensures Entered(m).Keys == m.Keys
  {
  }

  lemma EnteredAt(m: map<Key, Slot>, key: Key)
    requires key in m
    ensures key in Entered(m) && Entered(m)[key] == m[key].entry
  {
  }

  lemma EnteredMore(m: map<Key, Slot>, key: Key, slot: Slot)
    ensures Entered(m[key := slot]) == Entered(m)[key := slot.entry]
  {
  }

  /** Restamping `key` with the newest tick moves it to the end of the list. */
  lemma RestampRefines(m: map<Key, Slot>, order: map<nat, Key>, nextTick: nat, key: Key)
    requires Mirrors(m, order, nextTick) && key in m && m[key].entry.evictable
    ensures
      var stamped := m[key := m[key].(tick := nextTick + 1)];
      var moved := (order - {m[key].tick})[nextTick + 1 := key];
      && Mirrors(stamped, moved, nextTick + 1)
      && Oldest(moved) == Without(Oldest(order), {key}) + [key]
      && Entered(stamped) == Entered(m)
  {
    hide Mirrors, Oldest, Without, Entered;
    var slot := m[key];
    MirrorDrop(m, order, nextTick, key);
    MirrorPush(m - {key}, order - {slot.tick}, nextTick, key, slot.entry);
    EnteredMore(m, key, slot.(tick := nextTick + 1));
    EnteredAt(m, key);
    assert m[key := slot.(tick := nextTick + 1)] == (m - {key})[key := Slot(slot.entry, nextTick + 1)];
  }

  /** A fresh slot, listed last if it is evictable. */
  lemma SlotRefines(m: map<Key, Slot>, order: map<nat, Key>, nextTick: nat, key: Key, e: Entry)
    requires Mirrors(m, order, nextTick) && key !in m
    ensures
      var tick := if e.evictable then nextTick + 1 else nextTick;
      var grown := m[key := Slot(e, if e.evictable then tick else 0)];
      var listed := if e.evictable then order[tick := key] else order;
      && Mirrors(grown, listed, tick)
      && Oldest(listed) == Oldest(order) + (if e.evictable then [key] else [])
      && Entered(grown) == Entered(m)[key := e]
      && Bytes(Entered(grown)) == Bytes(Entered(m)) + e.size
  {
    var slot := Slot(e, if e.evictable then nextTick + 1 else 0);
    EnteredMore(m, key, slot);
    EnteredKeys(m);
    AddedWeighs(Entered(m), key, e);
    hide Oldest, Entered, Bytes;
    if e.evictable {
      MirrorPush(m, order, nextTick, key, e);
    } else {
      MirrorAdd(m, order, nextTick, key, slot);
      assert Oldest(order) + [] == Oldest(order);
    }
  }

  lemma PurgeTwice(s: Store, a: set<Key>, b: set<Key>)
    ensures Purge(Purge(s, a), b) == Purge(s, a + b)
  {
    hide Without;
    WithoutTwice(s.lru, a, b);
    assert s.entries - a - b == s.entries - (a + b);
  }

  lemma PurgeIgnoresCount(s: Store, n: nat, ks: set<Key>)
    ensures Purge(s.(evictions := n), ks) == Purge(s, ks).(evictions := n)
    ensures Purge(s.(evictions := n), ks).evictions == n
  {
  }

  lemma PurgeNothing(s: Store)
    ensures Purge(s, {}) == s
  {
    WithoutAbsent(s.lru, {});
    assert s.entries - {} == s.entries;
  }

  class Inner {
    var entries: map<Key, Slot>
    var order: map<nat, Key>
    var nextTick: nat
    var bytes: nat
    var lastVersion: nat
    var lastSweep: Option<nat>
    var earliest: Option<nat>
    var evictions: nat

    ghost function Abs(): Store
      reads this
    {
      Store(Entered(entries), Oldest(order), lastVersion, lastSweep, earliest, evictions)
    }

    ghost predicate Valid()
      reads this
    {
      && Mirrors(entries, order, nextTick)
      && bytes == Bytes(Entered(entries))
    }

    constructor ()
      ensures Valid() && Abs() == EMPTY
    {
      entries, order, nextTick, bytes := map[], map[], 0, 0;
      lastVersion, lastSweep, earliest, evictions := 0, None, None, 0;
      new;
      assert Entered(entries) == map[] && Sizes(map[]) == map[];
      assert Ascending(order.Keys) == [];
    }

    method Remove(key: Key)
      requires Valid()
      modifies `entries, `order, `bytes
      ensures Valid() && Abs() == Purge(old(Abs()), {key})
    {
      hide Oldest, Without, Bytes, Mirrors, Entered, Count;
      MirrorDrop(entries, order, nextTick, key);
      EnteredLess(entries, key);
      if key in entries {
        var slot := entries[key];
        EnteredAt(entries, key);
        LeavingWeighs(Entered(entries), key);
        entries := entries - {key};
        if slot.entry.evictable {
          order := order - {slot.tick};
        }
        bytes := bytes - slot.entry.size;
      } else {
        assert entries - {key} == entries;
      }
    }

    /** Remove every key of `gone`, in whatever order. */
    method RemoveAll(gone: set<Key>)
      requires Valid()
      modifies `entries, `order, `bytes
      ensures Valid() && Abs() == Purge(old(Abs()), gone)
    {
      hide Valid, Abs, Purge;
      var todo := gone;
      PurgeNothing(Abs());
      assert gone - todo == {};
      while todo != {}
        invariant Valid() && todo <= gone
        invariant Abs() == Purge(old(Abs()), gone - todo)
        decreases |todo|
      {
        var key :| key in todo;
        PurgeTwice(old(Abs()), gone - todo, {key});
        Remove(key);
        assert gone - todo + {key} == gone - (todo - {key});
        todo := todo - {key};
      }
      assert gone - todo == gone;
    }

    method DropDead(now: nat)
      requires Valid()
      modifies `entries, `order, `bytes
      ensures Valid() && Abs() == Purge(old(Abs()), DeadKeys(old(Abs()).entries, now))
    {
      var dead := set k | k in entries && entries[k].entry.Dead(now);
      assert dead == DeadKeys(Abs().entries, now);
      RemoveAll(dead);
    }

    method DropExpired(now: nat)
      requires Valid()
      modifies `entries, `order, `bytes, `earliest
      ensures Valid() && Abs() == StateSpec.DropExpired(old(Abs()), now)
    {
      if earliest.None? || earliest.value > now {
        return;
      }
      var gone := set k | k in entries && entries[k].entry.Expired(now)
                          && (entries[k].entry.evictable || entries[k].entry.Dead(now));
      assert gone == ExpiredKeys(Abs().entries, now);
      RemoveAll(gone);
      var future := set k | k in entries && entries[k].entry.expires.Some? && now < entries[k].entry.expires.value
                        :: entries[k].entry.expires.value;
      FutureOfSlots(entries, now);
      earliest := LeastOf(future);
    }

    method Live(key: Key, now: nat) returns (r: Option<Entry>)
      requires Valid()
      modifies `entries, `order, `bytes
      ensures Valid() && Abs() == Reap(old(Abs()), key, now)
      ensures r == StateSpec.Live(old(Abs()), key, now) == StateSpec.Live(Abs(), key, now)
    {
      if key !in entries {
        return None;
      }
      var e := entries[key].entry;
      if e.Fresh(now) {
        return Some(e);
      } else if e.Stale(now) {
        return None;
      } else {
        Remove(key);
        return None;
      }
    }

    method Touch(key: Key)
      requires Valid()
      modifies `entries, `order, `nextTick
      ensures Valid() && Abs() == StateSpec.Touch(old(Abs()), key)
    {
      hide Oldest, Without, Bytes, Mirrors, Entered;
      EnteredKeys(entries);
      if key !in entries {
        return;
      }
      EnteredAt(entries, key);
      var slot := entries[key];
      if slot.entry.evictable {
        RestampRefines(entries, order, nextTick, key);
        nextTick := nextTick + 1;
        order := (order - {slot.tick})[nextTick := key];
        entries := entries[key := slot.(tick := nextTick)];
      }
    }

    method Version(key: Key, now: nat) returns (v: nat)
      requires Valid()
      modifies `entries, `order, `bytes
      ensures Valid() && Abs() == Reap(old(Abs()), key, now)
      ensures v == VersionAt(old(Abs()), key, now)
    {
      var e := Live(key, now);
      v := if e.Some? then e.value.version else 0;
    }

    method WriteMeta(key: Key, w: Write, now: nat) returns (meta: Meta)
      requires Valid()
      modifies `entries, `order, `bytes
      ensures Valid() && Abs() == Reap(old(Abs()), key, now)
      ensures meta == MetaFor(StateSpec.Live(old(Abs()), key, now), w, now)
    {
      var e := Live(key, now);
      var prevExpires, prevEvictable, prevStale := None, false, None;
      if e.Some? {
        prevExpires, prevEvictable, prevStale := e.value.expires, e.value.evictable, e.value.staleFor;
      }
      var expires, inherited;
      match w.expiry {
        case Clear => expires, inherited := None, false;
        case Keep => expires, inherited := prevExpires, true;
        case After(ms) => expires, inherited := Some(now + ms), false;
        case AfterIfUnset(ms) =>
          if prevExpires.Some? {
            expires, inherited := prevExpires, true;
          } else {
            expires, inherited := Some(now + ms), false;
          }
      }
      var staleFor := None;
      if expires.Some? && w.staleMs.Some? {
        staleFor := Some(w.staleMs.value as nat);
      } else if expires.Some? && inherited {
        staleFor := prevStale;
      }
      meta := Meta(expires, staleFor, if w.evictable.Some? then w.evictable.value else prevEvictable);
    }

    method Over(key: Key, size: nat, limits: Limits) returns (over: bool)
      requires Valid()
      ensures over <==> StateSpec.Over(Abs(), key, size, limits)
    {
      var present, oldSize := 0, 0;
      if key in entries {
        present, oldSize := 1, entries[key].entry.size;
      }
      OthersWeigh(key, size);
      over := !limits.Allows(|entries| + 1 - present, bytes - oldSize + size);
    }

    lemma OthersWeigh(key: Key, size: nat)
      requires Valid()
      ensures
        var es := Abs().entries;
        && EntriesWith(es, key) == |entries| + 1 - (if key in entries then 1 else 0)
        && BytesWith(es, key, size) == bytes - (if key in entries then entries[key].entry.size else 0) + size
    {
      var es := Entered(entries);
      assert es.Keys == entries.Keys && |es.Keys| == |es| && |entries.Keys| == |entries|;
      if key in entries {
        LeavingWeighs(es, key);
      } else {
        assert es - {key} == es;
      }
    }

    /** Plans into a scratch list, so that a write that cannot fit changes nothing. */
    method PlanEvictions(key: Key, size: nat, limits: Limits) returns (r: Option<seq<(nat, Key)>>)
      requires Valid()
      ensures match Victims(Abs(), key, size, limits, 0)
        case None => r.None?
        case Some(n) =>
          && r.Some? && |r.value| == n
          && forall i | 0 <= i < n :: r.value[i].1 == Others(Abs(), key)[i]
    {
      hide *;
      ghost var s := Abs();
      var ticks := Ascending(order.Keys);
      ListedHere();
      var n: int, b: int := |entries|, bytes;
      if key in entries {
        n, b := n - 1, b - entries[key].entry.size;
      }
      n, b := n + 1, b + size;
      OthersWeigh(key, size);
      PlanBegins(s, key, size, limits);
      var victims: seq<(nat, Key)> := [];
      ghost var names: seq<Key> := [];
      var i := 0;
      while i < |ticks| && !limits.Allows(n, b)
        invariant 0 <= i <= |ticks| && |names| == |victims|
        invariant Planned(s, key, size, limits, i, names, n, b)
        invariant forall j | 0 <= j < |victims| :: victims[j].1 == names[j]
      {
        var tick := ticks[i];
        var k := order[tick];
        if k == key {
          PlanSkips(s, key, size, limits, i, names, n, b);
        } else {
          MirroredHere(tick);
          PlanTakes(s, key, size, limits, i, names, n, b);
          n, b := n - 1, b - entries[k].entry.size;
          victims, names := victims + [(tick, k)], names + [k];
        }
        i := i + 1;
      }
      PlanEnds(s, key, size, limits, i, names, n, b);
      r := if limits.Allows(n, b) then Some(victims) else None;
    }

    lemma ListedHere()
      ensures |Abs().lru| == |Ascending(order.Keys)|
      ensures forall i | 0 <= i < |Abs().lru| :: Abs().lru[i] == order[Ascending(order.Keys)[i]]
    {
    }

    lemma MirroredHere(tick: nat)
      requires Valid() && tick in order
      ensures order[tick] in entries && order[tick] in Abs().entries
      ensures Abs().entries[order[tick]] == entries[order[tick]].entry
    {
    }

    method MakeRoom(key: Key, size: nat, limits: Limits, now: nat) returns (o: Outcome)
      requires Valid()
      modifies `entries, `order, `bytes, `earliest, `evictions
      ensures Valid() && (Abs(), o) == StateSpec.MakeRoom(old(Abs()), key, size, limits, now)
    {
      hide Valid, Abs, StateSpec.DropExpired, StateSpec.Over, Purge, FitsAfter, Others;
      var over := Over(key, size, limits);
      if over {
        DropExpired(now);
      }
      over := Over(key, size, limits);
      if over {
        var plan := PlanEvictions(key, size, limits);
        if plan.None? {
          return Full;
        }
        EvictAll(key, plan.value);
      }
      return Stored;
    }

    /** Carry out an eviction plan: a prefix of the other evictable keys. */
    method EvictAll(key: Key, plan: seq<(nat, Key)>)
      requires Valid()
      requires |plan| <= |Others(Abs(), key)|
      requires forall i | 0 <= i < |plan| :: plan[i].1 == Others(Abs(), key)[i]
      modifies `entries, `order, `bytes, `evictions
      ensures Valid() && Abs() == Evict(old(Abs()), key, |plan|)
    {
      hide Valid, Purge, Others, Mirrors, Oldest, Entered, Without, Evict;
      ghost var s := Abs();
      EvictNothing(s, key);
      var i := 0;
      while i < |plan|
        invariant 0 <= i <= |plan|
        invariant Valid() && Abs() == Evict(s, key, i)
      {
        EvictOneMore(s, key, i);
        Remove(plan[i].1);
        CountEviction();
        i := i + 1;
      }
    }

    method CountEviction()
      requires Valid()
      modifies `evictions
      ensures Valid() && Abs() == old(Abs()).(evictions := old(evictions) + 1)
    {
      evictions := evictions + 1;
    }

    method InsertFresh(key: Key, value: Prim, meta: Meta, size: nat)
      requires Valid()
      modifies `entries, `order, `bytes, `nextTick, `lastVersion, `earliest
      ensures Valid() && Abs() == Insert(old(Abs()), key, value, meta, size)
    {
      hide Oldest, Without, Bytes, Mirrors, Entered;
      ghost var before := Abs();
      Remove(key);
      EnteredKeys(entries);
      assert key !in before.entries - {key};
      lastVersion := lastVersion + 1;
      var e := Entry(value, lastVersion, meta.expires, meta.staleFor, meta.evictable, size);
      SlotRefines(entries, order, nextTick, key, e);
      var tick := 0;
      if meta.evictable {
        nextTick := nextTick + 1;
        tick := nextTick;
        order := order[tick := key];
      }
      bytes := bytes + size;
      if meta.expires.Some? {
        earliest := if earliest.None? || meta.expires.value < earliest.value then meta.expires else earliest;
      }
      entries := entries[key := Slot(e, tick)];
      assert (before.entries - {key})[key := e] == before.entries[key := e];
    }

    method SweepIfDue(now: nat)
      requires Valid()
      modifies `entries, `order, `bytes, `lastSweep
      ensures Valid() && Abs() == Sweep(old(Abs()), now)
    {
      if lastSweep.None? || now - lastSweep.value >= SWEEP_EVERY {
        DropDead(now);
        lastSweep := Some(now);
      }
    }

    method Put(key: Key, value: Option<Prim>, w: Write, now: nat, limits: Limits) returns (o: Outcome)
      requires Valid()
      modifies this
      ensures Valid() && (Abs(), o) == StateSpec.Put(old(Abs()), key, value, w, now, limits)
    {
      hide Valid, Abs, Sweep, Reap, StateSpec.Live, MetaFor, StateSpec.MakeRoom, Insert, Purge;
      if value.None? {
        Remove(key);
        return Stored;
      }
      SweepIfDue(now);
      ghost var swept := Abs();
      LiveAfterReap(swept, key, now);
      var meta := WriteMeta(key, w, now);
      var size := |key.bytes| + PrimSize(value.value) + ENTRY_OVERHEAD;
      if limits.maxBytes != 0 && size > limits.maxBytes {
        return Full;
      }
      o := MakeRoom(key, size, limits, now);
      if o.Stored? {
        InsertFresh(key, value.value, meta, size);
      }
    }

    // ------------------------------------------------ one lock, one operation

    method Get(key: Key, now: nat) returns (r: Option<Prim>)
      requires Valid()
      modifies this
      ensures Valid() && (Abs(), r) == StateSpec.Get(old(Abs()), key, now)
    {
      var e := Live(key, now);
      if e.None? {
        return None;
      }
      Touch(key);
      return Some(e.value.value);
    }

    method Incr(key: Key, n: int, w: Write, now: nat, limits: Limits) returns (r: Counted)
      requires Valid() && I64_MIN <= n <= I64_MAX
      modifies this
      ensures Valid() && (Abs(), r) == StateSpec.Incr(old(Abs()), key, n, w, now, limits)
    {
      hide Valid, Abs, Reap, StateSpec.Live, StateSpec.Put;
      var e := Live(key, now);
      var base := 0;
      if e.Some? {
        if !e.value.value.Num? || !(I64_MIN <= e.value.value.n <= I64_MAX) {
          return NotInteger;
        }
        base := e.value.value.n;
      }
      if !(I64_MIN <= base + n <= I64_MAX) {
        return Overflow;
      }
      var o := Put(key, Some(Num(base + n)), w, now, limits);
      return if o.Full? then NoSpace else Counted(base + n);
    }

    method Snapshot(key: Key, now: nat) returns (value: Option<Prim>, version: nat)
      requires Valid()
      modifies this
      ensures Valid() && Abs() == Reap(old(Abs()), key, now)
      ensures value == ValueAt(old(Abs()), key, now) && version == VersionAt(old(Abs()), key, now)
    {
      var e := Live(key, now);
      if e.Some? {
        return Some(e.value.value), e.value.version;
      }
      return None, 0;
    }

    method CompareAndSet(key: Key, expected: nat, value: Option<Prim>, w: Write, now: nat, limits: Limits)
      returns (r: Cas)
      requires Valid()
      modifies this
      ensures Valid() && (Abs(), r) == StateSpec.CompareAndSet(old(Abs()), key, expected, value, w, now, limits)
    {
      var v := Version(key, now);
      if v != expected {
        return Differs;
      }
      var o := Put(key, value, w, now, limits);
      return if o.Full? then NoRoom else Swapped;
    }

    method Lookup(key: Key, now: nat) returns (r: Found)
      requires Valid()
      modifies this
      ensures Valid() && (Abs(), r) == StateSpec.Lookup(old(Abs()), key, now)
    {
      var e := Live(key, now);
      if e.Some? {
        Touch(key);
        return FreshHit(e.value.value);
      }
      if key in entries && entries[key].entry.Stale(now) {
        return StaleHit(entries[key].entry.value);
      }
      return Absent;
    }
  }

  // ------------------------------------------------------ planning helpers

  lemma LiveAfterReap(s: Store, key: Key, now: nat)
    ensures StateSpec.Live(Reap(s, key, now), key, now) == StateSpec.Live(s, key, now)
  {
  }

  lemma FitsMeans(s: Store, key: Key, size: nat, lim: Limits, n: nat)
    requires n <= |Others(s, key)|
    ensures FitsAfter(s, key, size, lim, n) <==>
      lim.Allows(EntriesWith(s.entries, key) - n,
                 BytesWith(s.entries, key, size) - SizesOf(s.entries, Others(s, key)[..n]))
  {
  }

  /** Planning after `i` keys of the list: `vs` would go, leaving `n` entries and
      `b` bytes with the new one, and no shorter plan makes room. */
  ghost predicate Planned(s: Store, key: Key, size: nat, lim: Limits, i: nat, vs: seq<Key>, n: int, b: int) {
    && i <= |s.lru| && |vs| <= |Others(s, key)|
    && Without(s.lru[..i], {key}) == vs == Others(s, key)[..|vs|]
    && n == EntriesWith(s.entries, key) - |vs|
    && b == BytesWith(s.entries, key, size) - SizesOf(s.entries, vs)
    && forall j | 0 <= j < |vs| :: !FitsAfter(s, key, size, lim, j)
  }

  lemma PlanBegins(s: Store, key: Key, size: nat, lim: Limits)
    ensures Planned(s, key, size, lim, 0, [], EntriesWith(s.entries, key), BytesWith(s.entries, key, size))
  {
    assert s.lru[..0] == [] && Others(s, key)[..0] == [];
  }

  lemma PlanSkips(s: Store, key: Key, size: nat, lim: Limits, i: nat, vs: seq<Key>, n: int, b: int)
    requires Planned(s, key, size, lim, i, vs, n, b) && i < |s.lru| && s.lru[i] == key
    ensures Planned(s, key, size, lim, i + 1, vs, n, b)
  {
    hide Without, EntriesWith, BytesWith, FitsAfter;
    WithoutTakeNext(s.lru, i, {key});
  }

  lemma PlanTakes(s: Store, key: Key, size: nat, lim: Limits, i: nat, vs: seq<Key>, n: int, b: int)
    requires Planned(s, key, size, lim, i, vs, n, b) && i < |s.lru| && s.lru[i] != key
    requires s.lru[i] in s.entries && !lim.Allows(n, b)
    ensures Planned(s, key, size, lim, i + 1, vs + [s.lru[i]], n - 1, b - s.entries[s.lru[i]].size)
  {
    FitsMeans(s, key, size, lim, |vs|);
    hide Without, EntriesWith, BytesWith, FitsAfter, SizesOf;
    WithoutTakeNext(s.lru, i, {key});
    WithoutTake(s.lru, i + 1, {key});
    SizesPush(s.entries, vs, s.lru[i]);
  }

  lemma PlanEnds(s: Store, key: Key, size: nat, lim: Limits, i: nat, vs: seq<Key>, n: int, b: int)
    requires Planned(s, key, size, lim, i, vs, n, b)
    requires i == |s.lru| || lim.Allows(n, b)
    ensures Victims(s, key, size, lim, 0) == if lim.Allows(n, b) then Some(|vs|) else None
    ensures |vs| <= |Others(s, key)| && vs == Others(s, key)[..|vs|]
  {
    assert s.lru[..|s.lru|] == s.lru;
    hide Without, EntriesWith, BytesWith, FitsAfter, SizesOf, Victims;
    FitsMeans(s, key, size, lim, |vs|);
  }

  lemma {:induction false} SizesPush(es: Entries, l: seq<Key>, k: Key)
    ensures SizesOf(es, l + [k]) == SizesOf(es, l) + (if k in es then es[k].size else 0)
  {
    if l == [] {
      assert l + [k] == [k];
      assert [k][1..] == [];
    } else {
      assert (l + [k])[0] == l[0] && (l + [k])[1..] == l[1..] + [k];
      SizesPush(es, l[1..], k);
    }
  }

  lemma EvictOneMore(s: Store, key: Key, i: nat)
    requires i < |Others(s, key)|
    ensures
      var p := Purge(Evict(s, key, i), {Others(s, key)[i]});
      p.(evictions := p.evictions + 1) == Evict(s, key, i + 1)
  {
    hide Without, Purge;
    var o := Others(s, key);
    assert o[..i + 1] == o[..i] + [o[i]];
    assert Elems(o[..i + 1]) == Elems(o[..i]) + {o[i]};
    hide Elems, Others;
    PurgeTwice(s, Elems(o[..i]), {o[i]});
    PurgeIgnoresCount(Purge(s, Elems(o[..i])), s.evictions + i, {o[i]});
    PurgeIgnoresCount(s, s.evictions, Elems(o[..i + 1]));
  }
}
