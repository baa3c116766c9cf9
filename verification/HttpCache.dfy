/** The response cache as it is implemented: a hash map whose entries carry a
    recency tick mirrored in an ordered index, a running byte total, and a lower
    bound on the earliest expiry that lets it skip expiry scans. Every method is
    proved to do what `HttpCacheSpec`, which scans every time, says. */
module HttpCache {
  import opened Prelude
  import opened Recency
  import opened HttpCacheSpec

  datatype Slot = Slot(entry: Entry, tick: nat)

  ghost function Entered(m: map<Text, Slot>): Entries { map k | k in m :: m[k].entry }

  /** The tick index and the entries name each other. */
  ghost predicate Mirrors(m: map<Text, Slot>, order: map<nat, Text>, nextTick: nat) {
    && (forall t | t in order :: t <= nextTick && order[t] in m && m[order[t]].tick == t)
    && (forall k | k in m :: m[k].tick in order && order[m[k].tick] == k)
  }

  /** No entry expires before `earliest`. */
  ghost predicate Bounds(m: map<Text, Slot>, earliest: Option<nat>) {
    forall k | k in m :: earliest.Some? && earliest.value <= m[k].entry.expires
  }

  lemma MirrorDrop(m: map<Text, Slot>, order: map<nat, Text>, nextTick: nat, key: Text)
    requires Mirrors(m, order, nextTick) && key in m
    ensures Mirrors(m - {key}, order - {m[key].tick}, nextTick)
    ensures Oldest(order - {m[key].tick}) == Without(Oldest(order), {key})
    ensures Entered(m - {key}) == Entered(m) - {key}
  {
    hide Oldest, Without;
    OldestDrop(order, order - {m[key].tick}, {key});
  }

  lemma MirrorPush(m: map<Text, Slot>, order: map<nat, Text>, nextTick: nat, key: Text, e: Entry)
    requires Mirrors(m, order, nextTick) && key !in m
    ensures Mirrors(m[key := Slot(e, nextTick + 1)], order[nextTick + 1 := key], nextTick + 1)
    ensures Oldest(order[nextTick + 1 := key]) == Oldest(order) + [key]
    ensures Entered(m[key := Slot(e, nextTick + 1)]) == Entered(m)[key := e]
  {
    hide Oldest;
    OldestPush(order, nextTick + 1, key);
  }

  lemma MirrorNot(m: map<Text, Slot>, order: map<nat, Text>, nextTick: nat, key: Text)
    requires Mirrors(m, order, nextTick) && key !in m
    ensures Without(Oldest(order), {key}) == Oldest(order)
    ensures Entered(m) - {key} == Entered(m)
  {
    OldestMembers(order, key);
    hide Oldest;
    WithoutAbsent(Oldest(order), {key});
  }

  lemma MirrorMove(m: map<Text, Slot>, order: map<nat, Text>, nextTick: nat, key: Text)
    requires Mirrors(m, order, nextTick) && key in m
    ensures
      var stamped := m[key := m[key].(tick := nextTick + 1)];
      var moved := (order - {m[key].tick})[nextTick + 1 := key];
      && Mirrors(stamped, moved, nextTick + 1)
      && Oldest(moved) == Without(Oldest(order), {key}) + [key]
      && Entered(stamped) == Entered(m)
  {
    hide Mirrors, Oldest, Without, Entered;
    var slot := m[key];
    MirrorDrop(m, order, nextTick, key);
    MirrorPush(m - {key}, order - {slot.tick}, nextTick, key, slot.entry);
    assert m[key := slot.(tick := nextTick + 1)] == (m - {key})[key := Slot(slot.entry, nextTick + 1)];
    EnteredHas(m, key);
    assert (Entered(m) - {key})[key := slot.entry] == Entered(m);
  }

  lemma EnteredHas(m: map<Text, Slot>, key: Text)
    ensures key in Entered(m) <==> key in m
    ensures key in m ==> Entered(m)[key] == m[key].entry
    ensures |Entered(m)| == |m|
  {
    assert Entered(m).Keys == m.Keys;
    assert |Entered(m)| == |Entered(m).Keys| && |m| == |m.Keys|;
  }

  lemma LeavingWeighs(es: Entries, key: Text)
    requires key in es
    ensures Bytes(es) == es[key].size + Bytes(es - {key})
  {
    TotalWithout(Sizes(es), key);
    assert Sizes(es) - {key} == Sizes(es - {key});
  }

  lemma ArrivingWeighs(es: Entries, key: Text, e: Entry)
    requires key !in es
    ensures Bytes(es[key := e]) == Bytes(es) + e.size
  {
    TotalInsert(Sizes(es), key, e.size);
    assert Sizes(es)[key := e.size] == Sizes(es[key := e]);
  }

  /** The first key of the index is the least recently used. */
  lemma FirstIsOldest(order: map<nat, Text>)
    requires order != map[]
    ensures
      var t := Least(order.Keys);
      t in order && Oldest(order) != [] && Oldest(order)[0] == order[t]
  {
  }

  lemma NothingListed(order: map<nat, Text>)
    ensures order == map[] <==> Oldest(order) == []
  {
    if order == map[] {
      assert Ascending(order.Keys) == [];
    } else {
      FirstIsOldest(order);
    }
  }

  lemma PurgeTwice(c: Cache, a: set<Text>, b: set<Text>)
    ensures Purge(Purge(c, a), b) == Purge(c, a + b)
  {
    hide Without;
    WithoutTwice(c.lru, a, b);
    assert c.entries - a - b == c.entries - (a + b);
  }

  lemma PurgeNothing(c: Cache)
    ensures Purge(c, {}) == c
  {
    WithoutAbsent(c.lru, {});
    assert c.entries - {} == c.entries;
  }

  /** Cutting one more is purging the key now least recently used. */
  lemma CutOneMore(c: Cache, n: nat)
    requires Sound(c) && n < |c.lru|
    ensures Cut(c, n).lru == c.lru[n..]
    ensures Cut(c, n + 1) == Purge(Cut(c, n), {c.lru[n]})
  {
    CutIs(c, n);
    hide *;
    CutIsPurge(c, n);
    CutIsPurge(c, n + 1);
    PurgeTwice(c, Elems(c.lru[..n]), {c.lru[n]});
    OneMoreElem(c.lru, n);
  }

  lemma CutIsPurge(c: Cache, n: nat)
    requires n <= |c.lru|
    ensures Cut(c, n) == Purge(c, Elems(c.lru[..n]))
  {
  }

  lemma OneMoreElem(l: seq<Text>, n: nat)
    requires n < |l|
    ensures Elems(l[..n + 1]) == Elems(l[..n]) + {l[n]}
  {
    assert l[..n + 1] == l[..n] + [l[n]];
  }

  lemma NoneExpired(m: map<Text, Slot>, earliest: Option<nat>, now: nat)
    requires Bounds(m, earliest) && (earliest.None? || earliest.value > now)
    ensures Expired(Entered(m), now) == {}
  {
  }

  lemma FewerBounds(m: map<Text, Slot>, earliest: Option<nat>, key: Text)
    requires Bounds(m, earliest)
    ensures Bounds(m - {key}, earliest)
  {
  }

  lemma InsertedParts(c: Cache, key: Text, e: Entry)
    ensures Inserted(c, key, e) == Inserted(Purge(c, {key}), key, e)
  {
    WithoutTwice(c.lru, {key}, {key});
    assert {key} + {key} == {key};
    assert (c.entries - {key})[key := e] == c.entries[key := e];
  }

  lemma NothingIsValid(nextTick: nat, lastSweep: Option<nat>)
    ensures Entered(map[]) == map[] && Oldest<Text>(map[]) == [] && Bytes(map[]) == 0
    ensures Mirrors(map[], map[], nextTick) && Bounds(map[], None) && Sound(Cache(map[], [], lastSweep))
  {
    assert Sizes(map[]) == map[];
    assert Ascending({}) == [];
    NothingListed(map[]);
  }

  class ResponseCache {
    var entries: map<Text, Slot>
    var order: map<nat, Text>
    var nextTick: nat
    var bytes: nat
    var lastSweep: Option<nat>
    var earliest: Option<nat>
    const limits: Limits

    ghost function Abs(): Cache
      reads this
    {
      Cache(Entered(entries), Oldest(order), lastSweep)
    }

    /** The index mirrors the entries, the total is exact, and `earliest` is a
        true lower bound. */
    ghost predicate Valid()
      reads this
    {
      && Mirrors(entries, order, nextTick)
      && bytes == Bytes(Entered(entries))
      && Bounds(entries, earliest)
      && Sound(Abs())
    }

    constructor (limits: Limits)
      ensures Valid() && Abs() == EMPTY && this.limits == limits
    {
      this.limits := limits;
      entries, order, nextTick, bytes := map[], map[], 0, 0;
      lastSweep, earliest := None, None;
      new;
      NothingIsValid(nextTick, lastSweep);
    }

    method Remove(key: Text)
      requires Valid()
      modifies `entries, `order, `bytes
      ensures Valid() && Abs() == Purge(old(Abs()), {key}) && key !in entries
    {
      hide Oldest, Without, Bytes, Mirrors, Entered, Bounds, Sound;
      PurgeIsSound(Abs(), {key});
      EnteredHas(entries, key);
      FewerBounds(entries, earliest, key);
      if key in entries {
        var slot := entries[key];
        MirrorDrop(entries, order, nextTick, key);
        LeavingWeighs(Entered(entries), key);
        entries := entries - {key};
        order := order - {slot.tick};
        bytes := bytes - slot.entry.size;
      } else {
        MirrorNot(entries, order, nextTick, key);
      }
    }

    /** Drop what has expired; no scan when `earliest` says nothing can have. */
    method DropExpired(now: nat)
      requires Valid()
      modifies `entries, `order, `bytes, `earliest
      ensures Valid() && Abs() == HttpCacheSpec.DropExpired(old(Abs()), now)
    {
      hide Oldest, Without, Bytes, Mirrors, Sound, Purge;
      PurgeNothing(Abs());
      if earliest.None? || earliest.value > now {
        NoneExpired(entries, earliest, now);
        return;
      }
      ghost var dead := Expired(Abs().entries, now);
      var todo := set k | k in entries && entries[k].entry.expires <= now;
      assert todo == dead;
      assert dead - todo == {};
      while todo != {}
        invariant Valid() && todo <= dead
        invariant Abs() == Purge(old(Abs()), dead - todo)
        decreases |todo|
      {
        hide Valid, Abs;
        var key :| key in todo;
        PurgeTwice(old(Abs()), dead - todo, {key});
        Remove(key);
        assert dead - todo + {key} == dead - (todo - {key});
        todo := todo - {key};
      }
      assert dead - todo == dead;
      var times := set k | k in entries :: entries[k].entry.expires;
      earliest := if times == {} then None else Some(Least(times));
      TimesBound(entries);
    }

    method Over() returns (over: bool)
      requires Valid()
      ensures over <==> HttpCacheSpec.Over(Abs().entries, limits)
    {
      EnteredHas(entries, []);
      over := (limits.maxEntries != 0 && |entries| > limits.maxEntries)
           || (limits.maxBytes != 0 && bytes > limits.maxBytes);
    }

    method Get(key: Text, now: nat) returns (r: Option<RawResponse>)
      requires Valid()
      modifies `entries, `order, `bytes, `nextTick
      ensures Valid() && (Abs(), r) == HttpCacheSpec.Get(old(Abs()), key, now)
    {
      hide Oldest, Without, Bytes, Mirrors, Entered, Bounds, Sound, Purge;
      EnteredHas(entries, key);
      if key !in entries {
        return None;
      }
      var slot := entries[key];
      if slot.entry.expires <= now {
        Remove(key);
        return None;
      }
      MovedIsSound(Abs(), key, Abs().entries) by { SoundSizes(Abs()); }
      MirrorMove(entries, order, nextTick, key);
      MovedBounds(entries, earliest, key, nextTick + 1);
      nextTick := nextTick + 1;
      order := (order - {slot.tick})[nextTick := key];
      entries := entries[key := slot.(tick := nextTick)];
      return Some(slot.entry.raw);
    }

    method Put(key: Text, raw: RawResponse, ttl: Millis, now: nat)
      requires Valid()
      modifies this
      ensures Valid() && Abs() == HttpCacheSpec.Put(old(Abs()), key, raw, ttl, now, limits)
    {
      hide Valid, Abs, Sound, Purge, HttpCacheSpec.Over, HttpCacheSpec.DropExpired, Swept, Inserted, Cut;
      var size := SizeOf(key, raw);
      if limits.maxBytes != 0 && size > limits.maxBytes {
        return;
      }
      SweepIfDue(now);
      var e := Entry(raw, now + ttl, size);
      InsertedParts(Abs(), key, e);
      Remove(key);
      InsertNewest(key, e);
      var over := Over();
      if over {
        DropExpired(now);
      }
      Trim();
    }

    method SweepIfDue(now: nat)
      requires Valid()
      modifies `entries, `order, `bytes, `earliest, `lastSweep
      ensures Valid() && Abs() == Swept(old(Abs()), now)
    {
      hide Oldest, Without, Bytes, Mirrors, Entered, Bounds, Sound, Purge;
      if lastSweep.None? || now - lastSweep.value >= SWEEP_EVERY {
        DropExpired(now);
        SoundAnyway(Abs(), Some(now));
        lastSweep := Some(now);
      }
    }

    method InsertNewest(key: Text, e: Entry)
      requires Valid() && key !in entries && e.size == SizeOf(key, e.raw)
      modifies `entries, `order, `bytes, `earliest, `nextTick
      ensures Valid() && Abs() == Inserted(old(Abs()), key, e)
    {
      hide Oldest, Without, Bytes, Mirrors, Entered, Bounds, Sound;
      InsertedIsSound(Abs(), key, e);
      MirrorNot(entries, order, nextTick, key);
      MirrorPush(entries, order, nextTick, key, e);
      ArrivingWeighs(Entered(entries), key, e) by { EnteredHas(entries, key); }
      MoreBounds(entries, earliest, key, Slot(e, nextTick + 1));
      earliest := if earliest.None? || e.expires < earliest.value then Some(e.expires) else earliest;
      nextTick := nextTick + 1;
      order := order[nextTick := key];
      bytes := bytes + e.size;
      entries := entries[key := Slot(e, nextTick)];
    }

    /** Evict the least recently used until the caps hold. */
    method Trim()
      requires Valid()
      modifies `entries, `order, `bytes
      ensures Valid() && Abs() == Trimmed(old(Abs()), limits)
    {
      hide Oldest, Without, Sound, Purge, HttpCacheSpec.Over;
      ghost var c := Abs();
      ghost var n: nat := 0;
      assert Sound(c);
      CutNothing(c);
      var over := Over();
      while over
        invariant Valid() && n <= |c.lru| && Abs() == Cut(c, n)
        invariant over <==> HttpCacheSpec.Over(Cut(c, n).entries, limits)
        invariant Victims(c, limits, 0) == Victims(c, limits, n)
        decreases |c.lru| - n
      {
        hide Mirrors, Bounds, Bytes;
        NothingListed(order);
        CutIs(c, n);
        if order == map[] {
          break;
        }
        FirstIsOldest(order);
        CutOneMore(c, n);
        var oldest := order[Least(order.Keys)];
        assert oldest == c.lru[n];
        Remove(oldest);
        n := n + 1;
        over := Over();
      }
    }

    method Clear() returns (n: nat)
      requires Valid()
      modifies this
      ensures Valid() && Abs() == HttpCacheSpec.Clear(old(Abs())) && n == |old(Abs()).entries|
    {
      hide Oldest, Bytes, Mirrors, Entered, Bounds, Sound;
      EnteredHas(entries, []);
      NothingIsValid(nextTick, lastSweep);
      n := |entries|;
      entries, order, bytes, earliest := map[], map[], 0, None;
    }
  }

  lemma TimesBound(m: map<Text, Slot>)
    ensures
      var times := set k | k in m :: m[k].entry.expires;
      Bounds(m, if times == {} then None else Some(Least(times)))
  {
    var times := set k | k in m :: m[k].entry.expires;
    forall k | k in m ensures times != {} && Least(times) <= m[k].entry.expires {
      assert m[k].entry.expires in times;
    }
  }

  lemma SoundSizes(c: Cache)
    requires Sound(c)
    ensures forall k | k in c.entries :: c.entries[k].size == SizeOf(k, c.entries[k].raw)
  {
  }

  lemma SoundAnyway(c: Cache, swept: Option<nat>)
    requires Sound(c)
    ensures Sound(c.(lastSweep := swept))
  {
  }

  lemma MovedBounds(m: map<Text, Slot>, earliest: Option<nat>, key: Text, tick: nat)
    requires Bounds(m, earliest) && key in m
    ensures Bounds(m[key := m[key].(tick := tick)], earliest)
  {
  }

  lemma MoreBounds(m: map<Text, Slot>, earliest: Option<nat>, key: Text, slot: Slot)
    requires Bounds(m, earliest)
    ensures Bounds(m[key := slot],
      if earliest.None? || slot.entry.expires < earliest.value then Some(slot.entry.expires) else earliest)
  {
  }

  lemma CutNothing(c: Cache)
    ensures Cut(c, 0) == c
  {
    PurgeNothing(c);
    assert Elems(c.lru[..0]) == {};
  }
}
