/** What each operation on the store does to its entries, said in terms of times, bytes
    and the order of use: what a reader sees, what a write stores and for how long, what
    it drops, and when it is refused. */
module StoreMeans {
  import opened Prelude
  import opened Recency
  import opened StateSpec
  import opened StateLaws
  import opened SharedState
  import F = FetchProtocol

  // ------------------------------------------------------------ bytes and times

  function Payload(p: Prim): seq<byte> {
    match p
    case Bool(b) => [if b then 1 else 0]
    case Num(_) => seq(8, _ => 0)
    case Str(s) => s
  }

  /** The bytes an entry is charged for: its key, its value, and 64 for keeping it. */
  function Charged(key: Key, p: Prim): seq<byte> { key.bytes + Payload(p) + seq(64, _ => 0) }

  ghost function Charges(es: Entries): map<Key, nat> { map k | k in es :: |Charged(k, es[k].value)| }

  /** All the bytes the entries are charged for. */
  ghost function Held(es: Entries): nat { Total(Charges(es)) }

  /** There is room for one more entry of `n` bytes beside these. */
  ghost predicate RoomFor(es: Entries, n: nat, lim: Limits) {
    && (lim.maxEntries == 0 || |es| + 1 <= lim.maxEntries)
    && (lim.maxBytes == 0 || Held(es) + n <= lim.maxBytes)
  }

  predicate Past(e: Entry, now: nat) { e.expires.Some? && e.expires.value <= now }

  /** Past its expiry and its stale window. */
  predicate Lapsed(e: Entry, now: nat) {
    e.expires.Some? && e.expires.value + (if e.staleFor.Some? then e.staleFor.value else 0) <= now
  }

  predicate Readable(s: Store, key: Key, now: nat) { key in s.entries && !Past(s.entries[key], now) }

  lemma LifeMeans(e: Entry, now: nat)
    ensures e.Expired(now) <==> Past(e, now)
    ensures e.Dead(now) <==> Lapsed(e, now)
    ensures e.Stale(now) <==> Past(e, now) && !Lapsed(e, now)
  {
  }

  // ------------------------------------------------------------------- reading

  /** A get answers the value of an entry that has not expired, and nothing else; it
      drops an entry whose stale window is over, and no other. */
  lemma GetMeans(s: Store, key: Key, now: nat)
    ensures
      var (t, r) := Get(s, key, now);
      && r == (if Readable(s, key, now) then Some(s.entries[key].value) else None)
      && t.entries == (if key in s.entries && Lapsed(s.entries[key], now) then s.entries - {key} else s.entries)
      && t.lastVersion == s.lastVersion
  {
    if key in s.entries { LifeMeans(s.entries[key], now); }
  }

  /** A lookup also answers an expired value until its stale window ends. */
  lemma LookupMeans(s: Store, key: Key, now: nat)
    ensures
      var (t, r) := Lookup(s, key, now);
      && r == (if Readable(s, key, now) then FreshHit(s.entries[key].value)
               else if key in s.entries && !Lapsed(s.entries[key], now) then StaleHit(s.entries[key].value)
               else Absent)
      && t.entries == (if key in s.entries && Lapsed(s.entries[key], now) then s.entries - {key} else s.entries)
      && t.lastVersion == s.lastVersion
  {
    if key in s.entries { LifeMeans(s.entries[key], now); }
  }

  /** A snapshot is the value and the version of an entry that has not expired. */
  lemma SnapshotMeans(s: Store, key: Key, now: nat)
    ensures ValueAt(s, key, now) == if Readable(s, key, now) then Some(s.entries[key].value) else None
    ensures VersionAt(s, key, now) == if Readable(s, key, now) then s.entries[key].version else 0
    ensures Reap(s, key, now).entries
         == if key in s.entries && Lapsed(s.entries[key], now) then s.entries - {key} else s.entries
  {
    if key in s.entries { LifeMeans(s.entries[key], now); }
  }

  // -------------------------------------------------------- what a write stores

  /** The entry a write replaces, if a reader could still see it. */
  function Replaced(s: Store, key: Key, now: nat): Option<Entry> {
    if Readable(s, key, now) then Some(s.entries[key]) else None
  }

  /** An expiry of the live entry that a write leaves as it is. */
  function Kept(before: Option<Entry>, x: Expiry): Option<nat> {
    if before.Some? && (x.Keep? || x.AfterIfUnset?) then before.value.expires else None
  }

  /** When the new entry expires: as it did, if the write keeps that; a time given from
      now on; or never. A time given "if unset" never moves an expiry that is set. */
  function NewExpiry(before: Option<Entry>, x: Expiry, now: nat): Option<nat> {
    if Kept(before, x).Some? then Kept(before, x)
    else match x
      case Clear => None
      case Keep => None
      case After(ms) => Some(now + ms)
      case AfterIfUnset(ms) => Some(now + ms)
  }

  /** A stale window belongs to an expiry: it is given, or stays with an expiry that is
      kept. */
  function NewWindow(before: Option<Entry>, w: Write, now: nat): Option<nat> {
    if NewExpiry(before, w.expiry, now).None? then None
    else if w.staleMs.Some? then Some(w.staleMs.value)
    else if Kept(before, w.expiry).Some? then before.value.staleFor
    else None
  }

  /** The entry a write stores. */
  function NewEntry(s: Store, key: Key, value: Prim, w: Write, now: nat): Entry {
    var before := Replaced(s, key, now);
    Entry(value, s.lastVersion + 1, NewExpiry(before, w.expiry, now), NewWindow(before, w, now),
          if w.evictable.Some? then w.evictable.value else before.Some? && before.value.evictable,
          |Charged(key, value)|)
  }

  lemma ChargedIsSize(key: Key, p: Prim)
    ensures |Charged(key, p)| == SizeOf(key, p)
  {
  }

  lemma MetaMeans(s: Store, q: Store, key: Key, value: Prim, w: Write, now: nat)
    requires Live(q, key, now) == Replaced(s, key, now) && q.lastVersion == s.lastVersion
    ensures
      var meta := MetaFor(Live(q, key, now), w, now);
      Entry(value, q.lastVersion + 1, meta.expires, meta.staleFor, meta.evictable, SizeOf(key, value))
        == NewEntry(s, key, value, w, now)
  {
    ChargedIsSize(key, value);
    hide SizeOf, Charged;
  }

  // ---------------------------------------------------------- what a write drops

  /** What a write to `key` clears away first: of the entries whose stale window is over,
      its own, and once a minute all. */
  function Cleared(s: Store, key: Key, now: nat): set<Key> {
    set k | k in s.entries && Lapsed(s.entries[k], now)
            && (k == key || s.lastSweep.None? || now - s.lastSweep.value >= 60_000)
  }

  /** What it drops because there is no room and `earliest` has passed: expired entries,
      but none that is stale and may not be evicted. */
  function Dropped(s: Store, es: Entries, full: bool, now: nat): set<Key> {
    set k | k in es && full && s.earliest.Some? && s.earliest.value <= now
            && Past(es[k], now) && (es[k].evictable || Lapsed(es[k], now))
  }

  /** The first `n` of a list, as a set. */
  function FirstOf(l: seq<Key>, n: nat): set<Key>
    requires n <= |l|
  {
    set i | 0 <= i < n :: l[i]
  }

  /** Evicting the first `n` of `order` makes room, and evicting fewer does not. */
  ghost predicate JustEnough(es: Entries, key: Key, order: seq<Key>, n: nat, size: nat, lim: Limits) {
    && n <= |order| && RoomFor(es - FirstOf(order, n) - {key}, size, lim)
    && forall j | 0 <= j < n :: !RoomFor(es - FirstOf(order, j) - {key}, size, lim)
  }

  /** A whole write: what goes, in which order; whether it is refused; and what is
      stored. */
  ghost predicate PutDoes(s: Store, key: Key, value: Prim, w: Write, now: nat, lim: Limits, t: Store, o: Outcome) {
    var size := |Charged(key, value)|;
    var a := s.entries - Cleared(s, key, now);
    var dropped := Dropped(s, a, !RoomFor(a - {key}, size, lim), now);
    if lim.maxBytes != 0 && size > lim.maxBytes then
      o.Full? && t.entries == a && t.lastVersion == s.lastVersion
    else
      var order := Without(s.lru, Cleared(s, key, now) + dropped + {key});
      MakesRoom(s.lastVersion, s.evictions, a - dropped, order, key, NewEntry(s, key, value, w, now), size, lim, t, o)
  }

  /** Of the entries `b` left, the fewest of `order` that make room go, and the new entry
      is stored; or, if all of them are too few, it is refused and none goes. */
  ghost predicate MakesRoom(lastVersion: nat, evictions: nat, b: Entries, order: seq<Key>, key: Key, e: Entry,
                            size: nat, lim: Limits, t: Store, o: Outcome)
  {
    if o.Full? then
      && (forall n | 0 <= n <= |order| :: !RoomFor(b - FirstOf(order, n) - {key}, size, lim))
      && t.entries == b && t.lastVersion == lastVersion
    else exists n: nat ::
      && JustEnough(b, key, order, n, size, lim) && t.entries == (b - FirstOf(order, n))[key := e]
      && t.lastVersion == lastVersion + 1 && t.evictions == evictions + n
  }

  lemma ChargesAreSizes(s: Store, es: Entries)
    requires Sound(s) && es.Keys <= s.entries.Keys && forall k | k in es :: es[k] == s.entries[k]
    ensures Held(es) == Bytes(es)
  {
    forall k | k in es ensures |Charged(k, es[k].value)| == es[k].size { ChargedIsSize(k, es[k].value); }
    hide Charged, SizeOf;
    assert Charges(es) == Sizes(es);
  }

  lemma PreparedMeans(s: Store, key: Key, now: nat)
    requires Sound(s)
    ensures
      var q := Prepared(s, key, now);
      && q.entries == s.entries - Cleared(s, key, now) && q.lru == Without(s.lru, Cleared(s, key, now))
      && q.earliest == s.earliest && q.lastVersion == s.lastVersion && q.evictions == s.evictions
      && Live(q, key, now) == Replaced(s, key, now)
  {
    forall k | k in s.entries ensures s.entries[k].Dead(now) <==> Lapsed(s.entries[k], now) {
      LifeMeans(s.entries[k], now);
    }
    var dead, cleared, u := DeadKeys(s.entries, now), Cleared(s, key, now), Sweep(s, now);
    hide Without, Sound, Lapsed, Past;
    if SweepDue(s, now) {
      assert cleared == dead;
      assert key in u.entries ==> !u.entries[key].Dead(now);
    } else if key in s.entries && s.entries[key].Dead(now) {
      assert cleared == {key};
    } else {
      assert cleared == {};
      WithoutAbsent(s.lru, {});
    }
    if key in s.entries { LifeMeans(s.entries[key], now); }
  }

  /** What a store of exact sizes has room for is what the running totals say. */
  lemma RoomMeans(s: Store, es: Entries, size: nat, lim: Limits)
    requires Sound(s) && es.Keys <= s.entries.Keys && forall k | k in es :: es[k] == s.entries[k]
    ensures RoomFor(es, size, lim) <==> lim.Allows(Count(es) + 1, Bytes(es) + size)
  {
    ChargesAreSizes(s, es);
    hide Held, Bytes, Sound;
  }

  lemma DropMeans(s: Store, q: Store, full: bool, now: nat)
    requires q.earliest == s.earliest
    ensures
      var dropped := Dropped(s, q.entries, full, now);
      var p := if full then DropExpired(q, now) else q;
      && p.entries == q.entries - dropped && p.lru == Without(q.lru, dropped)
      && p.lastVersion == q.lastVersion && p.evictions == q.evictions
  {
    forall k | k in q.entries
      ensures q.entries[k].Expired(now) <==> Past(q.entries[k], now)
      ensures q.entries[k].Dead(now) <==> Lapsed(q.entries[k], now)
    {
      LifeMeans(q.entries[k], now);
    }
    var dropped := Dropped(s, q.entries, full, now);
    hide Without, Past, Lapsed;
    if full && s.earliest.Some? && s.earliest.value <= now {
      assert dropped == ExpiredKeys(q.entries, now);
    } else {
      assert dropped == {};
      WithoutAbsent(q.lru, {});
    }
  }

  /** What is left to evict from, and in which order. */
  ghost predicate Leaves(s: Store, key: Key, size: nat, now: nat, lim: Limits, p: Store) {
    var a := s.entries - Cleared(s, key, now);
    var dropped := Dropped(s, a, !RoomFor(a - {key}, size, lim), now);
    && p.entries == a - dropped && Others(p, key) == Without(s.lru, Cleared(s, key, now) + dropped + {key})
    && p.lastVersion == s.lastVersion && p.evictions == s.evictions
  }

  /** The store a write evicts from. */
  lemma PurgedMeans(s: Store, key: Key, size: nat, now: nat, lim: Limits)
    requires Sound(s)
    ensures Leaves(s, key, size, now, lim, Purged(s, key, size, now, lim))
  {
    var q := Prepared(s, key, now);
    PreparedMeans(s, key, now);
    var full := StateSpec.Over(q, key, size, lim);
    RoomMeans(s, q.entries - {key}, size, lim);
    assert full <==> !RoomFor(q.entries - {key}, size, lim);
    hide Sound, Prepared, RoomFor, Cleared, Dropped, StateSpec.Over, DropExpired, Without;
    DropMeans(s, q, full, now);
    WithoutTwice(s.lru, Cleared(s, key, now), Dropped(s, q.entries, full, now));
    WithoutTwice(s.lru, Cleared(s, key, now) + Dropped(s, q.entries, full, now), {key});
  }

  lemma FirstIsElems(l: seq<Key>, n: nat)
    requires n <= |l|
    ensures FirstOf(l, n) == Elems(l[..n])
  {
    forall k | k in l[..n] ensures k in FirstOf(l, n) {
      var i :| 0 <= i < n && l[i] == k;
    }
    forall k | k in FirstOf(l, n) ensures k in l[..n] {
      var i :| 0 <= i < n && l[i] == k;
      assert l[..n][i] == k;
    }
  }

  /** Planning by running totals finds room exactly where there is room. */
  lemma FitsMeans(p: Store, key: Key, size: nat, lim: Limits, n: nat)
    requires Sound(p) && n <= |Others(p, key)|
    ensures FitsAfter(p, key, size, lim, n) <==> RoomFor(p.entries - FirstOf(Others(p, key), n) - {key}, size, lim)
  {
    SoundIndexed(p);
    PlanMeansRoom(p, key, size, lim, n);
    FirstIsElems(Others(p, key), n);
    hide Sound, Others, FirstOf, Elems, FitsAfter;
    RoomMeans(p, p.entries - FirstOf(Others(p, key), n) - {key}, size, lim);
  }

  /** The plan is the fewest that make room, where any number does. */
  lemma PlanMeans(p: Store, key: Key, size: nat, lim: Limits)
    requires Sound(p)
    ensures
      var v := Victims(p, key, size, lim, 0);
      if v.Some? then JustEnough(p.entries, key, Others(p, key), v.value, size, lim)
      else forall n: nat | n <= |Others(p, key)| :: !RoomFor(p.entries - FirstOf(Others(p, key), n) - {key}, size, lim)
  {
    hide Sound, Others, FirstOf, FitsAfter, RoomFor, Victims;
    forall n: nat | n <= |Others(p, key)|
      ensures FitsAfter(p, key, size, lim, n)
        <==> RoomFor(p.entries - FirstOf(Others(p, key), n) - {key}, size, lim)
    {
      FitsMeans(p, key, size, lim, n);
    }
  }

  /** Every write does just this. */
  lemma PutMeans(s: Store, key: Key, value: Prim, w: Write, now: nat, lim: Limits)
    requires Sound(s)
    ensures
      var (t, o) := PutValue(s, key, value, w, now, lim);
      PutDoes(s, key, value, w, now, lim, t, o)
  {
    var size := SizeOf(key, value);
    var q, p := Prepared(s, key, now), Purged(s, key, size, now, lim);
    var (t, o) := PutValue(s, key, value, w, now, lim);
    hide *;
    ChargedIsSize(key, value);
    PreparedMeans(s, key, now);
    PutInParts(s, key, value, w, now, lim);
    if lim.maxBytes != 0 && size > lim.maxBytes {
      RefusedAlone(s, key, value, w, now, lim, t, o);
    } else {
      PurgedMeans(s, key, size, now, lim);
      PlanMeans(p, key, size, lim);
      match Victims(p, key, size, lim, 0)
      case None => PutRefused(s, key, value, w, now, lim, p);
      case Some(n) =>
        MetaMeans(s, q, key, value, w, now);
        EvictedMeans(p, key, n);
        LeavesSame(s, key, size, now, lim, p);
        PutStored(s, key, value, w, now, lim, p, n, t, MetaFor(Live(q, key, now), w, now));
    }
  }

  lemma LeavesSame(s: Store, key: Key, size: nat, now: nat, lim: Limits, p: Store)
    requires Leaves(s, key, size, now, lim, p)
    ensures p.lastVersion == s.lastVersion && p.evictions == s.evictions
  {
    hide Cleared, Dropped, RoomFor, Without, Others;
  }

  /** A put that is not refused leaves the new entry under its key. */
  lemma StoredEntry(s: Store, key: Key, value: Prim, w: Write, now: nat, lim: Limits, t: Store)
    requires PutDoes(s, key, value, w, now, lim, t, Stored)
    ensures key in t.entries && t.entries[key] == NewEntry(s, key, value, w, now)
  {
    hide Charged, Cleared, Dropped, RoomFor, FirstOf, Without, NewEntry, JustEnough;
  }

  lemma RefusedAlone(s: Store, key: Key, value: Prim, w: Write, now: nat, lim: Limits, t: Store, o: Outcome)
    requires lim.maxBytes != 0 && |Charged(key, value)| > lim.maxBytes && o.Full?
    requires t.entries == s.entries - Cleared(s, key, now) && t.lastVersion == s.lastVersion
    ensures PutDoes(s, key, value, w, now, lim, t, o)
  {
    hide Charged, Cleared;
  }

  lemma EvictedMeans(p: Store, key: Key, n: nat)
    requires n <= |Others(p, key)|
    ensures
      var t := Evict(p, key, n);
      && t.entries == p.entries - FirstOf(Others(p, key), n)
      && t.lastVersion == p.lastVersion && t.evictions == p.evictions + n
  {
    FirstIsElems(Others(p, key), n);
    hide Others, FirstOf, Elems, Without;
  }

  lemma PutRefused(s: Store, key: Key, value: Prim, w: Write, now: nat, lim: Limits, p: Store)
    requires Leaves(s, key, |Charged(key, value)|, now, lim, p)
    requires lim.maxBytes == 0 || |Charged(key, value)| <= lim.maxBytes
    requires forall n: nat | n <= |Others(p, key)| ::
      !RoomFor(p.entries - FirstOf(Others(p, key), n) - {key}, |Charged(key, value)|, lim)
    ensures PutDoes(s, key, value, w, now, lim, p, Full)
  {
    hide Charged, Cleared, Dropped, RoomFor, FirstOf, Without, Others;
  }

  lemma PutStored(s: Store, key: Key, value: Prim, w: Write, now: nat, lim: Limits, p: Store, n: nat, t: Store,
                  meta: Meta)
    requires Leaves(s, key, |Charged(key, value)|, now, lim, p)
    requires lim.maxBytes == 0 || |Charged(key, value)| <= lim.maxBytes
    requires JustEnough(p.entries, key, Others(p, key), n, |Charged(key, value)|, lim)
    requires n <= |Others(p, key)| && t == Insert(Evict(p, key, n), key, value, meta, |Charged(key, value)|)
    requires Evict(p, key, n).entries == p.entries - FirstOf(Others(p, key), n)
    requires Evict(p, key, n).lastVersion == s.lastVersion && Evict(p, key, n).evictions == s.evictions + n
    requires Entry(value, s.lastVersion + 1, meta.expires, meta.staleFor, meta.evictable, |Charged(key, value)|)
          == NewEntry(s, key, value, w, now)
    ensures PutDoes(s, key, value, w, now, lim, t, Stored)
  {
    hide Charged, Cleared, Dropped, RoomFor, FirstOf, Without, Others, NewEntry, Evict, JustEnough;
    var order := Others(p, key);
    assert t.entries == (p.entries - FirstOf(order, n))[key := NewEntry(s, key, value, w, now)];
    assert MakesRoom(s.lastVersion, s.evictions, p.entries, order, key, NewEntry(s, key, value, w, now),
                     |Charged(key, value)|, lim, t, Stored);
    hide MakesRoom, Insert;
  }

  /** Writing nothing deletes the key, and only it. */
  lemma DeleteMeans(s: Store, key: Key, w: Write, now: nat, lim: Limits)
    ensures
      var (t, o) := Put(s, key, None, w, now, lim);
      o.Stored? && t.entries == s.entries - {key} && t.lastVersion == s.lastVersion
  {
  }

  // ------------------------------------------------ counters, swaps and loaders

  /** Entries after an operation that only looked: its own key goes once its stale window
      is over. */
  ghost predicate Looked(s: Store, key: Key, now: nat, t: Store) {
    && t.entries == (if key in s.entries && Lapsed(s.entries[key], now) then s.entries - {key} else s.entries)
    && t.lastVersion == s.lastVersion
  }

  /** All that a put goes by. */
  ghost predicate SameStart(s: Store, u: Store, key: Key, now: nat) {
    && u.entries - Cleared(u, key, now) == s.entries - Cleared(s, key, now)
    && Replaced(u, key, now) == Replaced(s, key, now)
    && u.lastVersion == s.lastVersion && u.earliest == s.earliest && u.evictions == s.evictions
    && forall more: set<Key> :: Without(u.lru, Cleared(u, key, now) + more + {key})
                             == Without(s.lru, Cleared(s, key, now) + more + {key})
  }

  lemma ReapedFirst(s: Store, key: Key, now: nat)
    requires Sound(s)
    ensures Sound(Reap(s, key, now)) && SameStart(s, Reap(s, key, now), key, now)
  {
    var u := Reap(s, key, now);
    PurgeKeeps(s, {key});
    if key in s.entries { LifeMeans(s.entries[key], now); }
    hide Sound, Without, Past, Lapsed;
    if key in s.entries && s.entries[key].Dead(now) {
      assert Cleared(s, key, now) == Cleared(u, key, now) + {key};
      forall more: set<Key>
        ensures Without(u.lru, Cleared(u, key, now) + more + {key})
             == Without(s.lru, Cleared(s, key, now) + more + {key})
      {
        WithoutTwice(s.lru, {key}, Cleared(u, key, now) + more + {key});
        assert {key} + (Cleared(u, key, now) + more + {key}) == Cleared(s, key, now) + more + {key};
      }
    }
  }

  lemma SamePut(s: Store, u: Store, key: Key, value: Prim, w: Write, now: nat, lim: Limits, t: Store, o: Outcome)
    requires SameStart(s, u, key, now) && PutDoes(u, key, value, w, now, lim, t, o)
    ensures PutDoes(s, key, value, w, now, lim, t, o)
  {
    hide Charged, RoomFor, Cleared, Replaced, Without, Dropped, NewEntry, MakesRoom;
    var a := s.entries - Cleared(s, key, now);
    var full := !RoomFor(a - {key}, |Charged(key, value)|, lim);
    SameDropped(s, u, a, full, now);
    SameEntry(s, u, key, value, w, now);
    var dropped := Dropped(s, a, full, now);
    assert Without(u.lru, Cleared(u, key, now) + dropped + {key})
        == Without(s.lru, Cleared(s, key, now) + dropped + {key});
  }

  lemma SameDropped(s: Store, u: Store, es: Entries, full: bool, now: nat)
    requires u.earliest == s.earliest
    ensures Dropped(u, es, full, now) == Dropped(s, es, full, now)
  {
  }

  lemma SameEntry(s: Store, u: Store, key: Key, value: Prim, w: Write, now: nat)
    requires Replaced(u, key, now) == Replaced(s, key, now) && u.lastVersion == s.lastVersion
    ensures NewEntry(u, key, value, w, now) == NewEntry(s, key, value, w, now)
  {
    hide Replaced, Charged;
  }

  /** A put after its own key was looked at is a put. */
  lemma PutOfReaped(s: Store, key: Key, value: Prim, w: Write, now: nat, lim: Limits)
    requires Sound(s)
    ensures
      var (t, o) := PutValue(Reap(s, key, now), key, value, w, now, lim);
      PutDoes(s, key, value, w, now, lim, t, o)
  {
    hide *;
    var u := Reap(s, key, now);
    ReapedFirst(s, key, now);
    PutMeans(u, key, value, w, now, lim);
    var (t, o) := PutValue(u, key, value, w, now, lim);
    SamePut(s, u, key, value, w, now, lim, t, o);
  }

  lemma ReapLooks(s: Store, key: Key, now: nat)
    ensures Looked(s, key, now, Reap(s, key, now))
  {
    SnapshotMeans(s, key, now);
    hide Lapsed, Without;
  }

  lemma IncrParts(s: Store, key: Key, n: int, w: Write, now: nat, lim: Limits)
    ensures
      var (t, r) := Incr(s, key, n, w, now, lim);
      var u, seen := Reap(s, key, now), ValueAt(s, key, now);
      var base := if seen.Some? && seen.value.Num? then seen.value.n else 0;
      if (seen.Some? && !seen.value.Num?)
         || !(-9_223_372_036_854_775_808 <= base <= 9_223_372_036_854_775_807) then
        r.NotInteger? && t == u
      else if !(-9_223_372_036_854_775_808 <= base + n <= 9_223_372_036_854_775_807) then
        r.Overflow? && t == u
      else
        var o := PutValue(u, key, Num(base + n), w, now, lim).1;
        && t == PutValue(u, key, Num(base + n), w, now, lim).0
        && r == if o.Full? then NoSpace else Counted(base + n)
  {
    hide Reap, PutValue, ValueAt;
  }

  /** An increment adds to the number a reader sees, or to nothing; the sum has to be
      whole 64 bits, and is stored as any value is. */
  lemma IncrMeans(s: Store, key: Key, n: int, w: Write, now: nat, lim: Limits)
    requires Sound(s)
    ensures
      var (t, r) := Incr(s, key, n, w, now, lim);
      var seen := Readable(s, key, now);
      var base := if seen && s.entries[key].value.Num? then s.entries[key].value.n else 0;
      if (seen && !s.entries[key].value.Num?)
         || !(-9_223_372_036_854_775_808 <= base <= 9_223_372_036_854_775_807) then
        r.NotInteger? && Looked(s, key, now, t)
      else if !(-9_223_372_036_854_775_808 <= base + n <= 9_223_372_036_854_775_807) then
        r.Overflow? && Looked(s, key, now, t)
      else
        if r.NoSpace? then PutDoes(s, key, Num(base + n), w, now, lim, t, Full)
        else r == Counted(base + n) && PutDoes(s, key, Num(base + n), w, now, lim, t, Stored)
  {
    hide *;
    SeenIn(s, key, now);
    SnapshotMeans(s, key, now);
    ReapLooks(s, key, now);
    IncrParts(s, key, n, w, now, lim);
    var base := if Readable(s, key, now) && s.entries[key].value.Num? then s.entries[key].value.n else 0;
    PutOfReaped(s, key, Num(base + n), w, now, lim);
  }

  lemma SeenIn(s: Store, key: Key, now: nat)
    ensures Readable(s, key, now) ==> key in s.entries
  {
  }

  lemma ReapLess(s: Store, key: Key, now: nat)
    ensures Reap(s, key, now).entries - {key} == s.entries - {key}
    ensures Reap(s, key, now).lastVersion == s.lastVersion
  {
    hide Without;
  }

  lemma SwapParts(s: Store, key: Key, expected: nat, value: Option<Prim>, w: Write, now: nat, lim: Limits)
    ensures
      var (t, r) := CompareAndSet(s, key, expected, value, w, now, lim);
      var u := Reap(s, key, now);
      if VersionAt(s, key, now) != expected then r.Differs? && t == u
      else if value.None? then r.Swapped? && t.entries == u.entries - {key} && t.lastVersion == u.lastVersion
      else
        && t == PutValue(u, key, value.value, w, now, lim).0
        && r == if PutValue(u, key, value.value, w, now, lim).1.Full? then NoRoom else Swapped
  {
    hide Reap, PutValue, VersionAt, Without;
  }

  /** A compare and set writes exactly where the version a reader sees is the one
      expected, 0 standing for nothing to see. */
  lemma SwapMeans(s: Store, key: Key, expected: nat, value: Option<Prim>, w: Write, now: nat, lim: Limits)
    requires Sound(s)
    ensures
      var (t, r) := CompareAndSet(s, key, expected, value, w, now, lim);
      if (if Readable(s, key, now) then s.entries[key].version else 0) != expected then
        r.Differs? && Looked(s, key, now, t)
      else if value.None? then r.Swapped? && t.entries == s.entries - {key} && t.lastVersion == s.lastVersion
      else if r.NoRoom? then PutDoes(s, key, value.value, w, now, lim, t, Full)
      else r.Swapped? && PutDoes(s, key, value.value, w, now, lim, t, Stored)
  {
    hide *;
    SeenIn(s, key, now);
    ReapLess(s, key, now);
    SnapshotMeans(s, key, now);
    ReapLooks(s, key, now);
    SwapParts(s, key, expected, value, w, now, lim);
    if value.Some? { PutOfReaped(s, key, value.value, w, now, lim); }
  }

  /** What a leader loaded is stored, as any value is, exactly where there is a value and
      a reader would see none. */
  lemma LoadedMeans(s: Store, key: Key, v: Prim, w: Write, now: nat, lim: Limits)
    requires Sound(s)
    ensures
      var e := FinishEffect(s, key, F.Loaded(Some(v)), w, now, lim);
      if Readable(s, key, now) then e.wrote.None? && e.store.entries == s.entries
      else if e.wrote.Some? then e.wrote == Some((key, v)) && PutDoes(s, key, v, w, now, lim, e.store, Stored)
      else PutDoes(s, key, v, w, now, lim, e.store, Full)
  {
    SeenIn(s, key, now);
    assert Readable(s, key, now) ==> s.entries[key].version != 0 && Looked(s, key, now, s);
    assert Readable(s, key, now) ==> !Lapsed(s.entries[key], now);
    ReapLooks(s, key, now);
    LoadedParts(s, key, v, w, now, lim);
    hide *;
    SnapshotMeans(s, key, now);
    PutOfReaped(s, key, v, w, now, lim);
  }

  lemma LoadedParts(s: Store, key: Key, v: Prim, w: Write, now: nat, lim: Limits)
    ensures
      var e := FinishEffect(s, key, F.Loaded(Some(v)), w, now, lim);
      var u := Reap(s, key, now);
      if VersionAt(s, key, now) != 0 then e == Effect(u, None)
      else
        && e.store == PutValue(u, key, v, w, now, lim).0
        && e.wrote == if PutValue(u, key, v, w, now, lim).1.Stored? then Some((key, v)) else None
  {
    hide Reap, PutValue, VersionAt;
  }

  /** Anything else a leader ends with stores nothing. */
  lemma NothingLoaded(s: Store, key: Key, shared: F.Shared, w: Write, now: nat, lim: Limits)
    requires !(shared.Loaded? && shared.value.Some?)
    ensures FinishEffect(s, key, shared, w, now, lim) == Effect(s, None)
  {
  }
}
