/** Laws of the reference store: the invariant every operation keeps, exact
    eviction, what a failed write may change, and version discipline. */
module StateLaws {
  import opened Prelude
  import opened Recency
  import opened StateSpec

  // ------------------------------------------------------------- invariant

  ghost predicate Indexed(s: Store) {
    && Distinct(s.lru)
    && forall k :: k in s.lru <==> k in s.entries && s.entries[k].evictable
  }

  ghost predicate Versioned(s: Store) {
    && (forall k | k in s.entries :: 1 <= s.entries[k].version <= s.lastVersion)
    && (forall j, k | j in s.entries && k in s.entries && j != k ::
          s.entries[j].version != s.entries[k].version)
  }

  ghost predicate Measured(s: Store) {
    forall k | k in s.entries :: s.entries[k].size == SizeOf(k, s.entries[k].value)
  }

  /** `earliest` bounds the expiry of every evictable entry from below. */
  ghost predicate Bounded(s: Store) {
    forall k | k in s.entries && s.entries[k].evictable && s.entries[k].expires.Some? ::
      s.earliest.Some? && s.earliest.value <= s.entries[k].expires.value
  }

  ghost predicate Capped(s: Store, lim: Limits) { lim.Allows(Count(s.entries), Bytes(s.entries)) }

  ghost predicate Sound(s: Store) { Indexed(s) && Versioned(s) && Measured(s) && Bounded(s) }

  ghost predicate Inv(s: Store, lim: Limits) { Sound(s) && Capped(s, lim) }

  lemma EmptyInv(lim: Limits)
    ensures Inv(EMPTY, lim)
  {
    assert Sizes(EMPTY.entries) == map[];
  }

  // ---------------------------------------------------------------- weights

  lemma SmallerWeighsLess(small: Entries, big: Entries)
    requires small.Keys <= big.Keys
    requires forall k | k in small :: small[k] == big[k]
    ensures Count(small) <= Count(big) && Bytes(small) <= Bytes(big)
  {
    assert Sizes(small).Keys == small.Keys && Sizes(big).Keys == big.Keys;
    TotalSubmap(Sizes(small), Sizes(big));
    assert |Sizes(small).Keys| == |small.Keys| && |Sizes(big).Keys| == |big.Keys|;
  }

  lemma AddedWeighs(es: Entries, key: Key, e: Entry)
    requires key !in es
    ensures Bytes(es[key := e]) == Bytes(es) + e.size
  {
    assert Sizes(es[key := e]) == Sizes(es)[key := e.size];
    TotalInsert(Sizes(es), key, e.size);
  }

  lemma InsertCounts(es: Entries, key: Key, e: Entry)
    ensures Count(es[key := e]) == Count(es - {key}) + 1
  {
    var rest := es - {key};
    assert es[key := e].Keys == rest.Keys + {key};
    assert |es[key := e].Keys| == |rest.Keys| + 1;
  }

  lemma InsertWeighs(es: Entries, key: Key, e: Entry)
    ensures Bytes(es[key := e]) == Bytes(es - {key}) + e.size
  {
    assert es[key := e] == (es - {key})[key := e];
    AddedWeighs(es - {key}, key, e);
  }

  // --------------------------------------------- what each step preserves

  ghost predicate Shrinks(s: Store, t: Store) {
    && t.entries.Keys <= s.entries.Keys
    && (forall k | k in t.entries :: t.entries[k] == s.entries[k])
    && t.lastVersion == s.lastVersion
  }

  lemma ShrinkingKeepsCaps(s: Store, t: Store, lim: Limits)
    requires Capped(s, lim) && Shrinks(s, t)
    ensures Capped(t, lim)
  {
    SmallerWeighsLess(t.entries, s.entries);
  }

  lemma PurgeKeeps(s: Store, ks: set<Key>)
    requires Sound(s)
    ensures Sound(Purge(s, ks)) && Shrinks(s, Purge(s, ks))
  {
    WithoutMembers(s.lru, ks);
  }

  lemma TouchKeeps(s: Store, key: Key)
    requires Sound(s)
    ensures Sound(Touch(s, key)) && Shrinks(s, Touch(s, key))
  {
    WithoutMembers(s.lru, {key});
  }

  lemma DropExpiredKeeps(s: Store, now: nat)
    requires Sound(s)
    ensures Sound(DropExpired(s, now)) && Shrinks(s, DropExpired(s, now))
  {
    var gone := ExpiredKeys(s.entries, now);
    PurgeKeeps(s, gone);
    var kept := Purge(s, gone);
    forall k | k in kept.entries && kept.entries[k].evictable && kept.entries[k].expires.Some?
      ensures kept.entries[k].expires.value in FutureExpiries(kept.entries, now)
    {
    }
  }

  lemma PreparedKeeps(s: Store, key: Key, now: nat)
    requires Sound(s)
    ensures Sound(Prepared(s, key, now)) && Shrinks(s, Prepared(s, key, now))
  {
    PurgeKeeps(s, DeadKeys(s.entries, now));
    PurgeKeeps(Sweep(s, now), {key});
  }

  lemma InsertKeeps(s: Store, key: Key, value: Prim, meta: Meta)
    requires Sound(s)
    ensures Sound(Insert(s, key, value, meta, SizeOf(key, value)))
  {
    WithoutMembers(s.lru, {key});
  }

  lemma InsertKeepsCaps(s: Store, key: Key, value: Prim, meta: Meta, size: nat, lim: Limits)
    requires !Over(s, key, size, lim)
    ensures Capped(Insert(s, key, value, meta, size), lim)
  {
    var e := Insert(s, key, value, meta, size).entries[key];
    InsertCounts(s.entries, key, e);
    InsertWeighs(s.entries, key, e);
  }

  // ------------------------------------------------------- exact eviction

  /** Non-evictable entries other than `key`: what no write may drop. */
  ghost function Pinned(s: Store, key: Key): Entries {
    map k | k in s.entries && !s.entries[k].evictable && k != key :: s.entries[k]
  }

  /** The store a write of `size` bytes evicts from: prepared, then rid of
      expired entries if it would not fit otherwise. */
  ghost function Purged(s: Store, key: Key, size: nat, now: nat, lim: Limits): Store {
    var p := Prepared(s, key, now);
    if Over(p, key, size, lim) then DropExpired(p, now) else p
  }

  lemma HeadOfList(es: Entries, l: seq<Key>)
    requires Distinct(l) && l != []
    ensures l[0] !in Elems(l[1..])
    ensures es - Elems(l) == es - Elems(l[1..]) - {l[0]}
  {
    assert Elems(l) == {l[0]} + Elems(l[1..]);
  }

  lemma HeadWeighs(es: Entries, l: seq<Key>)
    requires Distinct(l) && l != [] && forall k | k in l :: k in es
    ensures Count(es - Elems(l)) == Count(es - Elems(l[1..])) - 1
    ensures Bytes(es - Elems(l)) + es[l[0]].size == Bytes(es - Elems(l[1..]))
  {
    HeadOfList(es, l);
    var rest := es - Elems(l[1..]);
    assert l[0] in rest && rest[l[0]] == es[l[0]];
    hide Bytes, Count, Elems;
    LeavingWeighs(rest, l[0]);
  }

  /** Evicting a list of distinct keys sheds their count and their sizes. */
  lemma {:induction false} EvictedWeigh(es: Entries, l: seq<Key>)
    requires Distinct(l) && forall k | k in l :: k in es
    ensures Count(es - Elems(l)) == Count(es) - |l|
    ensures Bytes(es - Elems(l)) + SizesOf(es, l) == Bytes(es)
  {
    hide Bytes, Count;
    if l == [] {
      assert Elems(l) == {};
      assert es - Elems(l) == es;
    } else {
      hide Elems;
      EvictedWeigh(es, l[1..]);
      HeadWeighs(es, l);
    }
  }

  lemma LeavingWeighs(es: Entries, k: Key)
    requires k in es
    ensures Count(es - {k}) == Count(es) - 1
    ensures Bytes(es - {k}) + es[k].size == Bytes(es)
  {
    assert (es - {k}).Keys == es.Keys - {k};
    assert Sizes(es - {k}) == Sizes(es) - {k};
    TotalWithout(Sizes(es), k);
  }

  lemma {:induction false} SizesElsewhere(es: Entries, key: Key, l: seq<Key>)
    requires key !in l
    ensures SizesOf(es - {key}, l) == SizesOf(es, l)
  {
    if l != [] { SizesElsewhere(es, key, l[1..]); }
  }

  lemma OthersAreOthers(s: Store, key: Key, n: nat)
    requires Indexed(s) && n <= |Others(s, key)|
    ensures Distinct(Others(s, key)[..n])
    ensures key !in Others(s, key)[..n]
    ensures forall k | k in Others(s, key)[..n] :: k in s.entries && s.entries[k].evictable
  {
    WithoutMembers(s.lru, {key});
    forall k | k in Others(s, key)[..n] ensures k in Others(s, key) { }
  }

  /** The arithmetic of planning agrees with what evicting really leaves. */
  lemma PlanMeansRoom(s: Store, key: Key, size: nat, lim: Limits, n: nat)
    requires Indexed(s) && n <= |Others(s, key)|
    ensures
      var gone := Elems(Others(s, key)[..n]);
      var left := s.entries - gone - {key};
      FitsAfter(s, key, size, lim, n) <==> lim.Allows(Count(left) + 1, Bytes(left) + size)
  {
    var l := Others(s, key)[..n];
    OthersAreOthers(s, key, n);
    assert s.entries - Elems(l) - {key} == s.entries - {key} - Elems(l);
    hide Bytes, Count, Elems, Others, Indexed;
    EvictedWeigh(s.entries - {key}, l);
    SizesElsewhere(s.entries, key, l);
  }

  lemma PinnedIsRest(s: Store, key: Key)
    requires Indexed(s)
    ensures s.entries - Elems(Others(s, key)) - {key} == Pinned(s, key)
  {
    WithoutMembers(s.lru, {key});
  }

  /** Planning finds no victims exactly when the pinned entries are too much. */
  lemma NoPlanIffPinnedTooMuch(s: Store, key: Key, size: nat, lim: Limits)
    requires Indexed(s)
    ensures Victims(s, key, size, lim, 0).None?
       <==> !lim.Allows(Count(Pinned(s, key)) + 1, Bytes(Pinned(s, key)) + size)
  {
    var all := Others(s, key);
    assert all[..|all|] == all;
    PlanMeansRoom(s, key, size, lim, |all|);
    PinnedIsRest(s, key);
    match Victims(s, key, size, lim, 0)
    case None =>
    case Some(n) =>
      PlanMeansRoom(s, key, size, lim, n);
      forall k | k in all[..n] ensures k in all { }
      SmallerWeighsLess(s.entries - Elems(all) - {key}, s.entries - Elems(all[..n]) - {key});
  }

  ghost function Evict(s: Store, key: Key, n: nat): Store
    requires n <= |Others(s, key)|
  {
    Purge(s, Elems(Others(s, key)[..n])).(evictions := s.evictions + n)
  }

  lemma FitsAfterNone(s: Store, key: Key, size: nat, lim: Limits)
    ensures FitsAfter(s, key, size, lim, 0) <==> !Over(s, key, size, lim)
  {
    assert Others(s, key)[..0] == [];
  }

  /** Making room is planning victims from the purged store: when nothing has
      to go, the plan is empty. */
  lemma RoomIsPlan(s: Store, key: Key, size: nat, lim: Limits, now: nat)
    ensures
      var p := if Over(s, key, size, lim) then DropExpired(s, now) else s;
      match Victims(p, key, size, lim, 0)
      case None => MakeRoom(s, key, size, lim, now) == (p, Full)
      case Some(n) => MakeRoom(s, key, size, lim, now) == (Evict(p, key, n), Stored)
  {
    hide FitsAfter, Over, DropExpired;
    var p := if Over(s, key, size, lim) then DropExpired(s, now) else s;
    FitsAfterNone(p, key, size, lim);
    EvictNothing(p, key);
  }

  lemma EvictNothing(s: Store, key: Key)
    ensures Evict(s, key, 0) == s
  {
    assert Others(s, key)[..0] == [];
    assert Elems([]) == {};
    WithoutAbsent(s.lru, {});
    assert s.entries - {} == s.entries;
  }

  /** The parts of a write, named: what it plans from, and how it ends. */
  lemma PutInParts(s: Store, key: Key, value: Prim, w: Write, now: nat, lim: Limits)
    requires Sound(s)
    ensures
      var size := SizeOf(key, value);
      var q := Prepared(s, key, now);
      var p := Purged(s, key, size, now, lim);
      var r := PutValue(s, key, value, w, now, lim);
      && Sound(p) && Shrinks(s, p)
      && (lim.maxBytes != 0 && size > lim.maxBytes ==> r == (q, Full) && Sound(q) && Shrinks(s, q))
      && (lim.maxBytes == 0 || size <= lim.maxBytes ==>
            match Victims(p, key, size, lim, 0)
            case None => r == (p, Full)
            case Some(n) =>
              r == (Insert(Evict(p, key, n), key, value, MetaFor(Live(q, key, now), w, now), size), Stored))
  {
    hide FitsAfter, Over, Sound, Live, MetaFor, SizeOf;
    var q := Prepared(s, key, now);
    PreparedKeeps(s, key, now);
    DropExpiredKeeps(q, now);
    RoomIsPlan(q, key, SizeOf(key, value), lim, now);
  }

  /** A write fails exactly when it and the pinned entries alone break the caps;
      otherwise the victims are the shortest least-recently-used prefix that
      makes room, and nothing else goes. */
  lemma EvictionIsExact(s: Store, key: Key, value: Prim, w: Write, now: nat, lim: Limits)
    requires Sound(s)
    ensures
      var size := SizeOf(key, value);
      var p := Purged(s, key, size, now, lim);
      var (t, o) := PutValue(s, key, value, w, now, lim);
      && (o.Full? <==> !lim.Allows(Count(Pinned(p, key)) + 1, Bytes(Pinned(p, key)) + size))
      && (o.Stored? ==> exists n | 0 <= n <= |Others(p, key)| ::
            && t.entries - {key} == p.entries - Elems(Others(p, key)[..n]) - {key}
            && t.evictions == p.evictions + n
            && FitsAfter(p, key, size, lim, n)
            && forall j | 0 <= j < n :: !FitsAfter(p, key, size, lim, j))
  {
    hide FitsAfter, Over, Sound, Live, MetaFor, SizeOf, Purged, PutValue, Prepared, Pinned, Bytes, Others, Elems;
    var size := SizeOf(key, value);
    var p := Purged(s, key, size, now, lim);
    PutInParts(s, key, value, w, now, lim);
    SoundIndexed(p);
    NoPlanIffPinnedTooMuch(p, key, size, lim);
    if (lim.maxBytes == 0 || size <= lim.maxBytes) && Victims(p, key, size, lim, 0).Some? {
      var n := Victims(p, key, size, lim, 0).value;
      var t := PutValue(s, key, value, w, now, lim).0;
      assert t.entries - {key} == p.entries - Elems(Others(p, key)[..n]) - {key};
    }
  }

  lemma SoundIndexed(s: Store)
    requires Sound(s)
    ensures Indexed(s)
  {
  }

  // --------------------------------------------------------- every write

  /** `t` holds a new entry for `key` under a version no entry ever had; every
      other entry was already there. */
  ghost predicate Wrote(s: Store, t: Store, key: Key, value: Prim) {
    && t.lastVersion == s.lastVersion + 1
    && key in t.entries
    && t.entries[key].value == value
    && t.entries[key].version == t.lastVersion
    && (forall k | k in t.entries && k != key :: k in s.entries && t.entries[k] == s.entries[k])
  }

  lemma EvictKeeps(s: Store, key: Key, n: nat)
    requires Sound(s) && n <= |Others(s, key)|
    ensures Sound(Evict(s, key, n)) && Shrinks(s, Evict(s, key, n))
  {
    PurgeKeeps(s, Elems(Others(s, key)[..n]));
  }

  lemma EvictMakesRoom(s: Store, key: Key, n: nat, size: nat, lim: Limits)
    requires Indexed(s) && n <= |Others(s, key)| && FitsAfter(s, key, size, lim, n)
    ensures !Over(Evict(s, key, n), key, size, lim)
  {
    hide FitsAfter, Others, Elems, Bytes, Count, Indexed;
    PlanMeansRoom(s, key, size, lim, n);
  }

  lemma PutValueKeeps(s: Store, key: Key, value: Prim, w: Write, now: nat, lim: Limits)
    requires Inv(s, lim)
    ensures
      var (t, o) := PutValue(s, key, value, w, now, lim);
      && Inv(t, lim)
      && (if o.Stored? then Wrote(s, t, key, value) else Shrinks(s, t))
  {
    hide FitsAfter, Over, Sound, Live, MetaFor, SizeOf, Purged, PutValue, Prepared, Others, Evict, Capped;
    var size := SizeOf(key, value);
    var p := Purged(s, key, size, now, lim);
    PutInParts(s, key, value, w, now, lim);
    if lim.maxBytes != 0 && size > lim.maxBytes {
      ShrinkingKeepsCaps(s, Prepared(s, key, now), lim);
      return;
    }
    match Victims(p, key, size, lim, 0)
    case None => ShrinkingKeepsCaps(s, p, lim);
    case Some(n) =>
      var t := Evict(p, key, n);
      EvictKeeps(p, key, n);
      SoundIndexed(p);
      EvictMakesRoom(p, key, n, size, lim);
      var meta := MetaFor(Live(Prepared(s, key, now), key, now), w, now);
      InsertKeeps(t, key, value, meta);
      InsertKeepsCaps(t, key, value, meta, size, lim);
  }

  lemma PutKeeps(s: Store, key: Key, value: Option<Prim>, w: Write, now: nat, lim: Limits)
    requires Inv(s, lim)
    ensures
      var (t, o) := Put(s, key, value, w, now, lim);
      && Inv(t, lim)
      && (value.Some? && o.Stored? ==> Wrote(s, t, key, value.value))
      && (value.None? ==> o.Stored? && key !in t.entries)
      && (value.None? || o.Full? ==> Shrinks(s, t))
  {
    hide Sound, PutValue, Capped;
    match value
    case None =>
      PurgeKeeps(s, {key});
      ShrinkingKeepsCaps(s, Purge(s, {key}), lim);
    case Some(v) => PutValueKeeps(s, key, v, w, now, lim);
  }

  /** Whatever a write's outcome, an entry that is fresh and not evictable, other
      than its own key, is untouched; if it fails, every fresh entry is. */
  lemma PutSparesFresh(s: Store, key: Key, value: Prim, w: Write, now: nat, lim: Limits)
    requires Sound(s)
    ensures
      var (t, o) := PutValue(s, key, value, w, now, lim);
      forall k | k in s.entries && s.entries[k].Fresh(now) && (o.Full? || (!s.entries[k].evictable && k != key)) ::
        k in t.entries && t.entries[k] == s.entries[k]
  {
    hide FitsAfter, Over, Sound, Live, MetaFor, SizeOf, PutValue, Others;
    var p := Purged(s, key, SizeOf(key, value), now, lim);
    PutInParts(s, key, value, w, now, lim);
    SoundIndexed(p);
    match Victims(p, key, SizeOf(key, value), lim, 0)
    case None =>
    case Some(n) => OthersAreOthers(p, key, n);
  }

  // ----------------------------------------------- when a failed write changes nothing

  /** The store already holds nothing that preparing a write would remove. */
  predicate NothingToReap(s: Store, key: Key, now: nat) {
    && !(key in s.entries && s.entries[key].Dead(now))
    && (SweepDue(s, now) ==> DeadKeys(s.entries, now) == {})
  }

  /** Nor would the scan for expired entries, if it ran, remove anything. */
  predicate NothingToScan(s: Store, now: nat) {
    s.earliest.None? || s.earliest.value > now || ExpiredKeys(s.entries, now) == {}
  }

  lemma PurgeChanges(s: Store, ks: set<Key>)
    requires ks <= s.entries.Keys
    ensures Purge(s, ks).entries == s.entries <==> ks == {}
    ensures ks == {} ==> Purge(s, ks) == s
  {
    if ks == {} {
      WithoutAbsent(s.lru, {});
      assert s.entries - {} == s.entries;
    } else {
      var k :| k in ks;
      assert k in s.entries && k !in Purge(s, ks).entries;
    }
  }

  lemma PreparingChanges(s: Store, key: Key, now: nat)
    ensures Prepared(s, key, now).entries == s.entries <==> NothingToReap(s, key, now)
    ensures NothingToReap(s, key, now) ==> Prepared(s, key, now).lru == s.lru
    ensures Prepared(s, key, now).earliest == s.earliest
    ensures Shrinks(s, Prepared(s, key, now))
  {
    hide Without;
    PurgeChanges(s, DeadKeys(s.entries, now));
    var swept := Sweep(s, now);
    if key in swept.entries && swept.entries[key].Dead(now) {
      PurgeChanges(swept, {key});
    }
  }

  lemma ScanningChanges(s: Store, now: nat)
    ensures DropExpired(s, now).entries == s.entries <==> NothingToScan(s, now)
    ensures NothingToScan(s, now) ==> DropExpired(s, now).lru == s.lru
    ensures Shrinks(s, DropExpired(s, now))
  {
    hide Without;
    PurgeChanges(s, ExpiredKeys(s.entries, now));
  }

  /** A write that fails changes no entry if and only if it finds nothing dead under
      its key, no sweep of dead entries due, and, unless it is too big by itself,
      no expired entry that the scan for room would drop. */
  lemma FailedWriteIsExact(s: Store, key: Key, value: Prim, w: Write, now: nat, lim: Limits)
    requires Sound(s) && PutValue(s, key, value, w, now, lim).1.Full?
    ensures
      var t := PutValue(s, key, value, w, now, lim).0;
      && (t.entries == s.entries <==>
            && !(key in s.entries && s.entries[key].Dead(now))
            && (SweepDue(s, now) ==> DeadKeys(s.entries, now) == {})
            && ((lim.maxBytes != 0 && SizeOf(key, value) > lim.maxBytes)
                || s.earliest.None? || s.earliest.value > now || ExpiredKeys(s.entries, now) == {}))
      && (t.entries == s.entries ==> t.lru == s.lru)
  {
    hide FitsAfter, Over, Sound, Live, MetaFor, SizeOf, PutValue, Prepared, Others, DropExpired, Shrinks, Insert, Evict;
    var q, size := Prepared(s, key, now), SizeOf(key, value);
    PutInParts(s, key, value, w, now, lim);
    PreparingChanges(s, key, now);
    if lim.maxBytes == 0 || size <= lim.maxBytes {
      FullMeansOver(q, key, size, lim);
      ScanningChanges(q, now);
      BackToStart(s, q, DropExpired(q, now));
    }
  }

  /** A write that finds no victims was over the caps, and so had scanned. */
  lemma FullMeansOver(q: Store, key: Key, size: nat, lim: Limits)
    ensures !Over(q, key, size, lim) ==> Victims(q, key, size, lim, 0).Some?
  {
    FitsAfterNone(q, key, size, lim);
    hide FitsAfter, Over;
  }

  lemma BackToStart(s: Store, q: Store, p: Store)
    requires Shrinks(s, q) && Shrinks(q, p)
    ensures p.entries == s.entries <==> p.entries == q.entries && q.entries == s.entries
  {
    if p.entries == s.entries {
      assert q.entries.Keys == s.entries.Keys;
    }
  }

  // An entry of one millisecond, and a minute later a string too big for the caps.

  const SMALL_KEY := Key([1])
  const OTHER_KEY := Key([2])
  const TIGHT := Limits(0, 100)
  const BRIEFLY := Write(After(1), Some(false), None)

  /** A write can fail and still drop an entry. */
  lemma FailedWriteCanDrop(big: Prim)
    requires big.Str? && |big.s| == 100
    ensures
      var s := PutValue(EMPTY, SMALL_KEY, Bool(true), BRIEFLY, 0, TIGHT).0;
      var (t, o) := PutValue(s, OTHER_KEY, big, BRIEFLY, SWEEP_EVERY, TIGHT);
      && Inv(s, TIGHT) && o.Full?
      && SMALL_KEY in s.entries && t.entries == map[]
  {
    hide Inv, PutValue;
    EmptyInv(TIGHT);
    PutValueKeeps(EMPTY, SMALL_KEY, Bool(true), BRIEFLY, 0, TIGHT);
    FirstPut(Bool(true), BRIEFLY, TIGHT);
    var s := PutValue(EMPTY, SMALL_KEY, Bool(true), BRIEFLY, 0, TIGHT).0;
    assert SizeOf(OTHER_KEY, big) == 165;
    hide *;
    TooBigFails(s, OTHER_KEY, big, SWEEP_EVERY, TIGHT);
    AllSwept(s);
  }

  lemma TooBigFails(s: Store, key: Key, value: Prim, now: nat, lim: Limits)
    requires lim.maxBytes != 0 && SizeOf(key, value) > lim.maxBytes
    ensures PutValue(s, key, value, BRIEFLY, now, lim) == (Prepared(s, key, now), Full)
  {
    hide Prepared, MetaFor, Live, MakeRoom;
  }

  lemma AllSwept(s: Store)
    requires s.entries == map[SMALL_KEY := Entry(Bool(true), 1, Some(1), None, false, 66)] && s.lastSweep == Some(0)
    ensures Prepared(s, OTHER_KEY, SWEEP_EVERY).entries == map[]
  {
    hide Without;
    assert SMALL_KEY in DeadKeys(s.entries, SWEEP_EVERY);
  }

  /** A store whose one entry, written first, is good for one millisecond. */
  function OneBrief(value: Prim, version: nat, staleFor: Option<nat>, evictable: bool): Store {
    var e := Entry(value, version, Some(1), staleFor, evictable, SizeOf(SMALL_KEY, value));
    Store(map[SMALL_KEY := e], if evictable then [SMALL_KEY] else [], version, Some(0), Some(1), 0)
  }

  lemma FirstPut(value: Prim, w: Write, lim: Limits)
    requires w.expiry == After(1) && lim.Allows(1, SizeOf(SMALL_KEY, value))
    ensures
      var staleFor := if w.staleMs.Some? then Some(w.staleMs.value as nat) else None;
      PutValue(EMPTY, SMALL_KEY, value, w, 0, lim) == (OneBrief(value, 1, staleFor, w.evictable == Some(true)), Stored)
  {
    var swept, size := EMPTY.(lastSweep := Some(0)), SizeOf(SMALL_KEY, value);
    PreparingNothing(SMALL_KEY);
    AloneWeighs(SMALL_KEY);
    hide Bytes, Prepared, Without, Count, SizeOf;
    assert !Over(swept, SMALL_KEY, size, lim);
    hide Over;
    assert Without<Key>([], {SMALL_KEY}) == [] by { WithoutAbsent<Key>([], {SMALL_KEY}); }
    var meta := MetaFor(None, w, 0);
    assert meta.expires == Some(1) && meta.evictable == (w.evictable == Some(true));
    var e := Entry(value, 1, Some(1), meta.staleFor, meta.evictable, size);
    assert EMPTY.entries[SMALL_KEY := e] == map[SMALL_KEY := e];
    assert [] + [SMALL_KEY] == [SMALL_KEY];
    assert Insert(swept, SMALL_KEY, value, meta, size) == OneBrief(value, 1, meta.staleFor, meta.evictable);
  }

  lemma PreparingNothing(key: Key)
    ensures Prepared(EMPTY, key, 0) == EMPTY.(lastSweep := Some(0))
  {
    PurgeChanges(EMPTY, {});
    assert DeadKeys(EMPTY.entries, 0) == {};
  }

  lemma AloneWeighs(key: Key)
    ensures Bytes(EMPTY.entries - {key}) == 0 && Count(EMPTY.entries - {key}) == 0
  {
    assert EMPTY.entries - {key} == EMPTY.entries;
    assert Sizes(EMPTY.entries) == map[];
  }

  // --------------------------------------------------------- lazy expiry

  /** When `drop_expired` skips its scan, no evictable entry has expired. */
  lemma SkippedScanFindsNothing(s: Store, now: nat)
    requires Sound(s)
    requires s.earliest.None? || s.earliest.value > now
    ensures DropExpired(s, now) == s
    ensures forall k | k in s.entries && s.entries[k].evictable :: !s.entries[k].Expired(now)
  {
  }
}
