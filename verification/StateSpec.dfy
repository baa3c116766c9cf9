/** The reference store: what `lur.state` promises, without its indexes.

    A plain map of entries plus a recency list of the evictable keys (least
    recently used first). The tick index, the running byte total and the loops
    of the implementation live in `StateStore`, which is proved to compute
    these functions. */
module StateSpec {
  import opened Prelude
  import opened Recency

  // ---------------------------------------------------------------- values

  datatype Key = Key(bytes: seq<byte>)
  datatype Prim = Bool(b: bool) | Num(n: int) | Str(s: seq<byte>)

  const ENTRY_OVERHEAD: nat := 64
  const SWEEP_EVERY: nat := 60_000

  type Millis = ms: int | 0 < ms witness 1

  function PrimSize(p: Prim): nat {
    match p
    case Bool(_) => 1
    case Num(_) => 8
    case Str(s) => |s|
  }

  function SizeOf(key: Key, p: Prim): nat {
    |key.bytes| + PrimSize(p) + ENTRY_OVERHEAD
  }

  datatype Entry = Entry(
    value: Prim,
    version: nat,
    expires: Option<nat>,
    staleFor: Option<nat>,
    evictable: bool,
    size: nat)
  {
    predicate Expired(now: nat) { expires.Some? && expires.value <= now }
    predicate Stale(now: nat) {
      Expired(now) && staleFor.Some? && now < expires.value + staleFor.value
    }
    predicate Dead(now: nat) { Expired(now) && !Stale(now) }
    predicate Fresh(now: nat) { !Expired(now) }
  }

  datatype Expiry = Clear | Keep | After(ms: Millis) | AfterIfUnset(ms: Millis)
  datatype Write = Write(expiry: Expiry, evictable: Option<bool>, staleMs: Option<Millis>)
  datatype Meta = Meta(expires: Option<nat>, staleFor: Option<nat>, evictable: bool)

  /** Caps; `0` is unlimited. */
  datatype Limits = Limits(maxEntries: nat, maxBytes: nat) {
    predicate Allows(entries: int, bytes: int) {
      && (maxEntries == 0 || entries <= maxEntries)
      && (maxBytes == 0 || bytes <= maxBytes)
    }
  }

  type Entries = map<Key, Entry>

  datatype Store = Store(
    entries: Entries,
    lru: seq<Key>,
    lastVersion: nat,
    lastSweep: Option<nat>,
    earliest: Option<nat>,
    evictions: nat)

  const EMPTY := Store(map[], [], 0, None, None, 0)

  function Sizes(es: Entries): map<Key, nat> { map k | k in es :: es[k].size }
  function Count(es: Entries): nat { |es| }
  ghost function Bytes(es: Entries): nat { Total(Sizes(es)) }

  function Purge(s: Store, ks: set<Key>): Store {
    s.(entries := s.entries - ks, lru := Without(s.lru, ks))
  }

  function Elems(l: seq<Key>): set<Key> { set k | k in l }

  // ------------------------------------------------------------ operations

  function Live(s: Store, key: Key, now: nat): Option<Entry> {
    if key in s.entries && s.entries[key].Fresh(now) then Some(s.entries[key]) else None
  }

  /** The version a reader sees: 0 for an absent, stale or dead key. */
  function VersionAt(s: Store, key: Key, now: nat): nat {
    match Live(s, key, now) case Some(e) => e.version case None => 0
  }

  function ValueAt(s: Store, key: Key, now: nat): Option<Prim> {
    match Live(s, key, now) case Some(e) => Some(e.value) case None => None
  }

  /** Reading a dead key removes it. */
  function Reap(s: Store, key: Key, now: nat): Store {
    if key in s.entries && s.entries[key].Dead(now) then Purge(s, {key}) else s
  }

  function Touch(s: Store, key: Key): Store {
    if key in s.entries && s.entries[key].evictable
    then s.(lru := Without(s.lru, {key}) + [key])
    else s
  }

  function DeadKeys(es: Entries, now: nat): set<Key> { set k | k in es && es[k].Dead(now) }

  function ExpiredKeys(es: Entries, now: nat): set<Key> {
    set k | k in es && es[k].Expired(now) && (es[k].evictable || es[k].Dead(now))
  }

  function FutureExpiries(es: Entries, now: nat): set<nat> {
    set k | k in es && es[k].expires.Some? && now < es[k].expires.value :: es[k].expires.value
  }

  function LeastOf(xs: set<nat>): Option<nat> {
    if xs == {} then None else Some(Least(xs))
  }

  function DropExpired(s: Store, now: nat): Store {
    if s.earliest.None? || s.earliest.value > now then s else
      var kept := Purge(s, ExpiredKeys(s.entries, now));
      kept.(earliest := LeastOf(FutureExpiries(kept.entries, now)))
  }

  predicate SweepDue(s: Store, now: nat) {
    s.lastSweep.None? || now - s.lastSweep.value >= SWEEP_EVERY
  }

  function Sweep(s: Store, now: nat): Store {
    if SweepDue(s, now)
    then Purge(s, DeadKeys(s.entries, now)).(lastSweep := Some(now))
    else s
  }

  function MetaFor(prev: Option<Entry>, w: Write, now: nat): Meta {
    var prevExpires := if prev.Some? then prev.value.expires else None;
    var expires := match w.expiry
      case Clear => None
      case Keep => prevExpires
      case After(ms) => Some(now + ms)
      case AfterIfUnset(ms) => if prevExpires.Some? then prevExpires else Some(now + ms);
    var inherited := w.expiry.Keep? || (w.expiry.AfterIfUnset? && prevExpires.Some?);
    var staleFor :=
      if expires.None? then None
      else if w.staleMs.Some? then Some(w.staleMs.value as nat)
      else if inherited && prev.Some? then prev.value.staleFor
      else None;
    var evictable := match w.evictable
      case Some(e) => e
      case None => prev.Some? && prev.value.evictable;
    Meta(expires, staleFor, evictable)
  }

  /** What the store would hold, in entries and bytes, after writing `size`
      bytes under `key`. */
  function EntriesWith(es: Entries, key: Key): nat { Count(es - {key}) + 1 }
  ghost function BytesWith(es: Entries, key: Key, size: nat): nat { Bytes(es - {key}) + size }

  ghost predicate Over(s: Store, key: Key, size: nat, lim: Limits) {
    !lim.Allows(EntriesWith(s.entries, key), BytesWith(s.entries, key, size))
  }

  /** Evictable keys other than `key`, least recently used first. */
  function Others(s: Store, key: Key): seq<Key> { Without(s.lru, {key}) }

  function SizesOf(es: Entries, l: seq<Key>): nat {
    if l == [] then 0 else (if l[0] in es then es[l[0]].size else 0) + SizesOf(es, l[1..])
  }

  /** Would the write fit once the first `n` of `Others` are evicted? */
  ghost predicate FitsAfter(s: Store, key: Key, size: nat, lim: Limits, n: nat)
    requires n <= |Others(s, key)|
  {
    lim.Allows(EntriesWith(s.entries, key) - n,
               BytesWith(s.entries, key, size) - SizesOf(s.entries, Others(s, key)[..n]))
  }

  /** The length, from `n`, of the shortest prefix of `Others` whose eviction
      makes room; `None` if even all of them would not. */
  ghost function Victims(s: Store, key: Key, size: nat, lim: Limits, n: nat): (r: Option<nat>)
    requires n <= |Others(s, key)|
    ensures r.Some? ==> n <= r.value <= |Others(s, key)| && FitsAfter(s, key, size, lim, r.value)
    ensures forall j | n <= j < (if r.Some? then r.value else |Others(s, key)| + 1) ::
              !FitsAfter(s, key, size, lim, j)
    decreases |Others(s, key)| - n
  {
    if FitsAfter(s, key, size, lim, n) then Some(n)
    else if n == |Others(s, key)| then None
    else Victims(s, key, size, lim, n + 1)
  }

  datatype Outcome = Stored | Full

  ghost function MakeRoom(s: Store, key: Key, size: nat, lim: Limits, now: nat): (Store, Outcome) {
    var s1 := if Over(s, key, size, lim) then DropExpired(s, now) else s;
    if !Over(s1, key, size, lim) then (s1, Stored) else
      match Victims(s1, key, size, lim, 0)
      case None => (s1, Full)
      case Some(n) =>
        var gone := Elems(Others(s1, key)[..n]);
        (Purge(s1, gone).(evictions := s1.evictions + n), Stored)
  }

  function Insert(s: Store, key: Key, value: Prim, meta: Meta, size: nat): Store {
    var e := Entry(value, s.lastVersion + 1, meta.expires, meta.staleFor, meta.evictable, size);
    s.(entries := s.entries[key := e],
       lru := Without(s.lru, {key}) + (if meta.evictable then [key] else []),
       lastVersion := s.lastVersion + 1,
       earliest := if meta.expires.None? then s.earliest
                   else if s.earliest.None? || meta.expires.value < s.earliest.value then meta.expires
                   else s.earliest)
  }

  /** The store a write plans against: swept, and its own key reaped if dead. */
  function Prepared(s: Store, key: Key, now: nat): Store { Reap(Sweep(s, now), key, now) }

  ghost function PutValue(s: Store, key: Key, value: Prim, w: Write, now: nat, lim: Limits): (Store, Outcome) {
    var s1 := Prepared(s, key, now);
    var meta := MetaFor(Live(s1, key, now), w, now);
    var size := SizeOf(key, value);
    if lim.maxBytes != 0 && size > lim.maxBytes then (s1, Full) else
      var (s2, o) := MakeRoom(s1, key, size, lim, now);
      if o.Full? then (s2, Full) else (Insert(s2, key, value, meta, size), Stored)
  }

  /** `None` deletes. */
  ghost function Put(s: Store, key: Key, value: Option<Prim>, w: Write, now: nat, lim: Limits): (Store, Outcome) {
    match value
    case None => (Purge(s, {key}), Stored)
    case Some(p) => PutValue(s, key, p, w, now, lim)
  }

  datatype Cas = Swapped | Differs | NoRoom

  ghost function CompareAndSet(s: Store, key: Key, expected: nat, value: Option<Prim>, w: Write,
                               now: nat, lim: Limits): (Store, Cas)
  {
    if VersionAt(s, key, now) != expected then (Reap(s, key, now), Differs) else
      var (s1, o) := Put(Reap(s, key, now), key, value, w, now, lim);
      (s1, if o.Full? then NoRoom else Swapped)
  }

  /** A get of a fresh key makes it most recently used. */
  function Get(s: Store, key: Key, now: nat): (Store, Option<Prim>) {
    match Live(s, key, now)
    case Some(e) => (Touch(s, key), Some(e.value))
    case None => (Reap(s, key, now), None)
  }

  datatype Found = FreshHit(value: Prim) | StaleHit(value: Prim) | Absent

  function Lookup(s: Store, key: Key, now: nat): (Store, Found) {
    match Live(s, key, now)
    case Some(e) => (Touch(s, key), FreshHit(e.value))
    case None =>
      if key in s.entries && s.entries[key].Stale(now)
      then (s, StaleHit(s.entries[key].value))
      else (Reap(s, key, now), Absent)
  }

  const I64_MIN: int := -0x8000_0000_0000_0000
  const I64_MAX: int := 0x7fff_ffff_ffff_ffff

  datatype Counted = Counted(n: int) | NotInteger | Overflow | NoSpace

  ghost function Incr(s: Store, key: Key, n: int, w: Write, now: nat, lim: Limits): (Store, Counted) {
    var s1 := Reap(s, key, now);
    var cur := ValueAt(s, key, now);
    if cur.Some? && !cur.value.Num? then (s1, NotInteger) else
      var base := if cur.Some? then cur.value.n else 0;
      if !(I64_MIN <= base <= I64_MAX) then (s1, NotInteger)
      else if !(I64_MIN <= base + n <= I64_MAX) then (s1, Overflow)
      else
        var (s2, o) := Put(s1, key, Some(Num(base + n)), w, now, lim);
        (s2, if o.Full? then NoSpace else Counted(base + n))
  }
}
