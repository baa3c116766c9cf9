/** What the shared HTTP response cache promises, without its indexes: a map of
    responses and the list of their keys, least recently used first. Expired
    entries are dropped by looking at every entry; `HttpCache` gets away with less. */
module HttpCacheSpec {
  import opened Prelude
  import opened Recency

  type Text = seq<byte>

  datatype RawResponse = RawResponse(status: nat, headers: seq<(Text, Text)>, body: Text)
  datatype Entry = Entry(raw: RawResponse, expires: nat, size: nat)
  type Entries = map<Text, Entry>

  datatype Cache = Cache(entries: Entries, lru: seq<Text>, lastSweep: Option<nat>)

  const EMPTY := Cache(map[], [], None)

  /** Caps; `0` is unlimited. */
  datatype Limits = Limits(maxEntries: nat, maxBytes: nat)

  const SWEEP_EVERY: nat := 60_000

  type Millis = ms: int | 0 < ms witness 1

  function HeadersSize(hs: seq<(Text, Text)>): nat {
    if hs == [] then 0 else |hs[0].0| + |hs[0].1| + HeadersSize(hs[1..])
  }

  function SizeOf(key: Text, raw: RawResponse): nat { |raw.body| + HeadersSize(raw.headers) + |key| }

  function Sizes(es: Entries): map<Text, nat> { map k | k in es :: es[k].size }
  ghost function Bytes(es: Entries): nat { Total(Sizes(es)) }

  ghost predicate Over(es: Entries, lim: Limits) {
    (lim.maxEntries != 0 && |es| > lim.maxEntries) || (lim.maxBytes != 0 && Bytes(es) > lim.maxBytes)
  }

  predicate TooBig(key: Text, raw: RawResponse, lim: Limits) { lim.maxBytes != 0 && SizeOf(key, raw) > lim.maxBytes }

  function Purge(c: Cache, ks: set<Text>): Cache { c.(entries := c.entries - ks, lru := Without(c.lru, ks)) }

  function Expired(es: Entries, now: nat): set<Text> { set k | k in es && es[k].expires <= now }

  function DropExpired(c: Cache, now: nat): Cache { Purge(c, Expired(c.entries, now)) }

  predicate SweepDue(c: Cache, now: nat) { c.lastSweep.None? || now - c.lastSweep.value >= SWEEP_EVERY }

  function Swept(c: Cache, now: nat): Cache {
    if SweepDue(c, now) then DropExpired(c, now).(lastSweep := Some(now)) else c
  }

  function Elems(l: seq<Text>): set<Text> { set k | k in l }

  /** `c` without its `n` least recently used entries. */
  function Cut(c: Cache, n: nat): Cache
    requires n <= |c.lru|
  {
    Purge(c, Elems(c.lru[..n]))
  }

  /** How many of the least recently used must go, counting from `n`. */
  ghost function Victims(c: Cache, lim: Limits, n: nat): (r: nat)
    requires n <= |c.lru|
    ensures n <= r <= |c.lru|
    ensures forall j | n <= j < r :: Over(Cut(c, j).entries, lim)
    ensures r < |c.lru| ==> !Over(Cut(c, r).entries, lim)
    decreases |c.lru| - n
  {
    hide Over, Cut;
    if n == |c.lru| || !Over(Cut(c, n).entries, lim) then n else Victims(c, lim, n + 1)
  }

  ghost function Trimmed(c: Cache, lim: Limits): Cache { Cut(c, Victims(c, lim, 0)) }

  function Inserted(c: Cache, key: Text, e: Entry): Cache {
    c.(entries := c.entries[key := e], lru := Without(c.lru, {key}) + [key])
  }

  /** The cache, swept if that is due, with the new entry the most recently used. */
  function Offered(c: Cache, key: Text, raw: RawResponse, ttl: Millis, now: nat): Cache {
    Inserted(Swept(c, now), key, Entry(raw, now + ttl, SizeOf(key, raw)))
  }

  ghost function Put(c: Cache, key: Text, raw: RawResponse, ttl: Millis, now: nat, lim: Limits): Cache {
    if TooBig(key, raw, lim) then c else
      var offered := Offered(c, key, raw, ttl, now);
      Trimmed(if Over(offered.entries, lim) then DropExpired(offered, now) else offered, lim)
  }

  function Get(c: Cache, key: Text, now: nat): (Cache, Option<RawResponse>) {
    if key !in c.entries then (c, None)
    else if c.entries[key].expires <= now then (Purge(c, {key}), None)
    else (c.(lru := Without(c.lru, {key}) + [key]), Some(c.entries[key].raw))
  }

  function Clear(c: Cache): Cache { Cache(map[], [], c.lastSweep) }

  // ------------------------------------------------------------ what it means

  ghost predicate Sound(c: Cache) {
    && Distinct(c.lru)
    && (forall k :: k in c.lru <==> k in c.entries)
    && forall k | k in c.entries :: c.entries[k].size == SizeOf(k, c.entries[k].raw)
  }

  lemma PurgeIsSound(c: Cache, ks: set<Text>)
    requires Sound(c)
    ensures Sound(Purge(c, ks))
  {
    WithoutMembers(c.lru, ks);
  }

  lemma MovedIsSound(c: Cache, key: Text, entries: Entries)
    requires Sound(c) && entries.Keys == c.entries.Keys + {key}
    requires forall k | k in entries :: entries[k].size == SizeOf(k, entries[k].raw)
    ensures Sound(c.(entries := entries, lru := Without(c.lru, {key}) + [key]))
  {
    WithoutMembers(c.lru, {key});
  }

  lemma OfferedIsSound(c: Cache, key: Text, raw: RawResponse, ttl: Millis, now: nat)
    requires Sound(c)
    ensures
      var o := Offered(c, key, raw, ttl, now);
      && Sound(o) && o.lru != [] && o.lru[|o.lru| - 1] == key
      && key in o.entries && o.entries[key] == Entry(raw, now + ttl, SizeOf(key, raw))
  {
    PurgeIsSound(c, Expired(c.entries, now));
    hide Without, Expired, Sound;
    InsertedIsSound(Swept(c, now), key, Entry(raw, now + ttl, SizeOf(key, raw)));
  }

  lemma InsertedIsSound(s: Cache, key: Text, e: Entry)
    requires Sound(s) && e.size == SizeOf(key, e.raw)
    ensures Sound(Inserted(s, key, e))
  {
    MovedIsSound(s, key, s.entries[key := e]);
  }

  /** Dropping what has expired leaves the newest entry newest. */
  lemma LiveStaysLast(c: Cache, key: Text, now: nat)
    requires Sound(c) && c.lru != [] && c.lru[|c.lru| - 1] == key
    requires key in c.entries && now < c.entries[key].expires
    ensures
      var d := DropExpired(c, now);
      Sound(d) && d.lru != [] && d.lru[|d.lru| - 1] == key && key in d.entries && d.entries[key] == c.entries[key]
  {
    var ks := Expired(c.entries, now);
    PurgeIsSound(c, ks);
    var l := c.lru[..|c.lru| - 1];
    assert c.lru == l + [key];
    WithoutPush(l, key, ks);
  }

  /** With every other entry gone, an entry that fits alone is within the caps. */
  lemma AloneFits(c: Cache, key: Text, lim: Limits)
    requires Sound(c) && c.lru != [] && c.lru[|c.lru| - 1] == key && key in c.entries
    requires lim.maxBytes != 0 ==> c.entries[key].size <= lim.maxBytes
    ensures !Over(Cut(c, |c.lru| - 1).entries, lim)
    ensures Cut(c, |c.lru| - 1).entries == map[key := c.entries[key]]
  {
    var n := |c.lru| - 1;
    forall k | k in c.entries && k != key ensures k in c.lru[..n] {
      var i :| 0 <= i < |c.lru| && c.lru[i] == k;
      assert c.lru[..n][i] == k;
    }
    assert Cut(c, n).entries == map[key := c.entries[key]];
    hide Cut, Sound;
    OneWeighs(key, c.entries[key]);
  }

  lemma OneWeighs(key: Text, e: Entry)
    ensures |map[key := e]| == 1 && Bytes(map[key := e]) == e.size
  {
    assert Sizes(map[key := e]) == map[][key := e.size];
    assert map[key := e].Keys == {key} && |map[key := e].Keys| == |map[key := e]|;
    TotalInsert(map[], key, e.size);
  }

  lemma HasHead(l: seq<Text>)
    requires l != []
    ensures exists k :: k in l
  {
    assert l[0] in l;
  }

  /** A cut leaves the list's tail, and the map of it. */
  lemma CutIs(c: Cache, n: nat)
    requires Sound(c) && n <= |c.lru|
    ensures Sound(Cut(c, n)) && Cut(c, n).lru == c.lru[n..]
    ensures forall k :: k in Cut(c, n).entries <==> k in c.lru[n..]
  {
    var gone, kept := c.lru[..n], c.lru[n..];
    PurgeIsSound(c, Elems(gone));
    assert c.lru == gone + kept;
    WithoutConcat(gone, kept, Elems(gone));
    WithoutMembers(gone, Elems(gone));
    assert Without(gone, Elems(gone)) == [] by {
      if Without(gone, Elems(gone)) != [] { HasHead(Without(gone, Elems(gone))); }
    }
    WithoutAbsent(kept, Elems(gone));
  }

  /** `d` is `c` without its shortest least-recently-used stretch whose going
      brings it within the caps; the most recently used stays. */
  ghost predicate ShortestCut(c: Cache, n: nat, d: Cache, lim: Limits) {
    && n < |c.lru| && d == Cut(c, n) && d.lru == c.lru[n..]
    && !Over(d.entries, lim) && forall j | 0 <= j < n :: Over(Cut(c, j).entries, lim)
  }

  /** Putting a response that fits alone leaves the cache within its caps, with
      that response the most recently used; what had not expired is kept as it was,
      but for the shortest least-recently-used stretch that had to go. */
  lemma PutIsExact(c: Cache, key: Text, raw: RawResponse, ttl: Millis, now: nat, lim: Limits)
    requires Sound(c) && !TooBig(key, raw, lim)
    ensures
      var d := Put(c, key, raw, ttl, now, lim);
      var o := Offered(c, key, raw, ttl, now);
      var all := if Over(o.entries, lim) then DropExpired(o, now) else o;
      && Sound(d) && !Over(d.entries, lim)
      && key in d.entries && d.entries[key] == Entry(raw, now + ttl, SizeOf(key, raw))
      && d.lru != [] && d.lru[|d.lru| - 1] == key
      && exists n: nat :: ShortestCut(all, n, d, lim)
  {
    hide Sound, Cut, Offered, DropExpired, Over, Trimmed, ShortestCut, SizeOf;
    OfferedIsSound(c, key, raw, ttl, now);
    var o := Offered(c, key, raw, ttl, now);
    if Over(o.entries, lim) {
      LiveStaysLast(o, key, now);
      TrimIsExact(DropExpired(o, now), key, lim);
    } else {
      TrimIsExact(o, key, lim);
    }
  }

  lemma TrimIsExact(c: Cache, key: Text, lim: Limits)
    requires Sound(c) && c.lru != [] && c.lru[|c.lru| - 1] == key && key in c.entries
    requires lim.maxBytes != 0 ==> c.entries[key].size <= lim.maxBytes
    ensures
      var d := Trimmed(c, lim);
      && Sound(d) && !Over(d.entries, lim)
      && key in d.entries && d.entries[key] == c.entries[key]
      && d.lru != [] && d.lru[|d.lru| - 1] == key
      && exists n: nat :: ShortestCut(c, n, d, lim)
  {
    hide Over, Sound, Cut;
    var n := Victims(c, lim, 0);
    AloneFits(c, key, lim);
    CutIs(c, n);
    assert n < |c.lru|;
    assert c.lru[n..][|c.lru| - 1 - n] == key;
    CutKeeps(c, n, key);
    assert ShortestCut(c, n, Trimmed(c, lim), lim);
  }

  lemma CutKeeps(c: Cache, n: nat, k: Text)
    requires n <= |c.lru| && k in Cut(c, n).entries
    ensures k in c.entries && Cut(c, n).entries[k] == c.entries[k]
  {
  }

  lemma GetIsSound(c: Cache, key: Text, now: nat, lim: Limits)
    requires Sound(c) && !Over(c.entries, lim)
    ensures Sound(Get(c, key, now).0) && !Over(Get(c, key, now).0.entries, lim)
  {
    if key in c.entries {
      if c.entries[key].expires <= now {
        PurgeIsSound(c, {key});
        FewerWeighLess(c.entries, c.entries - {key});
      } else {
        MovedIsSound(c, key, c.entries);
      }
    }
  }

  lemma FewerWeighLess(big: Entries, small: Entries)
    requires small.Keys <= big.Keys && forall k | k in small :: small[k] == big[k]
    ensures |small| <= |big| && Bytes(small) <= Bytes(big)
  {
    TotalSubmap(Sizes(small), Sizes(big));
    assert Sizes(small).Keys == small.Keys && Sizes(big).Keys == big.Keys;
    assert |small| == |small.Keys| && |big| == |big.Keys| && |Sizes(small)| == |small.Keys|
      && |Sizes(big)| == |big.Keys|;
  }

  // -------------------------------------------------------------- whole runs

  datatype Op = OpGet(key: Text, now: nat) | OpPut(key: Text, raw: RawResponse, ttl: Millis, now: nat) | OpClear

  ghost function After(c: Cache, op: Op, lim: Limits): Cache {
    match op
    case OpGet(key, now) => Get(c, key, now).0
    case OpPut(key, raw, ttl, now) => Put(c, key, raw, ttl, now, lim)
    case OpClear => Clear(c)
  }

  /** The cache after a run from empty. */
  ghost function Ran(ops: seq<Op>, lim: Limits): Cache {
    if ops == [] then EMPTY else After(Ran(ops[..|ops| - 1], lim), ops[|ops| - 1], lim)
  }

  predicate Stores(op: Op, key: Text, lim: Limits) { op.OpPut? && op.key == key && !TooBig(key, op.raw, lim) }

  /** Operation `i` stored `key`, and nothing has replaced or cleared it since. */
  ghost predicate LastStore(ops: seq<Op>, key: Text, lim: Limits, i: nat) {
    && i < |ops| && Stores(ops[i], key, lim)
    && forall j | i < j < |ops| :: !Stores(ops[j], key, lim) && !ops[j].OpClear?
  }

  /** What that operation stored. */
  function Written(op: Op): Entry
    requires op.OpPut?
  {
    Entry(op.raw, op.now + op.ttl, SizeOf(op.key, op.raw))
  }

  ghost predicate Holds(ops: seq<Op>, lim: Limits, key: Text, e: Entry) {
    exists i: nat :: LastStore(ops, key, lim, i) && e == Written(ops[i])
  }

  lemma HoldsStill(ops: seq<Op>, op: Op, lim: Limits, key: Text, e: Entry)
    requires Holds(ops, lim, key, e) && !Stores(op, key, lim) && !op.OpClear?
    ensures Holds(ops + [op], lim, key, e)
  {
    var i: nat :| LastStore(ops, key, lim, i) && e == Written(ops[i]);
    assert LastStore(ops + [op], key, lim, i);
  }

  lemma StoreIsHeld(c: Cache, op: Op, lim: Limits, key: Text)
    requires Sound(c) && Stores(op, key, lim)
    ensures key in After(c, op, lim).entries && After(c, op, lim).entries[key] == Written(op)
  {
    hide Sound, Over, Put, ShortestCut, Offered, DropExpired;
    PutIsExact(c, op.key, op.raw, op.ttl, op.now, lim);
  }

  /** Every entry of a step's result was there before, or the step stored it. */
  lemma StepKeepsEntries(c: Cache, op: Op, lim: Limits, key: Text)
    requires Sound(c) && key in After(c, op, lim).entries
    ensures !op.OpClear?
    ensures Stores(op, key, lim) ==> After(c, op, lim).entries[key] == Written(op)
    ensures !Stores(op, key, lim) ==> key in c.entries && After(c, op, lim).entries[key] == c.entries[key]
  {
    hide Sound, Over, Victims, ShortestCut, Without;
    if Stores(op, key, lim) { StoreIsHeld(c, op, lim, key); }
  }

  lemma {:induction false} RunKeepsInv(ops: seq<Op>, lim: Limits)
    ensures Sound(Ran(ops, lim)) && !Over(Ran(ops, lim).entries, lim)
    ensures forall k | k in Ran(ops, lim).entries :: Holds(ops, lim, k, Ran(ops, lim).entries[k])
  {
    if ops == [] {
      assert Sizes(map[]) == map[];
      return;
    }
    var most, op := ops[..|ops| - 1], ops[|ops| - 1];
    RunKeepsInv(most, lim);
    var c := Ran(most, lim);
    assert ops == most + [op];
    StepKeepsSound(c, op, lim);
    forall k | k in Ran(ops, lim).entries ensures Holds(ops, lim, k, Ran(ops, lim).entries[k]) {
      hide Sound, Over, Holds;
      StepKeepsEntries(c, op, lim, k);
      hide After;
      if Stores(op, k, lim) {
        HoldsNow(most, op, lim, k);
      } else {
        HoldsStill(most, op, lim, k, c.entries[k]);
      }
    }
  }

  lemma HoldsNow(ops: seq<Op>, op: Op, lim: Limits, key: Text)
    requires Stores(op, key, lim)
    ensures Holds(ops + [op], lim, key, Written(op))
  {
    assert LastStore(ops + [op], key, lim, |ops|);
  }

  lemma StepKeepsSound(c: Cache, op: Op, lim: Limits)
    requires Sound(c) && !Over(c.entries, lim)
    ensures Sound(After(c, op, lim)) && !Over(After(c, op, lim).entries, lim)
  {
    match op
    case OpGet(key, now) => GetIsSound(c, key, now, lim);
    case OpPut(key, raw, ttl, now) =>
      if !TooBig(key, raw, lim) { PutIsExact(c, key, raw, ttl, now, lim); }
    case OpClear =>
      assert Sizes(map[]) == map[];
  }

  /** Over every run, a hit is the response last stored under that key and not
      cleared since, and it has not expired. */
  lemma HitIsLastStore(ops: seq<Op>, lim: Limits, key: Text, now: nat)
    requires Get(Ran(ops, lim), key, now).1.Some?
    ensures exists i: nat :: LastStore(ops, key, lim, i) && now < ops[i].now + ops[i].ttl
                          && Get(Ran(ops, lim), key, now).1 == Some(ops[i].raw)
  {
    RunKeepsInv(ops, lim);
    var e := Ran(ops, lim).entries[key];
    assert Holds(ops, lim, key, e);
    var i: nat :| LastStore(ops, key, lim, i) && e == Written(ops[i]);
  }

  predicate Until(ops: seq<Op>, now: nat) { forall i | 0 <= i < |ops| && !ops[i].OpClear? :: ops[i].now <= now }

  /** Without caps, nothing unexpired is ever lost. */
  lemma {:induction false} UncappedLosesNothing(ops: seq<Op>, key: Text, i: nat, now: nat)
    requires Until(ops, now) && LastStore(ops, key, Limits(0, 0), i) && now < Written(ops[i]).expires
    ensures key in Ran(ops, Limits(0, 0)).entries && Ran(ops, Limits(0, 0)).entries[key] == Written(ops[i])
  {
    var lim := Limits(0, 0);
    var most, op := ops[..|ops| - 1], ops[|ops| - 1];
    RunKeepsInv(most, lim);
    hide Sound, Over;
    if i == |ops| - 1 {
      hide After;
      StoreIsHeld(Ran(most, lim), op, lim, key);
    } else {
      hide After, Written;
      assert LastStore(most, key, lim, i);
      UncappedLosesNothing(most, key, i, now);
      UncappedStep(Ran(most, lim), op, key, now);
    }
  }

  lemma UncappedStep(c: Cache, op: Op, key: Text, now: nat)
    requires Sound(c) && key in c.entries && now < c.entries[key].expires
    requires !op.OpClear? && op.now <= now && !Stores(op, key, Limits(0, 0))
    ensures key in After(c, op, Limits(0, 0)).entries && After(c, op, Limits(0, 0)).entries[key] == c.entries[key]
  {
    if op.OpPut? {
      var o := Offered(c, op.key, op.raw, op.ttl, op.now);
      assert Victims(o, Limits(0, 0), 0) == 0;
      assert Elems(o.lru[..0]) == {};
    }
  }

  /** So an unlimited cache, read on a clock that never runs back, answers exactly
      the last unexpired store. */
  lemma UncappedIsExact(ops: seq<Op>, key: Text, now: nat)
    requires Until(ops, now)
    ensures Get(Ran(ops, Limits(0, 0)), key, now).1.Some? <==>
            exists i: nat :: LastStore(ops, key, Limits(0, 0), i) && now < Written(ops[i]).expires
  {
    var lim := Limits(0, 0);
    if Get(Ran(ops, lim), key, now).1.Some? {
      HitIsLastStore(ops, lim, key, now);
    }
    if i: nat :| LastStore(ops, key, lim, i) && now < Written(ops[i]).expires {
      UncappedLosesNothing(ops, key, i, now);
    }
  }

  // ------------------------------------------------------------ order of use

  /** Does the operation use `key`: find it, or store it? */
  ghost predicate UsesKey(c: Cache, op: Op, lim: Limits, key: Text) {
    Stores(op, key, lim) || (op.OpGet? && op.key == key && Get(c, key, op.now).1.Some?)
  }

  /** The last operation, counted from 1, that used `key`; 0 if none did. */
  ghost function LastUsed(ops: seq<Op>, lim: Limits, key: Text): (n: nat)
    ensures n <= |ops|
  {
    if ops == [] then 0
    else if UsesKey(Ran(ops[..|ops| - 1], lim), ops[|ops| - 1], lim, key) then |ops|
    else LastUsed(ops[..|ops| - 1], lim, key)
  }

  ghost function Uses(ops: seq<Op>, lim: Limits): (f: Text -> nat)
    ensures forall k :: f(k) == LastUsed(ops, lim, k) <= |ops|
  {
    k => LastUsed(ops, lim, k)
  }

  ghost predicate UsesCount(c: Cache, op: Op, lim: Limits, used: Text -> nat, after: Text -> nat) {
    forall k ::
      if UsesKey(c, op, lim, k) then forall j :: !UsesKey(c, op, lim, j) ==> used(j) < after(k) else after(k) == used(k)
  }

  lemma PutInOrder(c: Cache, op: Op, lim: Limits, used: Text -> nat, after: Text -> nat)
    requires op.OpPut? && !TooBig(op.key, op.raw, lim)
    requires InOrderOf(c.lru, used) && UsesCount(c, op, lim, used, after)
    ensures InOrderOf(Put(c, op.key, op.raw, op.ttl, op.now, lim).lru, after)
  {
    hide Without, Over, InOrderOf;
    WithoutInOrder(c.lru, Expired(c.entries, op.now), used);
    var swept, o := Swept(c, op.now), Offered(c, op.key, op.raw, op.ttl, op.now);
    assert Stores(op, op.key, lim) && forall j | j != op.key :: !UsesKey(c, op, lim, j);
    PushInOrder(swept.lru, op.key, used, after);
    assert o.lru == Without(swept.lru, {op.key}) + [op.key];
    WithoutInOrder(o.lru, Expired(o.entries, op.now), after);
    var all := if Over(o.entries, lim) then DropExpired(o, op.now) else o;
    hide *;
    TrimInOrder(all, lim, after);
    PutIsTrimmed(c, op, lim);
  }

  lemma PutIsTrimmed(c: Cache, op: Op, lim: Limits)
    requires op.OpPut? && !TooBig(op.key, op.raw, lim)
    ensures
      var o := Offered(c, op.key, op.raw, op.ttl, op.now);
      Put(c, op.key, op.raw, op.ttl, op.now, lim)
        == Trimmed(if Over(o.entries, lim) then DropExpired(o, op.now) else o, lim)
  {
    hide Offered, Trimmed, DropExpired, Over;
  }

  lemma TrimInOrder(c: Cache, lim: Limits, used: Text -> nat)
    requires InOrderOf(c.lru, used)
    ensures InOrderOf(Trimmed(c, lim).lru, used)
  {
    hide Over, Without, InOrderOf;
    WithoutInOrder(c.lru, Elems(c.lru[..Victims(c, lim, 0)]), used);
  }

  lemma StepInOrder(c: Cache, op: Op, lim: Limits, used: Text -> nat, after: Text -> nat)
    requires InOrderOf(c.lru, used) && UsesCount(c, op, lim, used, after)
    ensures InOrderOf(After(c, op, lim).lru, after)
  {
    hide Without, Put, InOrderOf;
    match op
    case OpGet(key, now) =>
      WithoutInOrder(c.lru, {key}, used);
      if Get(c, key, now).1.Some? {
        assert UsesKey(c, op, lim, key) && forall j | j != key :: !UsesKey(c, op, lim, j);
        PushInOrder(c.lru, key, used, after);
      } else {
        SameInOrder(Get(c, key, now).0.lru, used, after);
      }
    case OpPut(key, raw, _, _) =>
      if TooBig(key, raw, lim) {
        assert After(c, op, lim) == c by { PutTooBig(c, op, lim); }
        SameInOrder(c.lru, used, after);
      } else {
        PutInOrder(c, op, lim, used, after);
      }
    case OpClear => NoneInOrder(after);
  }

  lemma PutTooBig(c: Cache, op: Op, lim: Limits)
    requires op.OpPut? && TooBig(op.key, op.raw, lim)
    ensures Put(c, op.key, op.raw, op.ttl, op.now, lim) == c
  {
    hide Offered, Trimmed;
  }

  lemma NoneInOrder(used: Text -> nat)
    ensures InOrderOf([], used)
  {
  }

  /** Over every run the list holds the cached keys in the order of their last hit or
      put. */
  lemma {:induction false} ListIsOrderOfUse(ops: seq<Op>, lim: Limits)
    ensures forall k :: k in Ran(ops, lim).lru <==> k in Ran(ops, lim).entries
    ensures InOrderOf(Ran(ops, lim).lru, Uses(ops, lim))
    decreases |ops|
  {
    RunKeepsInv(ops, lim);
    hide InOrderOf, After, Over, Uses, UsesKey;
    if ops == [] {
      NoneInOrder(Uses(ops, lim));
    } else {
      var most, op := ops[..|ops| - 1], ops[|ops| - 1];
      ListIsOrderOfUse(most, lim);
      StepInOrder(Ran(most, lim), op, lim, Uses(most, lim), Uses(ops, lim));
    }
  }
}
