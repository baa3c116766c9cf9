/** What the response cache does, in bytes and times: what is stored, refused and answered,
    what goes to make room, and that the caps hold of the bytes themselves. */
module HttpCacheMeans {
  import opened Prelude
  import opened Recency
  import opened HttpCacheSpec

  /** Every header's name and value, one after another. */
  function Strung(hs: seq<(Text, Text)>): Text {
    if hs == [] then [] else Strung(hs[..|hs| - 1]) + hs[|hs| - 1].0 + hs[|hs| - 1].1
  }

  /** The bytes an entry holds: its key, its headers and its body. */
  function Stored(key: Text, raw: RawResponse): Text { key + Strung(raw.headers) + raw.body }

  ghost function Weights(es: Entries): map<Text, nat> { map k | k in es :: |Stored(k, es[k].raw)| }

  /** All the bytes the entries hold. */
  ghost function Held(es: Entries): nat { Total(Weights(es)) }

  ghost predicate Fits(es: Entries, lim: Limits) {
    && (lim.maxEntries == 0 || |es| <= lim.maxEntries)
    && (lim.maxBytes == 0 || Held(es) <= lim.maxBytes)
  }

  predicate Past(e: Entry, now: nat) { e.expires <= now }

  // --------------------------------------------------------------------- bytes

  lemma {:induction false} StrungWeighs(hs: seq<(Text, Text)>)
    ensures HeadersSize(hs) == |Strung(hs)|
    decreases |hs|
  {
    if hs != [] {
      var n := |hs| - 1;
      StrungWeighs(hs[..n]);
      HeadersSnoc(hs[..n], hs[n]);
      assert hs == hs[..n] + [hs[n]];
    }
  }

  lemma {:induction false} HeadersSnoc(hs: seq<(Text, Text)>, h: (Text, Text))
    ensures HeadersSize(hs + [h]) == HeadersSize(hs) + |h.0| + |h.1|
    decreases |hs|
  {
    if hs == [] {
      assert (hs + [h])[1..] == [];
    } else {
      assert (hs + [h])[1..] == hs[1..] + [h];
      HeadersSnoc(hs[1..], h);
    }
  }

  lemma StoredWeighs(key: Text, raw: RawResponse)
    ensures SizeOf(key, raw) == |Stored(key, raw)|
  {
    StrungWeighs(raw.headers);
  }

  /** With exact sizes, the running totals are the bytes. */
  lemma FitsMeans(es: Entries, lim: Limits)
    requires forall k | k in es :: es[k].size == SizeOf(k, es[k].raw)
    ensures Over(es, lim) <==> !Fits(es, lim)
  {
    forall k | k in es ensures es[k].size == |Stored(k, es[k].raw)| { StoredWeighs(k, es[k].raw); }
    hide SizeOf, Stored;
    assert Sizes(es) == Weights(es);
  }

  lemma SoundSizes(c: Cache)
    requires Sound(c)
    ensures forall k | k in c.entries :: c.entries[k].size == SizeOf(k, c.entries[k].raw)
  {
  }

  /** After every run the bytes of all entries together, and their number, are within
      the caps. */
  lemma CapsHold(ops: seq<Op>, lim: Limits)
    ensures Fits(Ran(ops, lim).entries, lim)
  {
    hide *;
    RunKeepsInv(ops, lim);
    SoundSizes(Ran(ops, lim));
    FitsMeans(Ran(ops, lim).entries, lim);
  }

  // ------------------------------------------------------------------ a whole put

  /** Once a minute a put drops all that has expired. */
  function SweptKeys(c: Cache, now: nat): set<Text> {
    set k | k in c.entries && (c.lastSweep.None? || now - c.lastSweep.value >= 60_000) && Past(c.entries[k], now)
  }

  function ExpiredKeys(es: Entries, full: bool, now: nat): set<Text> { set k | k in es && full && Past(es[k], now) }

  function FirstOf(l: seq<Text>, n: nat): set<Text>
    requires n <= |l|
  {
    set i | 0 <= i < n :: l[i]
  }

  /** The response, until its time is up. */
  function New(key: Text, raw: RawResponse, ttl: Millis, now: nat): Entry {
    Entry(raw, now + ttl, |Stored(key, raw)|)
  }

  /** A whole put: refused if the response alone is over the cap on bytes; and otherwise
      stored as the most recently used, all that has expired going first where there is
      no room, and then the fewest of the least recently used. */
  ghost predicate PutDoes(c: Cache, key: Text, raw: RawResponse, ttl: Millis, now: nat, lim: Limits, d: Cache) {
    if lim.maxBytes != 0 && |Stored(key, raw)| > lim.maxBytes then d == c else
      var a := (c.entries - SweptKeys(c, now))[key := New(key, raw, ttl, now)];
      var b := a - ExpiredKeys(a, !Fits(a, lim), now);
      var order := Without(c.lru, SweptKeys(c, now) + {key} + ExpiredKeys(a, !Fits(a, lim), now)) + [key];
      exists n: nat :: FewestGo(b, order, n, d, lim)
  }

  /** The first `n` of the order go, the last stays, and fewer would not do. */
  ghost predicate FewestGo(b: Entries, order: seq<Text>, n: nat, d: Cache, lim: Limits) {
    && n < |order| && d.entries == b - FirstOf(order, n) && d.lru == order[n..]
    && Fits(d.entries, lim) && forall j | 0 <= j < n :: !Fits(b - FirstOf(order, j), lim)
  }

  lemma OfferedMeans(c: Cache, key: Text, raw: RawResponse, ttl: Millis, now: nat)
    ensures
      var o := Offered(c, key, raw, ttl, now);
      && o.entries == (c.entries - SweptKeys(c, now))[key := New(key, raw, ttl, now)]
      && o.lru == Without(c.lru, SweptKeys(c, now) + {key}) + [key]
  {
    StoredWeighs(key, raw);
    var swept := SweptKeys(c, now);
    hide Without, SizeOf, Stored;
    if SweepDue(c, now) {
      assert swept == Expired(c.entries, now);
      WithoutTwice(c.lru, swept, {key});
    } else {
      assert swept == {} && swept + {key} == {key};
    }
  }

  lemma DroppedMeans(o: Cache, key: Text, l: seq<Text>, gone: set<Text>, full: bool, now: nat)
    requires o.lru == Without(l, gone + {key}) + [key] && key in o.entries && now < o.entries[key].expires
    ensures
      var all := if full then DropExpired(o, now) else o;
      var expired := ExpiredKeys(o.entries, full, now);
      && all.entries == o.entries - expired && all.lru == Without(l, gone + {key} + expired) + [key]
  {
    var expired := ExpiredKeys(o.entries, full, now);
    assert key !in expired;
    hide Without, Past;
    if full {
      assert expired == Expired(o.entries, now);
      WithoutTwice(l, gone + {key}, expired);
      WithoutPush(Without(l, gone + {key}), key, expired);
    } else {
      assert expired == {} && gone + {key} + expired == gone + {key};
    }
  }

  lemma CutMeans(c: Cache, n: nat)
    requires n <= |c.lru|
    ensures Cut(c, n).entries == c.entries - FirstOf(c.lru, n)
  {
    forall k | k in c.lru[..n] ensures k in FirstOf(c.lru, n) {
      var i :| 0 <= i < n && c.lru[i] == k;
    }
    forall k | k in FirstOf(c.lru, n) ensures k in c.lru[..n] {
      var i :| 0 <= i < n && c.lru[i] == k;
      assert c.lru[..n][i] == k;
    }
    assert Elems(c.lru[..n]) == FirstOf(c.lru, n);
    hide Without;
  }

  /** The cache a put trims. */
  ghost function Filled(c: Cache, key: Text, raw: RawResponse, ttl: Millis, now: nat, lim: Limits): Cache {
    var o := Offered(c, key, raw, ttl, now);
    if Over(o.entries, lim) then DropExpired(o, now) else o
  }

  lemma FilledSound(c: Cache, key: Text, raw: RawResponse, ttl: Millis, now: nat, lim: Limits)
    requires Sound(c)
    ensures Sound(Filled(c, key, raw, ttl, now, lim))
  {
    hide Sound, Over, Offered, DropExpired, SizeOf;
    OfferedIsSound(c, key, raw, ttl, now);
    var o := Offered(c, key, raw, ttl, now);
    if Over(o.entries, lim) { LiveStaysLast(o, key, now); }
  }

  lemma FilledMeans(c: Cache, key: Text, raw: RawResponse, ttl: Millis, now: nat, lim: Limits)
    requires Sound(c)
    ensures
      var all := Filled(c, key, raw, ttl, now, lim);
      var a := (c.entries - SweptKeys(c, now))[key := New(key, raw, ttl, now)];
      var expired := ExpiredKeys(a, !Fits(a, lim), now);
      && all.entries == a - expired
      && all.lru == Without(c.lru, SweptKeys(c, now) + {key} + expired) + [key]
  {
    hide Sound, Over, Offered, DropExpired, SizeOf, Fits, Stored, SweptKeys, ExpiredKeys, Without;
    var o := Offered(c, key, raw, ttl, now);
    OfferedIsSound(c, key, raw, ttl, now);
    OfferedMeans(c, key, raw, ttl, now);
    SoundSizes(o);
    FitsMeans(o.entries, lim);
    DroppedMeans(o, key, c.lru, SweptKeys(c, now), Over(o.entries, lim), now);
  }

  lemma CutFits(c: Cache, n: nat, lim: Limits)
    requires Sound(c) && n <= |c.lru|
    ensures Over(Cut(c, n).entries, lim) <==> !Fits(c.entries - FirstOf(c.lru, n), lim)
  {
    hide *;
    CutIs(c, n);
    CutMeans(c, n);
    SoundSizes(Cut(c, n));
    FitsMeans(Cut(c, n).entries, lim);
  }

  lemma CutIsShortest(c: Cache, n: nat, d: Cache, lim: Limits)
    requires Sound(c) && ShortestCut(c, n, d, lim)
    ensures FewestGo(c.entries, c.lru, n, d, lim)
  {
    hide Sound, Cut, Over, FirstOf, Fits;
    CutMeans(c, n);
    CutFits(c, n, lim);
    forall j | 0 <= j < n ensures !Fits(c.entries - FirstOf(c.lru, j), lim) { CutFits(c, j, lim); }
  }

  lemma PutUnfolds(c: Cache, key: Text, raw: RawResponse, ttl: Millis, now: nat, lim: Limits)
    ensures TooBig(key, raw, lim) <==> lim.maxBytes != 0 && |Stored(key, raw)| > lim.maxBytes
    ensures TooBig(key, raw, lim) ==> Put(c, key, raw, ttl, now, lim) == c
  {
    StoredWeighs(key, raw);
    hide Offered, Trimmed, SizeOf, Stored;
  }

  /** Every put does just this. */
  lemma PutMeans(c: Cache, key: Text, raw: RawResponse, ttl: Millis, now: nat, lim: Limits)
    requires Sound(c)
    ensures PutDoes(c, key, raw, ttl, now, lim, Put(c, key, raw, ttl, now, lim))
  {
    hide Sound, Put, Offered, DropExpired, Over, ShortestCut, SizeOf, TooBig, Stored, Fits, SweptKeys, ExpiredKeys,
      FirstOf, Without, Filled, FewestGo;
    var d := Put(c, key, raw, ttl, now, lim);
    PutUnfolds(c, key, raw, ttl, now, lim);
    if !TooBig(key, raw, lim) {
      var all := Filled(c, key, raw, ttl, now, lim);
      var n := PutCuts(c, key, raw, ttl, now, lim);
      FilledSound(c, key, raw, ttl, now, lim);
      FilledMeans(c, key, raw, ttl, now, lim);
      CutIsShortest(all, n, d, lim);
      PutIsCut(c, key, raw, ttl, now, lim, all, n, d);
    }
  }

  lemma PutIsCut(c: Cache, key: Text, raw: RawResponse, ttl: Millis, now: nat, lim: Limits, all: Cache, n: nat,
                 d: Cache)
    requires !(lim.maxBytes != 0 && |Stored(key, raw)| > lim.maxBytes) && FewestGo(all.entries, all.lru, n, d, lim)
    requires
      var a := (c.entries - SweptKeys(c, now))[key := New(key, raw, ttl, now)];
      var expired := ExpiredKeys(a, !Fits(a, lim), now);
      && all.entries == a - expired
      && all.lru == Without(c.lru, SweptKeys(c, now) + {key} + expired) + [key]
    ensures PutDoes(c, key, raw, ttl, now, lim, d)
  {
  }

  lemma PutCuts(c: Cache, key: Text, raw: RawResponse, ttl: Millis, now: nat, lim: Limits) returns (n: nat)
    requires Sound(c) && !TooBig(key, raw, lim)
    ensures ShortestCut(Filled(c, key, raw, ttl, now, lim), n, Put(c, key, raw, ttl, now, lim), lim)
  {
    hide Sound, Put, Offered, DropExpired, Over, ShortestCut, SizeOf, TooBig;
    PutIsExact(c, key, raw, ttl, now, lim);
    n :| ShortestCut(Filled(c, key, raw, ttl, now, lim), n, Put(c, key, raw, ttl, now, lim), lim);
  }

  /** A get answers a response whose time is not up, and nothing else; one whose time is
      up goes. */
  lemma GetMeans(c: Cache, key: Text, now: nat)
    ensures
      var (d, r) := Get(c, key, now);
      var there := key in c.entries && !Past(c.entries[key], now);
      && r == (if there then Some(c.entries[key].raw) else None)
      && d.entries == (if key in c.entries && !there then c.entries - {key} else c.entries)
      && d.lastSweep == c.lastSweep
  {
  }

  /** The mark of the last sweep is the time of a put that swept. */
  lemma SweepMark(c: Cache, key: Text, raw: RawResponse, ttl: Millis, now: nat, lim: Limits)
    ensures
      var d := Put(c, key, raw, ttl, now, lim);
      d.lastSweep == if (lim.maxBytes != 0 && |Stored(key, raw)| > lim.maxBytes)
                        || (c.lastSweep.Some? && now - c.lastSweep.value < 60_000)
                     then c.lastSweep else Some(now)
  {
    StoredWeighs(key, raw);
    hide Victims, SizeOf, Stored, Over, Expired, Without, Elems;
  }
}
