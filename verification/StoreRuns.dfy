/** What holds of the store over whole runs, in bytes and times: the caps, and the fixed
    window of a counter. */
module StoreRuns {
  import opened Prelude
  import opened StateSpec
  import opened StateLaws
  import opened SharedState
  import opened CasByValue
  import opened StoreMeans
  import H = StoreHistory

  /** After every run the bytes of all entries together, and their number, are within
      the caps. */
  lemma CapsHold(ss: seq<Sys>, acts: seq<(Act, nat)>, lim: Limits, n: nat)
    requires IsRun(ss, acts, lim) && n < |ss|
    ensures lim.maxEntries == 0 || |ss[n].store.entries| <= lim.maxEntries
    ensures lim.maxBytes == 0 || Held(ss[n].store.entries) <= lim.maxBytes
  {
    RunKeepsInv(ss, acts, lim, n);
    H.SysSound(ss[n], lim);
    hide IsRun, F.Inv, Sound, Held;
    ChargesAreSizes(ss[n].store, ss[n].store.entries);
  }

  /** What the increments of `key` from action `m` to action `n` added. */
  ghost function Added(ss: seq<Sys>, acts: seq<(Act, nat)>, lim: Limits, m: nat, n: nat, key: Key): int
    decreases n
  {
    if n <= m || n > |acts| then 0 else Added(ss, acts, lim, m, n - 1, key) + Step(ss, acts, lim, n, key)
  }

  /** Every write to `key` from action `m` to action `n` counts within the window that
      ends at `x`. */
  ghost predicate OnlyCounts(ss: seq<Sys>, acts: seq<(Act, nat)>, lim: Limits, m: nat, n: nat, key: Key, x: nat) {
    forall i | m <= i < n && i < |acts| && WritesAt(ss, acts, lim, i, key) ::
      acts[i].0.Increment? && acts[i].0.w.expiry.AfterIfUnset? && acts[i].1 < x
  }

  /** `key` holds the number `v`, until `x`. */
  predicate Counter(s: Store, key: Key, x: nat, v: int) {
    key in s.entries && s.entries[key].expires == Some(x) && s.entries[key].value == Num(v)
  }

  lemma CountedOnce(s: Store, key: Key, n: int, w: Write, now: nat, lim: Limits, x: nat, v: int)
    requires Sound(s) && Counter(s, key, x, v) && now < x && w.expiry.AfterIfUnset?
    requires Incr(s, key, n, w, now, lim).1.Counted?
    ensures Counter(Incr(s, key, n, w, now, lim).0, key, x, v + n)
  {
    hide *;
    var t := Incr(s, key, n, w, now, lim).0;
    CountedEntry(s, key, v + n, w, now, x, v);
    IncrMeans(s, key, n, w, now, lim);
    StoredEntry(s, key, Num(v + n), w, now, lim, t);
    CounterIs(t, key, x, v + n);
  }

  lemma CountedEntry(s: Store, key: Key, m: int, w: Write, now: nat, x: nat, v: int)
    requires Counter(s, key, x, v) && now < x && w.expiry.AfterIfUnset?
    ensures key in s.entries && Readable(s, key, now) && s.entries[key].value == Num(v)
    ensures NewEntry(s, key, Num(m), w, now).expires == Some(x) && NewEntry(s, key, Num(m), w, now).value == Num(m)
  {
    hide Charged;
  }

  lemma CounterIs(s: Store, key: Key, x: nat, v: int)
    requires key in s.entries && s.entries[key].expires == Some(x) && s.entries[key].value == Num(v)
    ensures Counter(s, key, x, v)
  {
  }

  lemma CountingStep(ss: seq<Sys>, acts: seq<(Act, nat)>, lim: Limits, n: nat, key: Key, x: nat, v: int)
    requires IsRun(ss, acts, lim) && 0 < n < |ss| && n <= |acts|
    requires Counter(ss[n - 1].store, key, x, v) && key in ss[n].store.entries
    requires OnlyCounts(ss, acts, lim, n - 1, n, key, x)
    ensures Counter(ss[n].store, key, x, v + Step(ss, acts, lim, n, key))
  {
    var (a, now) := acts[n - 1];
    StepOnKey(ss, acts, lim, n, key);
    StepBehaves(ss, acts, lim, n - 1);
    RunKeepsInv(ss, acts, lim, n - 1);
    H.SysSound(ss[n - 1], lim);
    var s := ss[n - 1].store;
    if WritesAt(ss, acts, lim, n - 1, key) {
      assert a.Increment? && a.w.expiry.AfterIfUnset? && now < x;
      CountWrote(ss[n - 1], a, now, lim, key);
      hide *;
      CountedOnce(s, key, a.delta, a.w, now, lim, x, v);
    }
  }

  /** What action `n - 1` added to `key`. */
  ghost function Step(ss: seq<Sys>, acts: seq<(Act, nat)>, lim: Limits, n: nat, key: Key): int
    requires 0 < n <= |acts|
  {
    var (a, _) := acts[n - 1];
    if WritesAt(ss, acts, lim, n - 1, key) && a.Increment? then a.delta else 0
  }

  lemma CountWrote(s: Sys, a: Act, now: nat, lim: Limits, key: Key)
    requires Enabled(s, a) && a.Increment? && StoreEffect(s, a, now, lim).wrote.Some?
    requires StoreEffect(s, a, now, lim).wrote.value.0 == key
    ensures a.key == key && Incr(s.store, key, a.delta, a.w, now, lim).1.Counted?
    ensures StoreEffect(s, a, now, lim).store == Incr(s.store, key, a.delta, a.w, now, lim).0
  {
    hide Incr;
  }

  lemma {:induction false} WindowStays(ss: seq<Sys>, acts: seq<(Act, nat)>, lim: Limits, m: nat, n: nat, key: Key,
                                       x: nat, v: int)
    requires IsRun(ss, acts, lim) && m <= n < |ss| && n <= |acts|
    requires forall i | m <= i <= n :: key in ss[i].store.entries
    requires Counter(ss[m].store, key, x, v) && OnlyCounts(ss, acts, lim, m, n, key, x)
    ensures Counter(ss[n].store, key, x, v + Added(ss, acts, lim, m, n, key))
    decreases n
  {
    hide *;
    if m < n {
      FewerCounts(ss, acts, lim, m, n, key, x);
      WindowStays(ss, acts, lim, m, n - 1, key, x, v);
      AddedOne(ss, acts, lim, m, n, key);
      CountingStep(ss, acts, lim, n, key, x, v + Added(ss, acts, lim, m, n - 1, key));
    } else {
      NothingAdded(ss, acts, lim, m, key);
    }
  }

  lemma AddedOne(ss: seq<Sys>, acts: seq<(Act, nat)>, lim: Limits, m: nat, n: nat, key: Key)
    requires m < n <= |acts|
    ensures Added(ss, acts, lim, m, n, key) == Added(ss, acts, lim, m, n - 1, key) + Step(ss, acts, lim, n, key)
  {
    hide Step;
  }

  /** A counter whose increments set an expiry only if there is none counts in a fixed
      window: while it is only counted and not evicted, its expiry stays the first one,
      and its value is the first plus all that was added; after that it reads as absent. */
  lemma FixedWindow(ss: seq<Sys>, acts: seq<(Act, nat)>, lim: Limits, m: nat, n: nat, key: Key, x: nat, v: int,
                    now: nat)
    requires IsRun(ss, acts, lim) && m <= n < |ss| && n <= |acts|
    requires forall i | m <= i <= n :: key in ss[i].store.entries
    requires Counter(ss[m].store, key, x, v) && OnlyCounts(ss, acts, lim, m, n, key, x)
    ensures Counter(ss[n].store, key, x, v + Added(ss, acts, lim, m, n, key))
    ensures ValueAt(ss[n].store, key, now)
         == if now < x then Some(Num(v + Added(ss, acts, lim, m, n, key))) else None
  {
    hide *;
    WindowStays(ss, acts, lim, m, n, key, x, v);
    CounterReads(ss[n].store, key, x, v + Added(ss, acts, lim, m, n, key), now);
  }

  lemma NothingAdded(ss: seq<Sys>, acts: seq<(Act, nat)>, lim: Limits, m: nat, key: Key)
    ensures Added(ss, acts, lim, m, m, key) == 0
  {
  }

  lemma FewerCounts(ss: seq<Sys>, acts: seq<(Act, nat)>, lim: Limits, m: nat, n: nat, key: Key, x: nat)
    requires OnlyCounts(ss, acts, lim, m, n, key, x) && n <= |acts|
    ensures m < n ==> OnlyCounts(ss, acts, lim, m, n - 1, key, x) && OnlyCounts(ss, acts, lim, n - 1, n, key, x)
  {
    hide WritesAt;
  }

  lemma CounterReads(s: Store, key: Key, x: nat, v: int, now: nat)
    requires Counter(s, key, x, v)
    ensures ValueAt(s, key, now) == if now < x then Some(Num(v)) else None
  {
  }
}
