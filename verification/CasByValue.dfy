/** `cas`, compare and set by value: a snapshot, and if it read the value expected, a
    compare and set by the version read, each under the lock of its own. */
module CasByValue {
  import opened Prelude
  import opened StateSpec
  import opened StateLaws
  import opened SharedState
  import H = StoreHistory

  /** What `cas` makes of a snapshot once it has the lock again. */
  ghost function CasValue(read: Pending, expected: Option<Prim>, s: Store, value: Option<Prim>, w: Write, now: nat,
                          lim: Limits)
    : (Store, Cas)
  {
    if read.read != expected then (s, Differs)
    else CompareAndSet(s, read.key, read.version, value, w, now, lim)
  }

  /** Action `i` of the run wrote `key`. */
  ghost predicate WritesAt(ss: seq<Sys>, acts: seq<(Act, nat)>, lim: Limits, i: nat, key: Key) {
    && i < |acts| && i < |ss| && Enabled(ss[i], acts[i].0)
    && var wrote := StoreEffect(ss[i], acts[i].0, acts[i].1, lim).wrote; wrote.Some? && wrote.value.0 == key
  }

  ghost predicate WrittenIn(ss: seq<Sys>, acts: seq<(Act, nat)>, lim: Limits, m: nat, n: nat, key: Key) {
    exists i | m <= i < n :: WritesAt(ss, acts, lim, i, key)
  }

  /** A `cas` in a run: its snapshot is action `m`, its second step action `n`. */
  ghost predicate CasRun(ss: seq<Sys>, acts: seq<(Act, nat)>, lim: Limits, m: nat, n: nat, p: nat, key: Key) {
    && IsRun(ss, acts, lim) && m < n < |ss| && acts[m].0 == Snapshot(p, key)
    && forall i | m < i < n :: !(acts[i].0.Snapshot? && acts[i].0.p == p) && !(acts[i].0.Commit? && acts[i].0.p == p)
  }

  // ------------------------------------------------------- what lies between

  lemma StepBehaves(ss: seq<Sys>, acts: seq<(Act, nat)>, lim: Limits, i: nat)
    requires IsRun(ss, acts, lim) && i + 1 < |ss|
    ensures i < |acts| && Enabled(ss[i], acts[i].0)
    ensures ss[i + 1] == Next(ss[i], acts[i].0, acts[i].1, lim)
    ensures
      var e := StoreEffect(ss[i], acts[i].0, acts[i].1, lim);
      ss[i + 1].store == e.store && Behaves(ss[i].store, e)
  {
    RunKeepsInv(ss, acts, lim, i);
    assert ss[i + 1] == Next(ss[i], acts[i].0, acts[i].1, lim);
    hide Enabled, StoreEffect, FetchEffect, PendingEffect, Behaves, Inv, IsRun;
    StoreBehaves(ss[i], acts[i].0, acts[i].1, lim);
  }

  /** A step that does not write `key` leaves what is under it, or removes it; one that
      does gives it the newest version. */
  lemma StepOnKey(ss: seq<Sys>, acts: seq<(Act, nat)>, lim: Limits, n: nat, key: Key)
    requires IsRun(ss, acts, lim) && 0 < n < |ss|
    ensures
      var s, t := ss[n - 1].store, ss[n].store;
      && s.lastVersion <= t.lastVersion
      && (key in t.entries ==>
            if WritesAt(ss, acts, lim, n - 1, key) then s.lastVersion < t.entries[key].version
            else key in s.entries && t.entries[key] == s.entries[key])
  {
    StepBehaves(ss, acts, lim, n - 1);
    hide IsRun, Next, Enabled, StoreEffect;
  }

  lemma WrittenLast(ss: seq<Sys>, acts: seq<(Act, nat)>, lim: Limits, m: nat, n: nat, key: Key)
    requires m <= n
    ensures WrittenIn(ss, acts, lim, m, n, key) <==>
      m < n && (WritesAt(ss, acts, lim, n - 1, key) || WrittenIn(ss, acts, lim, m, n - 1, key))
  {
    hide WritesAt;
  }

  lemma {:induction false} UnwrittenStays(ss: seq<Sys>, acts: seq<(Act, nat)>, lim: Limits, m: nat, n: nat, key: Key)
    requires IsRun(ss, acts, lim) && m <= n < |ss| && !WrittenIn(ss, acts, lim, m, n, key)
    requires key in ss[n].store.entries
    ensures key in ss[m].store.entries && ss[n].store.entries[key] == ss[m].store.entries[key]
    decreases n
  {
    WrittenLast(ss, acts, lim, m, n, key);
    hide IsRun, WritesAt, WrittenIn;
    if m < n {
      StepOnKey(ss, acts, lim, n, key);
      UnwrittenStays(ss, acts, lim, m, n - 1, key);
    }
  }

  lemma {:induction false} VersionsGrow(ss: seq<Sys>, acts: seq<(Act, nat)>, lim: Limits, m: nat, n: nat, key: Key)
    requires IsRun(ss, acts, lim) && m <= n < |ss|
    ensures ss[m].store.lastVersion <= ss[n].store.lastVersion
    decreases n
  {
    hide *;
    if m < n {
      StepOnKey(ss, acts, lim, n, key);
      VersionsGrow(ss, acts, lim, m, n - 1, key);
    }
  }

  lemma {:induction false} WrittenIsNewer(ss: seq<Sys>, acts: seq<(Act, nat)>, lim: Limits, m: nat, n: nat, key: Key)
    requires IsRun(ss, acts, lim) && m <= n < |ss| && WrittenIn(ss, acts, lim, m, n, key)
    requires key in ss[n].store.entries
    ensures ss[m].store.lastVersion < ss[n].store.entries[key].version
    decreases n
  {
    hide *;
    WrittenLast(ss, acts, lim, m, n, key);
    VersionsGrow(ss, acts, lim, m, n - 1, key);
    StepOnKey(ss, acts, lim, n, key);
    if !WritesAt(ss, acts, lim, n - 1, key) { WrittenIsNewer(ss, acts, lim, m, n - 1, key); }
  }

  lemma {:induction false} SnapshotKept(ss: seq<Sys>, acts: seq<(Act, nat)>, lim: Limits, m: nat, n: nat, p: nat,
                                        key: Key)
    requires CasRun(ss, acts, lim, m, n, p, key) && m < |acts|
    ensures p in ss[n].pending
    ensures
      var (s, now) := (ss[m].store, acts[m].1);
      ss[n].pending[p] == Pending(key, ValueAt(s, key, now), VersionAt(s, key, now))
    decreases n
  {
    StepBehaves(ss, acts, lim, n - 1);
    hide IsRun, StoreEffect, FetchEffect, ValueAt, VersionAt;
    if m < n - 1 { SnapshotKept(ss, acts, lim, m, n - 1, p, key); }
  }

  /** The version read at `m` is current at `n` iff the key was not written in between
      and the entry read is there, or nothing was read and nothing is. */
  lemma CurrentIffUnwritten(ss: seq<Sys>, acts: seq<(Act, nat)>, lim: Limits, m: nat, n: nat, key: Key, readAt: nat,
                            now: nat)
    requires IsRun(ss, acts, lim) && m <= n < |ss|
    ensures VersionAt(ss[n].store, key, now) == VersionAt(ss[m].store, key, readAt) <==>
      if Live(ss[m].store, key, readAt).None? then Live(ss[n].store, key, now).None?
      else Live(ss[n].store, key, now).Some? && !WrittenIn(ss, acts, lim, m, n, key)
  {
    RunKeepsInv(ss, acts, lim, m);
    RunKeepsInv(ss, acts, lim, n);
    hide *;
    if key in ss[n].store.entries {
      if WrittenIn(ss, acts, lim, m, n, key) {
        WrittenIsNewer(ss, acts, lim, m, n, key);
      } else {
        UnwrittenStays(ss, acts, lim, m, n, key);
      }
    }
    SameVersion(ss[m], ss[n], lim, key, readAt, now, WrittenIn(ss, acts, lim, m, n, key));
  }

  lemma SameVersion(s: Sys, t: Sys, lim: Limits, key: Key, readAt: nat, now: nat, written: bool)
    requires SysInv(s, lim) && SysInv(t, lim)
    requires key in t.store.entries ==>
      if written then s.store.lastVersion < t.store.entries[key].version
      else key in s.store.entries && t.store.entries[key] == s.store.entries[key]
    ensures VersionAt(t.store, key, now) == VersionAt(s.store, key, readAt) <==>
      if Live(s.store, key, readAt).None? then Live(t.store, key, now).None?
      else Live(t.store, key, now).Some? && !written
  {
    hide F.Inv, Capped, Indexed, Measured, Bounded, Remembered, AllRead;
  }

  // -------------------------------------------------------------- what it does

  /** A `cas` finds a difference if and only if the value it read is not the one
      expected, or the key was written in between, or came to life or died. If it finds
      none, the value live at that moment is the one expected, and the write is one
      atomic put. */
  lemma CasValueIsExact(ss: seq<Sys>, acts: seq<(Act, nat)>, lim: Limits, m: nat, n: nat, p: nat, key: Key,
                        expected: Option<Prim>, value: Option<Prim>, w: Write, now: nat)
    requires CasRun(ss, acts, lim, m, n, p, key) && m < |acts|
    ensures p in ss[n].pending
    ensures
      var s, (t, r) := ss[n].store, CasValue(ss[n].pending[p], expected, ss[n].store, value, w, now, lim);
      && (r.Differs? <==>
            || ValueAt(ss[m].store, key, acts[m].1) != expected
            || (expected.None? && Live(s, key, now).Some?)
            || (expected.Some? && (Live(s, key, now).None? || WrittenIn(ss, acts, lim, m, n, key))))
      && (!r.Differs? ==>
            && ValueAt(s, key, now) == expected
            && (t, if r.NoRoom? then Full else Stored) == Put(Reap(s, key, now), key, value, w, now, lim))
  {
    var readAt := acts[m].1;
    SnapshotKept(ss, acts, lim, m, n, p, key);
    CurrentIffUnwritten(ss, acts, lim, m, n, key, readAt, now);
    RunKeepsInv(ss, acts, lim, n);
    ReadIffLive(ss[m].store, key, readAt);
    hide *;
    CasHere(ss[n], p, expected, value, w, now, lim);
  }

  lemma CasHere(s: Sys, p: nat, expected: Option<Prim>, value: Option<Prim>, w: Write, now: nat, lim: Limits)
    requires SysInv(s, lim) && p in s.pending
    ensures
      var x, (t, r) := s.pending[p], CasValue(s.pending[p], expected, s.store, value, w, now, lim);
      && (r.Differs? <==> x.read != expected || VersionAt(s.store, x.key, now) != x.version)
      && (!r.Differs? ==>
            && ValueAt(s.store, x.key, now) == expected
            && (t, if r.NoRoom? then Full else Stored) == Put(Reap(s.store, x.key, now), x.key, value, w, now, lim))
  {
    hide Put, Reap, VersionAt, ValueAt, SysInv;
    if VersionAt(s.store, s.pending[p].key, now) == s.pending[p].version {
      NoAba(s, p, now, lim);
    }
  }

  lemma ReadIffLive(s: Store, key: Key, now: nat)
    ensures ValueAt(s, key, now).Some? <==> Live(s, key, now).Some?
  {
  }

  /** So where the value was the one expected both times, `cas` still refuses exactly
      when something was expected and the key was written in between. */
  lemma RefusedThoughEqual(ss: seq<Sys>, acts: seq<(Act, nat)>, lim: Limits, m: nat, n: nat, p: nat, key: Key,
                           expected: Option<Prim>, value: Option<Prim>, w: Write, now: nat)
    requires CasRun(ss, acts, lim, m, n, p, key) && m < |acts|
    requires ValueAt(ss[m].store, key, acts[m].1) == expected == ValueAt(ss[n].store, key, now)
    ensures p in ss[n].pending
    ensures CasValue(ss[n].pending[p], expected, ss[n].store, value, w, now, lim).1.Differs? <==>
      expected.Some? && WrittenIn(ss, acts, lim, m, n, key)
  {
    CasValueIsExact(ss, acts, lim, m, n, p, key, expected, value, w, now);
    ReadIffLive(ss[n].store, key, now);
    hide *;
  }

  // The same value is set again between the two steps of a `cas` that expects it.

  const UNLIMITED := Limits(0, 0)
  const FOREVER := Write(Clear, Some(false), None)
  const SET_AGAIN := SetKey(SMALL_KEY, Some(Bool(true)), FOREVER)

  const RACE: seq<(Act, nat)> := [(SET_AGAIN, 0), (Snapshot(0, SMALL_KEY), 0), (SET_AGAIN, 0)]

  /** A `cas` can refuse although the key held the expected value all along. */
  lemma CasCanRefuseEqual(value: Option<Prim>, w: Write)
    ensures exists ss: seq<Sys> ::
      && CasRun(ss, RACE, UNLIMITED, 1, 3, 0, SMALL_KEY) && 0 in ss[3].pending
      && AllAlong(ss, Some(Bool(true)))
      && CasValue(ss[3].pending[0], Some(Bool(true)), ss[3].store, value, w, 0, UNLIMITED).1.Differs?
  {
    var ss := RaceRun();
    RaceTimes();
    assert ValueAt(ss[1].store, SMALL_KEY, 0) == Some(Bool(true)) == ValueAt(ss[3].store, SMALL_KEY, 0);
    hide *;
    RefusedThoughEqual(ss, RACE, UNLIMITED, 1, 3, 0, SMALL_KEY, Some(Bool(true)), value, w, 0);
  }

  lemma RaceTimes()
    ensures |RACE| == 3 && RACE[1].1 == 0
  {
  }

  lemma RaceRun() returns (ss: seq<Sys>)
    ensures CasRun(ss, RACE, UNLIMITED, 1, 3, 0, SMALL_KEY) && |ss| == 4 && AllAlong(ss, Some(Bool(true)))
    ensures WrittenIn(ss, RACE, UNLIMITED, 1, 3, SMALL_KEY)
  {
    assert RACE[0] == (SET_AGAIN, 0) == RACE[2] && RACE[1] == (Snapshot(0, SMALL_KEY), 0) && RACE[..3] == RACE;
    assert SET_AGAIN.SetKey?;
    hide *;
    var two := TwoOfRace(RACE);
    ss := LastOfRace(two, RACE);
    Along(two, ss);
    RaceIsCas(ss, RACE);
  }

  ghost predicate AllAlong(ss: seq<Sys>, value: Option<Prim>) {
    && |ss| == 4
    && ValueAt(ss[1].store, SMALL_KEY, 0) == value
    && ValueAt(ss[2].store, SMALL_KEY, 0) == value
    && ValueAt(ss[3].store, SMALL_KEY, 0) == value
  }

  lemma Along(two: seq<Sys>, ss: seq<Sys>)
    requires |two| == 3 && |ss| == 4 && ss[..3] == two && ValueAt(ss[3].store, SMALL_KEY, 0) == Some(Bool(true))
    requires ValueAt(two[1].store, SMALL_KEY, 0) == ValueAt(two[2].store, SMALL_KEY, 0) == Some(Bool(true))
    ensures AllAlong(ss, Some(Bool(true)))
  {
    hide ValueAt;
  }

  lemma RaceIsCas(ss: seq<Sys>, acts: seq<(Act, nat)>)
    requires |acts| == 3 && acts[1].0 == Snapshot(0, SMALL_KEY) && acts[2] == (SET_AGAIN, 0) && SET_AGAIN.SetKey?
    requires IsRun(ss, acts, UNLIMITED) && |ss| == 4 && Enabled(ss[2], SET_AGAIN)
    requires StoreEffect(ss[2], SET_AGAIN, 0, UNLIMITED).wrote == Some((SMALL_KEY, Bool(true)))
    ensures CasRun(ss, acts, UNLIMITED, 1, 3, 0, SMALL_KEY) && WrittenIn(ss, acts, UNLIMITED, 1, 3, SMALL_KEY)
  {
    hide IsRun, Enabled, StoreEffect;
    assert WritesAt(ss, acts, UNLIMITED, 2, SMALL_KEY);
  }

  lemma TwoOfRace(acts: seq<(Act, nat)>) returns (ss: seq<Sys>)
    requires |acts| == 3 && acts[0] == (SET_AGAIN, 0) && acts[1] == (Snapshot(0, SMALL_KEY), 0)
    ensures IsRun(ss, acts[..2], UNLIMITED) && |ss| == 3
    ensures ValueAt(ss[1].store, SMALL_KEY, 0) == ValueAt(ss[2].store, SMALL_KEY, 0) == Some(Bool(true))
  {
    hide *;
    H.RunOfNone(acts, UNLIMITED);
    SetsAgain(START);
    var one := H.RunOn([START], acts, 0, UNLIMITED);
    Looks(one[1]);
    ss := H.RunOn(one, acts, 1, UNLIMITED);
    assert ss[1] == one[1];
  }

  lemma LastOfRace(two: seq<Sys>, acts: seq<(Act, nat)>) returns (ss: seq<Sys>)
    requires |acts| == 3 && acts[2] == (SET_AGAIN, 0) && |two| == 3 && IsRun(two, acts[..2], UNLIMITED)
    ensures IsRun(ss, acts[..3], UNLIMITED) && |ss| == 4 && ss[..3] == two && Enabled(ss[2], SET_AGAIN)
    ensures StoreEffect(ss[2], SET_AGAIN, 0, UNLIMITED).wrote == Some((SMALL_KEY, Bool(true)))
    ensures ValueAt(ss[3].store, SMALL_KEY, 0) == Some(Bool(true))
  {
    hide *;
    SetsAgain(two[2]);
    ss := H.RunOn(two, acts, 2, UNLIMITED);
  }

  lemma SetsAgain(s: Sys)
    ensures Enabled(s, SET_AGAIN)
    ensures ValueAt(Next(s, SET_AGAIN, 0, UNLIMITED).store, SMALL_KEY, 0) == Some(Bool(true))
    ensures StoreEffect(s, SET_AGAIN, 0, UNLIMITED).wrote == Some((SMALL_KEY, Bool(true)))
  {
    hide Prepared, SizeOf, FetchEffect, PendingEffect;
  }

  lemma Looks(s: Sys)
    ensures Enabled(s, Snapshot(0, SMALL_KEY))
    ensures ValueAt(Next(s, Snapshot(0, SMALL_KEY), 0, UNLIMITED).store, SMALL_KEY, 0) == ValueAt(s.store, SMALL_KEY, 0)
  {
    hide FetchEffect, PendingEffect;
  }
}
