/** A recency index: an ordered map from ticks to keys, read as the list of its
    keys from the oldest tick to the newest. */
module Recency {
  import opened Prelude

  predicate Distinct<K(==,!new)>(l: seq<K>) { forall i, j | 0 <= i < j < |l| :: l[i] != l[j] }

  /** `l` without the keys in `ks`, in order. */
  function Without<K(==,!new)>(l: seq<K>, ks: set<K>): seq<K> {
    if l == [] then [] else (if l[0] in ks then [] else [l[0]]) + Without(l[1..], ks)
  }

  lemma {:induction false} WithoutMembers<K(!new)>(l: seq<K>, ks: set<K>)
    ensures forall k :: k in Without(l, ks) <==> k in l && k !in ks
    ensures Distinct(l) ==> Distinct(Without(l, ks))
  {
    if l != [] {
      WithoutMembers(l[1..], ks);
    }
  }

  lemma {:induction false} WithoutConcat<K(!new)>(a: seq<K>, b: seq<K>, ks: set<K>)
    ensures Without(a + b, ks) == Without(a, ks) + Without(b, ks)
  {
    if a == [] {
      assert a + b == b;
    } else {
      assert (a + b)[0] == a[0] && (a + b)[1..] == a[1..] + b;
      WithoutConcat(a[1..], b, ks);
    }
  }

  lemma WithoutCons<K(!new)>(h: K, t: seq<K>, ks: set<K>)
    ensures Without([h] + t, ks) == (if h in ks then [] else [h]) + Without(t, ks)
  {
    assert ([h] + t)[1..] == t;
  }

  lemma {:induction false} WithoutTwice<K(!new)>(l: seq<K>, a: set<K>, b: set<K>)
    ensures Without(Without(l, a), b) == Without(l, a + b)
  {
    if l == [] { return; }
    var h, t := l[0], l[1..];
    assert l == [h] + t;
    WithoutTwice(t, a, b);
    WithoutCons(h, t, a);
    WithoutCons(h, t, a + b);
    WithoutCons(h, Without(t, a), b);
    hide Without;
    if h in a {
      assert [] + Without(t, a) == Without(t, a);
      assert [] + Without(t, a + b) == Without(t, a + b);
    }
  }

  lemma WithoutTake<K(!new)>(l: seq<K>, i: nat, ks: set<K>)
    requires i <= |l|
    ensures Without(l[..i], ks) <= Without(l, ks)
  {
    hide Without;
    var a, b := l[..i], l[i..];
    WithoutConcat(a, b, ks);
    assert a + b == l;
  }

  lemma WithoutTakeNext<K(!new)>(l: seq<K>, i: nat, ks: set<K>)
    requires i < |l|
    ensures Without(l[..i + 1], ks) == Without(l[..i], ks) + (if l[i] in ks then [] else [l[i]])
  {
    hide Without;
    WithoutPush(l[..i], l[i], ks);
    assert l[..i + 1] == l[..i] + [l[i]];
  }

  lemma WithoutPush<K(!new)>(l: seq<K>, k: K, ks: set<K>)
    ensures Without(l + [k], ks) == Without(l, ks) + (if k in ks then [] else [k])
  {
    WithoutCons(k, [], ks);
    assert [k] + [] == [k] && Without<K>([], ks) == [];
    hide Without;
    WithoutConcat(l, [k], ks);
  }

  lemma {:induction false} WithoutAbsent<K(!new)>(l: seq<K>, ks: set<K>)
    requires forall k | k in ks :: k !in l
    ensures Without(l, ks) == l
  {
    if l != [] {
      assert l[0] in l;
      forall k | k in ks ensures k !in l[1..] { }
      WithoutAbsent(l[1..], ks);
    }
  }

  // --------------------------------------------------------- order of use

  /** The keys stand in the order of their last use. */
  ghost predicate InOrderOf<K(!new)>(l: seq<K>, used: K -> nat) {
    forall i, j | 0 <= i < j < |l| :: used(l[i]) < used(l[j])
  }

  lemma {:induction false} WithoutInOrder<K(!new)>(l: seq<K>, ks: set<K>, used: K -> nat)
    requires InOrderOf(l, used)
    ensures InOrderOf(Without(l, ks), used)
  {
    if l != [] {
      var h, t := l[0], l[1..];
      WithoutInOrder(t, ks, used);
      WithoutMembers(t, ks);
      var rest := Without(t, ks);
      forall k | k in rest ensures used(h) < used(k) {
        var i :| 0 <= i < |t| && t[i] == k;
        assert l[i + 1] == k;
      }
      forall i | 0 <= i < |rest| ensures used(h) < used(rest[i]) {
        assert rest[i] in rest;
      }
    }
  }

  /** A key just used goes last. */
  lemma PushInOrder<K(!new)>(l: seq<K>, k: K, used: K -> nat, after: K -> nat)
    requires InOrderOf(l, used)
    requires forall j | j in l && j != k :: after(j) == used(j) < after(k)
    ensures InOrderOf(Without(l, {k}) + [k], after)
  {
    var rest := Without(l, {k});
    WithoutMembers(l, {k});
    WithoutInOrder(l, {k}, used);
    hide Without;
    forall i | 0 <= i < |rest| ensures after(rest[i]) == used(rest[i]) < after(k) {
      assert rest[i] in rest;
    }
  }

  lemma SameInOrder<K(!new)>(l: seq<K>, used: K -> nat, after: K -> nat)
    requires InOrderOf(l, used) && forall k | k in l :: after(k) == used(k)
    ensures InOrderOf(l, after)
  {
    forall i | 0 <= i < |l| ensures after(l[i]) == used(l[i]) {
      assert l[i] in l;
    }
  }

  // -------------------------------------------------------- the tick index

  function Listed<K(==,!new)>(order: map<nat, K>, ticks: seq<nat>): (r: seq<K>)
    requires forall t | t in ticks :: t in order
    ensures |r| == |ticks| && forall i | 0 <= i < |r| :: r[i] == order[ticks[i]]
  {
    seq(|ticks|, i requires 0 <= i < |ticks| => order[ticks[i]])
  }

  /** The keys of the index, oldest first. */
  function Oldest<K(==,!new)>(order: map<nat, K>): seq<K> { Listed(order, Ascending(order.Keys)) }

  predicate Rising(ts: seq<nat>) { forall i, j | 0 <= i < j < |ts| :: ts[i] < ts[j] }

  lemma {:induction false} RisingUnique(a: seq<nat>, b: seq<nat>)
    requires Rising(a) && Rising(b) && forall t :: t in a <==> t in b
    ensures a == b
  {
    assert a == [] <==> b == [] by {
      assert a != [] ==> a[0] in b;
      assert b != [] ==> b[0] in a;
    }
    if a != [] {
      assert a[0] in b && b[0] in a;
      assert a[0] == b[0];
      forall t ensures t in a[1..] <==> t in b[1..] {
        assert t in a[1..] <==> t in a && t != a[0];
        assert t in b[1..] <==> t in b && t != b[0];
      }
      RisingUnique(a[1..], b[1..]);
    }
  }

  lemma RisingPush(ticks: seq<nat>, s: set<nat>, tick: nat)
    requires Rising(ticks) && (forall t :: t in ticks <==> t in s) && forall t | t in s :: t < tick
    ensures Ascending(s + {tick}) == ticks + [tick]
  {
    var pushed := ticks + [tick];
    forall i, j | 0 <= i < j < |pushed| ensures pushed[i] < pushed[j] {
      assert ticks[i] in ticks;
    }
    forall t ensures t in pushed <==> t in s + {tick} { }
    RisingUnique(Ascending(s + {tick}), pushed);
  }

  lemma OldestPush<K(!new)>(order: map<nat, K>, tick: nat, k: K)
    requires forall t | t in order :: t < tick
    ensures Oldest(order[tick := k]) == Oldest(order) + [k]
  {
    var ticks := Ascending(order.Keys);
    assert order[tick := k].Keys == order.Keys + {tick};
    RisingPush(ticks, order.Keys, tick);
    hide Ascending, Listed, Rising;
    ListedPush(order, ticks, tick, k);
  }

  lemma ListedPush<K(!new)>(order: map<nat, K>, ticks: seq<nat>, tick: nat, k: K)
    requires tick !in order && forall t | t in ticks :: t in order
    ensures Listed(order[tick := k], ticks + [tick]) == Listed(order, ticks) + [k]
  {
    var pushed := ticks + [tick];
    forall t | t in pushed ensures t in order[tick := k] { }
    hide Listed;
    forall i | 0 <= i < |pushed| ensures Listed(order[tick := k], pushed)[i] == (Listed(order, ticks) + [k])[i] {
      if i < |ticks| { assert pushed[i] == ticks[i] && ticks[i] in ticks; }
    }
  }

  /** Dropping the ticks whose keys are in `ks` drops those keys from the list. */
  lemma OldestDrop<K(!new)>(order: map<nat, K>, less: map<nat, K>, ks: set<K>)
    requires less.Keys <= order.Keys
    requires forall t | t in less :: less[t] == order[t]
    requires forall t | t in order :: t in less <==> order[t] !in ks
    ensures Oldest(less) == Without(Oldest(order), ks)
  {
    var ticks := Ascending(order.Keys);
    var kept := KeptTicks(order, ticks, ks);
    KeptRising(order, ticks, ks);
    assert kept == Ascending(less.Keys) by {
      forall t ensures t in kept <==> t in Ascending(less.Keys) { }
      RisingUnique(kept, Ascending(less.Keys));
    }
    hide *;
    KeptListed(order, ticks, ks);
    ListedLess(order, less, kept);
  }

  lemma ListedLess<K(!new)>(order: map<nat, K>, less: map<nat, K>, ticks: seq<nat>)
    requires forall t | t in ticks :: t in order && t in less && less[t] == order[t]
    ensures Listed(less, ticks) == Listed(order, ticks)
  {
  }

  ghost function KeptTicks<K(!new)>(order: map<nat, K>, ticks: seq<nat>, ks: set<K>): (r: seq<nat>)
    requires forall t | t in ticks :: t in order
    ensures forall t :: t in r <==> t in ticks && order[t] !in ks
  {
    if ticks == [] then [] else
      (if order[ticks[0]] in ks then [] else [ticks[0]]) + KeptTicks(order, ticks[1..], ks)
  }

  lemma {:induction false} KeptRising<K(!new)>(order: map<nat, K>, ticks: seq<nat>, ks: set<K>)
    requires Rising(ticks) && forall t | t in ticks :: t in order
    ensures Rising(KeptTicks(order, ticks, ks))
  {
    if ticks != [] {
      KeptRising(order, ticks[1..], ks);
      var rest := KeptTicks(order, ticks[1..], ks);
      forall i | 0 <= i < |rest| ensures ticks[0] < rest[i] {
        assert rest[i] in ticks[1..];
      }
    }
  }

  lemma {:induction false} KeptListed<K(!new)>(order: map<nat, K>, ticks: seq<nat>, ks: set<K>)
    requires forall t | t in ticks :: t in order
    ensures Listed(order, KeptTicks(order, ticks, ks)) == Without(Listed(order, ticks), ks)
  {
    if ticks == [] { return; }
    var t, rest := ticks[0], ticks[1..];
    KeptListed(order, rest, ks);
    var kept := KeptTicks(order, rest, ks);
    assert KeptTicks(order, ticks, ks) == (if order[t] in ks then [] else [t]) + kept;
    hide *;
    assert ticks == [t] + rest;
    ListedCons(order, t, rest);
    WithoutCons(order[t], Listed(order, rest), ks);
    if order[t] in ks {
      assert [] + kept == kept && [] + Without(Listed(order, rest), ks) == Without(Listed(order, rest), ks);
    } else {
      ListedCons(order, t, kept);
    }
  }

  lemma ListedCons<K(!new)>(order: map<nat, K>, t: nat, rest: seq<nat>)
    requires t in order && forall x | x in rest :: x in order
    ensures forall x | x in [t] + rest :: x in order
    ensures Listed(order, [t] + rest) == [order[t]] + Listed(order, rest)
  {
  }

  lemma OldestMembers<K(!new)>(order: map<nat, K>, k: K)
    ensures k in Oldest(order) <==> exists t :: t in order && order[t] == k
  {
    var ticks := Ascending(order.Keys);
    var l := Oldest(order);
    if k in l {
      var i :| 0 <= i < |l| && l[i] == k;
      assert ticks[i] in order && order[ticks[i]] == k;
    }
    if t :| t in order && order[t] == k {
      assert t in ticks;
      var i :| 0 <= i < |ticks| && ticks[i] == t;
      assert l[i] == k;
    }
  }
}
