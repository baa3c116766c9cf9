/** Shared vocabulary: optional values, byte strings, ascending enumeration of
    the keys of an ordered map, and sums over the values of a map. */
module Prelude {
  datatype Option<+T> = None | Some(value: T)
  datatype Result<+T, +E> = Ok(value: T) | Err(error: E)

  newtype byte = x: int | 0 <= x < 256

  // ------------------------------------------------ ordered-map iteration

  predicate IsLeastOf(s: set<nat>, m: nat) { m in s && forall x | x in s :: m <= x }

  lemma {:induction false} LeastExists(s: set<nat>)
    requires s != {}
    ensures exists m :: IsLeastOf(s, m)
    decreases |s|
  {
    var a :| a in s;
    var t := s - {a};
    if t == {} {
      assert forall x | x in s :: x == a || x in t;
      assert IsLeastOf(s, a);
    } else {
      assert |t| < |s|;
      LeastExists(t);
      var m :| IsLeastOf(t, m);
      var n := if a < m then a else m;
      assert forall x | x in s :: x == a || x in t;
      assert IsLeastOf(s, n);
    }
  }

  function Least(s: set<nat>): (m: nat)
    requires s != {}
    ensures IsLeastOf(s, m)
  {
    LeastExists(s);
    var m :| IsLeastOf(s, m);
    m
  }

  /** The elements of `s` in ascending order: how an ordered map iterates. */
  function Ascending(s: set<nat>): (r: seq<nat>)
    ensures forall x :: x in r <==> x in s
    ensures forall i, j | 0 <= i < j < |r| :: r[i] < r[j]
    decreases |s|
  {
    if s == {} then [] else
      var m := Least(s);
      assert |s - {m}| < |s|;
      [m] + Ascending(s - {m})
  }

  // --------------------------------------------------------- sums over maps

  ghost function Total<K>(m: map<K, nat>): nat
    decreases |m|
  {
    if m == map[] then 0 else
      var k :| k in m;
      assert (m - {k}).Keys == m.Keys - {k};
      assert |(m - {k}).Keys| < |m.Keys|;
      m[k] + Total(m - {k})
  }

  /** Any key may be taken out first. */
  lemma {:induction false} TotalWithout<K>(m: map<K, nat>, k: K)
    requires k in m
    ensures Total(m) == m[k] + Total(m - {k})
    decreases |m|
  {
    var j :| j in m && Total(m) == m[j] + Total(m - {j});
    if j != k {
      assert (m - {j}).Keys == m.Keys - {j};
      assert |(m - {j}).Keys| < |m.Keys|;
      assert (m - {k}).Keys == m.Keys - {k};
      assert |(m - {k}).Keys| < |m.Keys|;
      TotalWithout(m - {j}, k);
      TotalWithout(m - {k}, j);
      assert m - {j} - {k} == m - {k} - {j};
    }
  }

  lemma TotalInsert<K>(m: map<K, nat>, k: K, n: nat)
    requires k !in m
    ensures Total(m[k := n]) == n + Total(m)
  {
    TotalWithout(m[k := n], k);
    assert m[k := n] - {k} == m;
  }

  lemma {:induction false} TotalSubmap<K>(small: map<K, nat>, big: map<K, nat>)
    requires small.Keys <= big.Keys
    requires forall k | k in small :: small[k] == big[k]
    ensures Total(small) <= Total(big)
    ensures |small| <= |big|
    decreases |small|
  {
    if small != map[] {
      var k :| k in small;
      TotalWithout(small, k);
      TotalWithout(big, k);
      assert (small - {k}).Keys == small.Keys - {k};
      assert |(small - {k}).Keys| == |small.Keys| - 1;
      assert (big - {k}).Keys == big.Keys - {k};
      assert |(big - {k}).Keys| == |big.Keys| - 1;
      assert |small.Keys| == |small| && |big.Keys| == |big|;
      TotalSubmap(small - {k}, big - {k});
    }
  }
}
