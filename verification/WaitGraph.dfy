/** The wait graph over in-flight `fetch` loaders: which flight's loader is
    waiting on which key, and the search that refuses a deadlocking wait. */
module WaitGraph {
  import opened StateSpec

  /** One in-flight loader. `waits` counts, per key, the callers nested inside
      this loader that wait on that key. */
  datatype Flight = Flight(id: nat, waits: map<Key, nat>, owner: nat, depth: nat)

  /** One leadership: the key and the flight's id. A task's chain of links runs
      outward from its innermost loader. */
  datatype Link = Link(key: Key, id: nat)

  type Table = map<Key, Flight>

  predicate Edge(t: Table, a: Key, b: Key) { a in t && b in t[a].waits }

  predicate Hop(t: Table, p: seq<Key>, i: nat)
    requires i + 1 < |p|
  {
    Edge(t, p[i], p[i + 1])
  }

  ghost predicate Path(t: Table, p: seq<Key>) {
    p != [] && forall i | 0 <= i < |p| - 1 :: Hop(t, p, i)
  }

  ghost predicate PathFromTo(t: Table, p: seq<Key>, a: Key, b: Key) {
    Path(t, p) && p[0] == a && p[|p| - 1] == b
  }

  ghost predicate Reaches(t: Table, a: Key, b: Key) { exists p :: PathFromTo(t, p, a, b) }

  ghost predicate Acyclic(t: Table) {
    forall p | Path(t, p) && 1 < |p| :: p[0] != p[|p| - 1]
  }

  predicate Named(chain: seq<Link>, k: Key) { exists i | 0 <= i < |chain| :: chain[i].key == k }

  /** Waiting on `key` from inside `chain` would wait on ourselves. */
  ghost predicate WouldDeadlock(t: Table, key: Key, chain: seq<Link>) {
    exists k :: Named(chain, k) && Reaches(t, key, k)
  }

  // --------------------------------------------------------------- paths

  lemma ReachesSelf(t: Table, a: Key)
    ensures Reaches(t, a, a)
  {
    assert PathFromTo(t, [a], a, a);
  }

  lemma ReachesStep(t: Table, a: Key, b: Key, c: Key)
    requires Reaches(t, a, b) && Edge(t, b, c)
    ensures Reaches(t, a, c)
  {
    var p :| PathFromTo(t, p, a, b);
    var q := p + [c];
    forall i | 0 <= i < |q| - 1 ensures Hop(t, q, i) {
      if i < |p| - 1 { assert Hop(t, p, i); }
    }
    assert PathFromTo(t, q, a, c);
  }

  lemma PathSlice(t: Table, p: seq<Key>, i: nat, j: nat)
    requires Path(t, p) && i < j <= |p|
    ensures Path(t, p[i..j])
  {
    forall m | 0 <= m < j - i - 1 ensures Hop(t, p[i..j], m) {
      assert Hop(t, p, i + m);
    }
  }

  lemma PathConcat(t: Table, p: seq<Key>, q: seq<Key>)
    requires Path(t, p) && Path(t, q) && p[|p| - 1] == q[0]
    ensures Path(t, p + q[1..])
  {
    var r := p + q[1..];
    forall i | 0 <= i < |r| - 1 ensures Hop(t, r, i) {
      if i < |p| - 1 {
        assert Hop(t, p, i);
      } else {
        assert Hop(t, q, i - |p| + 1);
      }
    }
  }

  /** A set holding `a` and closed under edges holds all that `a` reaches. */
  lemma ClosedHoldsReachable(t: Table, s: set<Key>, a: Key, b: Key)
    requires a in s && Reaches(t, a, b)
    requires forall x, y | x in s && Edge(t, x, y) :: y in s
    ensures b in s
  {
    var p :| PathFromTo(t, p, a, b);
    PathStaysIn(t, s, p);
  }

  lemma {:induction false} PathStaysIn(t: Table, s: set<Key>, p: seq<Key>)
    requires Path(t, p) && p[0] in s
    requires forall x, y | x in s && Edge(t, x, y) :: y in s
    ensures p[|p| - 1] in s
  {
    if |p| > 1 {
      assert Hop(t, p, 0);
      PathSlice(t, p, 1, |p|);
      assert p[1..|p|] == p[1..];
      PathStaysIn(t, s, p[1..]);
    }
  }

  // ------------------------------------------------------------ adding edges

  /** Adding edges to `key` from keys it does not reach keeps the graph acyclic. */
  lemma AddingKeepsAcyclic(t: Table, u: Table, key: Key, sources: set<Key>)
    requires Acyclic(t)
    requires forall a, b | Edge(u, a, b) :: Edge(t, a, b) || (a in sources && b == key)
    requires forall c | c in sources :: !Reaches(t, key, c)
    ensures Acyclic(u)
  {
    forall p | Path(u, p) && 1 < |p| ensures p[0] != p[|p| - 1] {
      if p[0] == p[|p| - 1] && !OldEdges(t, p, 0, |p| - 1) {
        NewCycleReaches(t, u, key, sources, p);
      }
    }
  }

  predicate OldEdges(t: Table, p: seq<Key>, lo: int, hi: int)
    requires 0 <= lo && hi < |p|
  {
    forall i | lo <= i < hi :: Hop(t, p, i)
  }

  lemma {:induction false} FirstNewEdge(t: Table, p: seq<Key>, i: nat) returns (j: nat)
    requires i < |p| - 1 && !Hop(t, p, i)
    ensures j <= i && !Hop(t, p, j) && OldEdges(t, p, 0, j)
  {
    if OldEdges(t, p, 0, i) {
      j := i;
    } else {
      var k :| 0 <= k < i && !Hop(t, p, k);
      j := FirstNewEdge(t, p, k);
    }
  }

  lemma {:induction false} LastNewEdge(t: Table, p: seq<Key>, i: nat) returns (j: nat)
    requires i < |p| - 1 && !Hop(t, p, i)
    ensures i <= j < |p| - 1 && !Hop(t, p, j) && OldEdges(t, p, j + 1, |p| - 1)
    decreases |p| - i
  {
    if OldEdges(t, p, i + 1, |p| - 1) {
      j := i;
    } else {
      var k :| i + 1 <= k < |p| - 1 && !Hop(t, p, k);
      j := LastNewEdge(t, p, k);
    }
  }

  /** A cycle through a new edge shows an old path from `key` to a source. */
  lemma NewCycleReaches(t: Table, u: Table, key: Key, sources: set<Key>, p: seq<Key>)
    requires forall a, b | Edge(u, a, b) :: Edge(t, a, b) || (a in sources && b == key)
    requires Path(u, p) && 1 < |p| && p[0] == p[|p| - 1]
    requires !OldEdges(t, p, 0, |p| - 1)
    ensures exists c | c in sources :: Reaches(t, key, c)
  {
    var i :| 0 <= i < |p| - 1 && !Hop(t, p, i);
    var first := FirstNewEdge(t, p, i);
    var last := LastNewEdge(t, p, i);
    assert Hop(u, p, first) && Hop(u, p, last);
    var tail, head := p[last + 1..], p[..first + 1];
    forall m | 0 <= m < |tail| - 1 ensures Hop(t, tail, m) {
      assert Hop(t, p, last + 1 + m);
    }
    forall m | 0 <= m < |head| - 1 ensures Hop(t, head, m) {
      assert Hop(t, p, m);
    }
    PathConcat(t, tail, head);
    assert PathFromTo(t, tail + head[1..], key, p[first]);
  }

  lemma FewerEdgesKeepAcyclic(t: Table, u: Table)
    requires Acyclic(t) && forall a, b | Edge(u, a, b) :: Edge(t, a, b)
    ensures Acyclic(u)
  {
    forall p | Path(u, p) && 1 < |p| ensures p[0] != p[|p| - 1] {
      forall i | 0 <= i < |p| - 1 ensures Hop(t, p, i) {
        assert Hop(u, p, i);
      }
    }
  }

  // ------------------------------------------------------------------ a sink

  predicate Idle(t: Table, k: Key) { forall b | b in t :: !Edge(t, k, b) }

  ghost predicate AllBusy(t: Table) { forall k | k in t :: !Idle(t, k) }

  /** A non-empty acyclic table has a flight waiting on no flight. */
  lemma SomeFlightIsIdle(t: Table)
    requires Acyclic(t) && t != map[]
    ensures exists k | k in t :: Idle(t, k)
  {
    hide Idle, AllBusy, Acyclic;
    if AllBusy(t) {
      BusyHasCycle(t);
    } else {
      NotAllBusy(t);
    }
  }

  lemma NotAllBusy(t: Table)
    requires !AllBusy(t)
    ensures exists k | k in t :: Idle(t, k)
  {
  }

  lemma BusyHasCycle(t: Table)
    requires t != map[] && AllBusy(t)
    ensures !Acyclic(t)
  {
    hide Idle, AllBusy, Path;
    var p := LongWalk(t, |t.Keys| + 1);
    var i, j := Repeats(p, t.Keys);
    PathSlice(t, p, i, j + 1);
    var c := p[i..j + 1];
    assert c[0] == c[|c| - 1];
  }

  lemma BusyMoves(t: Table, a: Key) returns (b: Key)
    requires AllBusy(t) && a in t
    ensures b in t && Edge(t, a, b)
  {
    b :| b in t && Edge(t, a, b);
  }

  lemma PathPush(t: Table, p: seq<Key>, b: Key)
    requires Path(t, p) && Edge(t, p[|p| - 1], b)
    ensures Path(t, p + [b])
  {
    forall i | 0 <= i < |p| ensures Hop(t, p + [b], i) {
      if i < |p| - 1 { assert Hop(t, p, i); }
    }
  }

  lemma {:induction false} LongWalk(t: Table, n: nat) returns (p: seq<Key>)
    requires t != map[] && 0 < n && AllBusy(t)
    ensures |p| == n && Path(t, p) && forall k | k in p :: k in t
  {
    hide AllBusy;
    if n == 1 {
      var k :| k in t;
      p := [k];
    } else {
      hide Path, Edge;
      var q := LongWalk(t, n - 1);
      assert q[|q| - 1] in q;
      var b := BusyMoves(t, q[|q| - 1]);
      PathPush(t, q, b);
      p := q + [b];
    }
  }

  /** The pigeonhole principle. */
  lemma {:induction false} Repeats(p: seq<Key>, s: set<Key>) returns (i: nat, j: nat)
    requires |p| > |s| && forall k | k in p :: k in s
    ensures i < j < |p| && p[i] == p[j]
    decreases |s|
  {
    var last := |p| - 1;
    assert p[last] in s;
    if k :| 0 <= k < last && p[k] == p[last] {
      return k, last;
    }
    var q := p[..last];
    forall k | k in q ensures k in s - {p[last]} {
      var m :| 0 <= m < |q| && q[m] == k;
      assert p[m] == k && k in p;
    }
    i, j := Repeats(q, s - {p[last]});
  }

  // ------------------------------------------------------------- the search

  /** The keys of a hash map, in whatever order it yields them. */
  method KeysOf(waits: map<Key, nat>) returns (ks: seq<Key>)
    ensures forall k :: k in ks <==> k in waits
    ensures |ks| == |waits|
  {
    ks := [];
    var todo := waits.Keys;
    while todo != {}
      invariant todo <= waits.Keys
      invariant forall k :: k in ks <==> k in waits && k !in todo
      invariant |ks| + |todo| == |waits|
      decreases |todo|
    {
      var k :| k in todo;
      ks, todo := ks + [k], todo - {k};
    }
  }

  ghost function Universe(t: Table, key: Key): set<Key> {
    {key} + (set a, b | a in t && b in t[a].waits :: b)
  }

  /** Depth-first over the wait edges: true exactly when some key of `chain` is
      reachable from `key`. */
  method WaitsFor(t: Table, key: Key, chain: seq<Link>) returns (r: bool)
    ensures r <==> WouldDeadlock(t, key, chain)
  {
    var stack := [key];
    var seen: seq<Key> := [];
    ghost var done: set<Key> := {};
    ReachesSelf(t, key);
    while stack != []
      invariant forall k :: k in seen <==> k in done
      invariant done <= Universe(t, key) && forall k | k in stack :: k in Universe(t, key)
      invariant key in done || key in stack
      invariant forall k | k in stack || k in done :: Reaches(t, key, k)
      invariant forall k | k in done :: !Named(chain, k)
      invariant forall x, y | x in done && Edge(t, x, y) :: y in done || y in stack
      decreases Universe(t, key) - done, |stack|
    {
      var k := stack[|stack| - 1];
      ghost var before := stack;
      stack := stack[..|stack| - 1];
      assert before == stack + [k];
      if Named(chain, k) {
        return true;
      }
      if k in seen {
        continue;
      }
      seen, done := seen + [k], done + {k};
      if k in t {
        var next := KeysOf(t[k].waits);
        forall y | y in next ensures Reaches(t, key, y) {
          ReachesStep(t, key, k, y);
        }
        stack := stack + next;
      }
    }
    forall k | Reaches(t, key, k) ensures k in done {
      ClosedHoldsReachable(t, done, key, k);
    }
    return false;
  }
}
