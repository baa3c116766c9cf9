/** When a selection is in document order: exactly, for every path. A way to a node
    lists the nodes passed on the way there, from the one the path starts at; a
    selection is in the order of the first ways to its nodes. */
module XmlWays {
  import opened Recency
  import opened XmlTree
  import opened XmlWalk
  import opened XmlPath
  import opened XmlSelect
  import opened XmlOrder

  // --------------------------------------------------------------------- ways

  /** `w` goes from `idx` to `x`, one node for each step. */
  ghost predicate WayTo(nodes: seq<Elem>, idx: nat, steps: seq<Step>, w: seq<nat>, x: nat) {
    && |w| == |steps| + 1 && w[0] == idx && w[|steps|] == x
    && forall i | 0 <= i < |steps| :: Reaches(nodes, w[i], steps[i], w[i + 1])
  }

  /** Where the two first differ, `a` has the node that is earlier in the document. */
  predicate Earlier(a: seq<nat>, b: seq<nat>) {
    a != [] && b != [] && (a[0] < b[0] || (a[0] == b[0] && Earlier(a[1..], b[1..])))
  }

  /** Every way to `y` has an earlier way to `x`. */
  ghost predicate Leads(nodes: seq<Elem>, idx: nat, steps: seq<Step>, x: nat, y: nat) {
    forall v | WayTo(nodes, idx, steps, v, y) :: exists u :: WayTo(nodes, idx, steps, u, x) && Earlier(u, v)
  }

  lemma {:induction false} EarlierIsTransitive(a: seq<nat>, b: seq<nat>, c: seq<nat>)
    requires Earlier(a, b) && Earlier(b, c)
    ensures Earlier(a, c)
  {
    if a[0] == b[0] == c[0] { EarlierIsTransitive(a[1..], b[1..], c[1..]); }
  }

  lemma {:induction false} EarlierWithMore(a: seq<nat>, b: seq<nat>, x: nat, y: nat)
    requires Earlier(a, b) || (a == b && x < y)
    ensures Earlier(a + [x], b + [y])
    decreases |a|
  {
    if a == [] {
      assert b == [];
    } else {
      assert (a + [x])[1..] == a[1..] + [x] && (b + [y])[1..] == b[1..] + [y];
      if a[0] == b[0] { EarlierWithMore(a[1..], b[1..], x, y); }
    }
  }

  /** The first part of a way is a way. */
  lemma WayBack(nodes: seq<Elem>, idx: nat, most: seq<Step>, s: Step, w: seq<nat>, x: nat)
    requires WayTo(nodes, idx, most + [s], w, x)
    ensures |w| == |most| + 2 && w == w[..|most| + 1] + [x] && WayTo(nodes, idx, most, w[..|most| + 1], w[|most|])
    ensures Reaches(nodes, w[|most|], s, x)
  {
    hide Reaches;
    var steps := most + [s];
    forall i | 0 <= i < |most| ensures Reaches(nodes, w[i], most[i], w[i + 1]) { assert steps[i] == most[i]; }
    assert steps[|most|] == s;
  }

  lemma WayOn(nodes: seq<Elem>, idx: nat, most: seq<Step>, s: Step, w: seq<nat>, f: nat, x: nat)
    requires WayTo(nodes, idx, most, w, f) && Reaches(nodes, f, s, x)
    ensures WayTo(nodes, idx, most + [s], w + [x], x)
  {
    hide Reaches;
  }

  lemma WayAhead(nodes: seq<Elem>, idx: nat, steps: seq<Step>, w: seq<nat>, x: nat)
    requires steps != [] && WayTo(nodes, idx, steps, w, x)
    ensures w == [idx] + w[1..] && WayTo(nodes, w[1], steps[1..], w[1..], x) && Reaches(nodes, idx, steps[0], w[1])
  {
    hide Reaches;
  }

  lemma WayFrom(nodes: seq<Elem>, idx: nat, steps: seq<Step>, m: nat, w: seq<nat>, x: nat)
    requires steps != [] && Reaches(nodes, idx, steps[0], m) && WayTo(nodes, m, steps[1..], w, x)
    ensures WayTo(nodes, idx, steps, [idx] + w, x)
  {
    hide Reaches;
    forall i | 0 <= i < |steps| ensures Reaches(nodes, ([idx] + w)[i], steps[i], ([idx] + w)[i + 1]) {
      if i > 0 { assert Reaches(nodes, w[i - 1], steps[1..][i - 1], w[i]); }
    }
  }

  /** The steps denote what there is a way to. */
  lemma {:induction false} DenotedIffWay(nodes: seq<Elem>, idx: nat, steps: seq<Step>, x: nat)
    ensures Denotes(nodes, idx, steps, x) <==> exists w :: WayTo(nodes, idx, steps, w, x)
    decreases |steps|
  {
    hide Reaches;
    if steps == [] {
      if x == idx { assert WayTo(nodes, idx, steps, [idx], x); }
    } else {
      if Denotes(nodes, idx, steps, x) {
        var m: nat :| Reaches(nodes, idx, steps[0], m) && Denotes(nodes, m, steps[1..], x);
        DenotedIffWay(nodes, m, steps[1..], x);
        var w :| WayTo(nodes, m, steps[1..], w, x);
        WayFrom(nodes, idx, steps, m, w, x);
      }
      if w :| WayTo(nodes, idx, steps, w, x) {
        WayAhead(nodes, idx, steps, w, x);
        DenotedIffWay(nodes, w[1], steps[1..], x);
      }
    }
  }

  /** A next node as early as any that leads to `x`. */
  lemma {:induction false} FirstNext(nodes: seq<Elem>, idx: nat, steps: seq<Step>, x: nat, m: nat) returns (first: nat)
    requires steps != [] && Reaches(nodes, idx, steps[0], m) && Denotes(nodes, m, steps[1..], x)
    ensures Reaches(nodes, idx, steps[0], first) && Denotes(nodes, first, steps[1..], x)
    ensures forall n: nat | Reaches(nodes, idx, steps[0], n) && Denotes(nodes, n, steps[1..], x) :: first <= n
    decreases m
  {
    hide Reaches, Denotes;
    if n: nat :| n < m && Reaches(nodes, idx, steps[0], n) && Denotes(nodes, n, steps[1..], x) {
      first := FirstNext(nodes, idx, steps, x, n);
    } else {
      first := m;
    }
  }

  /** Of the ways to a node, one is the first. */
  lemma {:induction false} FirstWay(nodes: seq<Elem>, idx: nat, steps: seq<Step>, x: nat) returns (w: seq<nat>)
    requires Denotes(nodes, idx, steps, x)
    ensures WayTo(nodes, idx, steps, w, x)
    ensures forall v | WayTo(nodes, idx, steps, v, x) :: !Earlier(v, w)
    decreases |steps|
  {
    hide Reaches;
    if steps == [] {
      w := [idx];
    } else {
      var m: nat :| Reaches(nodes, idx, steps[0], m) && Denotes(nodes, m, steps[1..], x);
      var first := FirstNext(nodes, idx, steps, x, m);
      var rest := FirstWay(nodes, first, steps[1..], x);
      WayFrom(nodes, idx, steps, first, rest, x);
      w := [idx] + rest;
      assert w[1..] == rest;
      hide Denotes;
      forall v | WayTo(nodes, idx, steps, v, x) ensures !Earlier(v, w) {
        WayAhead(nodes, idx, steps, v, x);
        DenotedIffWay(nodes, v[1], steps[1..], x);
        assert Earlier(v, w) <==> Earlier(v[1..], rest);
      }
    }
  }

  lemma EarlierWay(nodes: seq<Elem>, idx: nat, steps: seq<Step>, x: nat, y: nat, v: seq<nat>) returns (u: seq<nat>)
    requires Leads(nodes, idx, steps, x, y) && WayTo(nodes, idx, steps, v, y)
    ensures WayTo(nodes, idx, steps, u, x) && Earlier(u, v)
  {
    hide WayTo, Earlier;
    u :| WayTo(nodes, idx, steps, u, x) && Earlier(u, v);
  }

  lemma NotBothLead(nodes: seq<Elem>, idx: nat, steps: seq<Step>, x: nat, y: nat)
    requires Denotes(nodes, idx, steps, x)
    ensures !(Leads(nodes, idx, steps, x, y) && Leads(nodes, idx, steps, y, x))
  {
    hide Denotes, WayTo, Earlier, Leads;
    if Leads(nodes, idx, steps, x, y) && Leads(nodes, idx, steps, y, x) {
      var u := FirstWay(nodes, idx, steps, x);
      var v := EarlierWay(nodes, idx, steps, y, x, u);
      var w := EarlierWay(nodes, idx, steps, x, y, v);
      EarlierIsTransitive(w, v, u);
    }
  }

  // ---------------------------------------------------- the order of one step

  predicate Before(l: seq<nat>, x: nat, y: nat) { exists i, j :: 0 <= i < j < |l| && l[i] == x && l[j] == y }

  /** What is kept first was a candidate first. */
  lemma {:induction false} KeptFirst(nodes: seq<Elem>, name: string, cands: seq<nat>, x: nat, y: nat)
    returns (p: nat)
    requires Before(Kept(nodes, name, cands), x, y)
    ensures p < |cands| && cands[p] == x && y !in cands[..p]
    decreases |cands|
  {
    var n := |cands| - 1;
    var most, last := cands[..n], cands[n];
    var kept := Kept(nodes, name, most);
    hide Named;
    if Before(kept, x, y) {
      p := KeptFirst(nodes, name, most, x, y);
      assert cands[..p] == most[..p];
    } else {
      assert Kept(nodes, name, cands) == kept + [last];
      var i, j :| 0 <= i < j < |kept + [last]| && (kept + [last])[i] == x && (kept + [last])[j] == y;
      assert x in kept;
      p :| 0 <= p < n && most[p] == x;
      assert y in cands[..p] ==> y in most;
    }
  }

  lemma OneFromRises(nodes: seq<Elem>, end: seq<nat>, f: nat, s: Step)
    requires Laid(nodes, end) && |nodes| == |end| && f < |nodes|
    ensures Rising(OneFrom(nodes, end, f, s))
  {
    if s.descendant {
      OneRun(nodes, end, f, s);
    } else {
      ChildrenApart(nodes, end, f);
      ApartAscends(nodes, end, Children(nodes[f].kids));
    }
  }

  /** The node at `i` brings `x`, no node before it brings `y`, and where it brings
      both `x` is the earlier in the document. */
  ghost predicate BroughtFirst(nodes: seq<Elem>, end: seq<nat>, current: seq<nat>, s: Step, x: nat, y: nat, i: nat)
    requires |nodes| == |end| && Within(current, |nodes|)
  {
    && i < |current| && x in OneFrom(nodes, end, current[i], s)
    && (y in OneFrom(nodes, end, current[i], s) ==> x < y)
    && forall j | 0 <= j < i :: y !in OneFrom(nodes, end, current[j], s)
  }

  lemma {:induction false} CandidateFirst(nodes: seq<Elem>, end: seq<nat>, current: seq<nat>, s: Step,
                                          x: nat, y: nat, p: nat)
    returns (i: nat)
    requires Laid(nodes, end) && |nodes| == |end| && Within(current, |nodes|) && x != y
    requires
      var cands := Candidates(nodes, end, current, s);
      p < |cands| && cands[p] == x && y !in cands[..p]
    ensures BroughtFirst(nodes, end, current, s, x, y, i)
    decreases |current|
  {
    hide Laid, OneFrom, Rising;
    var n := |current| - 1;
    var most, last := current[..n], current[n];
    var before, here := Candidates(nodes, end, most, s), OneFrom(nodes, end, last, s);
    if p < |before| {
      assert before[..p] == (before + here)[..p];
      i := CandidateFirst(nodes, end, most, s, x, y, p);
    } else {
      i := n;
      assert (before + here)[..p] == before + here[..p - |before|];
      hide Candidates;
      forall j | 0 <= j < n ensures y !in OneFrom(nodes, end, current[j], s) {
        CandidatesAre(nodes, end, most, s, y);
        assert current[j] == most[j] && most[j] in most;
      }
      OneFromRises(nodes, end, last, s);
      LaterRises(here, p - |before|, y);
    }
  }

  lemma LaterRises(l: seq<nat>, p: nat, y: nat)
    requires Rising(l) && p < |l| && y != l[p] && y !in l[..p]
    ensures y in l ==> l[p] < y
  {
    forall q | 0 <= q < p ensures l[q] != y { assert l[..p][q] == l[q]; }
  }

  /** Where a step puts `x` before `y`, it came to `x` from a node that stands before
      every node it could come to `y` from, or is that node. */
  lemma SteppedFirst(nodes: seq<Elem>, end: seq<nat>, current: seq<nat>, s: Step, x: nat, y: nat) returns (f: nat)
    requires Laid(nodes, end) && |nodes| == |end| && Within(current, |nodes|) && x != y
    requires Before(Stepped(nodes, end, current, s), x, y)
    ensures f in current && Reaches(nodes, f, s, x)
    ensures forall g | g in current && Reaches(nodes, g, s, y) :: if f == g then x < y else Before(current, f, g)
  {
    var p := KeptFirst(nodes, s.name, Candidates(nodes, end, current, s), x, y);
    var i := CandidateFirst(nodes, end, current, s, x, y, p);
    f := current[i];
    BothNamed(nodes, end, current, s, x, y);
    hide Laid, OneFrom, Reaches, Candidates, Kept, Named;
    OneFromReaches(nodes, end, f, s, x);
    forall g | g in current && Reaches(nodes, g, s, y) ensures if f == g then x < y else Before(current, f, g) {
      var j :| 0 <= j < |current| && current[j] == g;
      OneFromReaches(nodes, end, g, s, y);
    }
  }

  lemma BothNamed(nodes: seq<Elem>, end: seq<nat>, current: seq<nat>, s: Step, x: nat, y: nat)
    requires |nodes| == |end| && Within(current, |nodes|) && Before(Stepped(nodes, end, current, s), x, y)
    ensures Named(nodes, x, s.name) && Named(nodes, y, s.name)
  {
    hide Named, Candidates, Within;
    var kept := Kept(nodes, s.name, Candidates(nodes, end, current, s));
    assert x in kept && y in kept;
  }

  // ------------------------------------------------------- the order of a path

  /** The step `s` comes to `x` from `f`, which leads every node it could come to `y`
      from, or is that node. */
  ghost predicate ComesFirst(nodes: seq<Elem>, idx: nat, most: seq<Step>, s: Step, f: nat, x: nat, y: nat) {
    && Reaches(nodes, f, s, x)
    && forall g | Denotes(nodes, idx, most, g) && Reaches(nodes, g, s, y) ::
         if f == g then x < y else Leads(nodes, idx, most, f, g)
  }

  lemma LeadsOn(nodes: seq<Elem>, idx: nat, most: seq<Step>, s: Step, f: nat, x: nat, y: nat)
    requires ComesFirst(nodes, idx, most, s, f, x, y)
    ensures Leads(nodes, idx, most + [s], x, y)
  {
    hide Reaches, Denotes, Earlier, WayTo;
    forall v | WayTo(nodes, idx, most + [s], v, y)
      ensures exists u :: WayTo(nodes, idx, most + [s], u, x) && Earlier(u, v)
    {
      WayBack(nodes, idx, most, s, v, y);
      var back, g := v[..|most| + 1], v[|most|];
      DenotedIffWay(nodes, idx, most, g);
      var u := back;
      if f != g { u :| WayTo(nodes, idx, most, u, f) && Earlier(u, back); }
      WayOn(nodes, idx, most, s, u, f, x);
      EarlierWithMore(u, back, x, y);
    }
  }

  lemma LastStep(nodes: seq<Elem>, end: seq<nat>, from: seq<nat>, most: seq<Step>, s: Step)
    requires |nodes| == |end| && Within(from, |nodes|)
    ensures
      var current := Selected(nodes, end, from, most);
      Within(current, |nodes|) && Selected(nodes, end, from, most + [s]) == Stepped(nodes, end, current, s)
  {
    hide *;
    SelectedInTwo(nodes, end, from, most, [s]);
    OneStep(nodes, end, Selected(nodes, end, from, most), s);
  }

  lemma FirstLeads(nodes: seq<Elem>, end: seq<nat>, idx: nat, most: seq<Step>, s: Step, f: nat, x: nat, y: nat)
    requires Laid(nodes, end) && |nodes| == |end| && idx < |nodes| && Within([idx], |nodes|)
    requires Reaches(nodes, f, s, x)
    requires
      var current := Selected(nodes, end, [idx], most);
      && (forall g | g in current && Reaches(nodes, g, s, y) :: if f == g then x < y else Before(current, f, g))
      && (forall g | g in current && g != f && Before(current, f, g) :: Leads(nodes, idx, most, f, g))
    ensures ComesFirst(nodes, idx, most, s, f, x, y)
  {
    hide Laid, Denotes, Reaches, Selected, Before, Leads, Within;
    SelectedFromMeans(nodes, end, idx, most);
  }

  lemma {:induction false} BeforeLeads(nodes: seq<Elem>, end: seq<nat>, idx: nat, steps: seq<Step>, x: nat, y: nat)
    requires Laid(nodes, end) && |nodes| == |end| && idx < |nodes| && x != y && Within([idx], |nodes|)
    requires Before(Selected(nodes, end, [idx], steps), x, y)
    ensures Leads(nodes, idx, steps, x, y)
    decreases |steps|
  {
    if steps != [] {
      var n := |steps| - 1;
      var most, s := steps[..n], steps[n];
      assert steps == most + [s];
      hide *;
      var current := Selected(nodes, end, [idx], most);
      LastStep(nodes, end, [idx], most, s);
      var f := SteppedFirst(nodes, end, current, s, x, y);
      forall g | g in current && g != f && Before(current, f, g) ensures Leads(nodes, idx, most, f, g) {
        BeforeLeads(nodes, end, idx, most, f, g);
      }
      FirstLeads(nodes, end, idx, most, s, f, x, y);
      LeadsOn(nodes, idx, most, s, f, x, y);
    }
  }

  lemma BeforeIsTotal(l: seq<nat>, x: nat, y: nat)
    requires x in l && y in l && x != y
    ensures Before(l, x, y) || Before(l, y, x)
  {
    var i :| 0 <= i < |l| && l[i] == x;
    var j :| 0 <= j < |l| && l[j] == y;
  }

  /** Of two selected nodes, the one listed first is the one with an earlier way for
      each of the other's. */
  lemma SelectionOrder(nodes: seq<Elem>, end: seq<nat>, idx: nat, steps: seq<Step>, x: nat, y: nat)
    requires Laid(nodes, end) && |nodes| == |end| && idx < |nodes| && Within([idx], |nodes|) && x != y
    requires Denotes(nodes, idx, steps, x) && Denotes(nodes, idx, steps, y)
    ensures Before(Selected(nodes, end, [idx], steps), x, y) <==> Leads(nodes, idx, steps, x, y)
  {
    hide Laid, Selected, Denotes, Before, Leads;
    var l := Selected(nodes, end, [idx], steps);
    SelectedIffDenoted(nodes, end, idx, steps, x);
    SelectedIffDenoted(nodes, end, idx, steps, y);
    BeforeIsTotal(l, x, y);
    NotBothLead(nodes, idx, steps, x, y);
    if Before(l, x, y) { BeforeLeads(nodes, end, idx, steps, x, y); }
    if Before(l, y, x) { BeforeLeads(nodes, end, idx, steps, y, x); }
  }

  /** For every path: the selection is in document order if and only if, of any two
      nodes the path denotes, the earlier in the document has for each way to the
      later one an earlier way to itself. */
  lemma OrderIsExact(nodes: seq<Elem>, end: seq<nat>, idx: nat, steps: seq<Step>)
    requires Laid(nodes, end) && |nodes| == |end| && idx < |nodes|
    ensures Within([idx], |nodes|)
    ensures Rising(Selected(nodes, end, [idx], steps)) <==>
      forall x, y | x < y && Denotes(nodes, idx, steps, x) && Denotes(nodes, idx, steps, y) ::
        Leads(nodes, idx, steps, x, y)
  {
    hide Laid, Selected, Denotes, Before, Leads, Rising;
    var l := Selected(nodes, end, [idx], steps);
    SelectionIsDistinct(nodes, end, [idx], steps);
    RisingIsBefore(l);
    SelectedFromMeans(nodes, end, idx, steps);
    forall x: nat, y: nat | x < y && Denotes(nodes, idx, steps, x) && Denotes(nodes, idx, steps, y)
      ensures Before(l, x, y) <==> Leads(nodes, idx, steps, x, y)
    {
      SelectionOrder(nodes, end, idx, steps, x, y);
    }
  }

  lemma RisingIsBefore(l: seq<nat>)
    requires Distinct(l)
    ensures Rising(l) <==> forall x, y | x < y && x in l && y in l :: Before(l, x, y)
  {
    if Rising(l) {
      forall x, y | x < y && x in l && y in l ensures Before(l, x, y) {
        BeforeIsTotal(l, x, y);
      }
    }
    if forall x, y | x < y && x in l && y in l :: Before(l, x, y) {
      forall i, j | 0 <= i < j < |l| ensures l[i] < l[j] {
        assert l[i] in l && l[j] in l;
        if l[j] < l[i] {
          var p, q :| 0 <= p < q < |l| && l[p] == l[j] && l[q] == l[i];
        }
      }
    }
  }
}
