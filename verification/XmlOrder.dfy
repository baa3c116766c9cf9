/** When a selection is in document order: exactly, for paths that end in any run of
    child steps. */
module XmlOrder {
  import opened Prelude
  import opened Recency
  import opened XmlTree
  import opened XmlWalk
  import opened XmlPath
  import opened XmlSelect

  predicate AllChild(steps: seq<Step>) { forall i | 0 <= i < |steps| :: !steps[i].descendant }

  // ------------------------------ child steps treat each starting node apart

  lemma {:induction false} CandidatesJoin(nodes: seq<Elem>, end: seq<nat>, a: seq<nat>, b: seq<nat>, s: Step)
    requires |nodes| == |end| && Within(a, |nodes|) && Within(b, |nodes|) && Within(a + b, |nodes|)
    ensures Candidates(nodes, end, a + b, s) == Candidates(nodes, end, a, s) + Candidates(nodes, end, b, s)
    decreases |b|
  {
    hide *;
    if b == [] {
      assert a + b == a;
      GatherNone(nodes, end, s);
    } else {
      var most, last := b[..|b| - 1], b[|b| - 1];
      assert b == most + [last] && a + b == (a + most) + [last];
      WithinParts(a, most, last, |nodes|);
      CandidatesJoin(nodes, end, a, most, s);
      CandidatesPush(nodes, end, most, last, s);
      CandidatesPush(nodes, end, a + most, last, s);
    }
  }

  lemma WithinParts(a: seq<nat>, most: seq<nat>, last: nat, n: nat)
    requires Within(a, n) && Within(most + [last], n)
    ensures Within(most, n) && Within(a + most, n) && last < n
  {
    assert (most + [last])[|most|] == last;
    forall i | 0 <= i < |most| ensures most[i] < n { assert (most + [last])[i] == most[i]; }
  }

  lemma CandidatesPush(nodes: seq<Elem>, end: seq<nat>, most: seq<nat>, last: nat, s: Step)
    requires |nodes| == |end| && Within(most, |nodes|) && Within(most + [last], |nodes|) && last < |nodes|
    ensures Candidates(nodes, end, most + [last], s) == Candidates(nodes, end, most, s) + OneFrom(nodes, end, last, s)
  {
    assert (most + [last])[..|most|] == most;
    hide OneFrom;
  }

  lemma {:induction false} KeptJoin(nodes: seq<Elem>, name: string, a: seq<nat>, b: seq<nat>)
    requires forall x | x in b :: x !in a
    ensures Kept(nodes, name, a + b) == Kept(nodes, name, a) + Kept(nodes, name, b)
    decreases |b|
  {
    if b == [] {
      assert a + b == a;
    } else {
      var most, last := b[..|b| - 1], b[|b| - 1];
      assert (a + b)[..|a + b| - 1] == a + most && (a + b)[|a + b| - 1] == last;
      KeptJoin(nodes, name, a, most);
      hide Named;
    }
  }

  /** A child step's candidates are children of the nodes it starts from. */
  lemma ParentOfCandidate(nodes: seq<Elem>, end: seq<nat>, current: seq<nat>, s: Step, x: nat)
    requires Laid(nodes, end) && |nodes| == |end| && Within(current, |nodes|) && !s.descendant
    requires x in Candidates(nodes, end, current, s)
    ensures x < |nodes| && nodes[x].parent.Some? && nodes[x].parent.value in current
  {
    CandidatesAre(nodes, end, current, s, x);
    hide Candidates, Laid, Children;
    var f: nat :| f in current && f < |nodes| && x in OneFrom(nodes, end, f, s);
    ChildrenAre(nodes, end, f, x);
  }

  lemma ApartCandidates(nodes: seq<Elem>, end: seq<nat>, a: seq<nat>, b: seq<nat>, s: Step, x: nat)
    requires Laid(nodes, end) && |nodes| == |end| && Within(a, |nodes|) && Within(b, |nodes|)
    requires Distinct(a + b) && !s.descendant
    ensures x in Candidates(nodes, end, b, s) ==> x !in Candidates(nodes, end, a, s)
  {
    hide *;
    if x in Candidates(nodes, end, b, s) && x in Candidates(nodes, end, a, s) {
      ParentOfCandidate(nodes, end, a, s, x);
      ParentOfCandidate(nodes, end, b, s, x);
      DifferApart(a, b, nodes[x].parent.value, nodes[x].parent.value);
    }
  }

  lemma DifferApart(a: seq<nat>, b: seq<nat>, f: nat, g: nat)
    requires Distinct(a + b) && f in a && g in b
    ensures f != g
  {
    var i :| 0 <= i < |a| && a[i] == f;
    var j :| 0 <= j < |b| && b[j] == g;
    assert (a + b)[i] == f && (a + b)[|a| + j] == g;
  }

  lemma SteppedJoin(nodes: seq<Elem>, end: seq<nat>, a: seq<nat>, b: seq<nat>, s: Step)
    requires Laid(nodes, end) && Within(a, |nodes|) && Within(b, |nodes|) && Within(a + b, |nodes|)
    requires Distinct(a + b) && !s.descendant
    ensures Stepped(nodes, end, a + b, s) == Stepped(nodes, end, a, s) + Stepped(nodes, end, b, s)
  {
    CandidatesJoin(nodes, end, a, b, s);
    var before, here := Candidates(nodes, end, a, s), Candidates(nodes, end, b, s);
    hide Candidates, Laid;
    forall x | x in here ensures x !in before { ApartCandidates(nodes, end, a, b, s, x); }
    KeptJoin(nodes, s.name, before, here);
  }

  /** From two disjoint lists, child steps select the one selection after the other. */
  lemma {:induction false} SelectedJoin(nodes: seq<Elem>, end: seq<nat>, a: seq<nat>, b: seq<nat>, cs: seq<Step>)
    requires Laid(nodes, end) && Within(a, |nodes|) && Within(b, |nodes|) && Within(a + b, |nodes|)
    requires Distinct(a + b) && AllChild(cs)
    ensures Selected(nodes, end, a + b, cs) == Selected(nodes, end, a, cs) + Selected(nodes, end, b, cs)
    decreases |cs|
  {
    if cs != [] {
      SteppedJoin(nodes, end, a, b, cs[0]);
      hide Stepped, Laid;
      SelectedJoin(nodes, end, Stepped(nodes, end, a, cs[0]), Stepped(nodes, end, b, cs[0]), cs[1..]);
    }
  }

  lemma {:induction false} SelectedInTwo(nodes: seq<Elem>, end: seq<nat>, current: seq<nat>, a: seq<Step>, b: seq<Step>)
    requires |nodes| == |end| && Within(current, |nodes|)
    ensures Within(Selected(nodes, end, current, a), |nodes|)
    ensures Selected(nodes, end, current, a + b) == Selected(nodes, end, Selected(nodes, end, current, a), b)
    decreases |a|
  {
    hide Stepped;
    if a == [] {
      assert a + b == b;
    } else {
      assert (a + b)[0] == a[0] && (a + b)[1..] == a[1..] + b;
      SelectedInTwo(nodes, end, Stepped(nodes, end, current, a[0]), a[1..], b);
    }
  }

  // ------------------------------------------- the condition, node by node

  /** What child steps denote from an earlier node comes before what they denote from
      a later one. */
  ghost predicate InTurn(nodes: seq<Elem>, current: seq<nat>, cs: seq<Step>) {
    forall f, g, y, x | f in current && g in current && f < g && Denotes(nodes, f, cs, y) && Denotes(nodes, g, cs, x) ::
      y < x
  }

  lemma RisingMore(most: seq<nat>, last: nat)
    requires Rising(most + [last])
    ensures Rising(most) && Distinct(most + [last]) && forall f | f in most :: f < last
  {
    var l := most + [last];
    assert l[|most|] == last;
    forall i, j | 0 <= i < j < |most| ensures most[i] < most[j] { assert l[i] < l[j]; }
    forall i | 0 <= i < |most| ensures most[i] < last { assert l[i] < l[|most|]; }
  }

  lemma RisingJoin(a: seq<nat>, b: seq<nat>)
    requires Rising(b)
    ensures Rising(a + b) <==> Rising(a) && forall y, x | y in a && x in b :: y < x
  {
    var l := a + b;
    if Rising(l) {
      forall i, j | 0 <= i < j < |a| ensures a[i] < a[j] { assert l[i] < l[j]; }
      forall y, x | y in a && x in b ensures y < x {
        var p :| 0 <= p < |a| && a[p] == y;
        var q :| 0 <= q < |b| && b[q] == x;
        assert l[p] < l[|a| + q];
      }
    }
    if Rising(a) && forall y, x | y in a && x in b :: y < x {
      forall i, j | 0 <= i < j < |l| ensures l[i] < l[j] {
        if i < |a| <= j { assert a[i] in a && b[j - |a|] in b; }
      }
    }
  }

  /** From nodes in document order, child steps select in order iff each node's turn
      ends before the next one's begins. */
  lemma {:induction false} OrderIsTurns(nodes: seq<Elem>, end: seq<nat>, current: seq<nat>, cs: seq<Step>)
    requires Laid(nodes, end) && |nodes| == |end| && Within(current, |nodes|) && Rising(current) && AllChild(cs)
    ensures Rising(Selected(nodes, end, current, cs)) <==> InTurn(nodes, current, cs)
    decreases |current|
  {
    if current == [] {
      SelectedLast(nodes, end, current, cs);
    } else {
      var most, last := current[..|current| - 1], current[|current| - 1];
      assert current == most + [last];
      RisingMore(most, last);
      assert Within(most, |nodes|) && Within([last], |nodes|) && last < |nodes|;
      assert NoChildAfterDescendant(cs) && Apart(end, [last]);
      hide *;
      OrderIsTurns(nodes, end, most, cs);
      SelectedJoin(nodes, end, most, [last], cs);
      DocumentOrder(nodes, end, [last], cs);
      RisingJoin(Selected(nodes, end, most, cs), Selected(nodes, end, [last], cs));
      TurnsMore(nodes, end, most, last, cs);
    }
  }

  lemma SelectedIffDenoted(nodes: seq<Elem>, end: seq<nat>, idx: nat, steps: seq<Step>, x: nat)
    requires Laid(nodes, end) && |nodes| == |end| && idx < |nodes| && Within([idx], |nodes|)
    ensures x in Selected(nodes, end, [idx], steps) <==> Denotes(nodes, idx, steps, x)
  {
    hide *;
    SelectionIsExact(nodes, end, [idx], steps, x);
  }

  lemma SelectedMeans(nodes: seq<Elem>, end: seq<nat>, current: seq<nat>, steps: seq<Step>)
    requires Laid(nodes, end) && |nodes| == |end| && Within(current, |nodes|)
    ensures forall y: nat ::
      y in Selected(nodes, end, current, steps) <==> exists f :: f in current && Denotes(nodes, f, steps, y)
  {
    hide *;
    forall y: nat
      ensures y in Selected(nodes, end, current, steps) <==> exists f :: f in current && Denotes(nodes, f, steps, y)
    {
      SelectionIsExact(nodes, end, current, steps, y);
    }
  }

  lemma SelectedFromMeans(nodes: seq<Elem>, end: seq<nat>, idx: nat, steps: seq<Step>)
    requires Laid(nodes, end) && |nodes| == |end| && idx < |nodes| && Within([idx], |nodes|)
    ensures forall x: nat :: x in Selected(nodes, end, [idx], steps) <==> Denotes(nodes, idx, steps, x)
  {
    hide *;
    forall x: nat ensures x in Selected(nodes, end, [idx], steps) <==> Denotes(nodes, idx, steps, x) {
      SelectedIffDenoted(nodes, end, idx, steps, x);
    }
  }

  lemma TurnsMore(nodes: seq<Elem>, end: seq<nat>, most: seq<nat>, last: nat, cs: seq<Step>)
    requires Laid(nodes, end) && |nodes| == |end| && Within(most, |nodes|) && Within([last], |nodes|)
    requires last < |nodes| && forall f | f in most :: f < last
    ensures InTurn(nodes, most + [last], cs) <==>
      InTurn(nodes, most, cs)
      && forall y, x | y in Selected(nodes, end, most, cs) && x in Selected(nodes, end, [last], cs) :: y < x
  {
    var before, here := Selected(nodes, end, most, cs), Selected(nodes, end, [last], cs);
    hide *;
    SelectedMeans(nodes, end, most, cs);
    SelectedFromMeans(nodes, end, last, cs);
    TurnsOf(nodes, most, last, cs, before, here);
  }

  lemma TurnsOf(nodes: seq<Elem>, most: seq<nat>, last: nat, cs: seq<Step>, before: seq<nat>, here: seq<nat>)
    requires forall f | f in most :: f < last
    requires forall y: nat :: y in before <==> exists f :: f in most && Denotes(nodes, f, cs, y)
    requires forall x: nat :: x in here <==> Denotes(nodes, last, cs, x)
    ensures InTurn(nodes, most + [last], cs) <==>
      InTurn(nodes, most, cs) && forall y, x | y in before && x in here :: y < x
  {
    hide *;
    if InTurn(nodes, most + [last], cs) {
      TurnsFewer(nodes, most, last, cs);
      forall y, x | y in before && x in here ensures y < x {
        var f :| f in most && Denotes(nodes, f, cs, y);
        LaterTurn(nodes, most, last, cs, f, y, x);
      }
    }
    if InTurn(nodes, most, cs) && forall y, x | y in before && x in here :: y < x {
      LastInTurn(nodes, most, last, cs, before, here);
    }
  }

  lemma TurnsFewer(nodes: seq<Elem>, most: seq<nat>, last: nat, cs: seq<Step>)
    requires InTurn(nodes, most + [last], cs)
    ensures InTurn(nodes, most, cs)
  {
    hide Denotes;
    forall f | f in most ensures f in most + [last] { }
  }

  lemma LaterTurn(nodes: seq<Elem>, most: seq<nat>, last: nat, cs: seq<Step>, f: nat, y: nat, x: nat)
    requires InTurn(nodes, most + [last], cs) && f in most && f < last
    requires Denotes(nodes, f, cs, y) && Denotes(nodes, last, cs, x)
    ensures y < x
  {
    hide Denotes;
    assert f in most + [last] && last in most + [last];
  }

  lemma LastInTurn(nodes: seq<Elem>, most: seq<nat>, last: nat, cs: seq<Step>, before: seq<nat>, here: seq<nat>)
    requires InTurn(nodes, most, cs) && (forall f | f in most :: f < last)
    requires forall f, y | f in most && Denotes(nodes, f, cs, y) :: y in before
    requires forall x | Denotes(nodes, last, cs, x) :: x in here
    requires forall y, x | y in before && x in here :: y < x
    ensures InTurn(nodes, most + [last], cs)
  {
    hide Denotes;
    var l := most + [last];
    forall f, g, y, x | f in l && g in l && f < g && Denotes(nodes, f, cs, y) && Denotes(nodes, g, cs, x)
      ensures y < x
    {
      assert f in most && (g in most || g == last);
      if g !in most { assert y in before && x in here; }
    }
  }

  lemma {:induction false} DenotedUnder(nodes: seq<Elem>, end: seq<nat>, f: nat, cs: seq<Step>, y: nat)
    requires Laid(nodes, end) && f < |nodes| && AllChild(cs) && Denotes(nodes, f, cs, y)
    ensures y == f || Under(nodes, f, y)
    decreases |cs|
  {
    if cs != [] {
      var m: nat :| Reaches(nodes, f, cs[0], m) && Denotes(nodes, m, cs[1..], y);
      assert ParentAt(nodes, m);
      hide Laid, Denotes;
      DenotedUnder(nodes, end, m, cs[1..], y);
      assert Under(nodes, f, m);
      if y != m { UnderTransitive(nodes, f, m, y); }
    }
  }

  /** Turns can only overlap where one node is under the other. */
  lemma OverlapIsNested(nodes: seq<Elem>, end: seq<nat>, f: nat, g: nat, cs: seq<Step>, y: nat, x: nat)
    requires Laid(nodes, end) && |nodes| == |end| && f < |nodes| && g < |nodes| && AllChild(cs)
    requires Denotes(nodes, f, cs, y) && Denotes(nodes, g, cs, x) && x <= y
    ensures f < g <==> Under(nodes, f, g)
  {
    DenotedUnder(nodes, end, f, cs, y);
    DenotedUnder(nodes, end, g, cs, x);
    hide Laid, Denotes;
    UnderIsRun(nodes, end, f);
    UnderIsRun(nodes, end, g);
    NodeTiles(nodes, end, f);
    hide Under;
  }

  /** Of two nested nodes of the list, the inner one's turn begins before the outer
      one's ends. */
  ghost predicate Overlap(nodes: seq<Elem>, current: seq<nat>, cs: seq<Step>) {
    exists f, g, y, x ::
      && f in current && g in current && Under(nodes, f, g)
      && Denotes(nodes, f, cs, y) && Denotes(nodes, g, cs, x) && x <= y
  }

  lemma TurnsOrOverlap(nodes: seq<Elem>, end: seq<nat>, current: seq<nat>, cs: seq<Step>)
    requires Laid(nodes, end) && |nodes| == |end| && Within(current, |nodes|) && AllChild(cs)
    ensures InTurn(nodes, current, cs) <==> !Overlap(nodes, current, cs)
  {
    hide Laid, Denotes, Under;
    if f, g, y, x :| f in current && g in current && f < g && Denotes(nodes, f, cs, y) && Denotes(nodes, g, cs, x)
                     && x <= y {
      OverlapIsNested(nodes, end, f, g, cs, y, x);
      assert Overlap(nodes, current, cs);
    }
    if f, g, y, x :| f in current && g in current && Under(nodes, f, g)
                     && Denotes(nodes, f, cs, y) && Denotes(nodes, g, cs, x) && x <= y {
      OverlapIsNested(nodes, end, f, g, cs, y, x);
    }
  }

  /** Of two nested matches of `most`, an outer one and an inner one, the inner's node
      by the steps `cs` comes at or before the outer's. */
  ghost predicate InnerFirst(nodes: seq<Elem>, idx: nat, most: seq<Step>, cs: seq<Step>) {
    exists f, g, y, x ::
      && Denotes(nodes, idx, most, f) && Denotes(nodes, idx, most, g) && Under(nodes, f, g)
      && Denotes(nodes, f, cs, y) && Denotes(nodes, g, cs, x) && x <= y
  }

  /** For every path that ends in a run of child steps, with no child step after a
      descendant step before it: the selection is in document order if and only if no
      inner match of the part before has its node first. */
  lemma TrailingChildStepsOrder(nodes: seq<Elem>, end: seq<nat>, idx: nat, most: seq<Step>, cs: seq<Step>)
    requires Laid(nodes, end) && |nodes| == |end| && idx < |nodes| && NoChildAfterDescendant(most) && AllChild(cs)
    ensures Rising(Selected(nodes, end, [idx], most + cs)) <==> !InnerFirst(nodes, idx, most, cs)
  {
    hide *;
    var current := Matches(nodes, end, idx, most);
    SelectedInTwo(nodes, end, [idx], most, cs);
    OrderIsTurns(nodes, end, current, cs);
    TurnsOrOverlap(nodes, end, current, cs);
    OverlapIsInner(nodes, current, idx, most, cs);
  }

  lemma OverlapIsInner(nodes: seq<Elem>, current: seq<nat>, idx: nat, most: seq<Step>, cs: seq<Step>)
    requires forall f: nat :: f in current <==> Denotes(nodes, idx, most, f)
    ensures Overlap(nodes, current, cs) <==> InnerFirst(nodes, idx, most, cs)
  {
    hide Denotes, Under;
  }

  /** What the part before selects: the nodes it denotes, in document order. */
  lemma Matches(nodes: seq<Elem>, end: seq<nat>, idx: nat, most: seq<Step>) returns (current: seq<nat>)
    requires Laid(nodes, end) && |nodes| == |end| && idx < |nodes| && NoChildAfterDescendant(most)
    ensures Within([idx], |nodes|) && current == Selected(nodes, end, [idx], most)
    ensures Within(current, |nodes|) && Rising(current)
    ensures forall f: nat :: f in current <==> Denotes(nodes, idx, most, f)
  {
    current := Selected(nodes, end, [idx], most);
    DocumentOrder(nodes, end, [idx], most);
    SelectedInTwo(nodes, end, [idx], most, []);
    hide Laid, Denotes, Selected, Rising;
    SelectedFromMeans(nodes, end, idx, most);
  }

  lemma InList(l: seq<nat>, f: nat, n: nat)
    requires Within(l, n) && f in l
    ensures f < n
  {
  }

  // ------------------------------------------------------ a single child step

  /** An outer node has a wanted child after an inner one that has one too. */
  ghost predicate Overtakes(nodes: seq<Elem>, current: seq<nat>, s: Step) {
    exists f, g, y, x ::
      && f in current && g in current && Under(nodes, f, g)
      && Reaches(nodes, f, s, y) && Reaches(nodes, g, s, x) && g < y
  }

  /** From nodes in document order, a child step selects in document order exactly
      when no outer node overtakes an inner one. */
  lemma ChildStepOrder(nodes: seq<Elem>, end: seq<nat>, current: seq<nat>, s: Step)
    requires Laid(nodes, end) && |nodes| == |end| && Within(current, |nodes|) && Rising(current) && !s.descendant
    ensures Rising(Stepped(nodes, end, current, s)) <==> !Overtakes(nodes, current, s)
  {
    OneStep(nodes, end, current, s);
    hide Laid, Selected, Stepped, Rising, Within, Overlap, Overtakes, InTurn, AllChild, Kept, Candidates;
    assert AllChild([s]) by { OneChild(s); }
    OrderIsTurns(nodes, end, current, [s]);
    TurnsOrOverlap(nodes, end, current, [s]);
    OverlapIsOvertaking(nodes, end, current, s);
  }

  lemma OneChild(s: Step)
    requires !s.descendant
    ensures AllChild([s])
  {
  }

  lemma OverlapIsOvertaking(nodes: seq<Elem>, end: seq<nat>, current: seq<nat>, s: Step)
    requires Laid(nodes, end) && |nodes| == |end| && Within(current, |nodes|) && !s.descendant
    ensures Overlap(nodes, current, [s]) <==> Overtakes(nodes, current, s)
  {
    hide *;
    OneStep(nodes, end, current, s);
    forall f: nat, g: nat, y: nat, x: nat |
      f in current && g in current && Reaches(nodes, f, s, y) && Reaches(nodes, g, s, x)
      ensures Under(nodes, f, g) ==> (x <= y <==> g < y)
    {
      InList(current, f, |nodes|);
      InList(current, g, |nodes|);
      OvertakingIsLater(nodes, end, s, f, g, y, x);
    }
    SameOverlap(nodes, current, s);
  }

  lemma SameOverlap(nodes: seq<Elem>, current: seq<nat>, s: Step)
    requires forall f: nat, y: nat :: Denotes(nodes, f, [s], y) <==> Reaches(nodes, f, s, y)
    requires forall f: nat, g: nat, y: nat, x: nat |
               f in current && g in current && Reaches(nodes, f, s, y) && Reaches(nodes, g, s, x) ::
               Under(nodes, f, g) ==> (x <= y <==> g < y)
    ensures Overlap(nodes, current, [s]) <==> Overtakes(nodes, current, s)
  {
    hide Denotes, Reaches, Under;
  }

  lemma OneStep(nodes: seq<Elem>, end: seq<nat>, current: seq<nat>, s: Step)
    requires |nodes| == |end| && Within(current, |nodes|)
    ensures Selected(nodes, end, current, [s]) == Stepped(nodes, end, current, s)
    ensures forall f: nat, y: nat :: Denotes(nodes, f, [s], y) <==> Reaches(nodes, f, s, y)
  {
    assert [s][1..] == [];
    assert Selected(nodes, end, current, [s]) == Selected(nodes, end, Stepped(nodes, end, current, s), []);
    forall f: nat, y: nat ensures Denotes(nodes, f, [s], y) <==> Reaches(nodes, f, s, y) {
      OneStepDenotes(nodes, f, s, y);
    }
  }

  lemma OneStepDenotes(nodes: seq<Elem>, f: nat, s: Step, y: nat)
    ensures Denotes(nodes, f, [s], y) <==> Reaches(nodes, f, s, y)
  {
    assert [s][1..] == [];
    hide Reaches;
    assert Denotes(nodes, y, [], y);
    assert forall m: nat :: Denotes(nodes, m, [s][1..], y) <==> y == m;
    assert Denotes(nodes, f, [s], y) <==> exists m: nat :: Reaches(nodes, f, s, m) && Denotes(nodes, m, [s][1..], y);
  }

  lemma OvertakingIsLater(nodes: seq<Elem>, end: seq<nat>, s: Step, f: nat, g: nat, y: nat, x: nat)
    requires Laid(nodes, end) && f < |nodes| && g < |nodes| && !s.descendant
    requires Reaches(nodes, f, s, y) && Reaches(nodes, g, s, x)
    ensures Under(nodes, f, g) ==> (x <= y <==> g < y)
  {
    ChildrenAre(nodes, end, f, y);
    ChildrenAre(nodes, end, g, x);
    ChildrenApart(nodes, end, f);
    ChildrenApart(nodes, end, g);
    UnderIsRun(nodes, end, f);
    UnderIsRun(nodes, end, g);
    hide Laid, Children;
    if Under(nodes, g, y) { UnderIsLater(nodes, g, y); }
  }

  lemma {:induction false} UnderIsLater(nodes: seq<Elem>, a: nat, d: nat)
    requires Under(nodes, a, d)
    ensures a <= nodes[d].parent.value
    decreases d
  {
    var p := nodes[d].parent.value;
    if p != a { UnderIsLater(nodes, a, p); }
  }

  /** So for a last child step: order holds iff no outer match of the steps before has
      a wanted child after an inner match that has one too. */
  lemma LastChildStepOrder(nodes: seq<Elem>, end: seq<nat>, idx: nat, most: seq<Step>, last: Step)
    requires Laid(nodes, end) && |nodes| == |end| && idx < |nodes| && NoChildAfterDescendant(most) && !last.descendant
    ensures Rising(Selected(nodes, end, [idx], most + [last])) <==>
      !exists f, g, y, x ::
        && Denotes(nodes, idx, most, f) && Denotes(nodes, idx, most, g) && Under(nodes, f, g)
        && Reaches(nodes, f, last, y) && Reaches(nodes, g, last, x) && g < y
  {
    hide Laid, Selected, Denotes, Under, Rising, NoChildAfterDescendant, Reaches, Stepped;
    var current := Matches(nodes, end, idx, most);
    SelectedInTwo(nodes, end, [idx], most, [last]);
    OneStep(nodes, end, current, last);
    ChildStepOrder(nodes, end, current, last);
  }

  // `//a/*` on `<a><x/><a><z/></a><y/></a>` gives x, a, y, z: not in document order.

  const INNER := Tag("a", [], [Tag("z", [], [])])
  const EXAMPLE := Tag("a", [], [Tag("x", [], []), INNER, Tag("y", [], [])])

  lemma OrderCanBreak()
    ensures !Rising(Selected(Document(EXAMPLE), DocumentEnds(EXAMPLE), [0], [Step(true, "a"), Step(false, "*")]))
  {
    hide Document, DocumentEnds, Laid, Selected, Rising, Denotes, Reaches, Under;
    var nodes, end := Document(EXAMPLE), DocumentEnds(EXAMPLE);
    DocumentIsLaid(EXAMPLE);
    ExampleNodes();
    LaidSizes(nodes, end);
    var most, last := [Step(true, "a")], Step(false, "*");
    ExampleDenotes(nodes);
    LastChildStepOrder(nodes, end, 0, most, last);
    assert most + [last] == [Step(true, "a"), Step(false, "*")];
  }

  lemma ExampleDenotes(nodes: seq<Elem>)
    requires
      && |nodes| == 6 && nodes[1].name == "a" && nodes[3].name == "a"
      && nodes[1].parent == Some(0) && nodes[3].parent == Some(1)
      && nodes[4].parent == Some(3) && nodes[5].parent == Some(1)
    ensures Denotes(nodes, 0, [Step(true, "a")], 1) && Denotes(nodes, 0, [Step(true, "a")], 3) && Under(nodes, 1, 3)
    ensures Reaches(nodes, 1, Step(false, "*"), 5) && Reaches(nodes, 3, Step(false, "*"), 4)
  {
    assert Under(nodes, 0, 1) && Under(nodes, 0, 3) && Under(nodes, 1, 3);
    OneStepDenotes(nodes, 0, Step(true, "a"), 1);
    OneStepDenotes(nodes, 0, Step(true, "a"), 3);
    hide Denotes;
  }

  lemma ExampleNodes()
    ensures
      var nodes := Document(EXAMPLE);
      && |nodes| == 6
      && nodes[1].name == "a" && nodes[1].parent == Some(0)
      && nodes[3].name == "a" && nodes[3].parent == Some(1)
      && nodes[4].name == "z" && nodes[4].parent == Some(3)
      && nodes[5].name == "y" && nodes[5].parent == Some(1)
  {
    var x, y, z := Tag("x", [], []), Tag("y", [], []), Tag("z", [], []);
    ListOfThree(x, INNER, y, 2, 1);
    ListOfOne(z, 4, 3);
    ListOfOne(EXAMPLE, 1, 0);
    assert Size(x) == 1 && Size(y) == 1 && Size(z) == 1;
    assert Layout(INNER, 3, 1) == [Elem("a", [], Some(1), KidsOf([z], 4))] + LayoutAll([z], 4, 3);
    assert Layout(EXAMPLE, 1, 0) == [Elem("a", [], Some(0), KidsOf([x, INNER, y], 2))] + LayoutAll([x, INNER, y], 2, 1);
  }

  lemma ListOfOne(t: Tree, id: nat, parent: nat)
    ensures SizeAll([t]) == Size(t) && LayoutAll([t], id, parent) == Layout(t, id, parent)
  {
    assert [t][..0] == [];
    assert LayoutAll([t], id, parent) == [] + Layout(t, id, parent);
  }

  lemma ListOfThree(a: Tree, b: Tree, c: Tree, id: nat, parent: nat)
    ensures SizeAll([a, b, c]) == Size(a) + Size(b) + Size(c)
    ensures LayoutAll([a, b, c], id, parent)
         == Layout(a, id, parent) + Layout(b, id + Size(a), parent) + Layout(c, id + Size(a) + Size(b), parent)
  {
    ListOfOne(a, id, parent);
    assert [a, b, c][..2] == [a, b] && [a, b][..1] == [a];
  }
}
