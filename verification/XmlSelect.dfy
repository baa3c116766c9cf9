/** Selection by slash path: step by step, without duplicates; in document order
    exactly as far as the steps allow. */
module XmlSelect {
  import opened Prelude
  import opened Recency
  import opened XmlTree
  import opened XmlWalk
  import opened XmlPath

  predicate Named(nodes: seq<Elem>, i: nat, name: string) { i < |nodes| && (name == "*" || nodes[i].name == name) }

  // ------------------------------------------------------ what a path denotes

  ghost predicate Reaches(nodes: seq<Elem>, from: nat, s: Step, i: nat) {
    && Named(nodes, i, s.name)
    && if s.descendant then Under(nodes, from, i) else nodes[i].parent == Some(from)
  }

  /** `i` is reached from `from` by taking the steps in turn. */
  ghost predicate Denotes(nodes: seq<Elem>, from: nat, steps: seq<Step>, i: nat)
    decreases |steps|
  {
    if steps == [] then i == from else
      exists m: nat :: Reaches(nodes, from, steps[0], m) && Denotes(nodes, m, steps[1..], i)
  }

  // ------------------------------------------------------- one step at a time

  predicate Within(l: seq<nat>, n: nat) { forall i | 0 <= i < |l| :: l[i] < n }

  ghost function OneFrom(nodes: seq<Elem>, end: seq<nat>, from: nat, s: Step): seq<nat>
    requires from < |nodes| == |end|
  {
    if s.descendant then (if from < end[from] then Run(from + 1, end[from]) else []) else Children(nodes[from].kids)
  }

  ghost function Candidates(nodes: seq<Elem>, end: seq<nat>, current: seq<nat>, s: Step): seq<nat>
    requires |nodes| == |end| && Within(current, |nodes|)
  {
    if current == [] then [] else
      assert current[|current| - 1] in current;
      Candidates(nodes, end, current[..|current| - 1], s) + OneFrom(nodes, end, current[|current| - 1], s)
  }

  /** The candidates with the right name, each at its first occurrence. */
  function Kept(nodes: seq<Elem>, name: string, cands: seq<nat>): (r: seq<nat>)
    ensures forall i :: i in r <==> i in cands && Named(nodes, i, name)
    ensures Distinct(r)
  {
    if cands == [] then [] else
      var most, last := Kept(nodes, name, cands[..|cands| - 1]), cands[|cands| - 1];
      if Named(nodes, last, name) && last !in most then most + [last] else most
  }

  ghost function Stepped(nodes: seq<Elem>, end: seq<nat>, current: seq<nat>, s: Step): (r: seq<nat>)
    requires |nodes| == |end| && Within(current, |nodes|)
    ensures Within(r, |nodes|) && Distinct(r)
  {
    var kept := Kept(nodes, s.name, Candidates(nodes, end, current, s));
    assert forall i | 0 <= i < |kept| :: kept[i] in kept;
    kept
  }

  /** The selection, as a list. */
  ghost function Selected(nodes: seq<Elem>, end: seq<nat>, current: seq<nat>, steps: seq<Step>): (r: seq<nat>)
    requires |nodes| == |end| && Within(current, |nodes|)
    decreases |steps|
  {
    if steps == [] then current else Selected(nodes, end, Stepped(nodes, end, current, steps[0]), steps[1..])
  }

  lemma ChildrenAre(nodes: seq<Elem>, end: seq<nat>, f: nat, i: nat)
    requires Laid(nodes, end) && f < |nodes|
    ensures i in Children(nodes[f].kids) <==> i < |nodes| && nodes[i].parent == Some(f)
  {
    assert TilesAt(nodes, end, f);
    assert 0 < i < |nodes| ==> ParentAt(nodes, i);
    hide Children, Tiles;
  }

  lemma OneFromReaches(nodes: seq<Elem>, end: seq<nat>, f: nat, s: Step, i: nat)
    requires Laid(nodes, end) && f < |nodes|
    ensures i in OneFrom(nodes, end, f, s) && Named(nodes, i, s.name) <==> Reaches(nodes, f, s, i)
  {
    assert TilesAt(nodes, end, f);
    ChildrenAre(nodes, end, f, i);
    UnderIsRun(nodes, end, f);
    hide Laid, TilesAt, Children, Under;
    if s.descendant && f < i < end[f] {
      assert Run(f + 1, end[f])[i - f - 1] == i;
    }
  }

  lemma {:induction false} CandidatesAre(nodes: seq<Elem>, end: seq<nat>, current: seq<nat>, s: Step, i: nat)
    requires |nodes| == |end| && Within(current, |nodes|)
    ensures i in Candidates(nodes, end, current, s) <==>
      exists f :: f in current && f < |nodes| && i in OneFrom(nodes, end, f, s)
    decreases |current|
  {
    if current != [] {
      var most, last := current[..|current| - 1], current[|current| - 1];
      assert last in current;
      CandidatesAre(nodes, end, most, s, i);
      hide OneFrom;
      assert forall f :: f in current <==> f in most || f == last;
    }
  }

  lemma SteppedMeans(nodes: seq<Elem>, end: seq<nat>, current: seq<nat>, s: Step, i: nat)
    requires Laid(nodes, end) && Within(current, |nodes|)
    ensures i in Stepped(nodes, end, current, s) <==> exists f :: f in current && Reaches(nodes, f, s, i)
  {
    CandidatesAre(nodes, end, current, s, i);
    hide Laid, Reaches, OneFrom, Candidates, Named;
    forall f | f in current
      ensures i in OneFrom(nodes, end, f, s) && Named(nodes, i, s.name) <==> Reaches(nodes, f, s, i)
    {
      OneFromReaches(nodes, end, f, s, i);
    }
  }

  /** The selection holds exactly the nodes the path denotes, each once. */
  lemma {:induction false} SelectionIsExact(nodes: seq<Elem>, end: seq<nat>, current: seq<nat>, steps: seq<Step>,
                                            i: nat)
    requires Laid(nodes, end) && Within(current, |nodes|)
    ensures i in Selected(nodes, end, current, steps) <==> exists f :: f in current && Denotes(nodes, f, steps, i)
    decreases |steps|
  {
    if steps == [] {
      assert forall f :: Denotes(nodes, f, [], i) <==> i == f;
    } else {
      var next := Stepped(nodes, end, current, steps[0]);
      SelectionIsExact(nodes, end, next, steps[1..], i);
      hide Laid, Reaches, Stepped;
      if f :| f in current && Denotes(nodes, f, steps, i) {
        var m: nat :| Reaches(nodes, f, steps[0], m) && Denotes(nodes, m, steps[1..], i);
        SteppedMeans(nodes, end, current, steps[0], m);
        assert m in next;
      }
      if m :| m in next && Denotes(nodes, m, steps[1..], i) {
        SteppedMeans(nodes, end, current, steps[0], m);
        var f :| f in current && Reaches(nodes, f, steps[0], m);
        assert Denotes(nodes, f, steps, i);
      }
    }
  }

  lemma {:induction false} SelectionIsDistinct(nodes: seq<Elem>, end: seq<nat>, current: seq<nat>, steps: seq<Step>)
    requires |nodes| == |end| && Within(current, |nodes|)
    requires Distinct(current)
    ensures Distinct(Selected(nodes, end, current, steps))
    decreases |steps|
  {
    if steps != [] { SelectionIsDistinct(nodes, end, Stepped(nodes, end, current, steps[0]), steps[1..]); }
  }

  // --------------------------------------------------------- document order

  /** In document order, with no node under another. */
  predicate Apart(end: seq<nat>, l: seq<nat>) {
    Within(l, |end|) && forall i, j | 0 <= i < j < |l| :: end[l[i]] <= l[j]
  }

  predicate NoChildAfterDescendant(steps: seq<Step>) {
    forall i, j | 0 <= i < j < |steps| && steps[i].descendant :: steps[j].descendant
  }

  lemma {:induction false} TilesApart(cs: seq<nat>, from: nat, to: nat, end: seq<nat>)
    requires Tiles(cs, from, to, end)
    ensures Apart(end, cs)
    decreases |cs|
  {
    if cs != [] {
      TilesApart(cs[1..], end[from], to, end);
      TilesOrder(cs, from, to, end);
      TilesOrder(cs[1..], end[from], to, end);
      assert cs == [cs[0]] + cs[1..];
    }
  }

  lemma ChildrenApart(nodes: seq<Elem>, end: seq<nat>, f: nat)
    requires Laid(nodes, end) && f < |nodes|
    ensures Apart(end, Children(nodes[f].kids)) && f < end[f]
    ensures forall c | c in Children(nodes[f].kids) :: f < c < end[c] <= end[f]
  {
    assert TilesAt(nodes, end, f);
    TilesApart(Children(nodes[f].kids), f + 1, end[f], end);
    TilesOrder(Children(nodes[f].kids), f + 1, end[f], end);
  }

  lemma ApartJoin(end: seq<nat>, a: seq<nat>, b: seq<nat>)
    requires Apart(end, a) && Apart(end, b) && forall x, y | x in a && y in b && x < |end| :: end[x] <= y
    ensures Apart(end, a + b)
  {
    var l := a + b;
    forall i, j | 0 <= i < j < |l| ensures end[l[i]] <= l[j] {
      if i < |a| <= j { assert a[i] in a && b[j - |a|] in b; }
    }
  }

  lemma {:induction false} ChildStepApart(nodes: seq<Elem>, end: seq<nat>, current: seq<nat>, s: Step)
    requires Laid(nodes, end) && Apart(end, current) && !s.descendant
    ensures Apart(end, Candidates(nodes, end, current, s))
    ensures forall x | x in Candidates(nodes, end, current, s) ::
              x < |end| && exists f :: f in current && f < |end| && end[x] <= end[f]
    decreases |current|
  {
    if current != [] {
      var most, last := current[..|current| - 1], current[|current| - 1];
      assert last in current;
      ChildStepApart(nodes, end, most, s);
      ChildrenApart(nodes, end, last);
      hide Laid, Children;
      var before, here := Candidates(nodes, end, most, s), Children(nodes[last].kids);
      forall x, y | x in before && y in here ensures end[x] <= y {
        var f :| f in most && f < |end| && end[x] <= end[f];
        var i :| 0 <= i < |most| && most[i] == f;
        assert current[i] == f && end[f] <= last;
      }
      ApartJoin(end, before, here);
    }
  }

  lemma {:induction false} KeptApart(nodes: seq<Elem>, end: seq<nat>, name: string, cands: seq<nat>)
    requires Apart(end, cands)
    ensures Apart(end, Kept(nodes, name, cands))
    decreases |cands|
  {
    if cands != [] {
      var most, last := cands[..|cands| - 1], cands[|cands| - 1];
      KeptApart(nodes, end, name, most);
      var kept := Kept(nodes, name, most);
      assert Kept(nodes, name, cands) == kept || Kept(nodes, name, cands) == kept + [last];
      hide Kept, Named;
      forall x | x in kept && x < |end| ensures end[x] <= last {
        var i :| 0 <= i < |most| && most[i] == x;
        assert cands[i] == x;
      }
      forall y | y in [last] ensures y == last { }
      hide Apart;
      LastApart(end, cands);
      ApartJoin(end, kept, [last]);
    }
  }

  lemma LastApart(end: seq<nat>, l: seq<nat>)
    requires Apart(end, l) && l != []
    ensures Apart(end, [l[|l| - 1]])
  {
  }

  /** Each candidate is new only if it lies after all before it. */
  predicate FirstsAscend(cands: seq<nat>) {
    forall p, q | 0 <= p < q < |cands| && cands[q] !in cands[..q] :: cands[p] < cands[q]
  }

  lemma {:induction false} KeptAscends(nodes: seq<Elem>, name: string, cands: seq<nat>)
    requires FirstsAscend(cands)
    ensures Rising(Kept(nodes, name, cands))
    decreases |cands|
  {
    if cands != [] {
      var n := |cands| - 1;
      var most, last := cands[..n], cands[n];
      forall q | 0 <= q < n ensures most[..q] == cands[..q] { }
      KeptAscends(nodes, name, most);
      var kept := Kept(nodes, name, most);
      if last !in most {
        forall i | 0 <= i < |kept| ensures kept[i] < last {
          assert kept[i] in most;
          var p :| 0 <= p < n && cands[p] == kept[i];
        }
      }
    }
  }

  lemma {:induction false} DescendantStepAscends(nodes: seq<Elem>, end: seq<nat>, current: seq<nat>, s: Step)
    requires |nodes| == |end| && Within(current, |nodes|) && Rising(current) && s.descendant
    ensures FirstsAscend(Candidates(nodes, end, current, s))
    decreases |current|
  {
    if current != [] {
      var most, last := current[..|current| - 1], current[|current| - 1];
      assert last in current;
      DescendantStepAscends(nodes, end, most, s);
      var before, here := Candidates(nodes, end, most, s), OneFrom(nodes, end, last, s);
      forall y, x | y in before && x in here && x !in before ensures y < x {
        BeforeRun(nodes, end, most, s, last, y, x);
      }
      hide OneFrom;
      OneRun(nodes, end, last, s);
      RunJoins(before, here);
    }
  }

  lemma OneRun(nodes: seq<Elem>, end: seq<nat>, f: nat, s: Step)
    requires |nodes| == |end| && f < |nodes| && s.descendant
    ensures Rising(OneFrom(nodes, end, f, s))
    ensures forall x :: x in OneFrom(nodes, end, f, s) <==> f < x < end[f]
  {
    forall x ensures x in OneFrom(nodes, end, f, s) <==> f < x < end[f] {
      if f < x < end[f] { assert Run(f + 1, end[f])[x - f - 1] == x; }
    }
  }

  lemma BeforeRun(nodes: seq<Elem>, end: seq<nat>, most: seq<nat>, s: Step, last: nat, y: nat, x: nat)
    requires |nodes| == |end| && Within(most, last) && Within(most, |nodes|) && last < |nodes| && s.descendant
    requires y in Candidates(nodes, end, most, s) && x !in Candidates(nodes, end, most, s)
      && x in OneFrom(nodes, end, last, s)
    ensures y < x
  {
    CandidatesAre(nodes, end, most, s, y);
    CandidatesAre(nodes, end, most, s, x);
    hide OneFrom, Candidates;
    OneRun(nodes, end, last, s);
    var f :| f in most && f < |nodes| && y in OneFrom(nodes, end, f, s);
    OneRun(nodes, end, f, s);
  }

  lemma RunJoins(a: seq<nat>, b: seq<nat>)
    requires FirstsAscend(a) && Rising(b) && forall y, x | y in a && x in b && x !in a :: y < x
    ensures FirstsAscend(a + b)
  {
    var l := a + b;
    forall p, q | 0 <= p < q < |l| && l[q] !in l[..q] ensures l[p] < l[q] {
      if q < |a| {
        assert l[..q] == a[..q];
      } else {
        assert l[..q] == a + b[..q - |a|];
        assert l[q] == b[q - |a|] && l[q] in b && l[q] !in a;
        if p < |a| { assert a[p] in a; }
      }
    }
  }

  lemma ApartAscends(nodes: seq<Elem>, end: seq<nat>, l: seq<nat>)
    requires Laid(nodes, end) && Apart(end, l)
    ensures Rising(l)
  {
    forall i, j | 0 <= i < j < |l| ensures l[i] < l[j] {
      assert l[i] in l;
      assert TilesAt(nodes, end, l[i]);
    }
  }

  lemma {:induction false} DescendantsKeepOrder(nodes: seq<Elem>, end: seq<nat>, current: seq<nat>, steps: seq<Step>)
    requires |nodes| == |end| && Within(current, |nodes|) && Rising(current)
    requires forall i | 0 <= i < |steps| :: steps[i].descendant
    ensures Rising(Selected(nodes, end, current, steps))
    decreases |steps|
  {
    if steps != [] {
      DescendantStepAscends(nodes, end, current, steps[0]);
      KeptAscends(nodes, steps[0].name, Candidates(nodes, end, current, steps[0]));
      hide Candidates, Kept, Ascending;
      DescendantsKeepOrder(nodes, end, Stepped(nodes, end, current, steps[0]), steps[1..]);
    }
  }

  /** Selections are in document order whenever no child step follows a descendant
      step. */
  lemma {:induction false} DocumentOrder(nodes: seq<Elem>, end: seq<nat>, current: seq<nat>, steps: seq<Step>)
    requires Laid(nodes, end) && Apart(end, current) && NoChildAfterDescendant(steps)
    ensures Rising(Selected(nodes, end, current, steps))
    decreases |steps|
  {
    ApartAscends(nodes, end, current);
    if steps == [] {
    } else if steps[0].descendant {
      DescendantsKeepOrder(nodes, end, current, steps);
    } else {
      ChildStepApart(nodes, end, current, steps[0]);
      KeptApart(nodes, end, steps[0].name, Candidates(nodes, end, current, steps[0]));
      hide Candidates, Kept, Rising, Laid, Apart;
      DocumentOrder(nodes, end, Stepped(nodes, end, current, steps[0]), steps[1..]);
    }
  }

  // -------------------------------------------------------------- as a method

  /** `select`: the nodes a path denotes from a node, or why the path is malformed. */
  method Select(nodes: seq<Elem>, idx: nat, path: string, firstOnly: bool, space: char -> bool, ghost end: seq<nat>)
    returns (r: Result<seq<nat>, PathError>, ghost steps: seq<Step>)
    requires Laid(nodes, end) && idx < |nodes|
    ensures r.Ok? ==>
      var all := Selected(nodes, end, [idx], steps);
      Reads(steps, path, space) && r.value == if firstOnly && all != [] then [all[0]] else all
    ensures r.Err? ==> forall want :: !Reads(want, path, space)
  {
    hide *;
    steps := [];
    var parsed := ParsePath(path, space);
    if parsed.Err? {
      return Err(parsed.error), [];
    }
    var todo := parsed.value;
    steps := todo;
    var current := [idx];
    OneWithin(idx, |nodes|);
    LaidSizes(nodes, end);
    assert todo[0..] == todo;
    var k := 0;
    while k < |todo|
      invariant k <= |todo| && |nodes| == |end| && Within(current, |nodes|)
      invariant Selected(nodes, end, current, todo[k..]) == Selected(nodes, end, [idx], steps)
    {
      SelectedNext(nodes, end, current, todo, k);
      var cands := Gather(nodes, end, current, todo[k]);
      current := Filter(nodes, todo[k].name, cands);
      k := k + 1;
      if current == [] {
        break;
      }
    }
    SelectedLast(nodes, end, current, todo[k..]);
    if firstOnly && |current| > 1 {
      current := current[..1];
    }
    return Ok(current), steps;
  }

  lemma OneWithin(i: nat, n: nat)
    requires i < n
    ensures Within([i], n)
  {
  }

  lemma LaidSizes(nodes: seq<Elem>, end: seq<nat>)
    requires Laid(nodes, end)
    ensures |nodes| == |end|
  {
  }

  lemma SelectedNext(nodes: seq<Elem>, end: seq<nat>, current: seq<nat>, steps: seq<Step>, k: nat)
    requires |nodes| == |end| && Within(current, |nodes|) && k < |steps|
    ensures
      var next := Kept(nodes, steps[k].name, Candidates(nodes, end, current, steps[k]));
      Within(next, |nodes|) && Selected(nodes, end, current, steps[k..]) == Selected(nodes, end, next, steps[k + 1..])
  {
    assert steps[k..][1..] == steps[k + 1..];
    assert Kept(nodes, steps[k].name, Candidates(nodes, end, current, steps[k]))
      == Stepped(nodes, end, current, steps[k]);
  }

  lemma {:induction false} SelectedLast(nodes: seq<Elem>, end: seq<nat>, current: seq<nat>, steps: seq<Step>)
    requires |nodes| == |end| && Within(current, |nodes|) && (steps == [] || current == [])
    ensures Selected(nodes, end, current, steps) == current
    decreases |steps|
  {
    if steps != [] {
      SelectedLast(nodes, end, [], steps[1..]);
    }
  }

  method Gather(nodes: seq<Elem>, ghost end: seq<nat>, current: seq<nat>, s: Step) returns (cands: seq<nat>)
    requires Laid(nodes, end) && Within(current, |nodes|) && |nodes| == |end|
    ensures cands == Candidates(nodes, end, current, s) && Within(cands, |nodes|)
  {
    hide *;
    CandidatesWithin(nodes, end, current, s);
    cands := [];
    GatherNone(nodes, end, s);
    for k := 0 to |current|
      invariant Within(current[..k], |nodes|) && cands == Candidates(nodes, end, current[..k], s)
    {
      GatherMore(nodes, end, current, s, k);
      var from := current[k];
      if s.descendant {
        cands := Descendants(nodes, from, cands, end);
      } else {
        cands := cands + Children(nodes[from].kids);
      }
    }
    assert current[..|current|] == current;
  }

  lemma {:induction false} CandidatesWithin(nodes: seq<Elem>, end: seq<nat>, current: seq<nat>, s: Step)
    requires Laid(nodes, end) && Within(current, |nodes|) && |nodes| == |end|
    ensures Within(Candidates(nodes, end, current, s), |nodes|)
    decreases |current|
  {
    if current != [] {
      var most, last := current[..|current| - 1], current[|current| - 1];
      CandidatesWithin(nodes, end, most, s);
      ChildrenApart(nodes, end, last);
      NodeTiles(nodes, end, last);
      hide Laid, Children, Tiles;
    }
  }

  lemma GatherNone(nodes: seq<Elem>, end: seq<nat>, s: Step)
    requires |nodes| == |end|
    ensures Within([], |nodes|) && Candidates(nodes, end, [], s) == []
  {
  }

  lemma GatherMore(nodes: seq<Elem>, end: seq<nat>, current: seq<nat>, s: Step, k: nat)
    requires |nodes| == |end| && Within(current, |nodes|) && k < |current|
    ensures Within(current[..k + 1], |nodes|) && Within(current[..k], |nodes|) && current[k] < |nodes|
    ensures
      var from := current[k];
      var before := Candidates(nodes, end, current[..k], s);
      && (s.descendant && from < end[from] ==>
        Candidates(nodes, end, current[..k + 1], s) == before + Run(from + 1, end[from]))
      && (!s.descendant ==> Candidates(nodes, end, current[..k + 1], s) == before + Children(nodes[from].kids))
  {
    hide Children;
    assert current[..k + 1][..k] == current[..k] && current[..k + 1][k] == current[k];
    assert Candidates(nodes, end, current[..k + 1], s)
        == Candidates(nodes, end, current[..k], s) + OneFrom(nodes, end, current[k], s);
    hide Candidates, Within;
  }

  /** Keep each wanted candidate the first time it is seen. */
  method Filter(nodes: seq<Elem>, name: string, cands: seq<nat>) returns (out: seq<nat>)
    requires Within(cands, |nodes|)
    ensures out == Kept(nodes, name, cands)
  {
    var seen := new bool[|nodes|](_ => false);
    out := [];
    for k := 0 to |cands|
      invariant out == Kept(nodes, name, cands[..k])
      invariant forall i | 0 <= i < |nodes| :: seen[i] <==> i in out
    {
      assert cands[..k + 1][..k] == cands[..k];
      var i := cands[k];
      if name == "*" || nodes[i].name == name {
        if !seen[i] {
          out := out + [i];
        }
        seen[i] := true;
      }
    }
    assert cands[..|cands|] == cands;
  }
}
