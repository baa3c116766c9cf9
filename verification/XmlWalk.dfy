/** Walking a parsed document with explicit stacks: descendants and text, at any
    depth, against what the tree and the parent links say. */
module XmlWalk {
  import opened Prelude
  import opened XmlTree

  /** The child elements in a child list. */
  function Children(kids: seq<Kid>): seq<nat> {
    if kids == [] then [] else
      Children(kids[..|kids| - 1]) + match kids[|kids| - 1] case Text(_) => [] case Child(id) => [id]
  }

  // ------------------------------------------------------------ the layout

  /** `cs` are consecutive subtrees that fill `[from, to)`; `end` says where each ends. */
  ghost predicate Tiles(cs: seq<nat>, from: nat, to: nat, end: seq<nat>) {
    if cs == [] then from == to else
      cs[0] == from && from < |end| && from < end[from] <= to && Tiles(cs[1..], end[from], to, end)
  }

  ghost predicate TilesAt(nodes: seq<Elem>, end: seq<nat>, k: nat) {
    && k < |nodes| == |end| && k < end[k] <= |nodes|
    && Tiles(Children(nodes[k].kids), k + 1, end[k], end)
    && forall c | c in Children(nodes[k].kids) :: c < |nodes| && nodes[c].parent == Some(k)
  }

  ghost predicate ParentAt(nodes: seq<Elem>, k: nat) {
    k < |nodes| && nodes[k].parent.Some? && nodes[k].parent.value < k
      && k in Children(nodes[nodes[k].parent.value].kids)
  }

  /** Every subtree is a run of ids, split among its children, and parent and child
      links agree: ids are in document order. */
  ghost predicate Laid(nodes: seq<Elem>, end: seq<nat>) {
    && |nodes| == |end| > 0 && nodes[0].parent == None
    && (forall k | 0 <= k < |nodes| :: TilesAt(nodes, end, k))
    && forall k | 0 < k < |nodes| :: ParentAt(nodes, k)
  }

  ghost predicate Occurs<T(!new)>(whole: seq<T>, part: seq<T>, at: nat) {
    at + |part| <= |whole| && forall i | 0 <= i < |part| :: whole[at + i] == part[i]
  }

  lemma OccursParts<T(!new)>(whole: seq<T>, a: seq<T>, b: seq<T>, at: nat)
    requires Occurs(whole, a + b, at)
    ensures Occurs(whole, a, at) && Occurs(whole, b, at + |a|)
  {
    forall i | 0 <= i < |a| ensures whole[at + i] == a[i] { assert (a + b)[i] == a[i]; }
    forall i | 0 <= i < |b| ensures whole[at + |a| + i] == b[i] { assert (a + b)[|a| + i] == b[i]; }
  }

  /** Where each subtree of a laid-out tree ends. */
  ghost function Ends(t: Tree, id: nat): (r: seq<nat>)
    ensures |r| == Size(t)
    decreases t
  {
    match t case Leaf(_) => [] case Tag(_, _, kids) => [id + Size(t)] + EndsAll(kids, id + 1)
  }

  ghost function EndsAll(ts: seq<Tree>, id: nat): (r: seq<nat>)
    ensures |r| == SizeAll(ts)
    decreases ts
  {
    if ts == [] then [] else EndsAll(ts[..|ts| - 1], id) + Ends(ts[|ts| - 1], id + SizeAll(ts[..|ts| - 1]))
  }

  ghost function DocumentEnds(t: Tree): seq<nat> { [1 + Size(t)] + EndsAll([t], 1) }

  lemma {:induction false} TilesMore(cs: seq<nat>, from: nat, to: nat, end: seq<nat>)
    requires Tiles(cs, from, to, end) && to < |end| && to < end[to]
    ensures Tiles(cs + [to], from, end[to], end)
    decreases |cs|
  {
    if cs == [] {
      assert (cs + [to])[1..] == [];
    } else {
      TilesMore(cs[1..], end[from], to, end);
      assert (cs + [to])[1..] == cs[1..] + [to];
      TilesOrder(cs, from, to, end);
    }
  }

  lemma {:induction false} TilesOrder(cs: seq<nat>, from: nat, to: nat, end: seq<nat>)
    requires Tiles(cs, from, to, end)
    ensures from <= to
    ensures forall c | c in cs :: from <= c < |end| && c < end[c] <= to
    decreases |cs|
  {
    if cs != [] {
      TilesOrder(cs[1..], end[from], to, end);
      forall c | c in cs ensures from <= c < |end| && c < end[c] <= to {
        assert c == cs[0] || c in cs[1..];
      }
    }
  }

  /** What fills `[from, to)`, laid out under `parent`. */
  ghost predicate LaidRun(nodes: seq<Elem>, end: seq<nat>, cs: seq<nat>, from: nat, to: nat, parent: nat) {
    && Tiles(cs, from, to, end)
    && (forall c | c in cs :: c < |nodes| && nodes[c].parent == Some(parent))
    && forall k | from <= k < to :: TilesAt(nodes, end, k) && (ParentAt(nodes, k) || k in cs)
  }

  /** The children of a laid-out list of trees, each laid out in turn. */
  ghost predicate LaidList(nodes: seq<Elem>, end: seq<nat>, ts: seq<Tree>, id: nat, parent: nat) {
    LaidRun(nodes, end, Children(KidsOf(ts, id)), id, id + SizeAll(ts), parent)
  }

  lemma {:induction false} ListIsLaid(nodes: seq<Elem>, end: seq<nat>, ts: seq<Tree>, id: nat, parent: nat)
    requires |nodes| == |end|
    requires Occurs(nodes, LayoutAll(ts, id, parent), id) && Occurs(end, EndsAll(ts, id), id)
    ensures LaidList(nodes, end, ts, id, parent)
    decreases ts
  {
    if ts != [] {
      var most, last := ts[..|ts| - 1], ts[|ts| - 1];
      var at := id + SizeAll(most);
      OccursParts(nodes, LayoutAll(most, id, parent), Layout(last, at, parent), id);
      OccursParts(end, EndsAll(most, id), Ends(last, at), id);
      ListIsLaid(nodes, end, most, id, parent);
      if last.Tag? {
        TagIsLaid(nodes, end, last, at, parent);
      }
      hide *;
      ListGrows(nodes, end, ts, id, parent);
    }
  }

  lemma RunGrows(nodes: seq<Elem>, end: seq<nat>, cs: seq<nat>, from: nat, to: nat, parent: nat)
    requires LaidRun(nodes, end, cs, from, to, parent)
    requires to < |nodes| == |end| && nodes[to].parent == Some(parent) && to < end[to]
    requires forall k | to <= k < end[to] :: TilesAt(nodes, end, k) && (k > to ==> ParentAt(nodes, k))
    ensures LaidRun(nodes, end, cs + [to], from, end[to], parent)
  {
    TilesMore(cs, from, to, end);
    hide Tiles, TilesAt, ParentAt;
    forall c | c in cs + [to] ensures c in cs || c == to { }
    assert to in cs + [to] && forall k | k in cs :: k in cs + [to];
  }

  lemma ListGrows(nodes: seq<Elem>, end: seq<nat>, ts: seq<Tree>, id: nat, parent: nat)
    requires ts != []
    requires
      var most, last := ts[..|ts| - 1], ts[|ts| - 1];
      && LaidList(nodes, end, most, id, parent)
      && (last.Tag? ==> LaidTag(nodes, end, last, id + SizeAll(most), parent))
    ensures LaidList(nodes, end, ts, id, parent)
  {
    var most, last := ts[..|ts| - 1], ts[|ts| - 1];
    var ks := KidsOf(ts, id);
    assert ks[..|ks| - 1] == KidsOf(most, id);
    if last.Tag? {
      assert Children(ks) == Children(KidsOf(most, id)) + [id + SizeAll(most)];
      LastSize(ts);
      hide KidsOf, Children, Tiles, TilesAt, ParentAt, SizeAll, Size;
      RunGrows(nodes, end, Children(KidsOf(most, id)), id, id + SizeAll(most), parent);
    } else {
      assert ks[|ks| - 1].Text?;
      assert Children(ks) == Children(KidsOf(most, id)) + [] == Children(KidsOf(most, id));
      LastSize(ts);
      hide KidsOf, Children, Tiles, TilesAt, ParentAt, SizeAll;
    }
  }

  lemma LastSize(ts: seq<Tree>)
    requires ts != []
    ensures SizeAll(ts) == SizeAll(ts[..|ts| - 1]) + Size(ts[|ts| - 1])
    ensures ts[|ts| - 1].Leaf? ==> Size(ts[|ts| - 1]) == 0
  {
  }

  /** A laid-out element with everything under it. */
  ghost predicate LaidTag(nodes: seq<Elem>, end: seq<nat>, t: Tree, id: nat, parent: nat) {
    && id < |nodes| == |end| && nodes[id].parent == Some(parent) && end[id] == id + Size(t)
    && forall k | id <= k < id + Size(t) :: TilesAt(nodes, end, k) && (k > id ==> ParentAt(nodes, k))
  }

  lemma {:induction false} TagIsLaid(nodes: seq<Elem>, end: seq<nat>, t: Tree, id: nat, parent: nat)
    requires |nodes| == |end| && t.Tag?
    requires Occurs(nodes, Layout(t, id, parent), id) && Occurs(end, Ends(t, id), id)
    ensures LaidTag(nodes, end, t, id, parent)
    decreases t
  {
    var e := Elem(t.name, t.attrs, Some(parent), KidsOf(t.kids, id + 1));
    OccursParts(nodes, [e], LayoutAll(t.kids, id + 1, id), id);
    OccursParts(end, [id + Size(t)], EndsAll(t.kids, id + 1), id);
    assert [e][0] == e && [id + Size(t)][0] == id + Size(t);
    assert nodes[id] == e && end[id] == id + Size(t);
    ListIsLaid(nodes, end, t.kids, id + 1, id);
    LaidUnder(nodes, end, t.kids, id);
  }

  /** An element over a laid-out list is laid out. */
  lemma LaidUnder(nodes: seq<Elem>, end: seq<nat>, ts: seq<Tree>, id: nat)
    requires id < |nodes| == |end| && nodes[id].kids == KidsOf(ts, id + 1)
    requires end[id] == id + 1 + SizeAll(ts) <= |nodes| && LaidList(nodes, end, ts, id + 1, id)
    ensures forall k | id <= k < id + 1 + SizeAll(ts) :: TilesAt(nodes, end, k) && (k > id ==> ParentAt(nodes, k))
  {
    hide KidsOf, Children, Tiles;
    var cs := Children(KidsOf(ts, id + 1));
    forall k | id < k < id + 1 + SizeAll(ts) ensures TilesAt(nodes, end, k) && ParentAt(nodes, k) {
      assert k in cs ==> nodes[k].parent == Some(id);
      assert ParentAt(nodes, k) || k in cs;
    }
  }

  /** Parsed documents are laid out in document order. */
  lemma DocumentIsLaid(t: Tree)
    requires t.Tag?
    ensures Laid(Document(t), DocumentEnds(t))
  {
    var nodes, end := Document(t), DocumentEnds(t);
    assert SizeAll([t]) == Size(t) by { assert [t][..0] == []; }
    ListIsLaid(nodes, end, [t], 1, 0);
    hide Layout, LayoutAll, Ends, EndsAll, KidsOf;
    LaidUnder(nodes, end, [t], 0);
  }

  // ------------------------------------------------- ancestors and id runs

  /** `d` lies under `a`: its parent chain passes through `a`. */
  ghost predicate Under(nodes: seq<Elem>, a: nat, d: nat)
    decreases d
  {
    && d < |nodes| && nodes[d].parent.Some? && nodes[d].parent.value < d
    && (nodes[d].parent.value == a || Under(nodes, a, nodes[d].parent.value))
  }

  lemma {:induction false} UnderTransitive(nodes: seq<Elem>, a: nat, b: nat, d: nat)
    requires Under(nodes, a, b) && Under(nodes, b, d)
    ensures Under(nodes, a, d)
    decreases d
  {
    if nodes[d].parent.value != b { UnderTransitive(nodes, a, b, nodes[d].parent.value); }
  }

  lemma {:induction false} TileWith(cs: seq<nat>, from: nat, to: nat, end: seq<nat>, d: nat) returns (c: nat)
    requires Tiles(cs, from, to, end) && from <= d < to
    ensures c in cs && from <= c <= d && c < |end| && d < end[c] <= to
    decreases |cs|
  {
    if d < end[from] {
      c := from;
    } else {
      c := TileWith(cs[1..], end[from], to, end, d);
      TilesOrder(cs[1..], end[from], to, end);
    }
  }

  /** Subtrees nest. */
  lemma {:induction false} Nested(nodes: seq<Elem>, end: seq<nat>, a: nat, p: nat)
    requires Laid(nodes, end) && a < |nodes| && a < p < end[a]
    ensures p < |nodes| && end[p] <= end[a]
    decreases p - a
  {
    assert TilesAt(nodes, end, a);
    var c := TileWith(Children(nodes[a].kids), a + 1, end[a], end, p);
    hide Tiles, Children;
    if c != p { Nested(nodes, end, c, p); }
  }

  lemma {:induction false} RunIsUnder(nodes: seq<Elem>, end: seq<nat>, a: nat, d: nat)
    requires Laid(nodes, end) && a < |nodes| && a < d < end[a]
    ensures Under(nodes, a, d)
    decreases d - a
  {
    assert TilesAt(nodes, end, a);
    var c := TileWith(Children(nodes[a].kids), a + 1, end[a], end, d);
    hide Tiles, Children;
    assert Under(nodes, a, c);
    if c != d {
      RunIsUnder(nodes, end, c, d);
      UnderTransitive(nodes, a, c, d);
    }
  }

  lemma {:induction false} UnderIsInRun(nodes: seq<Elem>, end: seq<nat>, a: nat, d: nat)
    requires Laid(nodes, end) && a < |nodes| && Under(nodes, a, d)
    ensures a < d < end[a]
    decreases d
  {
    var p := nodes[d].parent.value;
    assert ParentAt(nodes, d) && TilesAt(nodes, end, p);
    TilesOrder(Children(nodes[p].kids), p + 1, end[p], end);
    hide Tiles, Children;
    if p != a {
      UnderIsInRun(nodes, end, a, p);
      Nested(nodes, end, a, p);
    }
  }

  /** What lies under a node is exactly the run of ids after it, up to its end. */
  lemma UnderIsRun(nodes: seq<Elem>, end: seq<nat>, a: nat)
    requires Laid(nodes, end) && a < |nodes|
    ensures forall d: nat :: Under(nodes, a, d) <==> a < d < end[a]
  {
    forall d: nat ensures Under(nodes, a, d) <==> a < d < end[a] {
      if Under(nodes, a, d) { UnderIsInRun(nodes, end, a, d); }
      if a < d < end[a] { RunIsUnder(nodes, end, a, d); }
    }
  }

  // ------------------------------------------------------------ descendants

  function Run(from: nat, to: nat): (r: seq<nat>)
    requires from <= to
    ensures |r| == to - from && forall i | 0 <= i < |r| :: r[i] == from + i
  {
    seq(to - from, i requires 0 <= i => from + i)
  }

  function Reversed(cs: seq<nat>): seq<nat> {
    if cs == [] then [] else Reversed(cs[1..]) + [cs[0]]
  }

  /** Read from its top, the stack tiles `[from, to)`. */
  ghost predicate StackTiles(stack: seq<nat>, from: nat, to: nat, end: seq<nat>) {
    if stack == [] then from == to else
      && stack[|stack| - 1] == from && from < |end| && from < end[from] <= to
      && StackTiles(stack[..|stack| - 1], end[from], to, end)
  }

  lemma {:induction false} StackOnto(cs: seq<nat>, stack: seq<nat>, from: nat, mid: nat, to: nat, end: seq<nat>)
    requires Tiles(cs, from, mid, end) && StackTiles(stack, mid, to, end) && mid <= to
    ensures StackTiles(stack + Reversed(cs), from, to, end)
    decreases |cs|
  {
    if cs == [] {
      assert stack + [] == stack;
    } else {
      StackOnto(cs[1..], stack, end[from], mid, to, end);
      var pushed := stack + Reversed(cs);
      assert pushed[..|pushed| - 1] == stack + Reversed(cs[1..]);
    }
  }

  /** Everything under a node, in document order, after what was found before. */
  method Descendants(nodes: seq<Elem>, of: nat, found: seq<nat>, ghost end: seq<nat>) returns (out: seq<nat>)
    requires Laid(nodes, end) && of < |nodes|
    ensures of < end[of] && out == found + Run(of + 1, end[of])
  {
    hide *;
    NodeTiles(nodes, end, of);
    var stack := Reversed(Children(nodes[of].kids));
    ghost var at := of + 1;
    out := found;
    NoStack(end[of], end);
    StackOnto(Children(nodes[of].kids), [], at, end[of], end[of], end);
    assert [] + stack == stack;
    assert Run(of + 1, at) == [];
    while stack != []
      invariant of < at <= end[of] && StackTiles(stack, at, end[of], end)
      invariant out == found + Run(of + 1, at)
      decreases end[of] - at
    {
      StackTop(stack, at, end[of], end);
      var i := stack[|stack| - 1];
      stack := stack[..|stack| - 1];
      out := out + [i];
      NodeTiles(nodes, end, i);
      StackOnto(Children(nodes[i].kids), stack, i + 1, end[i], end[of], end);
      stack := stack + Reversed(Children(nodes[i].kids));
      assert Run(of + 1, at + 1) == Run(of + 1, at) + [at];
      at := at + 1;
    }
    StackEmpty(at, end[of], end);
  }

  lemma NodeTiles(nodes: seq<Elem>, end: seq<nat>, k: nat)
    requires Laid(nodes, end) && k < |nodes|
    ensures |nodes| == |end| && k < end[k] <= |nodes| && Tiles(Children(nodes[k].kids), k + 1, end[k], end)
  {
    assert TilesAt(nodes, end, k);
  }

  lemma NoStack(to: nat, end: seq<nat>)
    ensures StackTiles([], to, to, end)
  {
  }

  lemma StackEmpty(from: nat, to: nat, end: seq<nat>)
    requires StackTiles([], from, to, end)
    ensures from == to
  {
  }

  lemma StackTop(stack: seq<nat>, from: nat, to: nat, end: seq<nat>)
    requires StackTiles(stack, from, to, end) && stack != []
    ensures stack[|stack| - 1] == from && from < |end| && from < end[from] <= to
    ensures StackTiles(stack[..|stack| - 1], end[from], to, end)
  {
  }

  // ------------------------------------------------------------------- text

  /** Text of the children of `id` from `pos` on. */
  ghost function TextFrom(nodes: seq<Elem>, id: nat, pos: nat): string
    decreases |nodes| - id, if id < |nodes| && pos < |nodes[id].kids| then |nodes[id].kids| - pos else 0
  {
    if id >= |nodes| || pos >= |nodes[id].kids| then "" else
      (match nodes[id].kids[pos]
       case Text(text) => text
       case Child(c) => if id < c < |nodes| then TextFrom(nodes, c, 0) else "")
      + TextFrom(nodes, id, pos + 1)
  }

  /** Steps of the walk from `(id, pos)`. */
  ghost function Steps(nodes: seq<Elem>, id: nat, pos: nat): nat
    decreases |nodes| - id, if id < |nodes| && pos < |nodes[id].kids| then |nodes[id].kids| - pos else 0
  {
    if id >= |nodes| || pos >= |nodes[id].kids| then 1 else
      (match nodes[id].kids[pos]
       case Text(_) => 1
       case Child(c) => 1 + if id < c < |nodes| then Steps(nodes, c, 0) else 0)
      + Steps(nodes, id, pos + 1)
  }

  ghost function StackText(nodes: seq<Elem>, stack: seq<(nat, nat)>): string {
    if stack == [] then "" else
      var (id, pos) := stack[|stack| - 1];
      TextFrom(nodes, id, pos) + StackText(nodes, stack[..|stack| - 1])
  }

  ghost function StackSteps(nodes: seq<Elem>, stack: seq<(nat, nat)>): nat {
    if stack == [] then 0 else
      var (id, pos) := stack[|stack| - 1];
      Steps(nodes, id, pos) + StackSteps(nodes, stack[..|stack| - 1])
  }

  ghost predicate ChildrenLater(nodes: seq<Elem>) {
    forall id, pos | 0 <= id < |nodes| && 0 <= pos < |nodes[id].kids| && nodes[id].kids[pos].Child? ::
      id < nodes[id].kids[pos].id < |nodes|
  }

  lemma LaidChildrenLater(nodes: seq<Elem>, end: seq<nat>)
    requires Laid(nodes, end)
    ensures ChildrenLater(nodes)
  {
    forall id, pos | 0 <= id < |nodes| && 0 <= pos < |nodes[id].kids| && nodes[id].kids[pos].Child?
      ensures id < nodes[id].kids[pos].id < |nodes|
    {
      assert TilesAt(nodes, end, id);
      TilesOrder(Children(nodes[id].kids), id + 1, end[id], end);
      ChildListed(nodes[id].kids, pos);
    }
  }

  lemma {:induction false} ChildListed(kids: seq<Kid>, pos: nat)
    requires pos < |kids| && kids[pos].Child?
    ensures kids[pos].id in Children(kids)
    decreases |kids|
  {
    if pos < |kids| - 1 { ChildListed(kids[..|kids| - 1], pos); }
  }

  /** One entry on top of a stack. */
  lemma Pushed(nodes: seq<Elem>, stack: seq<(nat, nat)>, id: nat, pos: nat)
    ensures StackText(nodes, stack + [(id, pos)]) == TextFrom(nodes, id, pos) + StackText(nodes, stack)
    ensures StackSteps(nodes, stack + [(id, pos)]) == Steps(nodes, id, pos) + StackSteps(nodes, stack)
  {
    assert (stack + [(id, pos)])[..|stack|] == stack;
  }

  lemma StepIs(nodes: seq<Elem>, id: nat, pos: nat)
    requires ChildrenLater(nodes) && id < |nodes|
    ensures pos >= |nodes[id].kids| ==> TextFrom(nodes, id, pos) == "" && Steps(nodes, id, pos) == 1
    ensures pos < |nodes[id].kids| && nodes[id].kids[pos].Text? ==>
      TextFrom(nodes, id, pos) == nodes[id].kids[pos].text + TextFrom(nodes, id, pos + 1)
      && Steps(nodes, id, pos) == 1 + Steps(nodes, id, pos + 1)
    ensures pos < |nodes[id].kids| && nodes[id].kids[pos].Child? ==>
      var c := nodes[id].kids[pos].id;
      c < |nodes| && TextFrom(nodes, id, pos) == TextFrom(nodes, c, 0) + TextFrom(nodes, id, pos + 1)
      && Steps(nodes, id, pos) == 1 + Steps(nodes, c, 0) + Steps(nodes, id, pos + 1)
  {
  }

  /** The text of a node and everything under it. */
  method NodeText(nodes: seq<Elem>, idx: nat, ghost end: seq<nat>) returns (out: string)
    requires Laid(nodes, end) && idx < |nodes|
    ensures out == TextFrom(nodes, idx, 0)
  {
    hide *;
    LaidChildrenLater(nodes, end);
    out := "";
    var stack: seq<(nat, nat)> := [(idx, 0)];
    Pushed(nodes, [], idx, 0);
    EmptyStack(nodes);
    assert [] + stack == stack;
    while stack != []
      invariant forall s | s in stack :: s.0 < |nodes|
      invariant out + StackText(nodes, stack) == TextFrom(nodes, idx, 0)
      decreases StackSteps(nodes, stack)
    {
      var (at, pos) := stack[|stack| - 1];
      assert stack[|stack| - 1] in stack;
      ghost var whole := stack;
      stack := stack[..|stack| - 1];
      Pushed(nodes, stack, at, pos);
      assert whole == stack + [(at, pos)];
      StepIs(nodes, at, pos);
      if pos >= |nodes[at].kids| {
        continue;
      }
      Pushed(nodes, stack, at, pos + 1);
      stack := stack + [(at, pos + 1)];
      match nodes[at].kids[pos] {
        case Text(text) => out := out + text;
        case Child(c) =>
          Pushed(nodes, stack, c, 0);
          stack := stack + [(c, 0)];
      }
    }
    EmptyStack(nodes);
  }

  lemma EmptyStack(nodes: seq<Elem>)
    ensures StackText(nodes, []) == "" && StackSteps(nodes, []) == 0
  {
  }

  // ------------------------------------- what the arena says is what the tree says

  lemma {:induction false} TextSplits(a: seq<Tree>, b: seq<Tree>)
    ensures TextOfAll(a + b) == TextOfAll(a) + TextOfAll(b)
    decreases |b|
  {
    if b == [] {
      assert a + b == a;
    } else {
      assert (a + b)[..|a + b| - 1] == a + b[..|b| - 1];
      TextSplits(a, b[..|b| - 1]);
    }
  }

  lemma {:induction false} KidAt(ts: seq<Tree>, next: nat, k: nat)
    requires k < |ts|
    ensures KidsOf(ts, next)[k]
      == match ts[k] case Leaf(text) => Text(text) case Tag(_, _, _) => Child(next + SizeAll(ts[..k]))
    decreases |ts|
  {
    if k < |ts| - 1 {
      KidAt(ts[..|ts| - 1], next, k);
      assert ts[..|ts| - 1][..k] == ts[..k];
    }
  }

  lemma {:induction false} LayoutAt(whole: seq<Elem>, ts: seq<Tree>, id: nat, parent: nat, k: nat)
    requires k < |ts| && Occurs(whole, LayoutAll(ts, id, parent), id)
    ensures Occurs(whole, Layout(ts[k], id + SizeAll(ts[..k]), parent), id + SizeAll(ts[..k]))
    decreases |ts|
  {
    var most := ts[..|ts| - 1];
    OccursParts(whole, LayoutAll(most, id, parent), Layout(ts[|ts| - 1], id + SizeAll(most), parent), id);
    if k < |ts| - 1 {
      LayoutAt(whole, most, id, parent, k);
      assert most[..k] == ts[..k];
    }
  }

  /** Where a tree is laid out, the walk reads its text. */
  lemma {:induction false} TextIsTreeText(nodes: seq<Elem>, t: Tree, id: nat, parent: nat)
    requires t.Tag? && Occurs(nodes, Layout(t, id, parent), id)
    ensures TextFrom(nodes, id, 0) == TextOf(t)
    decreases t, |nodes| + 1, 0
  {
    var e := Elem(t.name, t.attrs, Some(parent), KidsOf(t.kids, id + 1));
    OccursParts(nodes, [e], LayoutAll(t.kids, id + 1, id), id);
    assert [e][0] == e;
    assert nodes[id] == e;
    KidsText(nodes, t.kids, id, 0);
    assert t.kids[0..] == t.kids;
  }

  lemma {:induction false} KidsText(nodes: seq<Elem>, ts: seq<Tree>, id: nat, k: nat)
    requires id < |nodes| && nodes[id].kids == KidsOf(ts, id + 1) && k <= |ts|
    requires Occurs(nodes, LayoutAll(ts, id + 1, id), id + 1)
    ensures TextFrom(nodes, id, k) == TextOfAll(ts[k..])
    decreases ts, |ts| - k, 1
  {
    if k < |ts| {
      KidsText(nodes, ts, id, k + 1);
      if ts[k].Tag? {
        LayoutAt(nodes, ts, id + 1, id, k);
        TextIsTreeText(nodes, ts[k], id + 1 + SizeAll(ts[..k]), id);
        LaidWithin(nodes, ts[k], id + 1 + SizeAll(ts[..k]), id);
      }
      hide *;
      KidText(nodes, ts, id, k);
    } else {
      assert ts[k..] == [];
    }
  }

  lemma LaidWithin(nodes: seq<Elem>, t: Tree, id: nat, parent: nat)
    requires t.Tag? && Occurs(nodes, Layout(t, id, parent), id)
    ensures id < |nodes|
  {
  }

  /** The text from one kid on. */
  lemma KidText(nodes: seq<Elem>, ts: seq<Tree>, id: nat, k: nat)
    requires id < |nodes| && nodes[id].kids == KidsOf(ts, id + 1) && k < |ts|
    requires TextFrom(nodes, id, k + 1) == TextOfAll(ts[k + 1..])
    requires
      var c := id + 1 + SizeAll(ts[..k]);
      ts[k].Tag? ==> c < |nodes| && TextFrom(nodes, c, 0) == TextOf(ts[k])
    ensures TextFrom(nodes, id, k) == TextOfAll(ts[k..])
  {
    hide TextOf, TextOfAll, KidsOf, SizeAll;
    KidAt(ts, id + 1, k);
    FirstText(ts, k);
  }

  lemma FirstText(ts: seq<Tree>, k: nat)
    requires k < |ts|
    ensures TextOfAll(ts[k..]) == TextOf(ts[k]) + TextOfAll(ts[k + 1..])
    ensures ts[k].Leaf? ==> TextOf(ts[k]) == ts[k].text
  {
    assert ts[k..] == [ts[k]] + ts[k + 1..];
    TextSplits([ts[k]], ts[k + 1..]);
    assert [ts[k]][..0] == [];
    assert TextOfAll([ts[k]]) == "" + TextOf(ts[k]) == TextOf(ts[k]);
  }

  /** The text of a whole document is its tree's. */
  lemma DocumentText(t: Tree)
    requires t.Tag?
    ensures TextFrom(Document(t), 0, 0) == TextOf(t)
  {
    KidsText(Document(t), [t], 0, 0);
    assert [t][0..] == [t] && [t][..0] == [];
  }

  /** Every element of a laid-out tree is where a subtree is laid out. */
  lemma {:induction false} SubtreeAt(nodes: seq<Elem>, t: Tree, id: nat, parent: nat, k: nat) returns (s: Tree, p: nat)
    requires t.Tag? && Occurs(nodes, Layout(t, id, parent), id) && id <= k < id + Size(t)
    ensures s.Tag? && Occurs(nodes, Layout(s, k, p), k)
    decreases t
  {
    if k == id {
      s, p := t, parent;
    } else {
      var e := Elem(t.name, t.attrs, Some(parent), KidsOf(t.kids, id + 1));
      OccursParts(nodes, [e], LayoutAll(t.kids, id + 1, id), id);
      s, p := SubtreeIn(nodes, t.kids, id + 1, id, k);
    }
  }

  lemma {:induction false} SubtreeIn(nodes: seq<Elem>, ts: seq<Tree>, id: nat, parent: nat, k: nat)
    returns (s: Tree, p: nat)
    requires Occurs(nodes, LayoutAll(ts, id, parent), id) && id <= k < id + SizeAll(ts)
    ensures s.Tag? && Occurs(nodes, Layout(s, k, p), k)
    decreases ts
  {
    var most, last := ts[..|ts| - 1], ts[|ts| - 1];
    OccursParts(nodes, LayoutAll(most, id, parent), Layout(last, id + SizeAll(most), parent), id);
    if k < id + SizeAll(most) {
      s, p := SubtreeIn(nodes, most, id, parent, k);
    } else {
      s, p := SubtreeAt(nodes, last, id + SizeAll(most), parent, k);
    }
  }

  /** So the text of any node is the text of the subtree laid out there. */
  lemma EveryNodeText(t: Tree, k: nat)
    requires t.Tag? && 0 < k < |Document(t)|
    ensures exists s: Tree, p: nat ::
      s.Tag? && Occurs(Document(t), Layout(s, k, p), k) && TextFrom(Document(t), k, 0) == TextOf(s)
  {
    var s, p := SubtreeIn(Document(t), [t], 1, 0, k);
    TextIsTreeText(Document(t), s, k, p);
  }
}
