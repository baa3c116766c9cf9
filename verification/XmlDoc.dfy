/** The parser as it is implemented: events push elements into an arena, with a
    stack of the ids still open. The arena always lays out the trees of the open
    elements, so what parses is laid out in document order. */
module XmlDoc {
  import opened Prelude
  import opened XmlTree

  // The elements still open, outermost first, are laid out one after another: each
  // with what it has so far, then its innermost open child.

  ghost function Here(f: Frame, id: nat, parent: Option<nat>, last: seq<Kid>): (r: seq<Elem>)
    ensures |r| == 1 + SizeAll(f.kids)
  {
    [Elem(f.name, f.attrs, parent, KidsOf(f.kids, id + 1) + last)] + LayoutAll(f.kids, id + 1, id)
  }

  /** The nodes of elements that all have a further open child. */
  ghost function Outer(fs: seq<Frame>): (r: seq<Elem>)
    ensures |r| >= |fs|
    decreases |fs|
  {
    if fs == [] then [] else
      var most, f := fs[..|fs| - 1], fs[|fs| - 1];
      var id := |Outer(most)|;
      Outer(most) + Here(f, id, InnermostId(most), [Child(id + 1 + SizeAll(f.kids))])
  }

  ghost function InnermostId(fs: seq<Frame>): Option<nat>
    decreases |fs|, 0
  {
    if fs == [] then None else Some(|Outer(fs[..|fs| - 1])|)
  }

  ghost function TopId(fs: seq<Frame>): nat
    requires fs != []
  {
    InnermostId(fs).value
  }

  /** The whole arena while the elements `fs` are open. */
  ghost function Arena(fs: seq<Frame>): (r: seq<Elem>)
    requires fs != []
  {
    ArenaOf(fs[..|fs| - 1], fs[|fs| - 1])
  }

  ghost function ArenaOf(most: seq<Frame>, f: Frame): (r: seq<Elem>)
    ensures |r| == |Outer(most)| + 1 + SizeAll(f.kids)
  {
    Outer(most) + Here(f, |Outer(most)|, InnermostId(most), [])
  }

  lemma Split(most: seq<Frame>, f: Frame)
    ensures Arena(most + [f]) == ArenaOf(most, f) && TopId(most + [f]) == |Outer(most)|
    ensures Outer(most + [f]) == Outer(most) + Here(f, |Outer(most)|, InnermostId(most), [Child(|ArenaOf(most, f)|)])
  {
    assert (most + [f])[..|most|] == most;
    hide Here, Outer;
    OuterOn(most, f);
  }

  lemma OuterOn(most: seq<Frame>, f: Frame)
    ensures Outer(most + [f]) == Outer(most) + Here(f, |Outer(most)|, InnermostId(most), [Child(|ArenaOf(most, f)|)])
  {
    assert (most + [f])[..|most|] == most;
    hide Here, ArenaOf, InnermostId;
  }

  lemma ArenaTop(fs: seq<Frame>)
    requires fs != []
    ensures
      var at, f := TopId(fs), fs[|fs| - 1];
      && at < |Arena(fs)|
      && (at == 0 <==> |fs| == 1)
      && Arena(fs)[at] == Elem(f.name, f.attrs, InnermostId(fs[..|fs| - 1]), KidsOf(f.kids, at + 1))
  {
    var f := fs[|fs| - 1];
    assert KidsOf(f.kids, TopId(fs) + 1) + [] == KidsOf(f.kids, TopId(fs) + 1);
    assert |fs| == 1 ==> fs[..0] == [];
  }

  /** A new last element, listed as a child of the one at `at`. */
  function Attached(nodes: seq<Elem>, at: nat, name: string, attrs: Attrs): seq<Elem>
    requires at < |nodes|
  {
    nodes[at := nodes[at].(kids := nodes[at].kids + [Child(|nodes|)])] + [Elem(name, attrs, Some(at), [])]
  }

  lemma OpeningAttaches(most: seq<Frame>, f: Frame, name: string, attrs: Attrs)
    ensures
      var nodes, at := ArenaOf(most, f), |Outer(most)|;
      && TopId(most + [f, Frame(name, attrs, [])]) == |nodes|
      && Arena(most + [f, Frame(name, attrs, [])]) == Attached(nodes, at, name, attrs)
  {
    var fs, g := most + [f], Frame(name, attrs, []);
    Split(fs, g);
    Split(most, f);
    assert fs + [g] == most + [f, g] && fs[..|most|] == most;
    var nodes, at := ArenaOf(most, f), |Outer(most)|;
    HereBare(g, |nodes|, Some(at));
    assert InnermostId(fs) == Some(at);
    hide Arena, TopId, InnermostId, KidsOf, LayoutAll, Outer, Here;
    HereGainsChild(f, at, InnermostId(most), Child(|nodes|));
    UpdatedPast(Outer(most), Here(f, at, InnermostId(most), []), nodes[at].(kids := nodes[at].kids + [Child(|nodes|)]));
  }

  lemma HereBare(f: Frame, id: nat, parent: Option<nat>)
    requires f.kids == []
    ensures Here(f, id, parent, []) == [Elem(f.name, f.attrs, parent, [])]
  {
    var ks: seq<Kid> := KidsOf(f.kids, id + 1) + [];
    assert ks == [];
    assert Here(f, id, parent, []) == [Elem(f.name, f.attrs, parent, ks)] + LayoutAll(f.kids, id + 1, id);
  }

  lemma HereGainsChild(f: Frame, id: nat, parent: Option<nat>, k: Kid)
    ensures
      var r := Here(f, id, parent, []);
      Here(f, id, parent, [k]) == r[0 := r[0].(kids := r[0].kids + [k])]
  {
    assert KidsOf(f.kids, id + 1) + [] == KidsOf(f.kids, id + 1);
  }

  lemma UpdatedPast(a: seq<Elem>, b: seq<Elem>, e: Elem)
    requires b != []
    ensures (a + b)[|a| := e] == a + b[0 := e] && (a + b)[|a|] == b[0]
  {
  }

  /** Closing an element changes no node: its tree is laid out where it was built. */
  lemma ClosingKeeps(outer: seq<Frame>, f: Frame, g: Frame)
    ensures Closed(outer + [f, g]) == outer + [f.(kids := f.kids + [Tag(g.name, g.attrs, g.kids)])]
    ensures Arena(Closed(outer + [f, g])) == Arena(outer + [f, g])
    ensures TopId(Closed(outer + [f, g])) == TopId(outer + [f])
  {
    hide Arena, TopId, Closed, Outer, Here, KidsOf, LayoutAll;
    var fs, c := outer + [f, g], f.(kids := f.kids + [Tag(g.name, g.attrs, g.kids)]);
    assert fs == (outer + [f]) + [g] && fs[..|fs| - 1] == outer + [f] && (outer + [f])[..|outer|] == outer;
    Split(outer + [f], g);
    Split(outer, f);
    Split(outer, c);
    assert InnermostId(outer + [f]) == Some(|Outer(outer)|);
    ClosedIs(outer, f, g);
    ClosingHere(f, g, |Outer(outer)|, InnermostId(outer));
    assert |ArenaOf(outer, f)| == |Outer(outer)| + 1 + SizeAll(f.kids);
  }

  lemma ClosedIs(outer: seq<Frame>, f: Frame, g: Frame)
    ensures Closed(outer + [f, g]) == outer + [f.(kids := f.kids + [Tag(g.name, g.attrs, g.kids)])]
  {
    assert (outer + [f, g])[..|outer| + 1] == outer + [f];
    OnTopIs(outer + [f], f.kids + [Tag(g.name, g.attrs, g.kids)]);
  }

  lemma ClosingHere(f: Frame, g: Frame, id: nat, parent: Option<nat>)
    ensures
      var next := id + 1 + SizeAll(f.kids);
      Here(f.(kids := f.kids + [Tag(g.name, g.attrs, g.kids)]), id, parent, [])
        == Here(f, id, parent, [Child(next)]) + Here(g, next, Some(id), [])
  {
    var t, next := Tag(g.name, g.attrs, g.kids), id + 1 + SizeAll(f.kids);
    var more := f.kids + [t];
    assert more[..|more| - 1] == f.kids;
    assert KidsOf(g.kids, next + 1) + [] == KidsOf(g.kids, next + 1);
    assert KidsOf(more, id + 1) + [] == KidsOf(f.kids, id + 1) + [Child(next)];
    assert LayoutAll(more, id + 1, id) == LayoutAll(f.kids, id + 1, id) + Here(g, next, Some(id), []);
  }

  function KidsWithText(kids: seq<Kid>, text: string): seq<Kid> {
    if text == "" then kids
    else if kids != [] && kids[|kids| - 1].Text? then kids[..|kids| - 1] + [Text(kids[|kids| - 1].text + text)]
    else kids + [Text(text)]
  }

  lemma TextTakesNoRoom(kids: seq<Tree>, text: string, id: nat)
    ensures SizeAll(WithText(kids, text)) == SizeAll(kids)
    ensures KidsOf(WithText(kids, text), id) == KidsWithText(KidsOf(kids, id), text)
    ensures forall parent: nat :: LayoutAll(WithText(kids, text), id, parent) == LayoutAll(kids, id, parent)
  {
    var r := WithText(kids, text);
    if text != "" {
      if kids != [] && kids[|kids| - 1].Leaf? {
        assert r[..|r| - 1] == kids[..|kids| - 1];
      } else {
        assert r[..|r| - 1] == kids;
      }
    }
  }

  function Texted(nodes: seq<Elem>, at: nat, text: string): seq<Elem>
    requires at < |nodes|
  {
    nodes[at := nodes[at].(kids := KidsWithText(nodes[at].kids, text))]
  }

  lemma TextGoesInPlace(most: seq<Frame>, f: Frame, text: string)
    ensures ArenaOf(most, f.(kids := WithText(f.kids, text))) == Texted(ArenaOf(most, f), |Outer(most)|, text)
  {
    var id, parent := |Outer(most)|, InnermostId(most);
    var g := f.(kids := WithText(f.kids, text));
    TextTakesNoRoom(f.kids, text, id + 1);
    assert KidsOf(f.kids, id + 1) + [] == KidsOf(f.kids, id + 1)
      && KidsOf(g.kids, id + 1) + [] == KidsOf(g.kids, id + 1);
    var here := Here(f, id, parent, []);
    assert Here(g, id, parent, []) == here[0 := here[0].(kids := KidsWithText(here[0].kids, text))];
    hide Here, KidsWithText, WithText, KidsOf;
    UpdatedPast(Outer(most), here, here[0].(kids := KidsWithText(here[0].kids, text)));
  }

  ghost predicate OpenAt(id: nat, fs: seq<Frame>, i: nat) { i < |fs| && id == TopId(fs[..i + 1]) }

  lemma OpenBelow(id: nat, fs: seq<Frame>, gs: seq<Frame>, i: nat)
    requires OpenAt(id, fs, i) && i < |gs| && fs[..i + 1] == gs[..i + 1]
    ensures OpenAt(id, gs, i)
  {
  }

  /** Elements below the innermost keep their ids when only it changes. */
  lemma SameBelow(stack: seq<nat>, fs: seq<Frame>, gs: seq<Frame>, n: nat)
    requires |stack| >= n && n <= |fs| && n <= |gs| && fs[..n] == gs[..n]
    requires forall i | 0 <= i < |stack| :: OpenAt(stack[i], fs, i)
    ensures forall i | 0 <= i < n :: OpenAt(stack[i], gs, i)
  {
    forall i | 0 <= i < n ensures OpenAt(stack[i], gs, i) {
      assert fs[..i + 1] == fs[..n][..i + 1] && gs[..i + 1] == gs[..n][..i + 1];
      OpenBelow(stack[i], fs, gs, i);
    }
  }

  /** The arena and stack of the open elements. */
  ghost predicate Holds(nodes: seq<Elem>, stack: seq<nat>, fs: seq<Frame>) {
    && fs != [] && nodes == Arena(fs)
    && |stack| == |fs| && forall i | 0 <= i < |stack| :: OpenAt(stack[i], fs, i)
  }

  lemma HoldsHere(nodes: seq<Elem>, stack: seq<nat>, fs: seq<Frame>)
    requires Holds(nodes, stack, fs)
    ensures |stack| == |fs| > 0 && stack[|stack| - 1] == TopId(fs) < |nodes|
    ensures stack[|stack| - 1] == 0 <==> |fs| == 1
    ensures nodes[stack[|stack| - 1]].name == fs[|fs| - 1].name
    ensures |fs| == 1 ==> (nodes[0].kids == [] <==> fs[0].kids == [])
  {
    ArenaTop(fs);
    assert OpenAt(stack[|stack| - 1], fs, |fs| - 1);
    assert fs[..|fs|] == fs;
  }

  lemma HoldsOpened(nodes: seq<Elem>, stack: seq<nat>, fs: seq<Frame>, name: string, attrs: Attrs)
    requires Holds(nodes, stack, fs) && |stack| > 0 && stack[|stack| - 1] < |nodes|
    ensures Holds(Attached(nodes, stack[|stack| - 1], name, attrs), stack + [|nodes|], fs + [Frame(name, attrs, [])])
  {
    hide Arena, ArenaOf, TopId, Outer, Attached, InnermostId, Here;
    HoldsHere(nodes, stack, fs);
    var most, f, g := fs[..|fs| - 1], fs[|fs| - 1], Frame(name, attrs, []);
    var gs := fs + [g];
    OpeningAttaches(most, f, name, attrs);
    Split(most, f);
    assert fs == most + [f] && gs == most + [f, g] && fs[..|fs|] == fs == gs[..|fs|] && gs[..|gs|] == gs;
    SameBelow(stack, fs, gs, |fs|);
  }

  lemma HoldsClosed(nodes: seq<Elem>, stack: seq<nat>, fs: seq<Frame>)
    requires Holds(nodes, stack, fs) && |fs| > 1 && |stack| > 0
    ensures Holds(nodes, stack[..|stack| - 1], Closed(fs))
  {
    hide Arena, TopId, Closed, Outer, InnermostId, Here, ArenaOf;
    var outer, f, g := fs[..|fs| - 2], fs[|fs| - 2], fs[|fs| - 1];
    ClosingKeeps(outer, f, g);
    assert fs == outer + [f, g];
    var cs := Closed(fs);
    assert cs[..|outer|] == outer == fs[..|outer|] && cs[..|cs|] == cs && fs[..|outer| + 1] == outer + [f];
    SameBelow(stack, fs, cs, |outer|);
    assert OpenAt(stack[|outer|], fs, |outer|);
  }

  lemma HoldsEmptied(nodes: seq<Elem>, stack: seq<nat>, fs: seq<Frame>, name: string, attrs: Attrs)
    requires Holds(nodes, stack, fs) && |stack| > 0 && stack[|stack| - 1] < |nodes|
    ensures Holds(Attached(nodes, stack[|stack| - 1], name, attrs), stack,
      OnTop(fs, fs[|fs| - 1].kids + [Tag(name, attrs, [])]))
  {
    var gs := fs + [Frame(name, attrs, [])];
    assert gs[..|fs|] == fs;
    assert Closed(gs) == OnTop(fs, fs[|fs| - 1].kids + [Tag(name, attrs, [])]);
    HoldsHere(nodes, stack, fs);
    hide Holds, Closed, OnTop;
    HoldsOpened(nodes, stack, fs, name, attrs);
    HoldsClosed(Attached(nodes, stack[|stack| - 1], name, attrs), stack + [|nodes|], gs);
    assert (stack + [|nodes|])[..|stack|] == stack;
  }

  lemma HoldsTexted(nodes: seq<Elem>, stack: seq<nat>, fs: seq<Frame>, text: string)
    requires Holds(nodes, stack, fs) && |stack| > 0 && stack[|stack| - 1] < |nodes|
    ensures Holds(Texted(nodes, stack[|stack| - 1], text), stack, OnTop(fs, WithText(fs[|fs| - 1].kids, text)))
  {
    hide *;
    HoldsHere(nodes, stack, fs);
    var most, f := fs[..|fs| - 1], fs[|fs| - 1];
    var g := f.(kids := WithText(f.kids, text));
    assert fs == most + [f];
    OnTopIs(fs, g.kids);
    TextGoesInPlace(most, f, text);
    Split(most, f);
    Split(most, g);
    OpenHolds(nodes, stack, fs);
    CloseHolds(Texted(nodes, stack[|stack| - 1], text), stack, fs, most + [g]);
  }

  lemma OpenHolds(nodes: seq<Elem>, stack: seq<nat>, fs: seq<Frame>)
    requires Holds(nodes, stack, fs)
    ensures fs != [] && nodes == Arena(fs) && |stack| == |fs| && stack[|fs| - 1] == TopId(fs)
    ensures forall i | 0 <= i < |stack| :: OpenAt(stack[i], fs, i)
  {
    assert OpenAt(stack[|fs| - 1], fs, |fs| - 1);
    assert fs[..|fs|] == fs;
  }

  lemma CloseHolds(nodes: seq<Elem>, stack: seq<nat>, fs: seq<Frame>, gs: seq<Frame>)
    requires |fs| == |gs| == |stack| > 0 && gs[..|gs| - 1] == fs[..|fs| - 1]
    requires forall i | 0 <= i < |stack| :: OpenAt(stack[i], fs, i)
    requires nodes == Arena(gs) && stack[|gs| - 1] == TopId(gs)
    ensures Holds(nodes, stack, gs)
  {
    hide Arena, TopId, Outer, InnermostId;
    SameBelow(stack, fs, gs, |gs| - 1);
    assert gs[..|gs|] == gs;
  }

  lemma OnTopIs(fs: seq<Frame>, kids: seq<Tree>)
    requires fs != []
    ensures OnTop(fs, kids) == fs[..|fs| - 1] + [fs[|fs| - 1].(kids := kids)]
  {
  }

  lemma HoldsBlank()
    ensures Holds([Elem("", [], None, [])], [0], BLANK)
  {
    var f := Frame("", [], []);
    Split([], f);
    assert [] + [f] == BLANK && BLANK[..1] == BLANK;
    HereBare(f, 0, None);
  }

  lemma HoldsDocument(nodes: seq<Elem>, stack: seq<nat>, fs: seq<Frame>)
    requires Holds(nodes, stack, fs) && |fs| == 1 && |fs[0].kids| == 1 && fs[0].name == "" && fs[0].attrs == []
    ensures nodes == Document(fs[0].kids[0])
  {
    Split([], fs[0]);
    assert [] + [fs[0]] == fs && fs[0].kids == [fs[0].kids[0]];
    assert KidsOf(fs[0].kids, 1) + [] == KidsOf(fs[0].kids, 1);
  }

  predicate DocumentFirst(fs: seq<Frame>) { fs != [] && fs[0].name == "" && fs[0].attrs == [] && NormalFrames(fs) }

  lemma TookDocumentFirst(fs: seq<Frame>, e: Event)
    requires DocumentFirst(fs) && Took(fs, e).Ok?
    ensures DocumentFirst(Took(fs, e).value)
  {
    TookKeepsNormal(fs, e);
    hide NormalFrames;
  }

  lemma DocumentDone(fs: seq<Frame>)
    requires DocumentFirst(fs) && |fs| == 1 && fs[0].kids != []
    ensures |fs[0].kids| == 1
  {
  }

  lemma TookNext(fs: seq<Frame>, es: seq<Event>, k: nat)
    requires fs != [] && k < |es|
    ensures TookAll(fs, es[k..]) == match Took(fs, es[k]) case Err(e) => Err(e) case Ok(gs) => TookAll(gs, es[k + 1..])
  {
    assert es[k..][1..] == es[k + 1..];
  }

  class Doc {
    var nodes: seq<Elem>

    constructor ()
      ensures nodes == [Elem("", [], None, [])]
    {
      nodes := [Elem("", [], None, [])];
    }

    method PushText(at: nat, text: string)
      requires at < |nodes|
      modifies this
      ensures nodes == Texted(old(nodes), at, text)
    {
      if text == "" {
        return;
      }
      var kids := nodes[at].kids;
      assert nodes == nodes[at := nodes[at]];
      if kids != [] && kids[|kids| - 1].Text? {
        kids := kids[..|kids| - 1] + [Text(kids[|kids| - 1].text + text)];
      } else {
        kids := kids + [Text(text)];
      }
      nodes := nodes[at := nodes[at].(kids := kids)];
    }

    /** A new element under `parent`; nothing changes if its attributes are bad. */
    method Open(parent: nat, name: string, attrs: Option<Attrs>) returns (id: Option<nat>)
      requires parent < |nodes|
      modifies this
      ensures id == if attrs.Some? then Some(|old(nodes)|) else None
      ensures nodes == if attrs.Some? then Attached(old(nodes), parent, name, attrs.value) else old(nodes)
    {
      if attrs.None? {
        return None;
      }
      var new' := |nodes|;
      nodes := nodes + [Elem(name, attrs.value, Some(parent), [])];
      nodes := nodes[parent := nodes[parent].(kids := nodes[parent].kids + [Child(new')])];
      return Some(new');
    }
  }

  /** Build the document, or say why not. */
  method Parse(events: seq<Event>) returns (r: Result<Doc, XmlError>)
    ensures r.Ok? ==> fresh(r.value)
    ensures match Parsed(events)
      case Ok(t) => r.Ok? && r.value.nodes == Document(t)
      case Err(e) => r == Err(e)
  {
    hide *;
    var doc := new Doc();
    var stack: seq<nat> := [0];
    ghost var fs := BLANK;
    ParsedIs(events);
    HoldsBlank();
    var k := 0;
    while k < |events|
      invariant k <= |events| && fresh(doc)
      invariant fs != [] && Holds(doc.nodes, stack, fs) && DocumentFirst(fs)
      invariant TookAll(BLANK, events) == TookAll(fs, events[k..])
    {
      HoldsHere(doc.nodes, stack, fs);
      TookNext(fs, events, k);
      TookIs(fs, events[k]);
      if Took(fs, events[k]).Ok? { TookDocumentFirst(fs, events[k]); }
      var at := stack[|stack| - 1];
      match events[k] {
        case StartTag(name, attrs) =>
          if at == 0 && doc.nodes[0].kids != [] {
            return Err(SecondRoot);
          }
          if attrs.Some? { HoldsOpened(doc.nodes, stack, fs, name, attrs.value); }
          var id := doc.Open(at, name, attrs);
          if id.None? {
            return Err(BadAttributes);
          }
          stack := stack + [id.value];
        case EmptyTag(name, attrs) =>
          if at == 0 && doc.nodes[0].kids != [] {
            return Err(SecondRoot);
          }
          if attrs.Some? { HoldsEmptied(doc.nodes, stack, fs, name, attrs.value); }
          var id := doc.Open(at, name, attrs);
          if id.None? {
            return Err(BadAttributes);
          }
        case EndTag =>
          if |stack| > 1 {
            HoldsClosed(doc.nodes, stack, fs);
            stack := stack[..|stack| - 1];
          }
        case Characters(text) =>
          if at != 0 {
            HoldsTexted(doc.nodes, stack, fs, text);
            doc.PushText(at, text);
          }
        case Ignored =>
        case Broken => return Err(ReaderError);
      }
      fs := Took(fs, events[k]).value;
      k := k + 1;
    }
    HoldsHere(doc.nodes, stack, fs);
    TookNone(fs, events[k..]);
    FinishedIs(fs);
    if |stack| > 1 {
      return Err(Unclosed(doc.nodes[stack[|stack| - 1]].name));
    }
    if doc.nodes[0].kids == [] {
      return Err(NoRoot);
    }
    DocumentDone(fs);
    DocumentNamed(fs);
    HoldsDocument(doc.nodes, stack, fs);
    return Ok(doc);
  }

  lemma ParsedIs(es: seq<Event>)
    ensures Parsed(es) == match TookAll(BLANK, es) case Err(e) => Err(e) case Ok(fs) => Finished(fs)
    ensures DocumentFirst(BLANK) && es[0..] == es
  {
  }

  lemma TookNone(fs: seq<Frame>, es: seq<Event>)
    requires fs != [] && es == []
    ensures TookAll(fs, es) == Ok(fs)
  {
  }

  lemma TookIs(fs: seq<Frame>, e: Event)
    requires fs != []
    ensures Took(fs, e) == match e
      case StartTag(name, attrs) =>
        if |fs| == 1 && fs[0].kids != [] then Err(SecondRoot)
        else if attrs.None? then Err(BadAttributes)
        else Ok(fs + [Frame(name, attrs.value, [])])
      case EmptyTag(name, attrs) =>
        if |fs| == 1 && fs[0].kids != [] then Err(SecondRoot)
        else if attrs.None? then Err(BadAttributes)
        else Ok(OnTop(fs, fs[|fs| - 1].kids + [Tag(name, attrs.value, [])]))
      case EndTag => Ok(if |fs| > 1 then Closed(fs) else fs)
      case Characters(text) => Ok(if |fs| > 1 then OnTop(fs, WithText(fs[|fs| - 1].kids, text)) else fs)
      case Ignored => Ok(fs)
      case Broken => Err(ReaderError)
  {
  }

  lemma FinishedIs(fs: seq<Frame>)
    requires fs != []
    ensures Finished(fs) ==
      if |fs| > 1 then Err(Unclosed(fs[|fs| - 1].name)) else if fs[0].kids == [] then Err(NoRoot) else Ok(fs[0].kids[0])
  {
  }

  lemma DocumentNamed(fs: seq<Frame>)
    requires DocumentFirst(fs)
    ensures fs != [] && fs[0].name == "" && fs[0].attrs == []
  {
  }
}
