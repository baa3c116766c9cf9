/** `lur.xml` trees: what a document denotes, how it is laid out in the arena, and
    the parser that builds the arena from the reader's events. */
module XmlTree {
  import opened Prelude

  type Attrs = seq<(string, string)>

  datatype Tree = Leaf(text: string) | Tag(name: string, attrs: Attrs, kids: seq<Tree>)

  // ------------------------------------------------------------- the arena

  datatype Kid = Text(text: string) | Child(id: nat)

  datatype Elem = Elem(name: string, attrs: Attrs, parent: Option<nat>, kids: seq<Kid>)

  /** Elements in a tree, and in a list of trees. */
  function Size(t: Tree): nat
    decreases t
  {
    match t case Leaf(_) => 0 case Tag(_, _, kids) => 1 + SizeAll(kids)
  }

  function SizeAll(ts: seq<Tree>): nat
    decreases ts
  {
    if ts == [] then 0 else SizeAll(ts[..|ts| - 1]) + Size(ts[|ts| - 1])
  }

  /** The child list of an element whose first child element gets id `next`. */
  function KidsOf(ts: seq<Tree>, next: nat): (ks: seq<Kid>)
    ensures |ks| == |ts|
  {
    if ts == [] then [] else
      var most := ts[..|ts| - 1];
      KidsOf(most, next) + match ts[|ts| - 1]
        case Leaf(text) => [Text(text)]
        case Tag(_, _, _) => [Child(next + SizeAll(most))]
  }

  /** A tree laid out from id `id`, in document order. */
  function Layout(t: Tree, id: nat, parent: nat): (r: seq<Elem>)
    ensures |r| == Size(t)
    decreases t
  {
    match t
    case Leaf(_) => []
    case Tag(name, attrs, kids) => [Elem(name, attrs, Some(parent), KidsOf(kids, id + 1))] + LayoutAll(kids, id + 1, id)
  }

  function LayoutAll(ts: seq<Tree>, id: nat, parent: nat): (r: seq<Elem>)
    ensures |r| == SizeAll(ts)
    decreases ts
  {
    if ts == [] then [] else
      var most := ts[..|ts| - 1];
      LayoutAll(most, id, parent) + Layout(ts[|ts| - 1], id + SizeAll(most), parent)
  }

  /** The whole document: node 0 holds the root element. */
  function Document(root: Tree): seq<Elem> {
    [Elem("", [], None, KidsOf([root], 1))] + LayoutAll([root], 1, 0)
  }

  // ---------------------------------------------------------------- text

  /** All text under a tree, in document order. */
  function TextOf(t: Tree): string
    decreases t
  {
    match t case Leaf(text) => text case Tag(_, _, kids) => TextOfAll(kids)
  }

  function TextOfAll(ts: seq<Tree>): string
    decreases ts
  {
    if ts == [] then "" else TextOfAll(ts[..|ts| - 1]) + TextOf(ts[|ts| - 1])
  }

  /** Text goes onto the text before it; empty text goes nowhere. */
  function WithText(kids: seq<Tree>, text: string): seq<Tree> {
    if text == "" then kids
    else if kids != [] && kids[|kids| - 1].Leaf? then kids[..|kids| - 1] + [Leaf(kids[|kids| - 1].text + text)]
    else kids + [Leaf(text)]
  }

  predicate IsNormal(t: Tree)
    decreases t
  {
    match t case Leaf(text) => text != "" case Tag(_, _, kids) => AllNormal(kids)
  }

  /** No empty text and no two texts side by side, at any depth. */
  predicate AllNormal(ts: seq<Tree>)
    decreases ts
  {
    ts == [] ||
    (AllNormal(ts[..|ts| - 1]) && IsNormal(ts[|ts| - 1])
     && !(ts[|ts| - 1].Leaf? && |ts| > 1 && ts[|ts| - 2].Leaf?))
  }

  /** The tree with adjacent text merged and empty text dropped. */
  function Normal(t: Tree): Tree
    decreases t
  {
    match t case Leaf(_) => t case Tag(name, attrs, kids) => Tag(name, attrs, NormalAll(kids))
  }

  function NormalAll(ts: seq<Tree>): seq<Tree>
    decreases ts
  {
    if ts == [] then [] else
      var most := NormalAll(ts[..|ts| - 1]);
      match ts[|ts| - 1]
      case Leaf(text) => WithText(most, text)
      case Tag(_, _, _) => most + [Normal(ts[|ts| - 1])]
  }

  lemma WithTextKeeps(kids: seq<Tree>, text: string)
    requires AllNormal(kids)
    ensures AllNormal(WithText(kids, text))
    ensures TextOfAll(WithText(kids, text)) == TextOfAll(kids) + text
  {
    if text == "" {
      assert TextOfAll(kids) + text == TextOfAll(kids);
    } else if kids != [] && kids[|kids| - 1].Leaf? {
      var r := WithText(kids, text);
      assert r[..|r| - 1] == kids[..|kids| - 1];
      assert |kids| > 1 ==> r[|r| - 2] == kids[|kids| - 2];
    } else {
      assert (kids + [Leaf(text)])[..|kids|] == kids;
    }
  }

  /** Normalizing really does: the result is normal, with the same text. */
  lemma {:induction false} NormalizesAll(ts: seq<Tree>)
    ensures AllNormal(NormalAll(ts)) && TextOfAll(NormalAll(ts)) == TextOfAll(ts)
    decreases ts
  {
    if ts != [] {
      var most, last := ts[..|ts| - 1], ts[|ts| - 1];
      NormalizesAll(most);
      match last
      case Leaf(text) => WithTextKeeps(NormalAll(most), text);
      case Tag(name, attrs, kids) =>
        NormalizesAll(kids);
        var r := NormalAll(most) + [Normal(last)];
        assert r[..|r| - 1] == NormalAll(most);
    }
  }

  /** And it leaves a normal tree alone. */
  lemma {:induction false} NormalIsFixed(ts: seq<Tree>)
    requires AllNormal(ts)
    ensures NormalAll(ts) == ts
    decreases ts
  {
    if ts != [] {
      var most, last := ts[..|ts| - 1], ts[|ts| - 1];
      NormalIsFixed(most);
      if last.Tag? { NormalIsFixed(last.kids); }
      assert ts == most + [last];
    }
  }

  // ------------------------------------------------------------- parsing

  /** What the reader delivers. Text, CDATA and references all deliver characters;
      `BadAttrs` is a tag whose attributes do not parse. */
  datatype Event =
    | StartTag(name: string, attrs: Option<Attrs>)
    | EmptyTag(name: string, attrs: Option<Attrs>)
    | EndTag
    | Characters(text: string)
    | Ignored
    | Broken

  datatype XmlError = ReaderError | BadAttributes | SecondRoot | Unclosed(name: string) | NoRoot

  /** An element still open: what it has so far. */
  datatype Frame = Frame(name: string, attrs: Attrs, kids: seq<Tree>)

  function OnTop(fs: seq<Frame>, kids: seq<Tree>): seq<Frame>
    requires fs != []
  {
    fs[..|fs| - 1] + [fs[|fs| - 1].(kids := kids)]
  }

  /** Close the innermost open element. */
  function Closed(fs: seq<Frame>): seq<Frame>
    requires |fs| > 1
  {
    var f := fs[|fs| - 1];
    OnTop(fs[..|fs| - 1], fs[|fs| - 2].kids + [Tag(f.name, f.attrs, f.kids)])
  }

  /** One event, on trees: the parser `Doc.Parse` is proved against. The first frame
      is the document. */
  function Took(fs: seq<Frame>, e: Event): Result<seq<Frame>, XmlError>
    requires fs != []
    ensures Took(fs, e).Ok? ==> Took(fs, e).value != []
  {
    match e
    case StartTag(name, attrs) =>
      if |fs| == 1 && fs[0].kids != [] then Err(SecondRoot)
      else if attrs.None? then Err(BadAttributes)
      else Ok(fs + [Frame(name, attrs.value, [])])
    case EmptyTag(name, attrs) =>
      if |fs| == 1 && fs[0].kids != [] then Err(SecondRoot)
      else if attrs.None? then Err(BadAttributes)
      else Ok(OnTop(fs, fs[|fs| - 1].kids + [Tag(name, attrs.value, [])]))
    case EndTag => Ok(if |fs| > 1 then Closed(fs) else fs)
    case Characters(text) => Ok(if |fs| > 1 then OnTop(fs, WithText(fs[|fs| - 1].kids, text)) else fs)
    case Ignored => Ok(fs)
    case Broken => Err(ReaderError)
  }

  function TookAll(fs: seq<Frame>, es: seq<Event>): Result<seq<Frame>, XmlError>
    requires fs != []
    ensures TookAll(fs, es).Ok? ==> TookAll(fs, es).value != []
    decreases |es|
  {
    if es == [] then Ok(fs) else
      match Took(fs, es[0])
      case Err(e) => Err(e)
      case Ok(gs) => TookAll(gs, es[1..])
  }

  const BLANK: seq<Frame> := [Frame("", [], [])]

  function Finished(fs: seq<Frame>): Result<Tree, XmlError>
    requires fs != []
  {
    if |fs| > 1 then Err(Unclosed(fs[|fs| - 1].name))
    else if fs[0].kids == [] then Err(NoRoot)
    else Ok(fs[0].kids[0])
  }

  function Parsed(es: seq<Event>): Result<Tree, XmlError> {
    match TookAll(BLANK, es)
    case Err(e) => Err(e)
    case Ok(fs) => Finished(fs)
  }

  // ---------------------------------------------------------- round trips

  /** The events of a tree. `short` writes childless elements as `<a/>`. */
  function Emit(t: Tree, short: bool): seq<Event>
    decreases t
  {
    match t
    case Leaf(text) => [Characters(text)]
    case Tag(name, attrs, kids) =>
      if short && kids == [] then [EmptyTag(name, Some(attrs))]
      else [StartTag(name, Some(attrs))] + EmitAll(kids, short) + [EndTag]
  }

  function EmitAll(ts: seq<Tree>, short: bool): seq<Event>
    decreases ts
  {
    if ts == [] then [] else EmitAll(ts[..|ts| - 1], short) + Emit(ts[|ts| - 1], short)
  }

  lemma {:induction false} TookConcat(fs: seq<Frame>, a: seq<Event>, b: seq<Event>)
    requires fs != []
    ensures TookAll(fs, a + b) == match TookAll(fs, a) case Err(e) => Err(e) case Ok(gs) => TookAll(gs, b)
    decreases |a|
  {
    if a == [] {
      assert a + b == b;
    } else {
      assert (a + b)[0] == a[0] && (a + b)[1..] == a[1..] + b;
      if Took(fs, a[0]).Ok? { TookConcat(Took(fs, a[0]).value, a[1..], b); }
    }
  }

  lemma TookOne(fs: seq<Frame>, e: Event)
    requires fs != []
    ensures TookAll(fs, [e]) == Took(fs, e)
  {
  }

  /** Reading the events of a tree inside an open element adds its normal form. */
  lemma {:induction false} TakesTree(fs: seq<Frame>, t: Tree, short: bool)
    requires |fs| > 1 || (|fs| == 1 && fs[0].kids == [] && t.Tag?)
    ensures TookAll(fs, Emit(t, short)) == Ok(OnTop(fs, match t
      case Leaf(text) => WithText(fs[|fs| - 1].kids, text)
      case Tag(_, _, _) => fs[|fs| - 1].kids + [Normal(t)]))
    decreases t
  {
    match t
    case Leaf(text) => TookOne(fs, Characters(text));
    case Tag(name, attrs, kids) =>
      if short && kids == [] {
        TookOne(fs, EmptyTag(name, Some(attrs)));
      } else {
        var start, inner, end := [StartTag(name, Some(attrs))], EmitAll(kids, short), [EndTag];
        var within := fs + [Frame(name, attrs, [])];
        TookOne(fs, start[0]);
        TakesAll(within, kids, short);
        assert [] + NormalAll(kids) == NormalAll(kids);
        TakesEnd(fs, name, attrs, NormalAll(kids));
        TookConcat(fs, start + inner, end);
        TookConcat(fs, start, inner);
      }
  }

  lemma TakesEnd(fs: seq<Frame>, name: string, attrs: Attrs, kids: seq<Tree>)
    requires fs != []
    ensures TookAll(OnTop(fs + [Frame(name, attrs, [])], kids), [EndTag])
         == Ok(OnTop(fs, fs[|fs| - 1].kids + [Tag(name, attrs, kids)]))
  {
    var within := OnTop(fs + [Frame(name, attrs, [])], kids);
    assert within[..|within| - 1] == fs && within[|within| - 1] == Frame(name, attrs, kids);
    TookOne(within, EndTag);
  }

  lemma {:induction false} TakesAll(fs: seq<Frame>, ts: seq<Tree>, short: bool)
    requires |fs| > 1 && fs[|fs| - 1].kids == []
    ensures TookAll(fs, EmitAll(ts, short)) == Ok(OnTop(fs, NormalAll(ts)))
    decreases ts
  {
    if ts == [] {
      assert OnTop(fs, []) == fs;
    } else {
      var most, last := ts[..|ts| - 1], ts[|ts| - 1];
      TakesAll(fs, most, short);
      var gs := OnTop(fs, NormalAll(most));
      TakesTree(gs, last, short);
      TookConcat(fs, EmitAll(most, short), Emit(last, short));
      assert gs[..|gs| - 1] == fs[..|fs| - 1];
    }
  }

  /** Outside the root element, text and the rest is passed over. */
  predicate Noise(es: seq<Event>) { forall i | 0 <= i < |es| :: es[i].Characters? || es[i].Ignored? || es[i].EndTag? }

  lemma {:induction false} NoiseIsIgnored(fs: seq<Frame>, es: seq<Event>)
    requires |fs| == 1 && Noise(es)
    ensures TookAll(fs, es) == Ok(fs)
    decreases |es|
  {
    if es != [] { NoiseIsIgnored(fs, es[1..]); }
  }

  /** Parsing the events of an element, whatever surrounds it, gives its normal form. */
  lemma ParsesBack(before: seq<Event>, t: Tree, after: seq<Event>, short: bool)
    requires Noise(before) && t.Tag? && Noise(after)
    ensures Parsed(before + Emit(t, short) + after) == Ok(Normal(t))
  {
    NoiseIsIgnored(BLANK, before);
    TakesTree(BLANK, t, short);
    var gs := OnTop(BLANK, [] + [Normal(t)]);
    NoiseIsIgnored(gs, after);
    TookConcat(BLANK, before + Emit(t, short), after);
    TookConcat(BLANK, before, Emit(t, short));
  }

  predicate NormalFrames(fs: seq<Frame>) {
    && (forall i | 0 <= i < |fs| :: AllNormal(fs[i].kids))
    && (fs != [] ==> |fs[0].kids| <= 1 && forall t | t in fs[0].kids :: t.Tag?)
    && (|fs| > 1 ==> fs[0].kids == [])
  }

  lemma PushedTag(kids: seq<Tree>, t: Tree)
    requires AllNormal(kids) && t.Tag? && AllNormal(t.kids)
    ensures AllNormal(kids + [t])
  {
    assert (kids + [t])[..|kids|] == kids;
  }

  lemma TookKeepsNormal(fs: seq<Frame>, e: Event)
    requires fs != [] && NormalFrames(fs) && Took(fs, e).Ok?
    ensures NormalFrames(Took(fs, e).value)
  {
    var top := fs[|fs| - 1];
    hide NormalFrames, OnTop, AllNormal;
    FrameIsNormal(fs);
    match e
    case StartTag(name, attrs) => if attrs.Some? { OpenedIsNormal(fs, Frame(name, attrs.value, [])); }
    case EmptyTag(name, attrs) =>
      NoneNormal();
      PushedTag(top.kids, Tag(name, attrs.value, []));
      OnTopIsNormal(fs, top.kids + [Tag(name, attrs.value, [])]);
    case EndTag =>
      if |fs| > 1 {
        var outer, t := fs[..|fs| - 1], Tag(top.name, top.attrs, top.kids);
        FewerIsNormal(fs);
        FrameIsNormal(outer);
        PushedTag(fs[|fs| - 2].kids, t);
        OnTopIsNormal(outer, fs[|fs| - 2].kids + [t]);
      }
    case Characters(text) =>
      if |fs| > 1 {
        WithTextKeeps(top.kids, text);
        OnTopIsNormal(fs, WithText(top.kids, text));
      }
    case Ignored =>
  }

  lemma NoneNormal()
    ensures AllNormal([])
  {
  }

  lemma FrameIsNormal(fs: seq<Frame>)
    requires fs != [] && NormalFrames(fs)
    ensures AllNormal(fs[|fs| - 1].kids) && (|fs| == 1 ==> |fs[0].kids| <= 1)
  {
    hide AllNormal;
  }

  lemma FewerIsNormal(fs: seq<Frame>)
    requires |fs| > 1 && NormalFrames(fs)
    ensures NormalFrames(fs[..|fs| - 1]) && fs[0].kids == []
  {
    hide AllNormal;
  }

  lemma OpenedIsNormal(fs: seq<Frame>, f: Frame)
    requires fs != [] && NormalFrames(fs) && f.kids == [] && (|fs| == 1 ==> fs[0].kids == [])
    ensures NormalFrames(fs + [f])
  {
    NoneNormal();
    hide AllNormal;
  }

  lemma OnTopIsNormal(fs: seq<Frame>, kids: seq<Tree>)
    requires fs != [] && NormalFrames(fs) && AllNormal(kids)
    requires |fs| == 1 ==> |kids| <= 1 && forall t | t in kids :: t.Tag?
    ensures NormalFrames(OnTop(fs, kids))
  {
    hide AllNormal;
  }

  lemma {:induction false} TookAllKeepsNormal(fs: seq<Frame>, es: seq<Event>)
    requires fs != [] && NormalFrames(fs) && TookAll(fs, es).Ok?
    ensures NormalFrames(TookAll(fs, es).value)
    decreases |es|
  {
    if es != [] {
      TookKeepsNormal(fs, es[0]);
      TookAllKeepsNormal(Took(fs, es[0]).value, es[1..]);
    }
  }

  /** Whatever parses is one element in normal form. */
  lemma ParsedIsNormal(es: seq<Event>)
    requires Parsed(es).Ok?
    ensures Parsed(es).value.Tag? && IsNormal(Parsed(es).value)
  {
    TookAllKeepsNormal(BLANK, es);
  }
}
