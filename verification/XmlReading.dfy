/** What reading events comes to, said of the events alone: which stream is refused and
    why, what text a document holds, and which differences do not matter. */
module XmlReading {
  import opened Prelude
  import opened XmlTree

  // --------------------------------------------------------- said of the events

  /** The names of the elements open after these events, outermost first. An end tag
      closes the innermost; where none is open it closes none. */
  function Opened(es: seq<Event>): seq<string> {
    if es == [] then [] else
      var before, e := Opened(es[..|es| - 1]), es[|es| - 1];
      if e.StartTag? then before + [e.name]
      else if e.EndTag? && before != [] then before[..|before| - 1]
      else before
  }

  predicate Opens(e: Event) { e.StartTag? || e.EmptyTag? }

  /** Some element has started. */
  predicate Rooted(es: seq<Event>) { exists i | 0 <= i < |es| :: Opens(es[i]) }

  /** Why event `e` cannot follow these events, if it cannot. */
  function Refused(es: seq<Event>, e: Event): Option<XmlError> {
    if e.Broken? then Some(ReaderError)
    else if Opens(e) && Opened(es) == [] && Rooted(es) then Some(SecondRoot)
    else if Opens(e) && e.attrs.None? then Some(BadAttributes)
    else None
  }

  /** The first event refused, and why. */
  predicate FirstRefused(es: seq<Event>, i: nat, error: XmlError) {
    && i < |es| && Refused(es[..i], es[i]) == Some(error)
    && forall j | 0 <= j < i :: Refused(es[..j], es[j]) == None
  }

  predicate NoneRefused(es: seq<Event>) { forall j | 0 <= j < |es| :: Refused(es[..j], es[j]) == None }

  /** The characters read while an element is open. */
  function Inside(es: seq<Event>): string {
    if es == [] then "" else
      var most, e := es[..|es| - 1], es[|es| - 1];
      Inside(most) + if e.Characters? && Opened(most) != [] then e.text else ""
  }

  // ------------------------------------------------------------- and of the frames

  /** All text under the open elements, in document order. */
  function TextOfFrames(fs: seq<Frame>): string {
    if fs == [] then "" else TextOfFrames(fs[..|fs| - 1]) + TextOfAll(fs[|fs| - 1].kids)
  }

  /** The open elements after `es`: their names, whether there is a root, and the text. */
  ghost predicate Came(es: seq<Event>, fs: seq<Frame>) {
    && |fs| == 1 + |Opened(es)|
    && (forall i | 0 <= i < |Opened(es)| :: fs[i + 1].name == Opened(es)[i])
    && (if |fs| > 1 then Rooted(es) && fs[0].kids == [] else fs[0].kids != [] <==> Rooted(es))
    && TextOfFrames(fs) == Inside(es)
  }

  lemma TextOnTop(fs: seq<Frame>, kids: seq<Tree>)
    requires fs != []
    ensures TextOfFrames(OnTop(fs, kids)) == TextOfFrames(fs[..|fs| - 1]) + TextOfAll(kids)
  {
    var r := OnTop(fs, kids);
    assert r[..|r| - 1] == fs[..|fs| - 1];
  }

  lemma TextPushed(kids: seq<Tree>, t: Tree)
    ensures TextOfAll(kids + [t]) == TextOfAll(kids) + TextOf(t)
  {
    assert (kids + [t])[..|kids|] == kids;
  }

  lemma TextAdded(kids: seq<Tree>, text: string)
    ensures TextOfAll(WithText(kids, text)) == TextOfAll(kids) + text
  {
    if text == "" {
      assert TextOfAll(kids) + text == TextOfAll(kids);
    } else if kids != [] && kids[|kids| - 1].Leaf? {
      var most := kids[..|kids| - 1];
      TextPushed(most, Leaf(kids[|kids| - 1].text + text));
    } else {
      TextPushed(kids, Leaf(text));
    }
  }

  lemma TextStarted(fs: seq<Frame>, f: Frame)
    requires f.kids == []
    ensures TextOfFrames(fs + [f]) == TextOfFrames(fs)
  {
    assert (fs + [f])[..|fs|] == fs;
  }

  lemma TextClosed(fs: seq<Frame>)
    requires |fs| > 1
    ensures TextOfFrames(Closed(fs)) == TextOfFrames(fs)
  {
    var f, outer, kids := fs[|fs| - 1], fs[..|fs| - 1], fs[|fs| - 2].kids;
    var t := Tag(f.name, f.attrs, f.kids);
    assert Closed(fs) == OnTop(outer, kids + [t]) && TextOf(t) == TextOfAll(f.kids);
    hide *;
    TopText(fs);
    TopText(outer);
    TextOnTop(outer, kids + [t]);
    TextPushed(kids, t);
    Grouped(TextOfFrames(outer[..|outer| - 1]), TextOfAll(kids), TextOf(t));
  }

  lemma Grouped(a: string, b: string, c: string)
    ensures a + (b + c) == a + b + c
  {
  }

  lemma RootedMore(es: seq<Event>, e: Event)
    ensures Rooted(es + [e]) <==> Rooted(es) || Opens(e)
  {
    var more := es + [e];
    if Rooted(es) {
      var i :| 0 <= i < |es| && Opens(es[i]);
      assert Opens(more[i]);
    }
    if Opens(e) { assert Opens(more[|es|]); }
  }

  lemma More(es: seq<Event>, e: Event)
    ensures
      var before := Opened(es);
      Opened(es + [e]) == if e.StartTag? then before + [e.name]
                          else if e.EndTag? && before != [] then before[..|before| - 1] else before
    ensures Inside(es + [e]) == Inside(es) + if e.Characters? && Opened(es) != [] then e.text else ""
  {
    assert (es + [e])[..|es|] == es;
  }

  /** The innermost open element gets more content. */
  lemma CameTop(es: seq<Event>, fs: seq<Frame>, e: Event, kids: seq<Tree>, text: string)
    requires Came(es, fs) && Opened(es + [e]) == Opened(es) && Inside(es + [e]) == Inside(es) + text
    requires TextOfAll(kids) == TextOfAll(fs[|fs| - 1].kids) + text
    requires if Opens(e) then kids != [] && Rooted(es + [e]) else |fs| > 1 && (Rooted(es + [e]) <==> Rooted(es))
    ensures Came(es + [e], OnTop(fs, kids))
  {
    TopText(fs);
    TextOnTop(fs, kids);
    hide Inside, Rooted, TextOfFrames, TextOfAll;
    Grouped(TextOfFrames(fs[..|fs| - 1]), TextOfAll(fs[|fs| - 1].kids), text);
    Rooting(es, e);
  }

  lemma Rooting(es: seq<Event>, e: Event)
    ensures Opens(e) ==> Rooted(es + [e])
    ensures Rooted(es) ==> Rooted(es + [e])
  {
    RootedMore(es, e);
  }

  lemma CameStart(es: seq<Event>, fs: seq<Frame>, e: Event, f: Frame)
    requires Came(es, fs) && e.StartTag? && f.name == e.name && f.kids == [] && (|fs| == 1 ==> fs[0].kids == [])
    ensures Came(es + [e], fs + [f])
  {
    More(es, e);
    Rooting(es, e);
    TextStarted(fs, f);
    hide Inside, Rooted, TextOfFrames, Opened;
    assert Inside(es) + "" == Inside(es);
  }

  lemma CameEnd(es: seq<Event>, fs: seq<Frame>, e: Event)
    requires Came(es, fs) && e.EndTag? && |fs| > 1
    ensures Came(es + [e], Closed(fs))
  {
    More(es, e);
    Rooting(es, e);
    TextClosed(fs);
    hide Inside, Rooted, TextOfFrames, Opened;
    assert Inside(es) + "" == Inside(es);
  }

  lemma CameSame(es: seq<Event>, fs: seq<Frame>, e: Event)
    requires Came(es, fs) && !Opens(e) && (e.Characters? || e.EndTag? ==> |fs| == 1)
    ensures Came(es + [e], fs)
  {
    More(es, e);
    RootedMore(es, e);
    hide Inside, Rooted, TextOfFrames, Opened;
    assert Inside(es) + "" == Inside(es);
  }

  lemma RefusedIs(es: seq<Event>, fs: seq<Frame>, e: Event)
    requires Came(es, fs)
    ensures Refused(es, e) ==
      if e.Broken? then Some(ReaderError)
      else if Opens(e) && |fs| == 1 && fs[0].kids != [] then Some(SecondRoot)
      else if Opens(e) && e.attrs.None? then Some(BadAttributes)
      else None
  {
    hide Inside, Rooted, TextOfFrames, Opened;
  }

  /** One event more: it is refused for the reason given, or taken. */
  lemma OneMore(es: seq<Event>, fs: seq<Frame>, e: Event)
    requires Came(es, fs) && fs != []
    ensures
      var why := Refused(es, e);
      if why.Some? then Took(fs, e) == Err(why.value) else Took(fs, e).Ok? && Came(es + [e], Took(fs, e).value)
  {
    hide Came, Refused, Opened, Inside, Rooted, TextOfAll, WithText;
    RefusedIs(es, fs, e);
    if Refused(es, e).None? {
      match e
      case StartTag(name, attrs) => CameStart(es, fs, e, Frame(name, attrs.value, []));
      case EmptyTag(name, attrs) => CameEmpty(es, fs, e);
      case EndTag => if |fs| > 1 { CameEnd(es, fs, e); } else { CameSame(es, fs, e); }
      case Characters(_) => if |fs| > 1 { CameText(es, fs, e); } else { CameSame(es, fs, e); }
      case Ignored => CameSame(es, fs, e);
    }
  }

  lemma CameEmpty(es: seq<Event>, fs: seq<Frame>, e: Event)
    requires Came(es, fs) && e.EmptyTag? && e.attrs.Some?
    ensures fs != [] && Came(es + [e], OnTop(fs, fs[|fs| - 1].kids + [Tag(e.name, e.attrs.value, [])]))
  {
    var t := Tag(e.name, e.attrs.value, []);
    More(es, e);
    Rooting(es, e);
    NoText(e.name, e.attrs.value);
    TextPushed(fs[|fs| - 1].kids, t);
    hide Inside, Rooted, TextOfFrames, Opened, TextOfAll, TextOf, Came;
    assert Inside(es) + "" == Inside(es);
    CameTop(es, fs, e, fs[|fs| - 1].kids + [t], "");
  }

  lemma CameText(es: seq<Event>, fs: seq<Frame>, e: Event)
    requires Came(es, fs) && e.Characters? && |fs| > 1
    ensures Came(es + [e], OnTop(fs, WithText(fs[|fs| - 1].kids, e.text)))
  {
    More(es, e);
    RootedMore(es, e);
    TextAdded(fs[|fs| - 1].kids, e.text);
    assert Opened(es) != [];
    hide Inside, Rooted, TextOfFrames, Opened, TextOfAll, TextOf, WithText, Came;
    CameTop(es, fs, e, WithText(fs[|fs| - 1].kids, e.text), e.text);
  }

  lemma NoText(name: string, attrs: Attrs)
    ensures TextOf(Tag(name, attrs, [])) == ""
  {
  }

  lemma TopText(fs: seq<Frame>)
    requires fs != []
    ensures TextOfFrames(fs) == TextOfFrames(fs[..|fs| - 1]) + TextOfAll(fs[|fs| - 1].kids)
  {
  }

  lemma TookSnoc(fs: seq<Frame>, es: seq<Event>, e: Event)
    requires fs != []
    ensures TookAll(fs, es + [e]) == match TookAll(fs, es) case Err(error) => Err(error) case Ok(gs) => Took(gs, e)
  {
    TookConcat(fs, es, [e]);
    if TookAll(fs, es).Ok? { TookOne(TookAll(fs, es).value, e); }
  }

  /** The first `n` events: refused at the first that is, or taken. */
  lemma {:induction false} FirstOnes(es: seq<Event>, n: nat)
    requires n <= |es|
    ensures (forall j | 0 <= j < n :: Refused(es[..j], es[j]) == None) ==>
      TookAll(BLANK, es[..n]).Ok? && Came(es[..n], TookAll(BLANK, es[..n]).value)
    ensures forall i: nat, error | i < n && FirstRefused(es, i, error) :: TookAll(BLANK, es[..n]) == Err(error)
  {
    hide Refused, Came, Took, TookAll;
    if n == 0 {
      assert es[..0] == [];
      NothingCame();
    } else {
      FirstOnes(es, n - 1);
      assert es[..n] == es[..n - 1] + [es[n - 1]];
      TookSnoc(BLANK, es[..n - 1], es[n - 1]);
      if TookAll(BLANK, es[..n - 1]).Ok? && Came(es[..n - 1], TookAll(BLANK, es[..n - 1]).value) {
        OneMore(es[..n - 1], TookAll(BLANK, es[..n - 1]).value, es[n - 1]);
      }
    }
  }

  lemma NothingCame()
    ensures TookAll(BLANK, []) == Ok(BLANK) && Came([], BLANK)
  {
  }

  /** Reading ends with the reason the first refused event gives; or, if none is refused,
      with the innermost element still open; or with no root; or else with a tree. */
  lemma ReadingEnds(es: seq<Event>)
    ensures forall i: nat, error | FirstRefused(es, i, error) :: Parsed(es) == Err(error)
    ensures NoneRefused(es) ==>
      var open := Opened(es);
      if open != [] then Parsed(es) == Err(Unclosed(open[|open| - 1]))
      else if !Rooted(es) then Parsed(es) == Err(NoRoot)
      else Parsed(es).Ok?
  {
    FirstOnes(es, |es|);
    assert es[..|es|] == es;
    hide Refused, TookAll, Inside, TextOfFrames, Rooted;
  }

  /** Every stream either has a first refused event or none. */
  lemma {:induction false} RefusedOrNot(es: seq<Event>, n: nat) returns (i: nat)
    requires n <= |es|
    ensures (forall j | 0 <= j < n :: Refused(es[..j], es[j]) == None)
         || (i < |es| && Refused(es[..i], es[i]).Some? && FirstRefused(es, i, Refused(es[..i], es[i]).value))
  {
    i := 0;
    if n > 0 {
      i := RefusedOrNot(es, n - 1);
      if forall j | 0 <= j < n - 1 :: Refused(es[..j], es[j]) == None { i := n - 1; }
    }
  }

  /** The text of a document is what was read inside its root element, in order. */
  lemma TextIsInside(es: seq<Event>)
    requires Parsed(es).Ok?
    ensures TextOf(Parsed(es).value) == Inside(es)
  {
    var i := RefusedOrNot(es, |es|);
    ReadingEnds(es);
    FirstOnes(es, |es|);
    assert es[..|es|] == es;
    TookAllKeepsNormal(BLANK, es);
    hide Refused, TookAll, Inside, Rooted, AllNormal;
    var fs := TookAll(BLANK, es).value;
    assert NoneRefused(es);
    OneRoot(fs);
  }

  lemma OneRoot(fs: seq<Frame>)
    requires |fs| == 1 && fs[0].kids != [] && |fs[0].kids| <= 1
    ensures TextOfFrames(fs) == TextOf(fs[0].kids[0])
  {
    assert fs[..0] == [] && fs[0].kids[..0] == [];
    assert TextOfAll([]) == "";
  }

  // ---------------------------------------------------- differences of no matter

  /** Comments and the like change nothing, wherever they stand. */
  lemma IgnoredIsNothing(a: seq<Event>, b: seq<Event>)
    ensures Parsed(a + [Ignored] + b) == Parsed(a + b)
  {
    TookConcat(BLANK, a, b);
    TookConcat(BLANK, a + [Ignored], b);
    TookSnoc(BLANK, a, Ignored);
    hide TookAll;
  }

  /** `<a/>` is `<a></a>`. */
  lemma EmptyIsStartEnd(a: seq<Event>, name: string, attrs: Option<Attrs>, b: seq<Event>)
    ensures Parsed(a + [EmptyTag(name, attrs)] + b) == Parsed(a + [StartTag(name, attrs), EndTag] + b)
  {
    var one, two := [EmptyTag(name, attrs)], [StartTag(name, attrs), EndTag];
    TookConcat(BLANK, a, one);
    TookConcat(BLANK, a, two);
    TookConcat(BLANK, a + one, b);
    TookConcat(BLANK, a + two, b);
    if TookAll(BLANK, a).Ok? {
      var fs := TookAll(BLANK, a).value;
      TookOne(fs, EmptyTag(name, attrs));
      StartEnd(fs, name, attrs);
    }
    hide TookAll, Took;
  }

  lemma StartEnd(fs: seq<Frame>, name: string, attrs: Option<Attrs>)
    requires fs != []
    ensures TookAll(fs, [StartTag(name, attrs), EndTag]) == Took(fs, EmptyTag(name, attrs))
  {
    assert [StartTag(name, attrs), EndTag] == [StartTag(name, attrs)] + [EndTag];
    TookConcat(fs, [StartTag(name, attrs)], [EndTag]);
    TookOne(fs, StartTag(name, attrs));
    if Took(fs, StartTag(name, attrs)).Ok? {
      var gs := Took(fs, StartTag(name, attrs)).value;
      TookOne(gs, EndTag);
      assert gs[..|gs| - 1] == fs && gs[|gs| - 2] == fs[|fs| - 1];
    }
    hide TookAll;
  }
}
