/** The byte trie behind `lur.text`: built pair by pair in an arena, searched from
    the start of the remaining text, and driven left to right by `Replace`. */
module TextMatcher {
  import opened Prelude
  import opened TextSpec

  /** `children` is sorted by byte; `minPair` is the smallest index of a pair at or
      below this node. */
  datatype Node = Node(children: seq<(byte, nat)>, pair: Option<nat>, minPair: nat)

  const NO_PAIR: nat := 0xffff_ffff
  const FRESH := Node([], None, NO_PAIR)

  predicate Sorted(cs: seq<(byte, nat)>) { forall i, j | 0 <= i < j < |cs| :: cs[i].0 < cs[j].0 }

  datatype Slot = At(index: nat) | Gap(index: nat)

  predicate Locates(cs: seq<(byte, nat)>, b: byte, s: Slot) {
    match s
    case At(p) => p < |cs| && cs[p].0 == b
    case Gap(p) => p <= |cs| && (forall i | 0 <= i < p :: cs[i].0 < b) && forall i | p <= i < |cs| :: b < cs[i].0
  }

  method BinarySearch(cs: seq<(byte, nat)>, b: byte) returns (s: Slot)
    requires Sorted(cs)
    ensures Locates(cs, b, s)
  {
    var lo, hi := 0, |cs|;
    while lo < hi
      invariant 0 <= lo <= hi <= |cs|
      invariant forall i | 0 <= i < lo :: cs[i].0 < b
      invariant forall i | hi <= i < |cs| :: b < cs[i].0
    {
      var mid := (lo + hi) / 2;
      if cs[mid].0 == b {
        return At(mid);
      } else if cs[mid].0 < b {
        lo := mid + 1;
      } else {
        hi := mid;
      }
    }
    return Gap(lo);
  }

  // ----------------------------------------------------------- what it means

  /** The first pair whose `old` is `w`. */
  ghost function FirstEqual(pairs: seq<Pair>, w: Bytes): Option<nat> {
    if pairs == [] then None else
      var n := |pairs| - 1;
      var r := FirstEqual(pairs[..n], w);
      if r.Some? then r else if pairs[n].needle == w then Some(n) else None
  }

  /** The first pair whose `old` starts with `w`. */
  ghost function FirstUnder(pairs: seq<Pair>, w: Bytes): Option<nat> {
    if pairs == [] then None else
      var n := |pairs| - 1;
      var r := FirstUnder(pairs[..n], w);
      if r.Some? then r else if w <= pairs[n].needle then Some(n) else None
  }

  ghost function MinOf(r: Option<nat>): nat { if r.Some? then r.value else NO_PAIR }

  predicate HasChild(n: Node, b: byte, id: nat) { exists i | 0 <= i < |n.children| :: n.children[i] == (b, id) }

  /** The words that name nodes: the empty one first, each once, each with its
      parent. */
  ghost predicate Words(words: seq<Bytes>) {
    && words != [] && words[0] == []
    && (forall m, n | 0 <= m < n < |words| :: words[m] != words[n])
    && forall m | 0 < m < |words| :: words[m] != [] && words[m][..|words[m]| - 1] in words
  }

  predicate AllSorted(nodes: seq<Node>) { forall n | 0 <= n < |nodes| :: Sorted(nodes[n].children) }

  predicate ChildSpells(nodes: seq<Node>, words: seq<Bytes>, n: nat, i: nat)
    requires |nodes| == |words| && n < |nodes| && i < |nodes[n].children|
  {
    var c := nodes[n].children[i];
    c.1 < |nodes| && words[c.1] == words[n] + [c.0]
  }

  /** Every child's word extends its node's by its byte... */
  ghost predicate Down(nodes: seq<Node>, words: seq<Bytes>)
    requires |nodes| == |words|
  {
    forall n, i | 0 <= n < |nodes| && 0 <= i < |nodes[n].children| :: ChildSpells(nodes, words, n, i)
  }

  /** ... and every such extension is a child. */
  ghost predicate Up(nodes: seq<Node>, words: seq<Bytes>)
    requires |nodes| == |words|
  {
    forall n, m, b | 0 <= n < |nodes| && 0 <= m < |nodes| && words[m] == words[n] + [b] :: HasChild(nodes[n], b, m)
  }

  /** The arena is a tree whose node `n` is reached by the bytes `words[n]`. */
  ghost predicate Tree(nodes: seq<Node>, words: seq<Bytes>) {
    |nodes| == |words| && Words(words) && AllSorted(nodes) && Down(nodes, words) && Up(nodes, words)
  }

  /** Every prefix of the first `d` bytes of `w` has a node. */
  ghost predicate Spelled(words: seq<Bytes>, w: Bytes, d: nat)
    requires d <= |w|
  {
    forall l | 0 <= l <= d :: w[..l] in words
  }

  /** Nodes are labelled as the pair list says; those spelling the first `d` bytes
      of `w` already count the pair about to be added. */
  ghost predicate Labelled(nodes: seq<Node>, words: seq<Bytes>, pairs: seq<Pair>, p: Pair, d: nat)
    requires |nodes| == |words|
  {
    forall n | 0 <= n < |nodes| ::
      && nodes[n].pair == FirstEqual(pairs, words[n])
      && nodes[n].minPair
        == MinOf(FirstUnder(if words[n] <= p.needle && |words[n]| < d then pairs + [p] else pairs, words[n]))
  }

  ghost predicate Trie(nodes: seq<Node>, words: seq<Bytes>, pairs: seq<Pair>) {
    && Tree(nodes, words)
    && (forall i | 0 <= i < |pairs| :: Spelled(words, pairs[i].needle, |pairs[i].needle|))
    && Labels(nodes, words, pairs)
  }

  /** Each node knows the first pair that ends there and the first that passes. */
  ghost predicate Labels(nodes: seq<Node>, words: seq<Bytes>, pairs: seq<Pair>)
    requires |nodes| == |words|
  {
    forall n | 0 <= n < |nodes| ::
      nodes[n].pair == FirstEqual(pairs, words[n]) && nodes[n].minPair == MinOf(FirstUnder(pairs, words[n]))
  }

  // ------------------------------------------------------ reading the labels

  lemma {:induction false} FirstEqualIs(pairs: seq<Pair>, w: Bytes)
    ensures match FirstEqual(pairs, w)
      case None => forall j | 0 <= j < |pairs| :: pairs[j].needle != w
      case Some(i) => i < |pairs| && pairs[i].needle == w && forall j | 0 <= j < i :: pairs[j].needle != w
  {
    if pairs != [] { FirstEqualIs(pairs[..|pairs| - 1], w); }
  }

  lemma {:induction false} FirstUnderIs(pairs: seq<Pair>, w: Bytes)
    ensures match FirstUnder(pairs, w)
      case None => forall j | 0 <= j < |pairs| :: !(w <= pairs[j].needle)
      case Some(i) => i < |pairs| && w <= pairs[i].needle && forall j | 0 <= j < i :: !(w <= pairs[j].needle)
  {
    if pairs != [] { FirstUnderIs(pairs[..|pairs| - 1], w); }
  }

  lemma LabelsAfter(pairs: seq<Pair>, p: Pair, w: Bytes)
    ensures FirstEqual(pairs + [p], w) ==
      if FirstEqual(pairs, w).Some? then FirstEqual(pairs, w) else if p.needle == w then Some(|pairs|) else None
    ensures FirstUnder(pairs + [p], w) ==
      if FirstUnder(pairs, w).Some? then FirstUnder(pairs, w) else if w <= p.needle then Some(|pairs|) else None
  {
    assert (pairs + [p])[..|pairs|] == pairs;
  }

  // -------------------------------------------------------------- growing it

  function Grown(nodes: seq<Node>, at: nat, p: nat, b: byte): seq<Node>
    requires at < |nodes| && p <= |nodes[at].children|
  {
    var cs := nodes[at].children;
    nodes[at := nodes[at].(children := Inserted(cs, p, (b, |nodes|)))] + [FRESH]
  }

  function Lowered(nodes: seq<Node>, at: nat, i: nat): seq<Node>
    requires at < |nodes|
  {
    nodes[at := nodes[at].(minPair := if i < nodes[at].minPair then i else nodes[at].minPair)]
  }

  lemma GapHasNone(n: Node, p: nat, b: byte, id: nat)
    requires Locates(n.children, b, Gap(p))
    ensures !HasChild(n, b, id)
  {
  }

  /** A byte that is not among the children starts a word that has no node. */
  lemma GapIsNew(nodes: seq<Node>, words: seq<Bytes>, at: nat, p: nat, b: byte)
    requires Tree(nodes, words) && at < |nodes| && Locates(nodes[at].children, b, Gap(p))
    ensures words[at] + [b] !in words
  {
    if m: nat :| m < |words| && words[m] == words[at] + [b] {
      assert HasChild(nodes[at], b, m);
      GapHasNone(nodes[at], p, b, m);
    }
  }

  /** Nor does any word extend it. */
  lemma NothingExtendsNew(words: seq<Bytes>, w: Bytes, m: nat, c: byte)
    requires Words(words) && w !in words && m < |words|
    ensures words[m] != w + [c]
  {
    assert (w + [c])[..|w|] == w;
  }

  function Inserted(cs: seq<(byte, nat)>, p: nat, c: (byte, nat)): seq<(byte, nat)>
    requires p <= |cs|
  {
    cs[..p] + [c] + cs[p..]
  }

  lemma InsertedAt(cs: seq<(byte, nat)>, p: nat, c: (byte, nat))
    requires p <= |cs|
    ensures
      var g := Inserted(cs, p, c);
      && |g| == |cs| + 1 && g[p] == c
      && forall i | 0 <= i < |g| && i != p :: g[i] == cs[if i < p then i else i - 1]
  {
  }

  lemma InsertedSorted(cs: seq<(byte, nat)>, p: nat, c: (byte, nat))
    requires Sorted(cs) && Locates(cs, c.0, Gap(p))
    ensures Sorted(Inserted(cs, p, c))
  {
    InsertedAt(cs, p, c);
    hide Inserted;
  }

  lemma InsertedChildren(n: Node, g: Node, p: nat, c: (byte, nat))
    requires p <= |n.children| && g.children == Inserted(n.children, p, c)
    ensures HasChild(g, c.0, c.1)
    ensures forall b, m: nat | HasChild(n, b, m) :: HasChild(g, b, m)
  {
    InsertedAt(n.children, p, c);
    hide Inserted;
    forall b, m: nat | HasChild(n, b, m) ensures HasChild(g, b, m) {
      var i :| 0 <= i < |n.children| && n.children[i] == (b, m);
      assert g.children[if i < p then i else i + 1] == (b, m);
    }
  }

  lemma GrowingKeepsTree(nodes: seq<Node>, words: seq<Bytes>, at: nat, p: nat, b: byte)
    requires Tree(nodes, words) && at < |nodes| && Locates(nodes[at].children, b, Gap(p))
    ensures Tree(Grown(nodes, at, p, b), words + [words[at] + [b]])
  {
    hide Words, Down, Up, AllSorted, Locates;
    GapIsNew(nodes, words, at, p, b);
    GrowingKeepsWords(words, at, b);
    GrowingKeepsDown(nodes, words, at, p, b);
    GrowingKeepsUp(nodes, words, at, p, b);
  }

  lemma GrowingKeepsWords(words: seq<Bytes>, at: nat, b: byte)
    requires Words(words) && at < |words| && words[at] + [b] !in words
    ensures Words(words + [words[at] + [b]])
  {
    var w := words[at] + [b];
    assert w[..|w| - 1] == words[at] && words[at] in words;
    var ws := words + [w];
    forall m | 0 < m < |ws| ensures ws[m] != [] && ws[m][..|ws[m]| - 1] in ws {
      if m < |words| { assert words[m][..|words[m]| - 1] in words; }
    }
  }

  lemma GrowingKeepsDown(nodes: seq<Node>, words: seq<Bytes>, at: nat, p: nat, b: byte)
    requires Tree(nodes, words) && at < |nodes| && Locates(nodes[at].children, b, Gap(p))
    ensures Down(Grown(nodes, at, p, b), words + [words[at] + [b]])
    ensures AllSorted(Grown(nodes, at, p, b))
  {
    hide Words, Up;
    var id := |nodes|;
    InsertedSorted(nodes[at].children, p, (b, id));
    InsertedAt(nodes[at].children, p, (b, id));
    hide Inserted;
    var ns, ws := Grown(nodes, at, p, b), words + [words[at] + [b]];
    forall n, i | 0 <= n < |ns| && 0 <= i < |ns[n].children| ensures ChildSpells(ns, ws, n, i) {
      if n < id && (n != at || i != p) {
        assert ChildSpells(nodes, words, n, if n == at && i > p then i - 1 else i);
      }
    }
  }

  lemma GrowingKeepsUp(nodes: seq<Node>, words: seq<Bytes>, at: nat, p: nat, b: byte)
    requires Tree(nodes, words) && at < |nodes| && Locates(nodes[at].children, b, Gap(p))
    ensures Up(Grown(nodes, at, p, b), words + [words[at] + [b]])
  {
    TreeSize(nodes, words);
    assert p <= |nodes[at].children|;
    hide Tree, Locates;
    var ns, ws := Grown(nodes, at, p, b), words + [words[at] + [b]];
    forall n, m, c | 0 <= n < |ns| && 0 <= m < |ns| && ws[m] == ws[n] + [c] ensures HasChild(ns[n], c, m) {
      NewChildHere(nodes, words, at, p, b, n, m, c);
    }
  }

  lemma TreeSize(nodes: seq<Node>, words: seq<Bytes>)
    requires Tree(nodes, words)
    ensures |nodes| == |words| > 0 && AllSorted(nodes)
  {
  }

  /** In the grown arena, a word and its extension are still parent and child. */
  lemma NewChildHere(nodes: seq<Node>, words: seq<Bytes>, at: nat, p: nat, b: byte, n: nat, m: nat, c: byte)
    requires Tree(nodes, words) && at < |nodes| && Locates(nodes[at].children, b, Gap(p))
    requires n <= |nodes| == |words| && m <= |nodes|
    requires
      var ws := words + [words[at] + [b]];
      ws[m] == ws[n] + [c]
    ensures HasChild(Grown(nodes, at, p, b)[n], c, m)
  {
    var id := |nodes|;
    var w := words[at] + [b];
    InsertedChildren(nodes[at], Grown(nodes, at, p, b)[at], p, (b, id));
    hide Inserted;
    if m == id {
      // The new word extends only the word it grew from.
      assert n != id;
      assert w[|w| - 1] == b && w[..|w| - 1] == words[at];
      assert (words[n] + [c])[|words[n]|] == c && (words[n] + [c])[..|words[n]|] == words[n];
      assert c == b && words[n] == words[at] && n == at;
    } else if n == id {
      GapIsNew(nodes, words, at, p, b);
      NothingExtendsNew(words, w, m, c);
    } else {
      assert HasChild(nodes[n], c, m);
    }
  }

  // ---------------------------------------------------------------- labels

  lemma LoweringCounts(nodes: seq<Node>, words: seq<Bytes>, pairs: seq<Pair>, p: Pair, d: nat, at: nat)
    requires Tree(nodes, words) && Labelled(nodes, words, pairs, p, d)
    requires d <= |p.needle| && at < |nodes| && words[at] == p.needle[..d] && |pairs| < NO_PAIR
    ensures Labelled(Lowered(nodes, at, |pairs|), words, pairs, p, d + 1)
  {
    var ns := Lowered(nodes, at, |pairs|);
    forall n | 0 <= n < |ns|
      ensures ns[n].pair == FirstEqual(pairs, words[n])
      ensures ns[n].minPair ==
        MinOf(FirstUnder(if words[n] <= p.needle && |words[n]| < d + 1 then pairs + [p] else pairs, words[n]))
    {
      LabelsAfter(pairs, p, words[n]);
      FirstUnderIs(pairs, words[n]);
      assert words[n] <= p.needle && |words[n]| == d ==> words[n] == words[at];
    }
  }

  lemma LoweringKeepsTree(nodes: seq<Node>, words: seq<Bytes>, at: nat, i: nat)
    requires Tree(nodes, words) && at < |nodes|
    ensures Tree(Lowered(nodes, at, i), words)
  {
    var ns := Lowered(nodes, at, i);
    forall n | 0 <= n < |ns| ensures ns[n].children == nodes[n].children { }
    SameShape(nodes, ns, words);
  }

  lemma SameShape(nodes: seq<Node>, ns: seq<Node>, words: seq<Bytes>)
    requires Tree(nodes, words) && |ns| == |nodes|
    requires forall n | 0 <= n < |ns| :: ns[n].children == nodes[n].children
    ensures Tree(ns, words)
  {
    forall n, m, b | 0 <= n < |ns| && 0 <= m < |ns| && words[m] == words[n] + [b] ensures HasChild(ns[n], b, m) {
      assert HasChild(nodes[n], b, m);
    }
    forall n, i | 0 <= n < |ns| && 0 <= i < |ns[n].children| ensures ChildSpells(ns, words, n, i) {
      assert ChildSpells(nodes, words, n, i);
    }
  }

  /** A word with no node starts no pair, so the new node's blank labels are right. */
  lemma GrowingKeepsLabels(nodes: seq<Node>, words: seq<Bytes>, pairs: seq<Pair>, pr: Pair, d: nat, at: nat, p: nat,
                           b: byte)
    requires Tree(nodes, words) && Labelled(nodes, words, pairs, pr, d)
    requires at < |nodes| && p <= |nodes[at].children| && |words[at]| + 1 >= d
    requires words[at] + [b] !in words
    requires forall i | 0 <= i < |pairs| :: Spelled(words, pairs[i].needle, |pairs[i].needle|)
    ensures Labelled(Grown(nodes, at, p, b), words + [words[at] + [b]], pairs, pr, d)
  {
    hide *;
    TreeSize(nodes, words);
    var w := words[at] + [b];
    NothingUnder(words, pairs, w);
    NothingStarts(pairs, w);
    GrownLabels(nodes, at, p, b);
    LabelledMore(nodes, Grown(nodes, at, p, b), words, pairs, pr, d, w);
  }

  lemma NothingStarts(pairs: seq<Pair>, w: Bytes)
    requires forall i | 0 <= i < |pairs| :: !(w <= pairs[i].needle)
    ensures FirstEqual(pairs, w) == None && FirstUnder(pairs, w) == None
  {
    FirstUnderIs(pairs, w);
    FirstEqualIs(pairs, w);
    hide FirstUnder, FirstEqual;
    forall j | 0 <= j < |pairs| ensures pairs[j].needle != w {
      NotEqual(pairs[j].needle, w);
    }
  }

  lemma NotEqual(x: Bytes, w: Bytes)
    requires !(w <= x)
    ensures x != w
  {
  }

  lemma GrownLabels(nodes: seq<Node>, at: nat, p: nat, b: byte)
    requires at < |nodes| && p <= |nodes[at].children|
    ensures
      var ns := Grown(nodes, at, p, b);
      && |ns| == |nodes| + 1 && ns[|nodes|].pair == None && ns[|nodes|].minPair == NO_PAIR
      && forall n | 0 <= n < |nodes| :: ns[n].pair == nodes[n].pair && ns[n].minPair == nodes[n].minPair
  {
    hide Inserted;
  }

  lemma LabelledMore(nodes: seq<Node>, ns: seq<Node>, words: seq<Bytes>, pairs: seq<Pair>, pr: Pair, d: nat, w: Bytes)
    requires |nodes| == |words| && Labelled(nodes, words, pairs, pr, d)
    requires |ns| == |nodes| + 1 && ns[|nodes|].pair == None && ns[|nodes|].minPair == NO_PAIR
    requires forall n | 0 <= n < |nodes| :: ns[n].pair == nodes[n].pair && ns[n].minPair == nodes[n].minPair
    requires |w| >= d && FirstEqual(pairs, w) == None && FirstUnder(pairs, w) == None
    ensures Labelled(ns, words + [w], pairs, pr, d)
  {
    hide FirstEqual, FirstUnder;
    var ws := words + [w];
    forall n | 0 <= n < |ns|
      ensures ns[n].pair == FirstEqual(pairs, ws[n])
      ensures ns[n].minPair
        == MinOf(FirstUnder(if ws[n] <= pr.needle && |ws[n]| < d then pairs + [pr] else pairs, ws[n]))
    {
      if n < |words| { assert ws[n] == words[n]; }
    }
  }

  lemma NothingUnder(words: seq<Bytes>, pairs: seq<Pair>, w: Bytes)
    requires w !in words
    requires forall i | 0 <= i < |pairs| :: Spelled(words, pairs[i].needle, |pairs[i].needle|)
    ensures forall i | 0 <= i < |pairs| :: !(w <= pairs[i].needle)
  {
    forall i | 0 <= i < |pairs| ensures !(w <= pairs[i].needle) {
      if w <= pairs[i].needle { PrefixSpelled(words, w, pairs[i].needle); }
    }
  }

  lemma PrefixSpelled(words: seq<Bytes>, w: Bytes, x: Bytes)
    requires Spelled(words, x, |x|) && w <= x
    ensures w in words
  {
    assert x[..|w|] == w;
  }

  lemma SpelledMore(words: seq<Bytes>, w: Bytes, x: Bytes, d: nat)
    requires d <= |x| && Spelled(words, x, d)
    ensures Spelled(words + [w], x, d)
  {
    forall l | 0 <= l <= d ensures x[..l] in words + [w] { assert x[..l] in words; }
  }

  lemma SpelledOneMore(words: seq<Bytes>, x: Bytes, d: nat)
    requires d < |x| && Spelled(words, x, d) && x[..d + 1] in words
    ensures Spelled(words, x, d + 1)
  {
  }

  /** The state of the builder after `d` bytes of the pair being added. */
  ghost predicate Adding(nodes: seq<Node>, words: seq<Bytes>, pairs: seq<Pair>, p: Pair, d: nat, at: nat) {
    && Tree(nodes, words)
    && (forall i | 0 <= i < |pairs| :: Spelled(words, pairs[i].needle, |pairs[i].needle|))
    && Labelled(nodes, words, pairs, p, d + 1)
    && d <= |p.needle| && at < |nodes| && words[at] == p.needle[..d]
    && Spelled(words, p.needle, d)
  }

  lemma OpenAdding(nodes: seq<Node>, words: seq<Bytes>, pairs: seq<Pair>, p: Pair, d: nat, at: nat)
    requires Adding(nodes, words, pairs, p, d, at)
    ensures Tree(nodes, words) && |nodes| == |words| && AllSorted(nodes)
    ensures forall i | 0 <= i < |pairs| :: Spelled(words, pairs[i].needle, |pairs[i].needle|)
    ensures Labelled(nodes, words, pairs, p, d + 1)
    ensures d <= |p.needle| && at < |nodes| && words[at] == p.needle[..d] && Spelled(words, p.needle, d)
  {
    hide Spelled, Labelled;
  }

  lemma CloseAdding(nodes: seq<Node>, words: seq<Bytes>, pairs: seq<Pair>, p: Pair, d: nat, at: nat)
    requires Tree(nodes, words) && |nodes| == |words| && d <= |p.needle|
    requires forall i | 0 <= i < |pairs| :: Spelled(words, pairs[i].needle, |pairs[i].needle|)
    requires Labelled(nodes, words, pairs, p, d)
    requires at < |nodes| && words[at] == p.needle[..d] && Spelled(words, p.needle, d)
    requires |pairs| < NO_PAIR
    ensures Adding(Lowered(nodes, at, |pairs|), words, pairs, p, d, at)
  {
    LoweringCounts(nodes, words, pairs, p, d, at);
    LoweringKeepsTree(nodes, words, at, |pairs|);
    hide Spelled, Labelled, Tree;
  }

  lemma AddingBegins(nodes: seq<Node>, words: seq<Bytes>, pairs: seq<Pair>, p: Pair)
    requires Trie(nodes, words, pairs) && |pairs| < NO_PAIR
    ensures Adding(Lowered(nodes, 0, |pairs|), words, pairs, p, 0, 0)
  {
    assert p.needle[..0] == words[0] && words[0] in words;
    CloseAdding(nodes, words, pairs, p, 0, 0);
  }

  /** Following a child that is there. */
  lemma AddingFollows(nodes: seq<Node>, words: seq<Bytes>, pairs: seq<Pair>, p: Pair, d: nat, at: nat, i: nat)
    requires Adding(nodes, words, pairs, p, d, at) && d < |p.needle| && |pairs| < NO_PAIR
    requires at < |nodes| && i < |nodes[at].children| && nodes[at].children[i].0 == p.needle[d]
    ensures
      var id := nodes[at].children[i].1;
      id < |nodes| && Adding(Lowered(nodes, id, |pairs|), words, pairs, p, d + 1, id)
  {
    hide *;
    OpenAdding(nodes, words, pairs, p, d, at);
    var id := nodes[at].children[i].1;
    ChildWord(nodes, words, at, i);
    assert p.needle[..d + 1] == p.needle[..d] + [p.needle[d]];
    assert words[id] in words;
    SpelledOneMore(words, p.needle, d);
    CloseAdding(nodes, words, pairs, p, d + 1, id);
  }

  lemma ChildWord(nodes: seq<Node>, words: seq<Bytes>, at: nat, i: nat)
    requires Tree(nodes, words) && at < |nodes| && i < |nodes[at].children|
    ensures
      var c := nodes[at].children[i];
      c.1 < |nodes| && words[c.1] == words[at] + [c.0]
  {
    assert ChildSpells(nodes, words, at, i);
  }

  /** Growing a child that is not. */
  lemma AddingGrows(nodes: seq<Node>, words: seq<Bytes>, pairs: seq<Pair>, p: Pair, d: nat, at: nat, i: nat)
    requires Adding(nodes, words, pairs, p, d, at) && d < |p.needle| && |pairs| < NO_PAIR
    requires at < |nodes| == |words| && i <= |nodes[at].children| && Locates(nodes[at].children, p.needle[d], Gap(i))
    ensures
      var ns := Grown(nodes, at, i, p.needle[d]);
      var ws := words + [words[at] + [p.needle[d]]];
      |ns| == |nodes| + 1 && Adding(Lowered(ns, |nodes|, |pairs|), ws, pairs, p, d + 1, |nodes|)
  {
    hide *;
    OpenAdding(nodes, words, pairs, p, d, at);
    var b := p.needle[d];
    var ns, ws, id := Grown(nodes, at, i, b), words + [words[at] + [b]], |nodes|;
    GrownSize(nodes, at, i, b);
    GapIsNew(nodes, words, at, i, b);
    GrowingKeepsTree(nodes, words, at, i, b);
    GrowingKeepsLabels(nodes, words, pairs, p, d + 1, at, i, b);
    assert p.needle[..d + 1] == p.needle[..d] + [b];
    forall j | 0 <= j < |pairs| ensures Spelled(ws, pairs[j].needle, |pairs[j].needle|) {
      SpelledMore(words, words[at] + [b], pairs[j].needle, |pairs[j].needle|);
    }
    SpelledMore(words, words[at] + [b], p.needle, d);
    assert ws[id] == p.needle[..d + 1] && ws[id] in ws;
    SpelledOneMore(ws, p.needle, d);
    CloseAdding(ns, ws, pairs, p, d + 1, id);
  }

  lemma GrownSize(nodes: seq<Node>, at: nat, i: nat, b: byte)
    requires at < |nodes| && i <= |nodes[at].children|
    ensures |Grown(nodes, at, i, b)| == |nodes| + 1
  {
  }

  function Ended(nodes: seq<Node>, at: nat, i: nat): seq<Node>
    requires at < |nodes|
  {
    if nodes[at].pair.Some? then nodes else nodes[at := nodes[at].(pair := Some(i))]
  }

  lemma AddingEnds(nodes: seq<Node>, words: seq<Bytes>, pairs: seq<Pair>, p: Pair, at: nat)
    requires Adding(nodes, words, pairs, p, |p.needle|, at)
    ensures Trie(Ended(nodes, at, |pairs|), words, pairs + [p])
  {
    hide *;
    OpenAdding(nodes, words, pairs, p, |p.needle|, at);
    EndedIs(nodes, at, |pairs|);
    assert p.needle[..|p.needle|] == p.needle;
    SameShape(nodes, Ended(nodes, at, |pairs|), words);
    WordsOnce(nodes, words, at);
    EndedLabels(nodes, words, pairs, p, at);
    SpelledAll(words, pairs, p);
    CloseTrie(Ended(nodes, at, |pairs|), words, pairs + [p]);
  }

  lemma EndedIs(nodes: seq<Node>, at: nat, i: nat)
    requires at < |nodes|
    ensures
      var ns := Ended(nodes, at, i);
      && |ns| == |nodes|
      && forall n | 0 <= n < |ns| ::
           && ns[n].children == nodes[n].children && ns[n].minPair == nodes[n].minPair
           && ns[n].pair == if n == at && nodes[n].pair.None? then Some(i) else nodes[n].pair
  {
  }

  lemma WordsOnce(nodes: seq<Node>, words: seq<Bytes>, at: nat)
    requires Tree(nodes, words) && at < |words|
    ensures forall n | 0 <= n < |words| && words[n] == words[at] :: n == at
  {
    hide Up, Down, AllSorted;
  }

  /** With the last node marked, the labels are those of the longer pair list. */
  lemma EndedLabels(nodes: seq<Node>, words: seq<Bytes>, pairs: seq<Pair>, p: Pair, at: nat)
    requires |nodes| == |words| && Labelled(nodes, words, pairs, p, |p.needle| + 1)
    requires at < |nodes| && words[at] == p.needle
    requires forall n | 0 <= n < |words| && words[n] == p.needle :: n == at
    ensures Labels(Ended(nodes, at, |pairs|), words, pairs + [p])
  {
    EndedIs(nodes, at, |pairs|);
    hide FirstEqual, FirstUnder, Ended;
    var ns := Ended(nodes, at, |pairs|);
    forall n | 0 <= n < |ns|
      ensures ns[n].pair == FirstEqual(pairs + [p], words[n])
        && ns[n].minPair == MinOf(FirstUnder(pairs + [p], words[n]))
    {
      LabelsAfter(pairs, p, words[n]);
    }
  }

  lemma SpelledAll(words: seq<Bytes>, pairs: seq<Pair>, p: Pair)
    requires forall i | 0 <= i < |pairs| :: Spelled(words, pairs[i].needle, |pairs[i].needle|)
    requires Spelled(words, p.needle, |p.needle|)
    ensures forall i | 0 <= i < |pairs + [p]| :: Spelled(words, (pairs + [p])[i].needle, |(pairs + [p])[i].needle|)
  {
    hide Spelled;
  }

  lemma CloseTrie(nodes: seq<Node>, words: seq<Bytes>, pairs: seq<Pair>)
    requires Tree(nodes, words) && |nodes| == |words| && Labels(nodes, words, pairs)
    requires forall i | 0 <= i < |pairs| :: Spelled(words, pairs[i].needle, |pairs[i].needle|)
    ensures Trie(nodes, words, pairs)
  {
    hide Tree, Spelled, Labels;
  }

  lemma AddingHere(nodes: seq<Node>, words: seq<Bytes>, pairs: seq<Pair>, p: Pair, d: nat, at: nat)
    requires Adding(nodes, words, pairs, p, d, at)
    ensures at < |nodes| == |words| && Sorted(nodes[at].children)
  {
  }

  ghost predicate Built(nodes: seq<Node>, words: seq<Bytes>, pairs: seq<Pair>, news: seq<Bytes>) {
    Trie(nodes, words, pairs) && Writes(pairs, news)
  }

  predicate Writes(pairs: seq<Pair>, news: seq<Bytes>) {
    |news| == |pairs| && forall i | 0 <= i < |pairs| :: news[i] == pairs[i].replacement
  }

  lemma OpenBuilt(nodes: seq<Node>, words: seq<Bytes>, pairs: seq<Pair>, news: seq<Bytes>)
    requires Built(nodes, words, pairs, news)
    ensures Trie(nodes, words, pairs) && Writes(pairs, news) && |news| == |pairs| && |nodes| == |words| > 0
  {
  }

  lemma CloseBuilt(nodes: seq<Node>, words: seq<Bytes>, pairs: seq<Pair>, news: seq<Bytes>, p: Pair)
    requires Trie(nodes, words, pairs + [p]) && Writes(pairs, news)
    ensures Built(nodes, words, pairs + [p], news + [p.replacement])
  {
    hide Trie;
  }

  class Builder {
    var nodes: seq<Node>
    var news: seq<Bytes>
    ghost var words: seq<Bytes>
    ghost var pairs: seq<Pair>

    ghost predicate Valid()
      reads this
    {
      Built(nodes, words, pairs, news)
    }

    constructor ()
      ensures Valid() && pairs == []
    {
      nodes, news, words, pairs := [FRESH], [], [[]], [];
    }

    /** Add one pair; a repeated `old` keeps its first. */
    method Add(old': Bytes, new': Bytes)
      requires Valid() && |news| < NO_PAIR
      modifies this
      ensures Valid() && pairs == old(pairs) + [Pair(old', new')]
    {
      hide Built, Writes, Adding, Tree, Trie, Grown, Lowered, Ended, AllSorted, Spelled, Labelled, FirstEqual,
        FirstUnder, Words, Down, Up, Sorted;
      ghost var p := Pair(old', new');
      var i, at: nat := |news|, 0;
      OpenBuilt(nodes, words, pairs, news);
      AddingBegins(nodes, words, pairs, p);
      nodes := Lowered(nodes, 0, i);
      var d := 0;
      while d < |old'|
        invariant 0 <= d <= |old'| && i == |news| == |pairs| && pairs == old(pairs) && news == old(news)
        invariant Adding(nodes, words, pairs, p, d, at)
      {
        AddingHere(nodes, words, pairs, p, d, at);
        var slot := BinarySearch(nodes[at].children, old'[d]);
        match slot {
          case At(k) =>
            AddingFollows(nodes, words, pairs, p, d, at, k);
            at := nodes[at].children[k].1;
          case Gap(k) =>
            AddingGrows(nodes, words, pairs, p, d, at, k);
            var id := |nodes|;
            words := words + [words[at] + [old'[d]]];
            nodes := Grown(nodes, at, k, old'[d]);
            at := id;
        }
        nodes := Lowered(nodes, at, i);
        d := d + 1;
      }
      AddingHere(nodes, words, pairs, p, d, at);
      AddingEnds(nodes, words, pairs, p, at);
      CloseBuilt(Ended(nodes, at, i), words, pairs, news, p);
      nodes := Ended(nodes, at, i);
      news := news + [new'];
      pairs := pairs + [p];
    }

    /** The dictionary as it stands, shared read-only from now on. */
    method Finish(mode: Mode) returns (m: Matcher)
      requires Valid()
      ensures m.mode == mode && Built(m.nodes, words, pairs, m.news)
    {
      m := Matcher(nodes, news, mode);
    }
  }

  datatype Matcher = Matcher(nodes: seq<Node>, news: seq<Bytes>, mode: Mode)

  // --------------------------------------------------------------- looking up

  type Found = Option<(nat, nat)>

  /** `best` wins among the pairs whose `old` is shorter than `d`. */
  ghost predicate BestShorter(pairs: seq<Pair>, mode: Mode, text: Bytes, skipEmpty: bool, d: nat, best: Found) {
    match best
    case None => forall j | 0 <= j < |pairs| && Competes(pairs[j], text, skipEmpty) :: |pairs[j].needle| >= d
    case Some(f) =>
      && f.0 < |pairs| && f.1 == |pairs[f.0].needle| < d && Competes(pairs[f.0], text, skipEmpty)
      && forall j | 0 <= j < |pairs| && j != f.0 && Competes(pairs[j], text, skipEmpty) && |pairs[j].needle| < d ::
           Beats(pairs, mode, f.0, j)
  }

  /** Where `best` stands for the winner of the whole scan. */
  ghost predicate IsWinner(pairs: seq<Pair>, mode: Mode, text: Bytes, skipEmpty: bool, best: Found) {
    match Winner(pairs, mode, text, skipEmpty)
    case None => best.None?
    case Some(i) => i < |pairs| && best == Some((i, |pairs[i].needle|))
  }

  function Better(n: Node, mode: Mode, skipEmpty: bool, d: nat, best: Found): Found {
    if n.pair.Some? && !(d == 0 && skipEmpty) then
      match mode
      case First => if best.None? || n.pair.value < best.value.0 then Some((n.pair.value, d)) else best
      case Longest => Some((n.pair.value, d))
    else best
  }

  lemma BestSoFar(pairs: seq<Pair>, mode: Mode, text: Bytes, skipEmpty: bool, d: nat, best: Found, n: Node)
    requires d <= |text| && n.pair == FirstEqual(pairs, text[..d])
    requires BestShorter(pairs, mode, text, skipEmpty, d, best)
    ensures BestShorter(pairs, mode, text, skipEmpty, d + 1, Better(n, mode, skipEmpty, d, best))
  {
    FirstEqualIs(pairs, text[..d]);
    hide FirstEqual;
    forall j | 0 <= j < |pairs| && Competes(pairs[j], text, skipEmpty) && |pairs[j].needle| == d
      ensures pairs[j].needle == text[..d]
    {
    }
  }

  /** If every longer competitor loses to `best`, it is the winner. */
  lemma LongerLose(pairs: seq<Pair>, mode: Mode, text: Bytes, skipEmpty: bool, d: nat, best: Found)
    requires BestShorter(pairs, mode, text, skipEmpty, d, best)
    requires forall j | 0 <= j < |pairs| && Competes(pairs[j], text, skipEmpty) && |pairs[j].needle| >= d ::
               best.Some? && Beats(pairs, mode, best.value.0, j)
    ensures IsWinner(pairs, mode, text, skipEmpty, best)
  {
    var w := if best.Some? then Some(best.value.0) else None;
    assert Wins(pairs, mode, text, skipEmpty, w);
    WinnerUnique(pairs, mode, text, skipEmpty, w);
  }

  /** The pruning of `first` lookups: nothing deeper lists earlier. */
  lemma PruningIsSafe(pairs: seq<Pair>, text: Bytes, skipEmpty: bool, d: nat, best: Found, n: Node)
    requires d <= |text| && n.minPair == MinOf(FirstUnder(pairs, text[..d])) && |pairs| <= NO_PAIR
    requires BestShorter(pairs, First, text, skipEmpty, d + 1, best)
    requires best.Some? && n.minPair >= best.value.0
    ensures IsWinner(pairs, First, text, skipEmpty, best)
  {
    FirstUnderIs(pairs, text[..d]);
    hide FirstUnder, Winner, IsWinner;
    forall j | 0 <= j < |pairs| && Competes(pairs[j], text, skipEmpty) && |pairs[j].needle| >= d + 1
      ensures best.value.0 < j
    {
      assert text[..d] <= pairs[j].needle;
    }
    LongerLose(pairs, First, text, skipEmpty, d + 1, best);
  }

  lemma EndOfText(pairs: seq<Pair>, mode: Mode, text: Bytes, skipEmpty: bool, best: Found)
    requires BestShorter(pairs, mode, text, skipEmpty, |text| + 1, best)
    ensures IsWinner(pairs, mode, text, skipEmpty, best)
  {
    hide Winner, IsWinner;
    LongerLose(pairs, mode, text, skipEmpty, |text| + 1, best);
  }

  /** With no child for the next byte, no `old` goes on. */
  lemma NoChildNoPair(nodes: seq<Node>, words: seq<Bytes>, pairs: seq<Pair>, mode: Mode, text: Bytes, skipEmpty: bool,
                      d: nat, best: Found, at: nat, p: nat)
    requires Trie(nodes, words, pairs) && d < |text| && at < |nodes| == |words| && words[at] == text[..d]
    requires Locates(nodes[at].children, text[d], Gap(p))
    requires BestShorter(pairs, mode, text, skipEmpty, d + 1, best)
    ensures IsWinner(pairs, mode, text, skipEmpty, best)
  {
    hide *;
    TrieSpells(nodes, words, pairs);
    GapIsNew(nodes, words, at, p, text[d]);
    NothingUnder(words, pairs, words[at] + [text[d]]);
    assert words[at] + [text[d]] == text[..d + 1];
    NoLonger(pairs, text, skipEmpty, d);
    LongerLose(pairs, mode, text, skipEmpty, d + 1, best);
  }

  lemma TrieSpells(nodes: seq<Node>, words: seq<Bytes>, pairs: seq<Pair>)
    requires Trie(nodes, words, pairs)
    ensures Tree(nodes, words) && forall i | 0 <= i < |pairs| :: Spelled(words, pairs[i].needle, |pairs[i].needle|)
  {
    hide Tree, Spelled;
  }

  lemma NoLonger(pairs: seq<Pair>, text: Bytes, skipEmpty: bool, d: nat)
    requires d < |text| && forall i | 0 <= i < |pairs| :: !(text[..d + 1] <= pairs[i].needle)
    ensures forall j | 0 <= j < |pairs| && Competes(pairs[j], text, skipEmpty) :: |pairs[j].needle| < d + 1
  {
    forall j | 0 <= j < |pairs| && Competes(pairs[j], text, skipEmpty) ensures |pairs[j].needle| < d + 1 {
      if |pairs[j].needle| > d { PrefixOfPrefix(pairs[j].needle, text, d + 1); }
    }
  }

  lemma PrefixOfPrefix(w: Bytes, text: Bytes, d: nat)
    requires w <= text && d <= |w|
    ensures text[..d] <= w
  {
  }

  lemma NodeHere(nodes: seq<Node>, words: seq<Bytes>, pairs: seq<Pair>, at: nat)
    requires Trie(nodes, words, pairs) && at < |nodes|
    ensures |nodes| == |words| && words[0] == [] && Sorted(nodes[at].children) && Tree(nodes, words)
    ensures nodes[at].pair == FirstEqual(pairs, words[at]) && nodes[at].minPair == MinOf(FirstUnder(pairs, words[at]))
  {
  }

  /** The pair that wins at the start of `text`, with the length of its `old`, and
      the trie steps taken. */
  method Lookup(m: Matcher, text: Bytes, skipEmpty: bool, ghost words: seq<Bytes>, ghost pairs: seq<Pair>)
    returns (best: Found, steps: nat)
    requires Built(m.nodes, words, pairs, m.news) && |pairs| <= NO_PAIR
    ensures IsWinner(pairs, m.mode, text, skipEmpty, best)
    ensures 0 < steps <= |text| + 1
  {
    hide *;
    OpenBuilt(m.nodes, words, pairs, m.news);
    NodeHere(m.nodes, words, pairs, 0);
    var at: nat, depth: nat := 0, 0;
    best := None;
    NothingShorter(pairs, m.mode, text, skipEmpty);
    while true
      invariant at < |m.nodes| == |words| && depth <= |text| && words[at] == text[..depth]
      invariant BestShorter(pairs, m.mode, text, skipEmpty, depth, best)
      decreases |text| - depth
    {
      var node := m.nodes[at];
      NodeHere(m.nodes, words, pairs, at);
      BestSoFar(pairs, m.mode, text, skipEmpty, depth, best, node);
      BetterIs(node, m.mode, skipEmpty, depth, best);
      if node.pair.Some? && !(depth == 0 && skipEmpty) {
        match m.mode {
          case First =>
            if best.None? || node.pair.value < best.value.0 {
              best := Some((node.pair.value, depth));
            }
          case Longest => best := Some((node.pair.value, depth));
        }
      }
      if m.mode == First && best.Some? && node.minPair >= best.value.0 {
        PruningIsSafe(pairs, text, skipEmpty, depth, best, node);
        break;
      }
      if depth == |text| {
        EndOfText(pairs, m.mode, text, skipEmpty, best);
        break;
      }
      var slot := BinarySearch(node.children, text[depth]);
      match slot {
        case At(p) =>
          AtChild(m.nodes, words, at, p, text[depth]);
          assert text[..depth + 1] == text[..depth] + [text[depth]];
          at := node.children[p].1;
        case Gap(p) =>
          NoChildNoPair(m.nodes, words, pairs, m.mode, text, skipEmpty, depth, best, at, p);
          break;
      }
      depth := depth + 1;
    }
    steps := depth + 1;
  }

  lemma NothingShorter(pairs: seq<Pair>, mode: Mode, text: Bytes, skipEmpty: bool)
    ensures BestShorter(pairs, mode, text, skipEmpty, 0, None)
  {
  }

  lemma BetterIs(n: Node, mode: Mode, skipEmpty: bool, d: nat, best: Found)
    ensures Better(n, mode, skipEmpty, d, best) ==
      if n.pair.Some? && !(d == 0 && skipEmpty)
         && (mode.Longest? || best.None? || n.pair.value < best.value.0)
      then Some((n.pair.value, d)) else best
  {
  }

  lemma AtChild(nodes: seq<Node>, words: seq<Bytes>, at: nat, p: nat, b: byte)
    requires Tree(nodes, words) && at < |nodes| && Locates(nodes[at].children, b, At(p))
    ensures p < |nodes[at].children|
    ensures nodes[at].children[p].1 < |nodes| && words[nodes[at].children[p].1] == words[at] + [b]
  {
    ChildWord(nodes, words, at, p);
  }

  // --------------------------------------------------------------- replacing

  /** Trie steps between two looks at the deadline. */
  const CHECK_EVERY: nat := 0x1_0000

  datatype Outcome = Done(out: Bytes) | TooLarge | Interrupted

  function UpTo(text: Bytes, last: nat, i: nat): Bytes
    requires last <= |text| && last <= i
  {
    text[last..if i < |text| then i else |text|]
  }

  /** What is written, what is only passed over, and what is still to come make up
      the whole output. */
  ghost predicate Accounted(pairs: seq<Pair>, mode: Mode, text: Bytes, out: Bytes, last: nat, i: nat, prevEmpty: bool) {
    && last <= i <= |text| + 1 && last <= |text|
    && Replaced(pairs, mode, text) == out + UpTo(text, last, i) + Rest(pairs, mode, text, i, prevEmpty)
  }

  lemma TakesMatch(pairs: seq<Pair>, mode: Mode, text: Bytes, out: Bytes, last: nat, i: nat, prevEmpty: bool,
                   f: (nat, nat))
    requires Accounted(pairs, mode, text, out, last, i, prevEmpty) && i <= |text|
    requires IsWinner(pairs, mode, text[i..], prevEmpty, Some(f))
    ensures f.0 < |pairs| && i + f.1 <= |text| && !(prevEmpty && f.1 == 0)
    ensures Accounted(pairs, mode, text, out + text[last..i] + pairs[f.0].replacement, i + f.1, i + f.1, f.1 == 0)
    ensures |out| + (i - last) + |pairs[f.0].replacement| <= |Replaced(pairs, mode, text)|
  {
    hide *;
    OpenAccounted(pairs, mode, text, out, last, i, prevEmpty);
    RestAtMatch(pairs, mode, text, i, prevEmpty, f);
    var before, rest := out + text[last..i], Rest(pairs, mode, text, i + f.1, f.1 == 0);
    UpToIs(text, last, i);
    UpToIs(text, i + f.1, i + f.1);
    assert before + (pairs[f.0].replacement + rest) == (before + pairs[f.0].replacement) + [] + rest;
    CloseAccounted(pairs, mode, text, before + pairs[f.0].replacement, i + f.1, i + f.1, f.1 == 0);
  }

  lemma UpToIs(text: Bytes, last: nat, i: nat)
    requires last <= |text| && last <= i
    ensures i <= |text| ==> UpTo(text, last, i) == text[last..i]
    ensures UpTo(text, last, i + 1) == UpTo(text, last, i) + if i < |text| then [text[i]] else []
  {
  }

  lemma OpenAccounted(pairs: seq<Pair>, mode: Mode, text: Bytes, out: Bytes, last: nat, i: nat, prevEmpty: bool)
    requires Accounted(pairs, mode, text, out, last, i, prevEmpty)
    ensures last <= i <= |text| + 1 && last <= |text|
    ensures Replaced(pairs, mode, text) == out + UpTo(text, last, i) + Rest(pairs, mode, text, i, prevEmpty)
  {
    hide Replaced, Rest, UpTo;
  }

  lemma CloseAccounted(pairs: seq<Pair>, mode: Mode, text: Bytes, out: Bytes, last: nat, i: nat, prevEmpty: bool)
    requires last <= i <= |text| + 1 && last <= |text|
    requires Replaced(pairs, mode, text) == out + UpTo(text, last, i) + Rest(pairs, mode, text, i, prevEmpty)
    ensures Accounted(pairs, mode, text, out, last, i, prevEmpty)
  {
    hide Replaced, Rest, UpTo;
  }

  lemma RestAtMatch(pairs: seq<Pair>, mode: Mode, text: Bytes, i: nat, prevEmpty: bool, f: (nat, nat))
    requires i <= |text| && IsWinner(pairs, mode, text[i..], prevEmpty, Some(f))
    ensures f.0 < |pairs| && i + f.1 <= |text| && !(prevEmpty && f.1 == 0)
    ensures Rest(pairs, mode, text, i, prevEmpty) == pairs[f.0].replacement + Rest(pairs, mode, text, i + f.1, f.1 == 0)
  {
    hide Winner, Wins;
  }

  lemma RestAtByte(pairs: seq<Pair>, mode: Mode, text: Bytes, i: nat, prevEmpty: bool)
    requires i <= |text| && IsWinner(pairs, mode, text[i..], prevEmpty, None)
    ensures Rest(pairs, mode, text, i, prevEmpty)
      == (if i < |text| then [text[i]] else []) + Rest(pairs, mode, text, i + 1, false)
  {
    hide Winner, Wins;
  }

  lemma PassesByte(pairs: seq<Pair>, mode: Mode, text: Bytes, out: Bytes, last: nat, i: nat, prevEmpty: bool)
    requires Accounted(pairs, mode, text, out, last, i, prevEmpty) && i <= |text|
    requires IsWinner(pairs, mode, text[i..], prevEmpty, None)
    ensures Accounted(pairs, mode, text, out, last, i + 1, false)
  {
    hide *;
    OpenAccounted(pairs, mode, text, out, last, i, prevEmpty);
    RestAtByte(pairs, mode, text, i, prevEmpty);
    UpToIs(text, last, i);
    var here: Bytes, rest := if i < |text| then [text[i]] else [], Rest(pairs, mode, text, i + 1, false);
    assert out + UpTo(text, last, i) + (here + rest) == out + (UpTo(text, last, i) + here) + rest;
    CloseAccounted(pairs, mode, text, out, last, i + 1, false);
  }

  lemma AllAccounted(pairs: seq<Pair>, mode: Mode, text: Bytes, out: Bytes, last: nat, i: nat, prevEmpty: bool)
    requires Accounted(pairs, mode, text, out, last, i, prevEmpty) && i > |text|
    ensures last <= |text| && Replaced(pairs, mode, text) == out + text[last..]
  {
    hide Replaced, Winner;
  }

  lemma NothingYet(pairs: seq<Pair>, mode: Mode, text: Bytes)
    ensures Accounted(pairs, mode, text, [], 0, 0, false)
  {
    hide Rest;
  }

  /** The replacer's pass over `text`. `poll(k)` is what the deadline check says
      when asked for the `k`-th time. */
  method Replace(m: Matcher, text: Bytes, budget: nat, poll: nat -> bool, ghost words: seq<Bytes>,
                 ghost pairs: seq<Pair>)
    returns (r: Outcome, polls: nat)
    requires Built(m.nodes, words, pairs, m.news) && |pairs| <= NO_PAIR
    ensures r.Interrupted? <==> polls > 0 && poll(polls - 1)
    ensures forall k | 0 <= k < polls - 1 :: !poll(k)
    ensures !r.Interrupted? ==>
      r == if |Replaced(pairs, m.mode, text)| > budget then TooLarge else Done(Replaced(pairs, m.mode, text))
  {
    hide *;
    OpenBuilt(m.nodes, words, pairs, m.news);
    NothingYet(pairs, m.mode, text);
    var out: Bytes := [];
    var last, i, work: nat := 0, 0, 0;
    var prevEmpty := false;
    polls := 0;
    while i <= |text|
      invariant last <= i <= |text| + 1 && last <= |text|
      invariant Accounted(pairs, m.mode, text, out, last, i, prevEmpty)
      invariant forall k | 0 <= k < polls :: !poll(k)
      decreases |text| + 1 - i, if prevEmpty then 0 else 1
    {
      var found, steps := Lookup(m, text[i..], prevEmpty, words, pairs);
      work := work + steps;
      if work >= CHECK_EVERY {
        work := 0;
        polls := polls + 1;
        if poll(polls - 1) {
          return Interrupted, polls;
        }
      }
      if found.Some? {
        var (p, len) := found.value;
        TakesMatch(pairs, m.mode, text, out, last, i, prevEmpty, found.value);
        ReplacementAt(pairs, m.news, p);
        var news := m.news[p];
        if |out| + (i - last) + |news| > budget {
          return TooLarge, polls;
        }
        out := out + text[last..i] + news;
        prevEmpty := len == 0;
        i := i + len;
        last := i;
      } else {
        PassesByte(pairs, m.mode, text, out, last, i, prevEmpty);
        prevEmpty := false;
        i := i + 1;
      }
    }
    AllAccounted(pairs, m.mode, text, out, last, i, prevEmpty);
    if |out| + |text[last..]| > budget {
      return TooLarge, polls;
    }
    return Done(out + text[last..]), polls;
  }

  lemma ReplacementAt(pairs: seq<Pair>, news: seq<Bytes>, p: nat)
    requires Writes(pairs, news) && p < |pairs|
    ensures p < |news| && news[p] == pairs[p].replacement
  {
  }
}
