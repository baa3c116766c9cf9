/** Many-to-many literal replacement, as promised: a scan of the pair list at each
    position of one left-to-right pass. */
module TextSpec {
  import opened Prelude

  type Bytes = seq<byte>

  datatype Mode = First | Longest

  datatype Pair = Pair(needle: Bytes, replacement: Bytes)

  /** A pair competes where its `old` starts the remaining text; right after an
      empty match, an empty `old` does not. */
  predicate Competes(p: Pair, text: Bytes, skipEmpty: bool) {
    p.needle <= text && !(skipEmpty && p.needle == [])
  }

  /** Does pair `i` beat pair `j`? */
  predicate Beats(pairs: seq<Pair>, mode: Mode, i: nat, j: nat)
    requires i < |pairs| && j < |pairs|
  {
    match mode
    case First => i < j
    case Longest => |pairs[i].needle| > |pairs[j].needle| || (|pairs[i].needle| == |pairs[j].needle| && i < j)
  }

  /** `w` is the competitor that beats every other. */
  ghost predicate Wins(pairs: seq<Pair>, mode: Mode, text: Bytes, skipEmpty: bool, w: Option<nat>) {
    match w
    case None => forall j | 0 <= j < |pairs| :: !Competes(pairs[j], text, skipEmpty)
    case Some(i) =>
      && i < |pairs| && Competes(pairs[i], text, skipEmpty)
      && forall j | 0 <= j < |pairs| && j != i && Competes(pairs[j], text, skipEmpty) :: Beats(pairs, mode, i, j)
  }

  function Shifted(w: Option<nat>): Option<nat> { if w.Some? then Some(w.value + 1) else None }

  /** The winning pair at the start of `text`, by scanning the list. */
  function Winner(pairs: seq<Pair>, mode: Mode, text: Bytes, skipEmpty: bool): (w: Option<nat>)
    ensures Wins(pairs, mode, text, skipEmpty, w)
    ensures w.Some? ==> w.value < |pairs| && Competes(pairs[w.value], text, skipEmpty)
  {
    if pairs == [] then None else
      var rest := Winner(pairs[1..], mode, text, skipEmpty);
      if Competes(pairs[0], text, skipEmpty)
         && (mode.First? || rest.None? || |pairs[0].needle| >= |pairs[1..][rest.value].needle|)
      then Some(0)
      else Shifted(rest)
  }

  lemma WinnerUnique(pairs: seq<Pair>, mode: Mode, text: Bytes, skipEmpty: bool, w: Option<nat>)
    requires Wins(pairs, mode, text, skipEmpty, w)
    ensures w == Winner(pairs, mode, text, skipEmpty)
  {
    var v := Winner(pairs, mode, text, skipEmpty);
    if v.Some? && w.Some? {
      assert !(Beats(pairs, mode, v.value, w.value) && Beats(pairs, mode, w.value, v.value));
    }
  }

  /** The output from position `i` on: matches never overlap, and what a match
      wrote is never scanned again. */
  function Rest(pairs: seq<Pair>, mode: Mode, text: Bytes, i: nat, skipEmpty: bool): Bytes
    decreases |text| + 1 - i, if skipEmpty then 0 else 1
  {
    if i > |text| then [] else
      match Winner(pairs, mode, text[i..], skipEmpty)
      case Some(p) =>
        var len := |pairs[p].needle|;
        pairs[p].replacement + Rest(pairs, mode, text, i + len, len == 0)
      case None =>
        (if i < |text| then [text[i]] else []) + Rest(pairs, mode, text, i + 1, false)
  }

  function Replaced(pairs: seq<Pair>, mode: Mode, text: Bytes): Bytes { Rest(pairs, mode, text, 0, false) }

  // ------------------------------------- longest is first over a sorted list

  /** Insert before the first pair whose `old` is not longer. */
  function InsertByLength(p: Pair, pairs: seq<Pair>): seq<Pair> {
    if pairs == [] || |p.needle| >= |pairs[0].needle| then [p] + pairs
    else [pairs[0]] + InsertByLength(p, pairs[1..])
  }

  /** A stable sort by descending length of `old`. */
  function SortedByLength(pairs: seq<Pair>): seq<Pair> {
    if pairs == [] then [] else InsertByLength(pairs[0], SortedByLength(pairs[1..]))
  }

  function PairAt(pairs: seq<Pair>, w: Option<nat>): Option<Pair>
    requires w.Some? ==> w.value < |pairs|
  {
    if w.Some? then Some(pairs[w.value]) else None
  }

  predicate Descending(pairs: seq<Pair>) {
    forall i, j | 0 <= i < j < |pairs| :: |pairs[i].needle| >= |pairs[j].needle|
  }

  lemma {:induction false} InsertKeepsOrder(p: Pair, pairs: seq<Pair>)
    requires Descending(pairs)
    ensures Descending(InsertByLength(p, pairs))
    ensures forall q | q in InsertByLength(p, pairs) :: q == p || q in pairs
  {
    if pairs == [] || |p.needle| >= |pairs[0].needle| {
      assert InsertByLength(p, pairs) == [p] + pairs;
      hide InsertByLength;
      DescendingCons(p, pairs);
    } else {
      var h, t := pairs[0], pairs[1..];
      assert pairs == [h] + t;
      InsertKeepsOrder(p, t);
      assert InsertByLength(p, pairs) == [h] + InsertByLength(p, t);
      forall q | q in t ensures |q.needle| <= |h.needle| { }
      hide InsertByLength, Descending;
      DescendingCons(h, InsertByLength(p, t));
    }
  }

  lemma DescendingCons(h: Pair, t: seq<Pair>)
    requires Descending(t) && (t == [] || |h.needle| >= |t[0].needle| || forall q | q in t :: |q.needle| <= |h.needle|)
    ensures Descending([h] + t)
  {
    forall j | 0 <= j < |t| ensures |t[j].needle| <= |h.needle| { assert t[j] in t; }
  }

  lemma {:induction false} InsertKeepsPairs(p: Pair, pairs: seq<Pair>)
    ensures multiset(InsertByLength(p, pairs)) == multiset(pairs) + multiset{p}
  {
    if pairs == [] || |p.needle| >= |pairs[0].needle| {
      assert InsertByLength(p, pairs) == [p] + pairs;
    } else {
      assert InsertByLength(p, pairs) == [pairs[0]] + InsertByLength(p, pairs[1..]);
      InsertKeepsPairs(p, pairs[1..]);
      hide InsertByLength;
      assert pairs == [pairs[0]] + pairs[1..];
    }
  }

  lemma {:induction false} SortIsSorted(pairs: seq<Pair>)
    ensures Descending(SortedByLength(pairs)) && multiset(SortedByLength(pairs)) == multiset(pairs)
  {
    if pairs != [] {
      SortIsSorted(pairs[1..]);
      InsertKeepsOrder(pairs[0], SortedByLength(pairs[1..]));
      InsertKeepsPairs(pairs[0], SortedByLength(pairs[1..]));
      hide Descending, InsertByLength;
      assert pairs == [pairs[0]] + pairs[1..];
    }
  }

  /** The pairs whose `old` has length `n`, in order. */
  function OfLength(pairs: seq<Pair>, n: nat): seq<Pair> {
    if pairs == [] then [] else (if |pairs[0].needle| == n then [pairs[0]] else []) + OfLength(pairs[1..], n)
  }

  lemma OfLengthCons(h: Pair, t: seq<Pair>, n: nat)
    ensures OfLength([h] + t, n) == (if |h.needle| == n then [h] else []) + OfLength(t, n)
  {
    assert ([h] + t)[1..] == t;
  }

  lemma {:induction false} InsertIsStable(p: Pair, pairs: seq<Pair>, n: nat)
    ensures OfLength(InsertByLength(p, pairs), n) == (if |p.needle| == n then [p] else []) + OfLength(pairs, n)
  {
    if pairs == [] || |p.needle| >= |pairs[0].needle| {
      assert InsertByLength(p, pairs) == [p] + pairs;
      OfLengthCons(p, pairs, n);
    } else {
      var h, t := pairs[0], pairs[1..];
      assert pairs == [h] + t && InsertByLength(p, pairs) == [h] + InsertByLength(p, t);
      InsertIsStable(p, t, n);
      hide InsertByLength, OfLength;
      OfLengthCons(h, t, n);
      OfLengthCons(h, InsertByLength(p, t), n);
      assert |p.needle| == n ==> |h.needle| != n;
    }
  }

  /** The sort is stable: pairs of one length keep their order. */
  lemma {:induction false} SortIsStable(pairs: seq<Pair>, n: nat)
    ensures OfLength(SortedByLength(pairs), n) == OfLength(pairs, n)
  {
    if pairs != [] {
      SortIsStable(pairs[1..], n);
      InsertIsStable(pairs[0], SortedByLength(pairs[1..]), n);
    }
  }

  /** First-listed over a descending list, after one insertion. */
  lemma {:induction false} FirstAfterInsert(p: Pair, pairs: seq<Pair>, text: Bytes, skipEmpty: bool)
    requires Descending(pairs)
    ensures
      var before := PairAt(pairs, Winner(pairs, First, text, skipEmpty));
      var all := InsertByLength(p, pairs);
      PairAt(all, Winner(all, First, text, skipEmpty)) ==
        if Competes(p, text, skipEmpty) && (before.None? || |p.needle| >= |before.value.needle|)
        then Some(p) else before
  {
    var all := InsertByLength(p, pairs);
    FirstIsLongest(pairs, text, skipEmpty);
    if pairs == [] || |p.needle| >= |pairs[0].needle| {
      assert all == [p] + pairs;
      hide *;
      FirstFound(p, pairs, text, skipEmpty);
    } else {
      assert all == [pairs[0]] + InsertByLength(p, pairs[1..]) && pairs == [pairs[0]] + pairs[1..];
      assert Descending(pairs[1..]);
      hide *;
      FirstAfterInsert(p, pairs[1..], text, skipEmpty);
      FirstFound(pairs[0], pairs[1..], text, skipEmpty);
      FirstFound(pairs[0], InsertByLength(p, pairs[1..]), text, skipEmpty);
    }
  }

  /** `first` takes the head of the list if it competes, and else what the rest gives. */
  lemma FirstFound(h: Pair, t: seq<Pair>, text: Bytes, skipEmpty: bool)
    ensures PairAt([h] + t, Winner([h] + t, First, text, skipEmpty))
         == if Competes(h, text, skipEmpty) then Some(h) else PairAt(t, Winner(t, First, text, skipEmpty))
  {
    assert ([h] + t)[1..] == t;
    hide Wins, Competes;
  }

  lemma FirstIsLongest(pairs: seq<Pair>, text: Bytes, skipEmpty: bool)
    requires Descending(pairs)
    ensures
      var w := PairAt(pairs, Winner(pairs, First, text, skipEmpty));
      w.Some? ==> pairs != [] && |w.value.needle| <= |pairs[0].needle|
  {
    hide Wins, Competes;
  }

  /** `longest` picks the same pair as `first` over the list sorted by length. */
  lemma {:induction false} LongestIsFirstSorted(pairs: seq<Pair>, text: Bytes, skipEmpty: bool)
    ensures
      var sorted := SortedByLength(pairs);
      PairAt(pairs, Winner(pairs, Longest, text, skipEmpty)) == PairAt(sorted, Winner(sorted, First, text, skipEmpty))
  {
    if pairs != [] {
      LongestIsFirstSorted(pairs[1..], text, skipEmpty);
      SortIsSorted(pairs[1..]);
      FirstAfterInsert(pairs[0], SortedByLength(pairs[1..]), text, skipEmpty);
    }
  }

  lemma {:induction false} RestLongestIsFirstSorted(pairs: seq<Pair>, text: Bytes, i: nat, skipEmpty: bool)
    ensures Rest(pairs, Longest, text, i, skipEmpty) == Rest(SortedByLength(pairs), First, text, i, skipEmpty)
    decreases |text| + 1 - i, if skipEmpty then 0 else 1
  {
    hide Wins, Winner, SortedByLength;
    if i <= |text| {
      LongestIsFirstSorted(pairs, text[i..], skipEmpty);
      match Winner(pairs, Longest, text[i..], skipEmpty)
      case Some(p) => RestLongestIsFirstSorted(pairs, text, i + |pairs[p].needle|, |pairs[p].needle| == 0);
      case None => RestLongestIsFirstSorted(pairs, text, i + 1, false);
    }
  }

  /** For all pairs and texts, replacing in `longest` mode is replacing in `first`
      mode with the pairs stably sorted by descending length of `old`. */
  lemma LongestReplacesAsFirstSorted(pairs: seq<Pair>, text: Bytes)
    ensures Replaced(pairs, Longest, text) == Replaced(SortedByLength(pairs), First, text)
  {
    RestLongestIsFirstSorted(pairs, text, 0, false);
  }
}
