/** What replacement makes of a text: the text is cut into bytes that are copied and
    matches that are swapped, in the one way the pairs allow, and nothing is lost. */
module TextParts {
  import opened Prelude
  import opened TextSpec

  datatype Part = Copied(c: byte) | Swapped(pair: nat)

  function Source(pairs: seq<Pair>, part: Part): Bytes
    requires part.Swapped? ==> part.pair < |pairs|
  {
    match part case Copied(c) => [c] case Swapped(p) => pairs[p].needle
  }

  function Made(pairs: seq<Pair>, part: Part): Bytes
    requires part.Swapped? ==> part.pair < |pairs|
  {
    match part case Copied(c) => [c] case Swapped(p) => pairs[p].replacement
  }

  predicate Known(pairs: seq<Pair>, parts: seq<Part>) {
    forall k | 0 <= k < |parts| && parts[k].Swapped? :: parts[k].pair < |pairs|
  }

  /** The text the parts were cut from. */
  function SourceOf(pairs: seq<Pair>, parts: seq<Part>): Bytes
    requires Known(pairs, parts)
  {
    if parts == [] then [] else SourceOf(pairs, parts[..|parts| - 1]) + Source(pairs, parts[|parts| - 1])
  }

  /** What they were made into. */
  function MadeOf(pairs: seq<Pair>, parts: seq<Part>): Bytes
    requires Known(pairs, parts)
  {
    if parts == [] then [] else MadeOf(pairs, parts[..|parts| - 1]) + Made(pairs, parts[|parts| - 1])
  }

  /** Did the part before `k` swap nothing for something? */
  predicate AfterEmpty(pairs: seq<Pair>, parts: seq<Part>, k: nat)
    requires Known(pairs, parts) && k <= |parts|
  {
    k > 0 && parts[k - 1].Swapped? && pairs[parts[k - 1].pair].needle == []
  }

  /** Part `k` is what has to stand there: the pair that beats every other starting the
      rest of the text, or, if none starts it, the next byte; after the last part there
      is no text left and no pair that starts it. Right after an empty match, an empty
      pair does not count. */
  ghost predicate Stands(pairs: seq<Pair>, mode: Mode, text: Bytes, parts: seq<Part>, k: nat)
    requires Known(pairs, parts) && k <= |parts|
  {
    var at := |SourceOf(pairs, parts[..k])|;
    && at <= |text|
    && var rest := text[at..];
       if k == |parts| then rest == [] && Wins(pairs, mode, rest, AfterEmpty(pairs, parts, k), None)
       else match parts[k]
         case Copied(c) => rest != [] && rest[0] == c && Wins(pairs, mode, rest, AfterEmpty(pairs, parts, k), None)
         case Swapped(p) => Wins(pairs, mode, rest, AfterEmpty(pairs, parts, k), Some(p))
  }

  ghost predicate CutRightly(pairs: seq<Pair>, mode: Mode, text: Bytes, parts: seq<Part>) {
    && Known(pairs, parts) && SourceOf(pairs, parts) == text
    && forall k | 0 <= k <= |parts| :: Stands(pairs, mode, text, parts, k)
  }

  // ----------------------------------------------------------------- cutting on

  /** The parts so far, cut rightly as far as `i`. */
  ghost predicate CutSoFar(pairs: seq<Pair>, mode: Mode, text: Bytes, parts: seq<Part>, i: nat) {
    && Known(pairs, parts) && i <= |text| && SourceOf(pairs, parts) == text[..i]
    && forall k | 0 <= k < |parts| :: Stands(pairs, mode, text, parts, k)
  }

  lemma OneMore(pairs: seq<Pair>, mode: Mode, text: Bytes, parts: seq<Part>, i: nat, part: Part)
    requires CutSoFar(pairs, mode, text, parts, i) && (part.Swapped? ==> part.pair < |pairs|)
    requires part.Copied? ==>
      i < |text| && text[i] == part.c && Wins(pairs, mode, text[i..], AfterEmpty(pairs, parts, |parts|), None)
    requires part.Swapped? ==> Wins(pairs, mode, text[i..], AfterEmpty(pairs, parts, |parts|), Some(part.pair))
    ensures i + |Source(pairs, part)| <= |text| && Known(pairs, parts + [part])
    ensures part.Copied? ==> |Source(pairs, part)| == 1 && Made(pairs, part) == [part.c]
    ensures part.Swapped? ==>
      |Source(pairs, part)| == |pairs[part.pair].needle| && Made(pairs, part) == pairs[part.pair].replacement
    ensures CutSoFar(pairs, mode, text, parts + [part], i + |Source(pairs, part)|)
    ensures MadeOf(pairs, parts + [part]) == MadeOf(pairs, parts) + Made(pairs, part)
  {
    var more := parts + [part];
    assert more[..|parts|] == parts;
    var src := Source(pairs, part);
    assert src <= text[i..];
    assert text[..i + |src|] == text[..i] + src;
    forall k | 0 <= k < |more| ensures Stands(pairs, mode, text, more, k) {
      assert k < |parts| ==> more[..k] == parts[..k] && Stands(pairs, mode, text, parts, k);
      hide Wins;
    }
  }

  lemma RestUnfolds(pairs: seq<Pair>, mode: Mode, text: Bytes, i: nat, skip: bool)
    requires i <= |text|
    ensures
      var w := Winner(pairs, mode, text[i..], skip);
      if w.Some? then
        var p := w.value;
        && p < |pairs| && Wins(pairs, mode, text[i..], skip, Some(p)) && pairs[p].needle <= text[i..]
        && !(skip && |pairs[p].needle| == 0)
        && Rest(pairs, mode, text, i, skip)
             == pairs[p].replacement + Rest(pairs, mode, text, i + |pairs[p].needle|, |pairs[p].needle| == 0)
      else
        && Wins(pairs, mode, text[i..], skip, None)
        && Rest(pairs, mode, text, i, skip)
             == if i < |text| then [text[i]] + Rest(pairs, mode, text, i + 1, false) else []
  {
    var w := Winner(pairs, mode, text[i..], skip);
    if w.None? && i == |text| {
      assert Rest(pairs, mode, text, i + 1, false) == [];
    }
    hide Wins;
  }

  /** Cutting on from `i` gives the rest of the output. */
  lemma {:induction false} CutOn(pairs: seq<Pair>, mode: Mode, text: Bytes, parts: seq<Part>, i: nat)
    returns (all: seq<Part>)
    requires CutSoFar(pairs, mode, text, parts, i) && Known(pairs, parts) && i <= |text|
    ensures CutRightly(pairs, mode, text, all) && Known(pairs, all)
    ensures MadeOf(pairs, all)
         == MadeOf(pairs, parts) + Rest(pairs, mode, text, i, AfterEmpty(pairs, parts, |parts|))
    decreases |text| + 1 - i, if AfterEmpty(pairs, parts, |parts|) then 0 else 1
  {
    hide *;
    var skip := AfterEmpty(pairs, parts, |parts|);
    RestUnfolds(pairs, mode, text, i, skip);
    match Winner(pairs, mode, text[i..], skip)
    case Some(p) =>
      OneMore(pairs, mode, text, parts, i, Swapped(p));
      SwappedLast(pairs, parts, p);
      all := CutOn(pairs, mode, text, parts + [Swapped(p)], i + |pairs[p].needle|);
      Grouped(MadeOf(pairs, parts), pairs[p].replacement,
              Rest(pairs, mode, text, i + |pairs[p].needle|, |pairs[p].needle| == 0));
    case None =>
      if i < |text| {
        OneMore(pairs, mode, text, parts, i, Copied(text[i]));
        CopiedLast(pairs, parts, text[i]);
        all := CutOn(pairs, mode, text, parts + [Copied(text[i])], i + 1);
        Grouped(MadeOf(pairs, parts), [text[i]], Rest(pairs, mode, text, i + 1, false));
      } else {
        all := parts;
        CutToEnd(pairs, mode, text, parts);
        assert MadeOf(pairs, parts) + [] == MadeOf(pairs, parts);
      }
  }

  lemma Grouped(a: Bytes, b: Bytes, c: Bytes)
    ensures a + (b + c) == a + b + c
  {
  }

  lemma SwappedLast(pairs: seq<Pair>, parts: seq<Part>, p: nat)
    requires Known(pairs, parts) && p < |pairs|
    ensures Known(pairs, parts + [Swapped(p)])
    ensures AfterEmpty(pairs, parts + [Swapped(p)], |parts + [Swapped(p)]|) <==> |pairs[p].needle| == 0
  {
  }

  lemma CopiedLast(pairs: seq<Pair>, parts: seq<Part>, c: byte)
    requires Known(pairs, parts)
    ensures Known(pairs, parts + [Copied(c)]) && !AfterEmpty(pairs, parts + [Copied(c)], |parts + [Copied(c)]|)
  {
  }

  lemma CutToEnd(pairs: seq<Pair>, mode: Mode, text: Bytes, parts: seq<Part>)
    requires CutSoFar(pairs, mode, text, parts, |text|)
    requires Wins(pairs, mode, text[|text|..], AfterEmpty(pairs, parts, |parts|), None)
    ensures CutRightly(pairs, mode, text, parts)
  {
    assert text[..|text|] == text && parts[..|parts|] == parts;
    hide Wins;
  }

  /** For all pairs and texts: the output is made of the parts the text is rightly cut
      into. */
  lemma ReplacedIsMade(pairs: seq<Pair>, mode: Mode, text: Bytes) returns (parts: seq<Part>)
    ensures CutRightly(pairs, mode, text, parts) && Replaced(pairs, mode, text) == MadeOf(pairs, parts)
  {
    hide Stands, Wins;
    assert CutSoFar(pairs, mode, text, [], 0);
    parts := CutOn(pairs, mode, text, [], 0);
  }

  /** And there is one way to cut it. */
  lemma {:induction false} CutIsUnique(pairs: seq<Pair>, mode: Mode, text: Bytes, a: seq<Part>, b: seq<Part>, k: nat)
    requires CutRightly(pairs, mode, text, a) && CutRightly(pairs, mode, text, b)
    requires k <= |a| && k <= |b| && a[..k] == b[..k]
    ensures a == b
    decreases |a| - k
  {
    assert Stands(pairs, mode, text, a, k) && Stands(pairs, mode, text, b, k);
    assert AfterEmpty(pairs, a, k) <==> AfterEmpty(pairs, b, k) by {
      if k > 0 { assert a[k - 1] == a[..k][k - 1] == b[..k][k - 1] == b[k - 1]; }
    }
    var rest := text[|SourceOf(pairs, a[..k])|..];
    OneWinner(pairs, mode, rest, AfterEmpty(pairs, a, k));
    hide Wins, SourceOf, AfterEmpty, CutRightly;
    if k < |a| && k < |b| {
      assert a[k] == b[k];
      assert a[..k + 1] == a[..k] + [a[k]] && b[..k + 1] == b[..k] + [b[k]];
      CutIsUnique(pairs, mode, text, a, b, k + 1);
    } else {
      assert a[..|a|] == a && b[..|b|] == b;
    }
  }

  lemma OneWinner(pairs: seq<Pair>, mode: Mode, text: Bytes, skip: bool)
    ensures forall v, w | Wins(pairs, mode, text, skip, v) && Wins(pairs, mode, text, skip, w) :: v == w
  {
    forall v, w | Wins(pairs, mode, text, skip, v) && Wins(pairs, mode, text, skip, w) ensures v == w {
      WinnerUnique(pairs, mode, text, skip, v);
      WinnerUnique(pairs, mode, text, skip, w);
    }
  }
}
