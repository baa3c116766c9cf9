/** Slash paths: `a/b` children, `//a` and `a//b` descendants. */
module XmlPath {
  import opened Prelude

  datatype Step = Step(descendant: bool, name: string)

  datatype PathError = LeadingSlash | BadStep | TrailingSlash

  predicate GoodName(name: string, space: char -> bool) {
    name != "" && '/' !in name && forall c | c in name :: !space(c)
  }

  function Separator(s: Step): string { if s.descendant then "//" else "/" }

  /** The rest of a path, from the name of its first step on. */
  function Body(steps: seq<Step>): string
    requires steps != []
    decreases |steps|, 0
  {
    steps[0].name + Tail(steps[1..])
  }

  function Tail(steps: seq<Step>): string
    decreases |steps|, 1
  {
    if steps == [] then "" else Separator(steps[0]) + Body(steps)
  }

  /** How a list of steps is written. */
  function PathString(steps: seq<Step>): string
    requires steps != []
  {
    (if steps[0].descendant then "//" else "") + Body(steps)
  }

  /** `path` is how the steps `want` are written. */
  ghost predicate Reads(want: seq<Step>, path: string, space: char -> bool) {
    && want != [] && (forall i | 0 <= i < |want| :: GoodName(want[i].name, space))
    && PathString(want) == path
  }

  function SlashAt(s: string): (i: nat)
    ensures i <= |s| && '/' !in s[..i] && (i < |s| ==> s[i] == '/')
  {
    if s == "" || s[0] == '/' then 0 else
      assert forall k | 1 <= k <= |s| :: s[..k] == [s[0]] + s[1..][..k - 1];
      1 + SlashAt(s[1..])
  }

  /** Where reading stands: `steps` are read, `descendant` says how the next one is
      reached, and `rest` is its body. */
  ghost predicate Along(want: seq<Step>, steps: seq<Step>, descendant: bool, rest: string) {
    && steps < want && want[|steps|].descendant == descendant && rest == Body(want[|steps|..])
  }

  lemma {:induction false} SlashEnds(name: string, rest: string)
    requires '/' !in name && (rest == "" || rest[0] == '/')
    ensures SlashAt(name + rest) == |name|
  {
    if name == "" {
      assert name + rest == rest;
    } else {
      SlashEnds(name[1..], rest);
      assert (name + rest)[1..] == name[1..] + rest;
    }
  }

  lemma TailStarts(steps: seq<Step>)
    ensures steps == [] <==> Tail(steps) == ""
    ensures steps != [] ==> Tail(steps)[0] == '/'
  {
  }

  /** One step on: the name is what comes before the next slash. */
  lemma StepOn(want: seq<Step>, steps: seq<Step>, descendant: bool, rest: string, space: char -> bool)
    requires (forall i | 0 <= i < |want| :: GoodName(want[i].name, space)) && Along(want, steps, descendant, rest)
    ensures
      var end := SlashAt(rest);
      var more := steps + [Step(descendant, rest[..end])];
      && GoodName(rest[..end], space) && more <= want && rest[end..] == Tail(want[|more|..])
  {
    var w := want[|steps|];
    var tail := Tail(want[|steps|..][1..]);
    TailStarts(want[|steps|..][1..]);
    assert want[|steps|..][1..] == want[|steps| + 1..];
    SlashEnds(w.name, tail);
    assert rest == w.name + tail;
    assert rest[..|w.name|] == w.name && rest[|w.name|..] == tail;
    assert w == Step(descendant, w.name);
    assert GoodName(w.name, space);
  }

  /** And the separator says how the next step is reached. */
  lemma SeparatorOn(want: seq<Step>, steps: seq<Step>, rest: string, space: char -> bool)
    requires (forall i | 0 <= i < |want| :: GoodName(want[i].name, space)) && steps <= want
    requires rest == Tail(want[|steps|..])
    ensures rest == "" <==> steps == want
    ensures rest != "" ==> rest[0] == '/'
    ensures rest != "" && "//" <= rest ==> Along(want, steps, true, rest[2..]) && rest[2..] != ""
    ensures rest != "" && !("//" <= rest) ==> Along(want, steps, false, rest[1..]) && rest[1..] != ""
  {
    var ws := want[|steps|..];
    TailStarts(ws);
    if ws != [] {
      assert GoodName(want[|steps|].name, space);
      var body := Body(ws);
      assert body[0] == ws[0].name[0] && body[0] in ws[0].name;
      if ws[0].descendant {
        assert rest == "//" + body && rest[2..] == body && rest[..2] == "//";
      } else {
        assert rest == "/" + body && rest[1..] == body && rest[1] == body[0];
      }
    }
  }

  lemma Begins(want: seq<Step>, path: string, space: char -> bool)
    requires Reads(want, path, space)
    ensures "//" <= path ==> Along(want, [], true, path[2..])
    ensures !("//" <= path) ==> Along(want, [], false, path) && path != "" && path[0] != '/'
  {
    assert GoodName(want[0].name, space);
    assert want[0..] == want;
    var body := Body(want);
    assert body[0] == want[0].name[0] && body[0] in want[0].name;
    if want[0].descendant {
      assert path == "//" + body && path[2..] == body;
    } else {
      assert path == "" + body == body;
    }
  }

  /** What has been read so far is how `steps` are written. */
  ghost predicate Wrote(path: string, steps: seq<Step>, descendant: bool, rest: string, space: char -> bool) {
    && (forall i | 0 <= i < |steps| :: GoodName(steps[i].name, space))
    && forall last: Step, name: string, tail: string | rest == name + tail && last == Step(descendant, name) ::
         path == PathString(steps + [last]) + tail
  }

  ghost predicate AllAlong(path: string, steps: seq<Step>, descendant: bool, rest: string, space: char -> bool) {
    forall want | Reads(want, path, space) :: Along(want, steps, descendant, rest)
  }

  lemma TailIs(steps: seq<Step>)
    ensures steps == [] ==> Tail(steps) == ""
    ensures steps != [] ==> Tail(steps) == Separator(steps[0]) + (steps[0].name + Tail(steps[1..]))
  {
  }

  lemma Regroup(a: string, b: string, c: string, d: string)
    ensures a + (b + (c + d)) == (a + (b + c)) + d
  {
  }

  lemma {:induction false} TailMore(steps: seq<Step>, last: Step)
    ensures Tail(steps + [last]) == Tail(steps) + (Separator(last) + last.name)
    decreases |steps|
  {
    hide *;
    var more := steps + [last];
    TailIs(steps);
    TailIs(more);
    if steps == [] {
      TailIs([]);
      assert more[1..] == [];
      assert last.name + "" == last.name && "" + (Separator(last) + last.name) == Separator(last) + last.name;
    } else {
      assert more[1..] == steps[1..] + [last] && more[0] == steps[0];
      TailMore(steps[1..], last);
      Regroup(Separator(steps[0]), steps[0].name, Tail(steps[1..]), Separator(last) + last.name);
    }
  }

  lemma PathMore(steps: seq<Step>, last: Step)
    ensures PathString([last]) == (if last.descendant then "//" else "") + last.name
    ensures steps != [] ==> PathString(steps + [last]) == PathString(steps) + (Separator(last) + last.name)
  {
    hide *;
    PathIs([last]);
    TailIs([last][1..]);
    assert last.name + "" == last.name;
    if steps != [] {
      var more := steps + [last];
      PathIs(steps);
      PathIs(more);
      assert more[1..] == steps[1..] + [last] && more[0] == steps[0];
      TailMore(steps[1..], last);
      Regroup(if steps[0].descendant then "//" else "", steps[0].name, Tail(steps[1..]), Separator(last) + last.name);
    }
  }

  lemma PathIs(steps: seq<Step>)
    requires steps != []
    ensures PathString(steps) == (if steps[0].descendant then "//" else "") + (steps[0].name + Tail(steps[1..]))
  {
  }

  lemma WroteFirst(path: string, descendant: bool, rest: string, space: char -> bool)
    requires path == (if descendant then "//" else "") + rest
    ensures Wrote(path, [], descendant, rest, space)
  {
    forall last: Step, name: string, tail: string | rest == name + tail && last == Step(descendant, name)
      ensures path == PathString([] + [last]) + tail
    {
      PathMore([], last);
      assert [] + [last] == [last];
    }
  }

  lemma WroteOn(path: string, steps: seq<Step>, name: string, descendant: bool, after: string, next: bool,
                rest: string, space: char -> bool)
    requires Wrote(path, steps, descendant, name + after, space) && GoodName(name, space)
    requires after == Separator(Step(next, name)) + rest
    ensures Wrote(path, steps + [Step(descendant, name)], next, rest, space)
  {
    var more := steps + [Step(descendant, name)];
    assert path == PathString(more) + after;
    forall last: Step, n: string, tail: string | rest == n + tail && last == Step(next, n)
      ensures path == PathString(more + [last]) + tail
    {
      PathMore(more, last);
    }
  }

  /** Reads a path into its steps; fails exactly on text that no steps are written as. */
  method ParsePath(path: string, space: char -> bool) returns (r: Result<seq<Step>, PathError>)
    ensures r.Ok? ==> Reads(r.value, path, space) && forall want | Reads(want, path, space) :: want == r.value
    ensures r.Err? ==> forall want :: !Reads(want, path, space)
    ensures r == Err(LeadingSlash) <==> path != "" && path[0] == '/' && !("//" <= path)
  {
    forall want | Reads(want, path, space) { Begins(want, path, space); }
    hide *;
    var rest, descendant := path, false;
    if "//" <= path {
      descendant, rest := true, path[2..];
    } else if "/" <= path {
      return Err(LeadingSlash);
    }
    assert path == (if descendant then "//" else "") + rest;
    WroteFirst(path, descendant, rest, space);
    CloseAlong(path, [], descendant, rest, space);
    var steps: seq<Step> := [];
    while true
      invariant Wrote(path, steps, descendant, rest, space) && AllAlong(path, steps, descendant, rest, space)
      decreases |rest|
    {
      var end := SlashAt(rest);
      var name := rest[..end];
      StepsOn(path, steps, descendant, rest, space);
      GoodNameIs(name, space);
      if name == "" || exists c :: c in name && space(c) {
        return Err(BadStep);
      }
      ghost var was, before := rest, steps;
      steps := steps + [Step(descendant, name)];
      rest := rest[end..];
      assert was == name + rest;
      if rest == "" {
        WroteAll(path, before, name, descendant, was, space);
        return Ok(steps);
      }
      ghost var was', before' := rest, descendant;
      if "//" <= rest {
        descendant := true;
        rest := rest[2..];
      } else {
        descendant := false;
        rest := rest[1..];
      }
      if rest == "" {
        return Err(TrailingSlash);
      }
      WroteOn(path, before, name, before', was', descendant, rest, space);
      CloseAlong(path, steps, descendant, rest, space);
    }
  }

  lemma CloseAlong(path: string, steps: seq<Step>, descendant: bool, rest: string, space: char -> bool)
    requires forall want | Reads(want, path, space) :: Along(want, steps, descendant, rest)
    ensures AllAlong(path, steps, descendant, rest, space)
  {
  }

  lemma StepsOn(path: string, steps: seq<Step>, descendant: bool, rest: string, space: char -> bool)
    requires AllAlong(path, steps, descendant, rest, space)
    ensures
      var end := SlashAt(rest);
      var after, more := rest[end..], steps + [Step(descendant, rest[..end])];
      forall want | Reads(want, path, space) ::
        && GoodName(rest[..end], space)
        && (after == "" <==> more == want)
        && (after != "" && "//" <= after ==> Along(want, more, true, after[2..]) && after[2..] != "")
        && (after != "" && !("//" <= after) ==> Along(want, more, false, after[1..]) && after[1..] != "")
  {
    var end := SlashAt(rest);
    var after, more := rest[end..], steps + [Step(descendant, rest[..end])];
    hide Along, Body, Tail, PathString;
    forall want | Reads(want, path, space)
      ensures GoodName(rest[..end], space)
      ensures after == "" <==> more == want
      ensures after != "" && "//" <= after ==> Along(want, more, true, after[2..]) && after[2..] != ""
      ensures after != "" && !("//" <= after) ==> Along(want, more, false, after[1..]) && after[1..] != ""
    {
      StepOn(want, steps, descendant, rest, space);
      SeparatorOn(want, more, after, space);
    }
  }

  lemma GoodNameIs(name: string, space: char -> bool)
    ensures GoodName(name, space) <==> name != "" && '/' !in name && forall c | c in name :: !space(c)
  {
  }

  lemma WroteAll(path: string, steps: seq<Step>, name: string, descendant: bool, rest: string, space: char -> bool)
    requires Wrote(path, steps, descendant, rest, space) && rest == name && GoodName(name, space)
    ensures Reads(steps + [Step(descendant, name)], path, space)
  {
    assert rest == name + "";
    var last := Step(descendant, name);
    assert path == PathString(steps + [last]) + "";
  }
}
