/** The checker as it is implemented: it collects at most a hundred issues and stops
    looking once there are more. Proved against the unlimited check. */
module Validate {
  import opened Prelude
  import opened ValidateSpec
  import opened ValidateMeans
  import opened ValidateWhole
  import opened ValidateSays

  const MAX_ISSUES: nat := 100

  /** A check ends with its outcome (`None`: issues were recorded), or with an error
      that must keep propagating. */
  datatype Answer = Done(result: Option<Value>) | Abort

  function First(all: seq<Issue>): (r: seq<Issue>)
    ensures r <= all && |r| <= MAX_ISSUES
    ensures |all| <= MAX_ISSUES ==> r == all
  {
    if |all| <= MAX_ISSUES then all else all[..MAX_ISSUES]
  }

  /** From a collector holding `before`, a check that has the verdict `v` without
      limits leaves `after`: everything, or enough to be truncated. */
  ghost predicate Agrees(before: seq<Issue>, after: seq<Issue>, v: Verdict, r: Answer) {
    && before <= after <= before + v.issues
    && (|after| <= MAX_ISSUES ==> after == before + v.issues && (r.Abort? <==> v.aborted))
    && match r case Done(x) => x == v.result case Abort => v.aborted
  }

  class Checker {
    const env: Env
    var issues: seq<Issue>
    var truncated: bool
    /** Every issue reported, kept or not. */
    ghost var all: seq<Issue>

    ghost predicate Valid()
      reads this
    {
      issues == First(all) && (truncated <==> |all| > MAX_ISSUES)
    }

    constructor (env: Env)
      ensures Valid() && all == [] && this.env == env
    {
      this.env := env;
      issues, truncated, all := [], false, [];
    }

    method Fail(path: seq<Part>, message: Message)
      requires Valid()
      modifies this
      ensures Valid() && all == old(all) + [Issue(path, message)]
    {
      all := all + [Issue(path, message)];
      if |issues| >= MAX_ISSUES {
        truncated := true;
        return;
      }
      issues := issues + [Issue(path, message)];
    }

    /** Record one issue; there is no value. */
    method FailWith(path: seq<Part>, message: Message) returns (r: Answer)
      requires Valid()
      modifies this
      ensures Valid() && Agrees(old(all), all, Fails(path, message), r)
    {
      Fail(path, message);
      return Done(None);
    }

    method DefaultOrRequired(default: Option<Value>, path: seq<Part>) returns (r: Answer)
      requires Valid()
      modifies this
      ensures Valid() && Agrees(old(all), all, DefaultOr(default, path), r)
    {
      if default.Some? {
        return Done(default);
      }
      r := FailWith(path, Required);
    }

    method CheckFunc(f: nat, value: Value, path: seq<Part>) returns (r: Answer)
      requires Valid()
      modifies this
      ensures Valid() && Agrees(old(all), all, FuncVerdict(env, f, value, path), r)
    {
      match env.call(f, value) {
        case Returned(v) => return Done(Some(v));
        case Rejected(text) => r := FailWith(path, User(text));
        case Fatal => return Abort;
      }
    }

    method CheckLength(s: Bytes, lo: Option<nat>, hi: Option<nat>, path: seq<Part>) returns (ok: bool)
      requires Valid()
      modifies this
      ensures Valid() && all == old(all) + LengthIssues(env, s, lo, hi, path)
      ensures ok <==> LengthIssues(env, s, lo, hi, path) == []
    {
      hide First;
      ok := true;
      if lo.Some? || hi.Some? {
        var len := env.chars(s);
        if lo.Some? && len < lo.value {
          Fail(path, AtLeastChars(lo.value));
          ok := false;
        }
        if hi.Some? && len > hi.value {
          Fail(path, AtMostChars(hi.value));
          ok := false;
        }
      }
    }

    method CheckStr(node: Node, s: Bytes, path: seq<Part>) returns (r: Answer)
      requires Valid() && node.StrNode?
      modifies this
      ensures Valid() && Agrees(old(all), all, StrVerdict(env, node, s, path), r)
    {
      hide First, LengthIssues;
      var ok := CheckLength(s, node.minLen, node.maxLen, path);
      ghost var lens := LengthIssues(env, s, node.minLen, node.maxLen, path);
      assert lens + [] == lens;
      if node.pattern.Some? {
        var hit := env.find(s, node.pattern.value);
        if hit.None? {
          return Abort;
        }
        if !hit.value {
          Fail(path, BadFormat);
          ok := false;
          assert old(all) + lens + [Issue(path, BadFormat)] == old(all) + (lens + [Issue(path, BadFormat)]);
        }
      }
      return Done(if ok then Some(Str(s)) else None);
    }

    method CheckStrNode(node: Node, value: Value, path: seq<Part>) returns (r: Answer)
      requires Valid() && node.StrNode?
      modifies this
      ensures Valid() && Agrees(old(all), all, ScalarVerdict(env, node, value, path), r)
    {
      match value {
        case Nil =>
          r := DefaultOrRequired(if node.strDefault.Some? then Some(Str(node.strDefault.value)) else None, path);
        case Str(s) => r := CheckStr(node, s, path);
        case _ => r := FailWith(path, MustBeString);
      }
    }

    /** Reads an integer out of a string or number, recording a failure otherwise. */
    method ParseIntValue(value: Value, path: seq<Part>) returns (n: Option<int>)
      requires Valid()
      modifies this
      ensures Valid()
      ensures match ReadInt(value)
        case Ok(i) => n == Some(i) && all == old(all)
        case Err(m) => n == None && all == old(all) + [Issue(path, m)]
    {
      if value.Str? {
        var parsed := ParseInt(value.s);
        if parsed.None? {
          Fail(path, NotInteger);
          return None;
        }
        if InRange(parsed.value) {
          return parsed;
        }
        Fail(path, OutOfRange);
        return None;
      }
      if value.Num? && value.n.Fin? && SafeInteger(value.n.r) {
        return Some(value.n.r.Floor);
      }
      Fail(path, if value.Num? && value.n.Fin? && IsInteger(value.n.r) then OutOfRange else NotInteger);
      return None;
    }

    /** Enforces `min`, then `max`. */
    method ApplyBounds(start: real, lo: Option<real>, hi: Option<real>, clamp: bool, path: seq<Part>)
      returns (r: Answer)
      requires Valid()
      modifies this
      ensures Valid() && Agrees(old(all), all, NumberVerdict(Bounded(start, lo, hi, clamp), path), r)
    {
      var n := start;
      if lo.Some? && n < lo.value {
        if !clamp {
          r := FailWith(path, Below(lo.value));
          return;
        }
        n := lo.value;
      }
      if hi.Some? && n > hi.value {
        if !clamp {
          r := FailWith(path, Above(hi.value));
          return;
        }
        n := hi.value;
      }
      return Done(Some(Num(Fin(n))));
    }

    method CheckInt(node: Node, value: Value, path: seq<Part>) returns (r: Answer)
      requires Valid() && node.IntNode?
      modifies this
      ensures Valid() && Agrees(old(all), all, ScalarVerdict(env, node, value, path), r)
    {
      if IsBlank(value) {
        var default := if node.intDefault.Some? then Some(Num(Fin(node.intDefault.value as real))) else None;
        r := DefaultOrRequired(default, path);
        return;
      }
      var n := ParseIntValue(value, path);
      if n.None? {
        return Done(None);
      }
      r := ApplyBounds(n.value as real, RealOf(node.intMin), RealOf(node.intMax), node.clamp, path);
    }

    method CheckNumber(node: Node, value: Value, path: seq<Part>) returns (r: Answer)
      requires Valid() && node.NumNode?
      modifies this
      ensures Valid() && Agrees(old(all), all, ScalarVerdict(env, node, value, path), r)
    {
      if IsBlank(value) {
        r := DefaultOrRequired(if node.numDefault.Some? then Some(Num(Fin(node.numDefault.value))) else None, path);
        return;
      }
      var parsed := ReadNumber(env, value);
      if parsed.None? {
        r := FailWith(path, NotFinite);
        return;
      }
      r := ApplyBounds(parsed.value, node.numMin, node.numMax, node.clamp, path);
    }

    method CheckBool(node: Node, value: Value, path: seq<Part>) returns (r: Answer)
      requires Valid() && node.BoolNode?
      modifies this
      ensures Valid() && Agrees(old(all), all, ScalarVerdict(env, node, value, path), r)
    {
      if IsBlank(value) {
        r := DefaultOrRequired(if node.boolDefault.Some? then Some(Bool(node.boolDefault.value)) else None, path);
        return;
      }
      var b := AsBool(value);
      if b.Some? {
        return Done(Some(Bool(b.value)));
      }
      r := FailWith(path, MustBeBoolean);
    }

    method CheckOneOf(node: Node, value: Value, path: seq<Part>) returns (r: Answer)
      requires Valid() && node.OneOf?
      modifies this
      ensures Valid() && Agrees(old(all), all, ScalarVerdict(env, node, value, path), r)
    {
      if value.Nil? {
        r := FailWith(path, Required);
        return;
      }
      if exists i :: 0 <= i < |node.options| && LitMatches(node.options[i], value) {
        return Done(Some(value));
      }
      r := FailWith(path, NotAnOption);
    }

    method CheckList(node: Node, value: Value, path: seq<Part>, depth: nat) returns (r: Answer)
      requires Valid() && !truncated && node.ListNode? && depth <= MAX_DEPTH
      modifies this
      ensures Valid() && Agrees(old(all), all, Checked(env, node, value, path, depth), r)
      decreases node, 0
    {
      hide Checked, CheckedItems, Agrees, Along, ItemsOf, First, ListTable, Fails, Joined;
      ListChecked(env, node, value, path, depth);
      var itemsOf := ItemsOf(node, value);
      if itemsOf.Err? {
        r := FailWith(path, itemsOf.error);
        return;
      }
      var items, item := itemsOf.value, node.item;
      var out: seq<Value> := [];
      ghost var start := all;
      var before := |issues|;
      var k := 0;
      NoItemsYet(env, item, items, path, depth, start);
      while k < |items|
        invariant k <= |items| && Valid()
        invariant Along(start, all, CheckedItems(env, item, items, path, depth, k), out)
      {
        if truncated {
          break;
        }
        ghost var at, g := all, CheckedItems(env, item, items, path, depth, k);
        ghost var v := Checked(env, item, items[k], path + [ItemPart(k + 1)], depth + 1);
        OneMoreItem(env, item, items, path, depth, k, start, at, out);
        var checked := Check(item, items[k], path + [ItemPart(k + 1)], depth + 1);
        if checked.Abort? {
          AbortedNow(start, at, all, g, v, out, KeptItem(v.result));
          ItemsGrow(env, item, items, path, depth, k + 1, |items|);
          return Abort;
        }
        AlongMore(start, at, all, g, v, checked.result, out, KeptItem(v.result));
        assert out + [] == out;
        if checked.result.Some? && !checked.result.value.Nil? {
          out := out + [checked.result.value];
        }
        k := k + 1;
      }
      ItemsGrow(env, item, items, path, depth, k, |items|);
      ghost var whole := CheckedItems(env, item, items, path, depth, |items|);
      Widen(start, all, CheckedItems(env, item, items, path, depth, k), whole, out);
      AllGathered(start, all, whole, out, ListTable(out), ListTable(whole.out));
      return Done(if |issues| == before && !truncated then Some(ListTable(out)) else None);
    }

    method CheckObject(node: Node, value: Value, path: seq<Part>, depth: nat) returns (r: Answer)
      requires Valid() && !truncated && node.ObjectNode? && depth <= MAX_DEPTH
      modifies this
      ensures Valid() && Agrees(old(all), all, Checked(env, node, value, path, depth), r)
      decreases node, 0
    {
      hide Checked, CheckedFields, Agrees, Along, First, Fails, Joined, UnknownKeys;
      ObjectChecked(env, node, value, path, depth);
      if !value.Table? {
        r := FailWith(path, if value.Nil? then Required else MustBeObject);
        return;
      }
      var fields, es := node.fields, value.entries;
      var out: seq<(Key, Value)> := [];
      ghost var start := all;
      var before := |issues|;
      var k := 0;
      NoFieldsYet(env, fields, es, path, depth, start);
      while k < |fields|
        invariant k <= |fields| && Valid()
        invariant Along(start, all, CheckedFields(env, fields, es, path, depth, k), out)
      {
        if truncated {
          break;
        }
        var name, child := fields[k].name, fields[k].node;
        var raw := FieldValue(fields[k], es);
        ghost var at, g := all, CheckedFields(env, fields, es, path, depth, k);
        ghost var v := Checked(env, child, raw, path + [KeyPart(Name(name))], depth + 1);
        OneMoreField(env, fields, es, path, depth, k, start, at, out);
        var checked := Check(child, raw, path + [KeyPart(Name(name))], depth + 1);
        if checked.Abort? {
          AbortedNow(start, at, all, g, v, out, KeptField(name, v.result));
          FieldsGrow(env, fields, es, path, depth, k + 1, |fields|);
          return Abort;
        }
        AlongMore(start, at, all, g, v, checked.result, out, KeptField(name, v.result));
        assert out + [] == out;
        if checked.result.Some? && !checked.result.value.Nil? {
          out := out + [(Name(name), checked.result.value)];
        }
        k := k + 1;
      }
      ghost var whole, fielded := CheckedFields(env, fields, es, path, depth, |fields|), all;
      FieldsGrow(env, fields, es, path, depth, k, |fields|);
      Widen(start, all, CheckedFields(env, fields, es, path, depth, k), whole, out);
      if node.strict {
        RejectUnknownKeys(fields, es, path, start, whole.issues);
      }
      assert whole.issues + [] == whole.issues;
      ObjectGathered(start, fielded, all, whole, if node.strict then UnknownKeys(fields, es, path) else [], out);
      return Done(if |issues| == before && !truncated then Some(Table(out)) else None);
    }

    /** Fail every key that is not a field name. */
    method RejectUnknownKeys(fields: seq<Field>, es: seq<(Key, Value)>, path: seq<Part>,
                             ghost start: seq<Issue>, ghost found: seq<Issue>)
      requires Valid() && start <= all <= start + found && (|all| <= MAX_ISSUES ==> all == start + found)
      modifies this
      ensures Valid() && start <= all <= start + (found + UnknownKeys(fields, es, path))
      ensures |all| <= MAX_ISSUES ==> all == start + (found + UnknownKeys(fields, es, path))
      ensures old(truncated) ==> all == old(all)
    {
      hide First;
      var k := 0;
      assert es[..0] == [];
      while k < |es|
        invariant k <= |es| && Valid()
        invariant start <= all <= start + (found + UnknownKeys(fields, es[..k], path))
        invariant |all| <= MAX_ISSUES ==> all == start + (found + UnknownKeys(fields, es[..k], path))
        invariant old(truncated) ==> k == 0 && all == old(all)
      {
        if truncated {
          break;
        }
        OneMoreKey(fields, es, path, k);
        var key := es[k].0;
        if !KnownKey(fields, key) {
          Fail(path + [KeyPart(key)], UnknownKey);
        }
        k := k + 1;
      }
      assert es[..|es|] == es;
      UnknownGrow(fields, es, path, k);
    }

    method Check(node: Node, value: Value, path: seq<Part>, depth: nat) returns (r: Answer)
      requires Valid() && !truncated
      modifies this
      ensures Valid() && Agrees(old(all), all, Checked(env, node, value, path, depth), r)
      decreases node, 1
    {
      hide Agrees, First, ScalarVerdict, FuncVerdict, CheckedItems, CheckedFields, UnknownKeys;
      if depth > MAX_DEPTH {
        r := FailWith(path, TooDeep);
        return;
      }
      match node {
        case Func(f) => r := CheckFunc(f, value, path);
        case Optional(inner) =>
          if OptionalSkips(inner, value) {
            NothingFound(all, Nil);
            return Done(Some(Nil));
          }
          r := Check(inner, value, path, depth);
        case StrNode(_, _, _, _) => r := CheckStrNode(node, value, path);
        case IntNode(_, _, _, _) => r := CheckInt(node, value, path);
        case NumNode(_, _, _, _) => r := CheckNumber(node, value, path);
        case BoolNode(_) => r := CheckBool(node, value, path);
        case OneOf(_) => r := CheckOneOf(node, value, path);
        case ListNode(_, _, _) => r := CheckList(node, value, path, depth);
        case ObjectNode(_, _) => r := CheckObject(node, value, path, depth);
      }
    }
  }

  datatype Report = Valid(value: Value) | Invalid(issues: seq<Issue>, truncated: bool) | Propagated

  /** What a report says of the value: what the schema takes it to; or, in order, the
      first hundred things there are to say of it and whether there are more, all of them
      faults; or that something broke, unless a hundred came first. */
  ghost predicate Tells(env: Env, node: Node, value: Value, r: Report) {
    match r
    case Valid(x) => forall y :: Takes(env, node, value, y) <==> y == x
    case Invalid(issues, truncated) =>
      && issues != [] && |issues| <= 100 && (forall y :: !Takes(env, node, value, y))
      && (forall q, m | Issue(q, m) in issues :: Faults(env, node, value, q, m))
      && (Breaks(env, node, value) ==> truncated)
      && (!truncated && !Breaks(env, node, value) ==>
            forall q, m | Faults(env, node, value, q, m) :: Issue(q, m) in issues)
      && (!Breaks(env, node, value) ==>
            exists all :: Says(env, node, value, [], all) && FirstHundred(issues, all, truncated))
    case Propagated => Breaks(env, node, value) && forall y :: !Takes(env, node, value, y)
  }

  predicate FirstHundred(issues: seq<Issue>, all: seq<Issue>, truncated: bool) {
    if |all| <= 100 then issues == all && !truncated else issues == all[..100] && truncated
  }

  /** A report of what the unlimited check finds tells the truth. */
  lemma TellsVerdict(env: Env, node: Node, value: Value)
    requires Depth(node) <= 64
    ensures
      var v := Validated(env, node, value);
      && (forall x | v.issues == [] && v.result == Some(x) && !v.aborted ::
            Tells(env, node, Given(node, value), Valid(x)))
      && (v.issues != [] && (v.aborted ==> |v.issues| > MAX_ISSUES) ==>
            Tells(env, node, Given(node, value), Invalid(First(v.issues), |v.issues| > MAX_ISSUES)))
      && (v.aborted ==> Tells(env, node, Given(node, value), Propagated))
  {
    var v, given := Validated(env, node, value), Given(node, value);
    ValueIffNoIssue(env, node, AbsentIfNull(node, value), [], 0);
    assert v.result.Some? <==> v.issues == [] && !v.aborted;
    hide *;
    ValidatedReports(env, node, value);
    forall y ensures v.result == Some(y) <==> Takes(env, node, given, y) { ValidatedTakes(env, node, value, y); }
    if v.result.Some? {
      TellsValid(env, node, given, v.result.value);
    } else {
      NothingTaken(env, node, given, v);
      if !v.aborted { ValidatedSays(env, node, value); }
      if v.issues != [] && (v.aborted ==> |v.issues| > MAX_ISSUES) { TellsInvalid(env, node, given, v); }
      if v.aborted { TellsBroken(env, node, given); }
    }
  }

  lemma NothingTaken(env: Env, node: Node, value: Value, v: Verdict)
    requires v.result.None? && forall y :: v.result == Some(y) <==> Takes(env, node, value, y)
    ensures forall y :: !Takes(env, node, value, y)
  {
    hide Takes;
  }

  lemma TellsValid(env: Env, node: Node, value: Value, x: Value)
    requires forall y :: Some(x) == Some(y) <==> Takes(env, node, value, y)
    ensures Tells(env, node, value, Valid(x))
  {
    hide Takes;
  }

  lemma TellsBroken(env: Env, node: Node, value: Value)
    requires Breaks(env, node, value) && forall y :: !Takes(env, node, value, y)
    ensures Tells(env, node, value, Propagated)
  {
    hide Takes, Breaks;
  }

  lemma TellsInvalid(env: Env, node: Node, value: Value, v: Verdict)
    requires v.issues != [] && forall y :: !Takes(env, node, value, y)
    requires v.aborted <==> Breaks(env, node, value)
    requires forall q, m | Issue(q, m) in v.issues :: Faults(env, node, value, q, m)
    requires !v.aborted ==> forall q, m | Faults(env, node, value, q, m) :: Issue(q, m) in v.issues
    requires if v.aborted then |v.issues| > MAX_ISSUES else Says(env, node, value, [], v.issues)
    ensures Tells(env, node, value, Invalid(First(v.issues), |v.issues| > MAX_ISSUES))
  {
    SomeOfAll(v.issues);
    hide Takes, Breaks, Faults, Says, First, FirstHundred;
  }

  lemma SomeOfAll(all: seq<Issue>)
    requires all != []
    ensures First(all) != [] && |First(all)| <= 100 && FirstHundred(First(all), all, |all| > MAX_ISSUES)
    ensures |all| <= MAX_ISSUES ==> First(all) == all
    ensures forall x | x in First(all) :: x in all
  {
  }

  /** `try`: the checked value, or the first hundred issues of the unlimited check
      and whether there are more. */
  method Try(env: Env, node: Node, value: Value) returns (r: Report)
    ensures
      var v := Validated(env, node, value);
      match r
      case Valid(x) => v.issues == [] && v.result == Some(x) && !v.aborted
      case Invalid(issues, truncated) =>
        && v.issues != [] && issues == First(v.issues) && (truncated <==> |v.issues| > MAX_ISSUES)
        && (v.aborted ==> truncated)
      case Propagated => v.aborted
    ensures r.Valid? <==> Validated(env, node, value).result.Some?
    ensures !Validated(env, node, value).aborted ==> !r.Propagated?
    ensures Depth(node) <= 64 ==> Tells(env, node, Given(node, value), r)
  {
    if Depth(node) <= 64 { TellsVerdict(env, node, value); }
    ValueIffNoIssue(env, node, AbsentIfNull(node, value), [], 0);
    hide Checked, Tells, Given, Depth, First, AbsentIfNull;
    var cx := new Checker(env);
    var answer := cx.Check(node, AbsentIfNull(node, value), [], 0);
    if answer.Abort? {
      return Propagated;
    }
    if answer.result.Some? && cx.issues == [] {
      return Valid(answer.result.value);
    }
    return Invalid(cx.issues, cx.truncated);
  }

  // ---------------------------------------------------------- loop bookkeeping

  /** The collector after some members: all their issues, or enough to be truncated. */
  ghost predicate Along<T(!new)>(start: seq<Issue>, all: seq<Issue>, g: Gathered<T>, out: seq<T>) {
    && start <= all <= start + g.issues
    && (|all| <= MAX_ISSUES ==> all == start + g.issues && !g.aborted && out == g.out)
  }

  lemma NothingFound(all: seq<Issue>, v: Value)
    ensures Agrees(all, all, Pass(v), Done(Some(v)))
  {
    assert all + [] == all;
  }

  lemma AlongMore<T(!new)>(start: seq<Issue>, at: seq<Issue>, all: seq<Issue>, g: Gathered<T>, v: Verdict,
                           x: Option<Value>, out: seq<T>, kept: seq<T>)
    requires Along(start, at, g, out) && |at| <= MAX_ISSUES && Agrees(at, all, v, Done(x))
    ensures x == v.result
    ensures Along(start, all, Joined(g, v, kept), out + kept)
  {
    assert at + v.issues == start + (g.issues + v.issues);
  }

  lemma AbortedNow<T(!new)>(start: seq<Issue>, at: seq<Issue>, all: seq<Issue>, g: Gathered<T>, v: Verdict,
                            out: seq<T>, kept: seq<T>)
    requires Along(start, at, g, out) && |at| <= MAX_ISSUES && Agrees(at, all, v, Abort)
    ensures
      var j := Joined(g, v, kept);
      j.aborted && Agrees(start, all, Verdict(j.issues, None, true), Abort)
  {
    assert at + v.issues == start + (g.issues + v.issues);
  }

  lemma Widen<T(!new)>(start: seq<Issue>, all: seq<Issue>, g: Gathered<T>, whole: Gathered<T>, out: seq<T>)
    requires Along(start, all, g, out) && g.issues <= whole.issues && (|all| <= MAX_ISSUES ==> g == whole)
    ensures Along(start, all, whole, out)
    ensures start <= all <= start + whole.issues && (|all| <= MAX_ISSUES ==> all == start + whole.issues)
  {
    assert start + g.issues <= start + whole.issues;
  }

  lemma AllGathered(start: seq<Issue>, all: seq<Issue>, whole: Gathered<Value>, out: seq<Value>, table: Value,
                    made: Value)
    requires Along(start, all, whole, out) && |start| <= MAX_ISSUES && (out == whole.out ==> table == made)
    ensures Agrees(start, all,
      Verdict(whole.issues, if whole.issues == [] && !whole.aborted then Some(made) else None, whole.aborted),
      Done(if |all| == |start| then Some(table) else None))
  {
  }

  /** An object's fields, and then its unknown keys. */
  lemma ObjectGathered(start: seq<Issue>, fielded: seq<Issue>, all: seq<Issue>, whole: Gathered<(Key, Value)>,
                       more: seq<Issue>,
                       out: seq<(Key, Value)>)
    requires Along(start, fielded, whole, out) && |start| <= MAX_ISSUES
    requires |fielded| > MAX_ISSUES ==> all == fielded
    requires |fielded| <= MAX_ISSUES ==>
      start <= all <= start + (whole.issues + more) && (|all| <= MAX_ISSUES ==> all == start + (whole.issues + more))
    ensures
      var issues := whole.issues + more;
      var v := if whole.aborted then Verdict(whole.issues, None, true)
               else Verdict(issues, if issues == [] then Some(Table(whole.out)) else None, false);
      Agrees(start, all, v, Done(if |all| == |start| then Some(Table(out)) else None))
  {
    assert start + whole.issues <= start + (whole.issues + more);
  }

  // -------------------------------------------- the unlimited check, unfolded

  lemma NoItemsYet(env: Env, item: Node, items: seq<Value>, path: seq<Part>, depth: nat, start: seq<Issue>)
    ensures Along(start, start, CheckedItems(env, item, items, path, depth, 0), [])
  {
    assert start + [] == start;
  }

  lemma NoFieldsYet(env: Env, fields: seq<Field>, es: seq<(Key, Value)>, path: seq<Part>, depth: nat, start: seq<Issue>)
    ensures Along(start, start, CheckedFields(env, fields, es, path, depth, 0), [])
  {
    assert start + [] == start;
  }

  lemma OneMoreItem(env: Env, item: Node, items: seq<Value>, path: seq<Part>, depth: nat, k: nat,
                    start: seq<Issue>, at: seq<Issue>, out: seq<Value>)
    requires k < |items| && |at| <= MAX_ISSUES && Along(start, at, CheckedItems(env, item, items, path, depth, k), out)
    ensures
      var v := Checked(env, item, items[k], path + [ItemPart(k + 1)], depth + 1);
      CheckedItems(env, item, items, path, depth, k + 1)
        == Joined(CheckedItems(env, item, items, path, depth, k), v, KeptItem(v.result))
  {
    hide Checked;
  }

  lemma OneMoreField(env: Env, fields: seq<Field>, es: seq<(Key, Value)>, path: seq<Part>, depth: nat, k: nat,
                     start: seq<Issue>, at: seq<Issue>, out: seq<(Key, Value)>)
    requires k < |fields| && |at| <= MAX_ISSUES && Along(start, at, CheckedFields(env, fields, es, path, depth, k), out)
    ensures
      var f := fields[k];
      var v := Checked(env, f.node, FieldValue(f, es), path + [KeyPart(Name(f.name))], depth + 1);
      CheckedFields(env, fields, es, path, depth, k + 1)
        == Joined(CheckedFields(env, fields, es, path, depth, k), v, KeptField(f.name, v.result))
  {
    hide Checked;
  }

  /** Later members only add issues, and none is looked at after an abort. */
  lemma {:induction false} ItemsGrow(env: Env, item: Node, items: seq<Value>, path: seq<Part>, depth: nat, k: nat,
                                     n: nat)
    requires k <= n <= |items|
    ensures
      var g, h := CheckedItems(env, item, items, path, depth, k), CheckedItems(env, item, items, path, depth, n);
      g.issues <= h.issues && (g.aborted ==> g == h)
    decreases n
  {
    hide Checked;
    if k < n { ItemsGrow(env, item, items, path, depth, k, n - 1); }
  }

  lemma {:induction false} FieldsGrow(env: Env, fields: seq<Field>, es: seq<(Key, Value)>, path: seq<Part>, depth: nat,
                                      k: nat, n: nat)
    requires k <= n <= |fields|
    ensures
      var g, h := CheckedFields(env, fields, es, path, depth, k), CheckedFields(env, fields, es, path, depth, n);
      g.issues <= h.issues && (g.aborted ==> g == h)
    decreases n
  {
    hide Checked;
    if k < n { FieldsGrow(env, fields, es, path, depth, k, n - 1); }
  }

  lemma OneMoreKey(fields: seq<Field>, es: seq<(Key, Value)>, path: seq<Part>, k: nat)
    requires k < |es|
    ensures UnknownKeys(fields, es[..k + 1], path)
         == UnknownKeys(fields, es[..k], path)
            + if KnownKey(fields, es[k].0) then [] else [Issue(path + [KeyPart(es[k].0)], UnknownKey)]
  {
    assert es[..k + 1][..k] == es[..k];
  }

  lemma {:induction false} UnknownGrow(fields: seq<Field>, es: seq<(Key, Value)>, path: seq<Part>, k: nat)
    requires k <= |es|
    ensures UnknownKeys(fields, es[..k], path) <= UnknownKeys(fields, es, path)
    decreases |es|
  {
    if k == |es| {
      assert es[..k] == es;
    } else {
      UnknownGrow(fields, es[..|es| - 1], path, k);
      assert es[..|es| - 1][..k] == es[..k];
    }
  }
}
