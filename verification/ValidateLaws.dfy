/** Normalization: what a check returns, checked again, is returned unchanged — but
    for one string of digits that the magnitude test lets through. */
module ValidateLaws {
  import opened Prelude
  import opened ValidateSpec

  predicate Ordered(lo: Option<int>, hi: Option<int>) { lo.Some? && hi.Some? ==> lo.value <= hi.value }

  predicate SafeBound(b: Option<int>) { b.Some? ==> -MAX_SAFE_INT <= b.value <= MAX_SAFE_INT }

  predicate NamesDiffer(fields: seq<Field>) { forall i, j | 0 <= i < j < |fields| :: fields[i].name != fields[j].name }

  /** What the constructors check besides depth, for the parts this matters to. */
  predicate WellBuilt(node: Node)
    decreases node
  {
    match node
    case IntNode(lo, hi, d, _) => SafeBound(lo) && SafeBound(hi) && SafeBound(d) && Ordered(lo, hi)
    case NumNode(lo, hi, _, _) => lo.Some? && hi.Some? ==> lo.value <= hi.value
    case ListNode(item, _, _) => WellBuilt(item)
    case ObjectNode(fields, _) => NamesDiffer(fields) && forall i | 0 <= i < |fields| :: WellBuilt(fields[i].node)
    case Optional(inner) => WellBuilt(inner)
    case _ => true
  }

  /** No defaults, no functions, no optional list items. */
  predicate Plain(node: Node)
    decreases node
  {
    match node
    case ListNode(item, _, _) => Plain(item) && !item.Optional?
    case ObjectNode(fields, _) => forall i | 0 <= i < |fields| :: Plain(fields[i].node)
    case Optional(inner) => Plain(inner)
    case Func(_) => false
    case _ => !HasDefault(node)
  }

  /** Somewhere in the value, an `int` without a `min` is given the digits of the
      least 64-bit integer. */
  predicate HitsLeast(node: Node, value: Value)
    decreases node
  {
    match node
    case IntNode(lo, _, _, _) => lo.None? && value.Str? && ParseInt(value.s) == Some(I64_MIN)
    case Optional(inner) => !OptionalSkips(inner, value) && HitsLeast(inner, value)
    case ListNode(item, _, _) =>
      ItemsOf(node, value).Ok? && exists v :: v in ItemsOf(node, value).value && HitsLeast(item, v)
    case ObjectNode(fields, _) =>
      value.Table? && exists i :: 0 <= i < |fields| && HitsLeast(fields[i].node, FieldValue(fields[i], value.entries))
    case _ => false
  }

  // ------------------------------------------------------------------ scalars

  lemma BoundedAgain(r: real, lo: Option<real>, hi: Option<real>, clamp: bool)
    requires lo.Some? && hi.Some? ==> lo.value <= hi.value
    ensures Bounded(r, lo, hi, clamp).Ok? ==>
      var b := Bounded(r, lo, hi, clamp).value;
      Bounded(b, lo, hi, clamp) == Ok(b) && (b == r || Some(b) == lo || Some(b) == hi)
    ensures Bounded(r, lo, hi, clamp).Ok? && lo.Some? ==> lo.value <= Bounded(r, lo, hi, clamp).value
  {
  }

  lemma IntegerFloor(n: int)
    ensures (n as real).Floor == n && IsInteger(n as real)
  {
  }

  /** An integer result passes again, unless it is the least 64-bit integer. */
  lemma IntAgain(env: Env, node: Node, value: Value, path: seq<Part>)
    requires node.IntNode? && WellBuilt(node) && Plain(node) && ScalarVerdict(env, node, value, path).result.Some?
    ensures
      var r := ScalarVerdict(env, node, value, path).result.value;
      && r.Num?
      && (if HitsLeast(node, value) then ScalarVerdict(env, node, r, path).issues != []
          else ScalarVerdict(env, node, r, path) == Pass(r))
  {
    var n := ReadInt(value).value;
    var lo, hi := RealOf(node.intMin), RealOf(node.intMax);
    BoundedAgain(n as real, lo, hi, node.clamp);
    ReadIsInRange(value);
    var b := Bounded(n as real, lo, hi, node.clamp).value;
    hide Bounded, ParseInt;
    assert b == n as real || Some(b) == lo || Some(b) == hi;
    if b == n as real {
      IntegerFloor(n);
    } else if Some(b) == lo {
      IntegerFloor(node.intMin.value);
    } else {
      IntegerFloor(node.intMax.value);
    }
    if n == I64_MIN && node.intMin.None? {
      LeastStays(hi, node.clamp, node.intMax);
    }
  }

  lemma ReadIsInRange(value: Value)
    requires ReadInt(value).Ok?
    ensures
      var n := ReadInt(value).value;
      -MAX_SAFE_INT <= n <= MAX_SAFE_INT || (n == I64_MIN && value.Str? && ParseInt(value.s) == Some(n))
    ensures value.Str? ==> ParseInt(value.s) == Some(ReadInt(value).value)
  {
    hide ParseInt;
  }

  lemma LeastStays(hi: Option<real>, clamp: bool, intMax: Option<int>)
    requires hi == RealOf(intMax) && SafeBound(intMax)
    ensures Bounded(I64_MIN as real, None, hi, clamp) == Ok(I64_MIN as real)
    ensures !SafeInteger(I64_MIN as real)
  {
  }

  lemma ScalarAgain(env: Env, node: Node, value: Value, path: seq<Part>)
    requires node.StrNode? || node.IntNode? || node.NumNode? || node.BoolNode? || node.OneOf?
    requires WellBuilt(node) && Plain(node) && ScalarVerdict(env, node, value, path).result.Some?
    ensures
      var r := ScalarVerdict(env, node, value, path).result.value;
      if HitsLeast(node, value) then ScalarVerdict(env, node, r, path).issues != []
      else ScalarVerdict(env, node, r, path) == Pass(r)
  {
    if node.IntNode? {
      IntAgain(env, node, value, path);
    } else if node.NumNode? {
      hide ParseInt, Bounded;
      var r := ReadNumber(env, value).value;
      BoundedAgain(r, node.numMin, node.numMax, node.clamp);
    }
  }

  // -------------------------------------------------- what a result looks like

  lemma {:induction false} PlainHasNoDefault(node: Node)
    requires Plain(node)
    ensures !HasDefault(node)
    decreases node
  {
    if node.Optional? { PlainHasNoDefault(node.inner); }
  }

  /** A result is never `null`, is nil only where `optional` allows it, and never
      counts as missing otherwise. */
  lemma {:induction false} ResultIsPresent(env: Env, node: Node, value: Value, path: seq<Part>, depth: nat)
    requires Plain(node) && Checked(env, node, value, path, depth).result.Some?
    ensures
      var r := Checked(env, node, value, path, depth).result.value;
      !r.Null? && (r.Nil? ==> node.Optional?) && (!r.Nil? ==> !IsMissing(node, r))
    decreases node
  {
    hide CheckedItems, CheckedFields, ParseInt, Bounded, UnknownKeys;
    if node.Optional? && !OptionalSkips(node.inner, value) { ResultIsPresent(env, node.inner, value, path, depth); }
  }

  // -------------------------------------------------------------------- lists

  lemma {:induction false} LookupIndexed(items: seq<Value>, from: nat, i: nat)
    requires from <= i < |items|
    ensures Lookup(ListTable(items).entries[from..], Index(i + 1)) == items[i]
    decreases i - from
  {
    var es := ListTable(items).entries;
    assert es[from..][0] == (Index(from + 1), items[from]) && es[from..][1..] == es[from + 1..];
    if from < i { LookupIndexed(items, from + 1, i); }
  }

  /** A built list reads back as its elements. */
  lemma ListReadsBack(items: seq<Value>)
    ensures AsList(ListTable(items).entries) == Some(items)
  {
    var es := ListTable(items).entries;
    forall i | 1 <= i <= |es| ensures HasKey(es, Index(i)) {
      assert es[i - 1].0 == Index(i);
    }
    forall i | 0 <= i < |items| ensures Lookup(es, Index(i + 1)) == items[i] {
      LookupIndexed(items, 0, i);
      assert es[0..] == es;
    }
    assert AsList(es).value == items;
  }

  /** What item `i` came to. */
  ghost function ItemVerdict(env: Env, item: Node, items: seq<Value>, path: seq<Part>, depth: nat, i: nat): Verdict
    requires i < |items|
  {
    Checked(env, item, items[i], path + [ItemPart(i + 1)], depth + 1)
  }

  lemma NextItem(env: Env, item: Node, items: seq<Value>, path: seq<Part>, depth: nat, k: nat)
    requires 0 < k <= |items|
    ensures
      var g, v := CheckedItems(env, item, items, path, depth, k - 1), ItemVerdict(env, item, items, path, depth, k - 1);
      CheckedItems(env, item, items, path, depth, k) == if g.aborted then g else Joined(g, v, KeptItem(v.result))
  {
    hide Checked;
  }

  lemma ItemPresent(env: Env, item: Node, items: seq<Value>, path: seq<Part>, depth: nat, i: nat)
    requires i < |items| && Plain(item) && !item.Optional?
    ensures
      var v := ItemVerdict(env, item, items, path, depth, i);
      && (v.result.Some? <==> v.issues == [] && !v.aborted)
      && (v.result.Some? ==> KeptItem(v.result) == [v.result.value])
  {
    ValueIffNoIssue(env, item, items[i], path + [ItemPart(i + 1)], depth + 1);
    if ItemVerdict(env, item, items, path, depth, i).result.Some? {
      ResultIsPresent(env, item, items[i], path + [ItemPart(i + 1)], depth + 1);
    }
    hide Checked, Plain, IsMissing;
  }

  /** Where a list has no issue, its results are those of its items. */
  lemma {:induction false} ItemResults(env: Env, item: Node, items: seq<Value>, path: seq<Part>, depth: nat, k: nat)
    requires k <= |items| && Plain(item) && !item.Optional?
    requires CheckedItems(env, item, items, path, depth, k).issues == []
      && !CheckedItems(env, item, items, path, depth, k).aborted
    ensures
      var out := CheckedItems(env, item, items, path, depth, k).out;
      |out| == k && forall i | 0 <= i < k :: ItemVerdict(env, item, items, path, depth, i).result == Some(out[i])
    decreases k
  {
    hide CheckedItems, ItemVerdict, Plain, KeptItem;
    if k > 0 {
      NextItem(env, item, items, path, depth, k);
      ItemPresent(env, item, items, path, depth, k - 1);
      ItemResults(env, item, items, path, depth, k - 1);
    } else {
      NoItems(env, item, items, path, depth);
    }
  }

  lemma NoItems(env: Env, item: Node, items: seq<Value>, path: seq<Part>, depth: nat)
    ensures CheckedItems(env, item, items, path, depth, 0) == Gathered([], [], false)
  {
  }

  /** The first `k` results, checked again: unchanged up to the first that is hit. */
  lemma {:induction false} ItemsAgain(env: Env, item: Node, items: seq<Value>, path: seq<Part>, depth: nat,
                                      out: seq<Value>, k: nat)
    requires WellBuilt(item) && Plain(item) && !item.Optional? && k <= |items| == |out|
    requires forall i | 0 <= i < |items| :: ItemVerdict(env, item, items, path, depth, i).result == Some(out[i])
    ensures
      var g := CheckedItems(env, item, out, path, depth, k);
      if exists i :: 0 <= i < k && HitsLeast(item, items[i]) then g.issues != [] else g == Gathered([], out[..k], false)
    decreases item, 1, k
  {
    hide CheckedItems, ItemVerdict, Plain, WellBuilt, HitsLeast, KeptItem;
    if k > 0 {
      NextItem(env, item, out, path, depth, k);
      ItemAgain(env, item, items, path, depth, out, k - 1);
      ItemsAgain(env, item, items, path, depth, out, k - 1);
      assert out[..k] == out[..k - 1] + [out[k - 1]];
    } else {
      NoItems(env, item, out, path, depth);
    }
  }

  lemma {:induction false} ItemAgain(env: Env, item: Node, items: seq<Value>, path: seq<Part>, depth: nat,
                                     out: seq<Value>, i: nat)
    requires WellBuilt(item) && Plain(item) && !item.Optional? && i < |items| == |out|
    requires ItemVerdict(env, item, items, path, depth, i).result == Some(out[i])
    ensures
      var v := ItemVerdict(env, item, out, path, depth, i);
      if HitsLeast(item, items[i]) then v.issues != [] else v == Pass(out[i]) && KeptItem(v.result) == [out[i]]
    decreases item, 1, i, 0
  {
    var p := path + [ItemPart(i + 1)];
    CheckedAgain(env, item, items[i], p, depth + 1);
    ResultIsPresent(env, item, items[i], p, depth + 1);
    hide Checked, HitsLeast, WellBuilt, Plain, IsMissing;
  }

  // ------------------------------------------------------------------ objects

  lemma {:induction false} LookupConcat(a: seq<(Key, Value)>, b: seq<(Key, Value)>, k: Key)
    ensures Lookup(a + b, k) == if HasKey(a, k) then Lookup(a, k) else Lookup(b, k)
    ensures !HasKey(a, k) ==> Lookup(a, k) == Nil
    decreases |a|
  {
    if a == [] {
      assert a + b == b;
    } else {
      assert (a + b)[1..] == a[1..] + b;
      LookupConcat(a[1..], b, k);
      if HasKey(a, k) && a[0].0 != k {
        var i :| 0 <= i < |a| && a[i].0 == k;
        assert a[1..][i - 1].0 == k;
      }
      if HasKey(a[1..], k) {
        var i :| 0 <= i < |a[1..]| && a[1..][i].0 == k;
        assert a[i + 1].0 == k;
      }
    }
  }

  /** What field `i` came to. */
  ghost function FieldVerdict(env: Env, fields: seq<Field>, es: seq<(Key, Value)>, path: seq<Part>, depth: nat,
                              i: nat): Verdict
    requires i < |fields|
  {
    Checked(env, fields[i].node, FieldValue(fields[i], es), path + [KeyPart(Name(fields[i].name))], depth + 1)
  }

  lemma NextField(env: Env, fields: seq<Field>, es: seq<(Key, Value)>, path: seq<Part>, depth: nat, k: nat)
    requires 0 < k <= |fields|
    ensures
      var g, v := CheckedFields(env, fields, es, path, depth, k - 1), FieldVerdict(env, fields, es, path, depth, k - 1);
      CheckedFields(env, fields, es, path, depth, k)
        == if g.aborted then g else Joined(g, v, KeptField(fields[k - 1].name, v.result))
  {
    hide Checked;
  }

  lemma NoFields(env: Env, fields: seq<Field>, es: seq<(Key, Value)>, path: seq<Part>, depth: nat)
    ensures CheckedFields(env, fields, es, path, depth, 0) == Gathered([], [], false)
  {
  }

  /** Where the fields have no issue, every one has a result, found under its name. */
  lemma {:induction false} FieldResults(env: Env, fields: seq<Field>, es: seq<(Key, Value)>, path: seq<Part>,
                                        depth: nat, k: nat)
    requires k <= |fields| && NamesDiffer(fields)
    requires CheckedFields(env, fields, es, path, depth, k).issues == []
      && !CheckedFields(env, fields, es, path, depth, k).aborted
    ensures
      var out := CheckedFields(env, fields, es, path, depth, k).out;
      && (forall i | 0 <= i < k ::
        FieldVerdict(env, fields, es, path, depth, i).result == Some(Lookup(out, Name(fields[i].name))))
      && (forall key | HasKey(out, key) :: exists i :: 0 <= i < k && key == Name(fields[i].name))
    decreases k
  {
    hide CheckedFields, FieldVerdict, KeptField, Lookup;
    if k > 0 {
      NextField(env, fields, es, path, depth, k);
      var v := FieldVerdict(env, fields, es, path, depth, k - 1);
      FieldResults(env, fields, es, path, depth, k - 1);
      FieldVerdictValue(env, fields, es, path, depth, k - 1);
      KeptAtEnd(fields, CheckedFields(env, fields, es, path, depth, k - 1).out, v.result.value, k);
    } else {
      NoFields(env, fields, es, path, depth);
    }
  }

  lemma FieldVerdictValue(env: Env, fields: seq<Field>, es: seq<(Key, Value)>, path: seq<Part>, depth: nat, i: nat)
    requires i < |fields| && FieldVerdict(env, fields, es, path, depth, i).issues == []
    requires !FieldVerdict(env, fields, es, path, depth, i).aborted
    ensures FieldVerdict(env, fields, es, path, depth, i).result.Some?
  {
    ValueIffNoIssue(env, fields[i].node, FieldValue(fields[i], es), path + [KeyPart(Name(fields[i].name))], depth + 1);
    hide Checked;
  }

  /** A result put last under a new name. */
  lemma KeptAtEnd(fields: seq<Field>, out: seq<(Key, Value)>, r: Value, k: nat)
    requires 0 < k <= |fields| && NamesDiffer(fields)
    requires forall key | HasKey(out, key) :: exists i :: 0 <= i < k - 1 && key == Name(fields[i].name)
    ensures
      var more := out + KeptField(fields[k - 1].name, Some(r));
      && Lookup(more, Name(fields[k - 1].name)) == r
      && (forall i | 0 <= i < k - 1 :: Lookup(more, Name(fields[i].name)) == Lookup(out, Name(fields[i].name)))
      && forall key | HasKey(more, key) :: exists i :: 0 <= i < k && key == Name(fields[i].name)
  {
    var last := KeptField(fields[k - 1].name, Some(r));
    var more := out + last;
    LookupConcat(out, last, Name(fields[k - 1].name));
    forall i | 0 <= i < k - 1 ensures Lookup(more, Name(fields[i].name)) == Lookup(out, Name(fields[i].name)) {
      LookupConcat(out, last, Name(fields[i].name));
    }
    forall key | HasKey(more, key) ensures exists i :: 0 <= i < k && key == Name(fields[i].name) {
      var i :| 0 <= i < |more| && more[i].0 == key;
      if i < |out| {
        assert out[i].0 == key && HasKey(out, key);
      } else {
        assert key == Name(fields[k - 1].name);
      }
    }
  }

  /** The results of the first `k` fields, checked again. */
  lemma {:induction false} FieldsAgain(env: Env, fields: seq<Field>, es: seq<(Key, Value)>, path: seq<Part>, depth: nat,
                                       out: seq<(Key, Value)>, k: nat)
    requires k <= |fields| && forall i | 0 <= i < |fields| :: WellBuilt(fields[i].node) && Plain(fields[i].node)
    requires forall i | 0 <= i < |fields| ::
      FieldVerdict(env, fields, es, path, depth, i).result == Some(Lookup(out, Name(fields[i].name)))
    ensures
      var g := CheckedFields(env, fields, out, path, depth, k);
      if exists i :: 0 <= i < k && HitsLeast(fields[i].node, FieldValue(fields[i], es)) then g.issues != []
      else g == CheckedFields(env, fields, es, path, depth, k) && g.issues == [] && !g.aborted
    decreases fields, 1, k
  {
    hide CheckedFields, FieldVerdict, KeptField, Lookup, HitsLeast, WellBuilt, Plain, FieldValue;
    if k > 0 {
      NextField(env, fields, es, path, depth, k);
      NextField(env, fields, out, path, depth, k);
      FieldAgain(env, fields, es, path, depth, out, k - 1);
      FieldsAgain(env, fields, es, path, depth, out, k - 1);
    } else {
      NoFields(env, fields, es, path, depth);
      NoFields(env, fields, out, path, depth);
    }
  }

  lemma {:induction false} FieldAgain(env: Env, fields: seq<Field>, es: seq<(Key, Value)>, path: seq<Part>, depth: nat,
                                      out: seq<(Key, Value)>, i: nat)
    requires i < |fields| && WellBuilt(fields[i].node) && Plain(fields[i].node)
    requires FieldVerdict(env, fields, es, path, depth, i).result == Some(Lookup(out, Name(fields[i].name)))
    ensures
      var v := FieldVerdict(env, fields, out, path, depth, i);
      if HitsLeast(fields[i].node, FieldValue(fields[i], es)) then v.issues != []
      else v == FieldVerdict(env, fields, es, path, depth, i) && v.issues == [] && !v.aborted
    decreases fields, 1, i, 0
  {
    var f := fields[i];
    var p := path + [KeyPart(Name(f.name))];
    CheckedAgain(env, f.node, FieldValue(f, es), p, depth + 1);
    ResultIsPresent(env, f.node, FieldValue(f, es), p, depth + 1);
    ValueIffNoIssue(env, f.node, FieldValue(f, es), p, depth + 1);
    hide Checked, HitsLeast, WellBuilt, Plain, IsMissing;
    assert FieldValue(f, out) == Lookup(out, Name(f.name));
  }

  lemma {:induction false} NoUnknownKeys(fields: seq<Field>, es: seq<(Key, Value)>, path: seq<Part>)
    requires forall key | HasKey(es, key) :: KnownKey(fields, key)
    ensures UnknownKeys(fields, es, path) == []
    decreases |es|
  {
    if es != [] {
      var most := es[..|es| - 1];
      assert HasKey(es, es[|es| - 1].0);
      forall key | HasKey(most, key) ensures KnownKey(fields, key) {
        var i :| 0 <= i < |most| && most[i].0 == key;
        assert es[i].0 == key;
        assert HasKey(es, key);
      }
      NoUnknownKeys(fields, most, path);
    }
  }

  // --------------------------------------------------------------- everything

  /** Checking a result again gives an issue if the least integer was let through,
      and otherwise gives the result back. */
  lemma {:induction false} CheckedAgain(env: Env, node: Node, value: Value, path: seq<Part>, depth: nat)
    requires WellBuilt(node) && Plain(node) && Checked(env, node, value, path, depth).result.Some?
    ensures
      var r := Checked(env, node, value, path, depth).result.value;
      if HitsLeast(node, value) then Checked(env, node, r, path, depth).issues != []
      else Checked(env, node, r, path, depth) == Pass(r)
    decreases node, 0, 0
  {
    match node
    case Func(_) =>
    case Optional(inner) => OptionalAgain(env, node, value, path, depth);
    case ListNode(_, _, _) => ListAgain(env, node, value, path, depth);
    case ObjectNode(_, _) => ObjectAgain(env, node, value, path, depth);
    case _ => ScalarAgain(env, node, value, path);
  }

  lemma {:induction false} OptionalAgain(env: Env, node: Node, value: Value, path: seq<Part>, depth: nat)
    requires node.Optional? && WellBuilt(node) && Plain(node) && Checked(env, node, value, path, depth).result.Some?
    ensures
      var r := Checked(env, node, value, path, depth).result.value;
      if HitsLeast(node, value) then Checked(env, node, r, path, depth).issues != []
      else Checked(env, node, r, path, depth) == Pass(r)
    decreases node.inner, 2, 0
  {
    var inner := node.inner;
    PlainHasNoDefault(inner);
    if !OptionalSkips(inner, value) {
      CheckedAgain(env, inner, value, path, depth);
      ResultIsPresent(env, inner, value, path, depth);
      var r := Checked(env, inner, value, path, depth).result.value;
      if r.Nil? { PlainHasNoDefault(inner.inner); }
    }
  }

  lemma {:induction false} ListAgain(env: Env, node: Node, value: Value, path: seq<Part>, depth: nat)
    requires node.ListNode? && WellBuilt(node) && Plain(node) && Checked(env, node, value, path, depth).result.Some?
    ensures
      var r := Checked(env, node, value, path, depth).result.value;
      if HitsLeast(node, value) then Checked(env, node, r, path, depth).issues != []
      else Checked(env, node, r, path, depth) == Pass(r)
    decreases node.item, 2, 0
  {
    hide *;
    DepthIsFine(env, node, value, path, depth);
    ListChecked(env, node, value, path, depth);
    ItemsWereOk(env, node, value, path, depth);
    var items := ItemsOf(node, value).value;
    var g := CheckedItems(env, node.item, items, path, depth, |items|);
    ListParts(node, value);
    ItemResults(env, node.item, items, path, depth, |items|);
    ItemsAgain(env, node.item, items, path, depth, g.out, |items|);
    assert g.out[..|items|] == g.out;
    ItemsReadBack(node, value, g.out);
    ListChecked(env, node, ListTable(g.out), path, depth);
    PassIs(ListTable(g.out));
  }

  lemma ItemsWereOk(env: Env, node: Node, value: Value, path: seq<Part>, depth: nat)
    requires node.ListNode? && Checked(env, node, value, path, depth).result.Some?
    ensures ItemsOf(node, value).Ok?
  {
    hide CheckedItems, ItemsOf;
  }

  lemma PassIs(v: Value)
    ensures Pass(v) == Verdict([], Some(v), false)
  {
  }

  lemma ListParts(node: Node, value: Value)
    requires node.ListNode? && WellBuilt(node) && Plain(node) && ItemsOf(node, value).Ok?
    ensures WellBuilt(node.item) && Plain(node.item) && !node.item.Optional?
    ensures
      var items := ItemsOf(node, value).value;
      HitsLeast(node, value) <==> exists i :: 0 <= i < |items| && HitsLeast(node.item, items[i])
  {
    hide ItemsOf;
  }

  /** As many results as items: the built list is within the same bounds. */
  lemma ItemsReadBack(node: Node, value: Value, out: seq<Value>)
    requires node.ListNode? && ItemsOf(node, value).Ok? && |out| == |ItemsOf(node, value).value|
    ensures ItemsOf(node, ListTable(out)) == Ok(out)
  {
    ListReadsBack(out);
    TablesAre(out);
    hide AsList, ListTable;
  }

  lemma DepthIsFine(env: Env, node: Node, value: Value, path: seq<Part>, depth: nat)
    requires Checked(env, node, value, path, depth).result.Some?
    ensures depth <= MAX_DEPTH
  {
    hide CheckedItems, CheckedFields, ScalarVerdict, FuncVerdict;
  }

  lemma TablesAre(items: seq<Value>)
    ensures ListTable(items).Table?
  {
  }

  lemma {:induction false} ObjectAgain(env: Env, node: Node, value: Value, path: seq<Part>, depth: nat)
    requires node.ObjectNode? && WellBuilt(node) && Plain(node) && Checked(env, node, value, path, depth).result.Some?
    ensures
      var r := Checked(env, node, value, path, depth).result.value;
      if HitsLeast(node, value) then Checked(env, node, r, path, depth).issues != []
      else Checked(env, node, r, path, depth) == Pass(r)
    decreases node.fields, 2, 0
  {
    DepthIsFine(env, node, value, path, depth);
    ObjectChecked(env, node, value, path, depth);
    hide Checked, CheckedFields, UnknownKeys, FieldVerdict;
    var fields, es := node.fields, value.entries;
    var g := CheckedFields(env, fields, es, path, depth, |fields|);
    FieldResults(env, fields, es, path, depth, |fields|);
    FieldsAgain(env, fields, es, path, depth, g.out, |fields|);
    NoUnknownKeys(fields, g.out, path);
    ObjectChecked(env, node, Table(g.out), path, depth);
  }

  /** For an accepted schema without defaults, functions or optional list items: a
      valid result validates again as itself if and only if no `int` without a `min`
      was given the digits of the least 64-bit integer. */
  lemma NormalizationIsIdempotent(env: Env, node: Node, value: Value)
    requires WellBuilt(node) && Plain(node) && Validated(env, node, value).result.Some?
    ensures
      var r := Validated(env, node, value).result.value;
      Validated(env, node, r) == Pass(r) <==> !HitsLeast(node, AbsentIfNull(node, value))
  {
    CheckedAgain(env, node, AbsentIfNull(node, value), [], 0);
    ResultIsPresent(env, node, AbsentIfNull(node, value), [], 0);
    hide Checked, HitsLeast, WellBuilt, Plain;
  }

  /** The digits "-9223372036854775808": accepted once, refused the second time. */
  lemma LeastIntegerIsNotStable(env: Env)
    ensures
      var node := IntNode(None, None, None, false);
      var digits: Bytes := [45, 57, 50, 50, 51, 51, 55, 50, 48, 51, 54, 56, 53, 52, 55, 55, 53, 56, 48, 56];
      var r := Num(Fin(I64_MIN as real));
      && Validated(env, node, Str(digits)) == Pass(r)
      && Validated(env, node, r) == Fails([], OutOfRange)
  {
    var digits: Bytes := [45, 57, 50, 50, 51, 51, 55, 50, 48, 51, 54, 56, 53, 52, 55, 55, 53, 56, 48, 56];
    LeastDigits();
    assert digits[1..] == LEAST_DIGITS;
    assert ParseInt(digits) == Some(I64_MIN);
    hide ParseInt;
    IntegerFloor(I64_MIN);
  }

  const LEAST_DIGITS: Bytes := [57, 50, 50, 51, 51, 55, 50, 48, 51, 54, 56, 53, 52, 55, 55, 53, 56, 48, 56]

  lemma LeastDigits()
    ensures AllDigits(LEAST_DIGITS) && DigitsValue(LEAST_DIGITS) == -I64_MIN
  {
    DigitsAreDigits();
    FirstSeven();
    NextSeven();
    var d := LEAST_DIGITS;
    assert d[..19] == d;
    hide DigitsValue, AllDigits;
    FiveDigits(d, 14, 92_233_720_368_547);
  }

  lemma FirstSeven()
    ensures DigitsValue(LEAST_DIGITS[..7]) == 9_223_372
  {
    DigitsAreDigits();
    var d := LEAST_DIGITS;
    assert d[..0] == [] && DigitsValue(d[..0]) == 0;
    hide DigitsValue, AllDigits;
    SevenDigits(d, 0, 0);
  }

  lemma NextSeven()
    ensures DigitsValue(LEAST_DIGITS[..14]) == 92_233_720_368_547
  {
    DigitsAreDigits();
    FirstSeven();
    hide DigitsValue, AllDigits;
    SevenDigits(LEAST_DIGITS, 7, 9_223_372);
  }

  lemma DigitsAreDigits()
    ensures AllDigits(LEAST_DIGITS)
  {
    forall b | b in LEAST_DIGITS ensures IsDigit(b) { }
  }

  lemma FiveDigits(d: Bytes, k: nat, n: nat)
    requires k + 5 <= |d| && AllDigits(d) && DigitsValue(d[..k]) == n
    ensures DigitsValue(d[..k + 5]) == 100_000 * n + 10_000 * (d[k] as int - 48) + 1_000 * (d[k + 1] as int - 48)
      + 100 * (d[k + 2] as int - 48) + 10 * (d[k + 3] as int - 48) + (d[k + 4] as int - 48)
  {
    hide DigitsValue;
    DigitOn(d, k); DigitOn(d, k + 1); DigitOn(d, k + 2); DigitOn(d, k + 3); DigitOn(d, k + 4);
  }

  lemma SevenDigits(d: Bytes, k: nat, n: nat)
    requires k + 7 <= |d| && AllDigits(d) && DigitsValue(d[..k]) == n
    ensures DigitsValue(d[..k + 7]) ==
      10_000_000 * n + 1_000_000 * (d[k] as int - 48) + 100_000 * (d[k + 1] as int - 48)
      + 10_000 * (d[k + 2] as int - 48) + 1_000 * (d[k + 3] as int - 48) + 100 * (d[k + 4] as int - 48)
      + 10 * (d[k + 5] as int - 48) + (d[k + 6] as int - 48)
  {
    hide DigitsValue;
    DigitOn(d, k); DigitOn(d, k + 1); DigitOn(d, k + 2); DigitOn(d, k + 3); DigitOn(d, k + 4); DigitOn(d, k + 5);
    DigitOn(d, k + 6);
  }

  lemma DigitOn(d: Bytes, k: nat)
    requires k < |d| && AllDigits(d)
    ensures DigitsValue(d[..k + 1]) == 10 * DigitsValue(d[..k]) + (d[k] as int - 48)
  {
    assert d[..k + 1][..k] == d[..k];
  }
}
