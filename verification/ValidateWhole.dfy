/** The check returns what the schema takes a value to and reports its faults where they
    are, through every list and object. */
module ValidateWhole {
  import opened Prelude
  import opened ValidateSpec
  import opened ValidateLaws
  import opened ValidateMeans

  // --------------------------------------------------------------- the whole check

  /** The check of `value` returns what the schema takes it to, reports what is wrong
      where it is wrong, and is cut short only by what breaks. */
  ghost predicate Means(env: Env, node: Node, value: Value, path: seq<Part>, v: Verdict) {
    && (v.aborted <==> Breaks(env, node, value))
    && (forall r :: v.result == Some(r) <==> Takes(env, node, value, r))
    && (forall q, m | Issue(q, m) in v.issues :: path <= q && Faults(env, node, value, q[|path|..], m))
    && (!v.aborted ==> forall q, m | path <= q && Faults(env, node, value, q[|path|..], m) :: Issue(q, m) in v.issues)
  }

  predicate IsScalar(node: Node) {
    node.StrNode? || node.IntNode? || node.NumNode? || node.BoolNode? || node.OneOf?
  }

  lemma ScalarMeans(env: Env, node: Node, value: Value, path: seq<Part>)
    requires IsScalar(node)
    ensures Means(env, node, value, path, ScalarVerdict(env, node, value, path))
  {
    hide ScalarVerdict, FaultsScalar, TakesScalar, Means, Breaks;
    if node.StrNode? {
      StrMeans(env, node, value, path);
    } else {
      OnlyStrBreaks(env, node, value);
      if node.IntNode? { IntMeans(env, node, value, path); }
      if node.NumNode? { NumMeans(env, node, value, path); }
      if node.BoolNode? || node.OneOf? { BoolMeans(env, node, value, path); }
    }
    MeansScalar(env, node, value, path, ScalarVerdict(env, node, value, path));
  }

  lemma OnlyStrBreaks(env: Env, node: Node, value: Value)
    requires IsScalar(node) && !node.StrNode?
    ensures !Breaks(env, node, value)
  {
  }

  lemma MeansScalar(env: Env, node: Node, value: Value, path: seq<Part>, v: Verdict)
    requires IsScalar(node) && (v.aborted <==> Breaks(env, node, value))
    requires forall r :: v.result == Some(r) <==> TakesScalar(env, node, value, r)
    requires forall q, m | Issue(q, m) in v.issues :: q == path && FaultsScalar(env, node, value, m)
    requires !v.aborted ==> forall m | FaultsScalar(env, node, value, m) :: Issue(path, m) in v.issues
    ensures Means(env, node, value, path, v)
  {
    hide FaultsScalar, TakesScalar;
    forall q, m
      ensures q == path && FaultsScalar(env, node, value, m)
        <==> path <= q && Faults(env, node, value, q[|path|..], m)
    {
      assert path <= q && q[|path|..] == [] ==> q == path;
    }
  }

  lemma FuncVerdictMeans(env: Env, node: Node, value: Value, path: seq<Part>)
    requires node.Func?
    ensures Means(env, node, value, path, FuncVerdict(env, node.f, value, path))
  {
    forall q ensures path <= q && q[|path|..] == [] <==> q == path { }
  }

  // ------------------------------------------------------------------------- lists

  /** What the first `k` items came to. */
  lemma {:induction false} ItemsGather(env: Env, item: Node, items: seq<Value>, path: seq<Part>, depth: nat, k: nat)
    requires k <= |items|
    ensures
      var g := CheckedItems(env, item, items, path, depth, k);
      && (g.aborted <==> exists i | 0 <= i < k :: ItemVerdict(env, item, items, path, depth, i).aborted)
      && (forall x | x in g.issues ::
            exists i | 0 <= i < k :: x in ItemVerdict(env, item, items, path, depth, i).issues)
      && (!g.aborted ==>
            forall i, x | 0 <= i < k && x in ItemVerdict(env, item, items, path, depth, i).issues :: x in g.issues)
    decreases k
  {
    hide CheckedItems, ItemVerdict, KeptItem;
    if k > 0 {
      ItemsGather(env, item, items, path, depth, k - 1);
      NextItem(env, item, items, path, depth, k);
    } else {
      NoItems(env, item, items, path, depth);
    }
  }

  lemma {:induction false} ItemsGive(env: Env, item: Node, items: seq<Value>, path: seq<Part>, depth: nat, k: nat,
                                     rs: seq<Value>)
    requires k <= |items| && k == |rs|
    requires forall i | 0 <= i < k :: ItemVerdict(env, item, items, path, depth, i).result == Some(rs[i])
    ensures CheckedItems(env, item, items, path, depth, k) == Gathered([], Present(rs), false)
    decreases k
  {
    hide CheckedItems, ItemVerdict;
    if k > 0 {
      ItemsGive(env, item, items, path, depth, k - 1, rs[..k - 1]);
      NextItem(env, item, items, path, depth, k);
      ItemClean(env, item, items, path, depth, k - 1);
    } else {
      NoItems(env, item, items, path, depth);
    }
  }

  lemma ItemClean(env: Env, item: Node, items: seq<Value>, path: seq<Part>, depth: nat, i: nat)
    requires i < |items|
    ensures
      var v := ItemVerdict(env, item, items, path, depth, i);
      v.result.Some? <==> v.issues == [] && !v.aborted
  {
    ValueIffNoIssue(env, item, items[i], path + [ItemPart(i + 1)], depth + 1);
    hide Checked;
  }

  ghost function ItemResultsOf(env: Env, item: Node, items: seq<Value>, path: seq<Part>, depth: nat): (rs: seq<Value>)
    requires forall i | 0 <= i < |items| :: ItemVerdict(env, item, items, path, depth, i).result.Some?
    ensures |rs| == |items|
    ensures forall i | 0 <= i < |rs| :: ItemVerdict(env, item, items, path, depth, i).result == Some(rs[i])
  {
    seq(|items|, i requires 0 <= i < |items| => ItemVerdict(env, item, items, path, depth, i).result.value)
  }

  /** A clean list gave a result for every item. */
  lemma ItemsWereClean(env: Env, item: Node, items: seq<Value>, path: seq<Part>, depth: nat)
    requires
      var g := CheckedItems(env, item, items, path, depth, |items|);
      g.issues == [] && !g.aborted
    ensures forall i | 0 <= i < |items| :: ItemVerdict(env, item, items, path, depth, i).result.Some?
  {
    ItemsGather(env, item, items, path, depth, |items|);
    hide CheckedItems, ItemVerdict;
    forall i | 0 <= i < |items| ensures ItemVerdict(env, item, items, path, depth, i).result.Some? {
      ItemClean(env, item, items, path, depth, i);
      var issues := ItemVerdict(env, item, items, path, depth, i).issues;
      forall x ensures x in issues ==> x in CheckedItems(env, item, items, path, depth, |items|).issues { }
      SomeIssue(issues);
    }
  }

  lemma SomeIssue(issues: seq<Issue>)
    ensures issues != [] ==> exists x :: x in issues
  {
    if issues != [] { assert issues[0] in issues; }
  }

  /** What the lemmas below have in common: the items of a well-shaped list came to what
      they should, and `v` is the list's verdict. */
  ghost predicate ListCame(env: Env, node: Node, value: Value, path: seq<Part>, depth: nat, v: Verdict) {
    && node.ListNode? && value.Table? && IsArray(value.entries)
    && FewEnough(|value.entries|, node.minItems, node.maxItems)
    && var items := Elements(value.entries);
       var g := CheckedItems(env, node.item, items, path, depth, |items|);
       && v == Verdict(g.issues, if g.issues == [] && !g.aborted then Some(ListTable(g.out)) else None, g.aborted)
       && forall i | 0 <= i < |items| ::
            Means(env, node.item, items[i], path + [ItemPart(i + 1)],
                  ItemVerdict(env, node.item, items, path, depth, i))
  }

  ghost predicate TakesAll(env: Env, item: Node, items: seq<Value>, rs: seq<Value>) {
    |rs| == |items| && forall i | 0 <= i < |rs| :: Takes(env, item, items[i], rs[i])
  }

  lemma TakesList(env: Env, node: Node, value: Value, r: Value)
    requires node.ListNode? && value.Table? && IsArray(value.entries)
    requires FewEnough(|value.entries|, node.minItems, node.maxItems)
    ensures Takes(env, node, value, r) <==>
      exists rs :: TakesAll(env, node.item, Elements(value.entries), rs) && r == ListTable(Present(rs))
  {
    var items := Elements(value.entries);
    hide IsArray, FewEnough, Elements;
    if rs :| TakesAll(env, node.item, items, rs) && r == ListTable(Present(rs)) {
      assert |rs| == |value.entries| && r == ListTable(Present(rs))
             && forall i | 0 <= i < |rs| :: Takes(env, node.item, items[i], rs[i]);
    }
    if Takes(env, node, value, r) {
      var rs: seq<Value> :| |rs| == |items| && r == ListTable(Present(rs))
                            && forall i | 0 <= i < |rs| :: Takes(env, node.item, items[i], rs[i]);
      assert TakesAll(env, node.item, items, rs);
    }
  }

  lemma ListTakes(env: Env, node: Node, value: Value, path: seq<Part>, depth: nat, v: Verdict)
    requires ListCame(env, node, value, path, depth, v)
    ensures forall r :: v.result == Some(r) <==> Takes(env, node, value, r)
  {
    forall r ensures v.result == Some(r) <==> Takes(env, node, value, r) {
      TakesList(env, node, value, r);
      hide *;
      ListGives(env, node, value, path, depth, v, r);
    }
  }

  lemma ListGives(env: Env, node: Node, value: Value, path: seq<Part>, depth: nat, v: Verdict, r: Value)
    requires ListCame(env, node, value, path, depth, v)
    ensures v.result == Some(r) <==>
      exists rs :: TakesAll(env, node.item, Elements(value.entries), rs) && r == ListTable(Present(rs))
  {
    var item, items := node.item, Elements(value.entries);
    hide CheckedItems, ItemVerdict, Breaks, Faults, IsArray, FewEnough, Takes, Elements, Present, ListTable;
    if v.result.Some? {
      ItemsWereClean(env, item, items, path, depth);
      var rs := ItemResultsOf(env, item, items, path, depth);
      ItemsGive(env, item, items, path, depth, |items|, rs);
      assert TakesAll(env, item, items, rs);
      forall rs' | TakesAll(env, item, items, rs') ensures rs' == rs {
        SameResults(env, item, items, path, depth, rs', rs);
      }
    } else if rs :| TakesAll(env, item, items, rs) && r == ListTable(Present(rs)) {
      ItemsGive(env, item, items, path, depth, |items|, rs);
    }
  }

  lemma SameResults(env: Env, item: Node, items: seq<Value>, path: seq<Part>, depth: nat, a: seq<Value>, b: seq<Value>)
    requires TakesAll(env, item, items, a) && TakesAll(env, item, items, b)
    requires forall i | 0 <= i < |items| ::
      Means(env, item, items[i], path + [ItemPart(i + 1)], ItemVerdict(env, item, items, path, depth, i))
    ensures a == b
  {
    hide ItemVerdict, Breaks, Faults, Takes;
    forall i | 0 <= i < |a| ensures a[i] == b[i] {
      assert Takes(env, item, items[i], a[i]) && Takes(env, item, items[i], b[i]);
      assert ItemVerdict(env, item, items, path, depth, i).result == Some(a[i]);
    }
  }

  lemma ListBreaks(env: Env, node: Node, value: Value, path: seq<Part>, depth: nat, v: Verdict)
    requires ListCame(env, node, value, path, depth, v)
    ensures v.aborted <==> Breaks(env, node, value)
  {
    var items := Elements(value.entries);
    ItemsGather(env, node.item, items, path, depth, |items|);
    hide CheckedItems, ItemVerdict, Takes, Faults, IsArray, FewEnough, Elements;
  }

  /** A well-shaped list is at fault where one of its items is. */
  lemma FaultsBelow(env: Env, node: Node, value: Value, path: seq<Part>, q: seq<Part>, m: Message)
    requires node.ListNode? && value.Table? && IsArray(value.entries)
    requires FewEnough(|value.entries|, node.minItems, node.maxItems)
    ensures path <= q && Faults(env, node, value, q[|path|..], m) <==>
      exists i | 0 <= i < |value.entries| ::
        && path + [ItemPart(i + 1)] <= q
        && Faults(env, node.item, Elements(value.entries)[i], q[|path + [ItemPart(i + 1)]|..], m)
  {
    var items := Elements(value.entries);
    hide Elements, IsArray, FewEnough;
    if path <= q {
      var rel := q[|path|..];
      assert Faults(env, node, value, rel, m) <==>
        && rel != [] && rel[0].ItemPart? && 1 <= rel[0].index <= |value.entries|
        && Faults(env, node.item, items[rel[0].index - 1], rel[1..], m) by { NotOfList(node, value, m); }
      hide Faults;
      if rel != [] && rel[0].ItemPart? && 1 <= rel[0].index { BelowItem(path, q, rel[0].index - 1); }
    }
    hide Faults;
    if i: nat :| i < |items| && path + [ItemPart(i + 1)] <= q
                 && Faults(env, node.item, items[i], q[|path + [ItemPart(i + 1)]|..], m) {
      BelowItem(path, q, i);
    }
  }

  lemma NotOfList(node: Node, value: Value, m: Message)
    requires node.ListNode? && value.Table? && IsArray(value.entries)
    requires FewEnough(|value.entries|, node.minItems, node.maxItems)
    ensures !FaultsList(node, value, m)
  {
    hide IsArray;
  }

  lemma ListFaults(env: Env, node: Node, value: Value, path: seq<Part>, depth: nat, v: Verdict)
    requires ListCame(env, node, value, path, depth, v)
    ensures forall q, m | Issue(q, m) in v.issues :: path <= q && Faults(env, node, value, q[|path|..], m)
    ensures !v.aborted ==>
      forall q, m | path <= q && Faults(env, node, value, q[|path|..], m) :: Issue(q, m) in v.issues
  {
    var item, items := node.item, Elements(value.entries);
    ItemsGather(env, item, items, path, depth, |items|);
    hide CheckedItems, ItemVerdict, Takes, Breaks, Faults, Elements, IsArray, FewEnough;
    forall q: seq<Part>, m | Issue(q, m) in v.issues ensures path <= q && Faults(env, node, value, q[|path|..], m) {
      FaultsBelow(env, node, value, path, q, m);
    }
    forall q: seq<Part>, m | !v.aborted && path <= q && Faults(env, node, value, q[|path|..], m)
      ensures Issue(q, m) in v.issues
    {
      FaultsBelow(env, node, value, path, q, m);
    }
  }

  lemma BelowItem(path: seq<Part>, q: seq<Part>, i: nat)
    ensures path + [ItemPart(i + 1)] <= q <==> path <= q && |path| < |q| && q[|path|] == ItemPart(i + 1)
    ensures path + [ItemPart(i + 1)] <= q ==> q[|path|..][1..] == q[|path + [ItemPart(i + 1)]|..]
  {
  }

  // ----------------------------------------------------------------------- objects

  lemma {:induction false} FieldsGather(env: Env, fields: seq<Field>, es: seq<(Key, Value)>, path: seq<Part>,
                                        depth: nat, k: nat)
    requires k <= |fields|
    ensures
      var g := CheckedFields(env, fields, es, path, depth, k);
      && (g.aborted <==> exists i | 0 <= i < k :: FieldVerdict(env, fields, es, path, depth, i).aborted)
      && (forall x | x in g.issues ::
            exists i | 0 <= i < k :: x in FieldVerdict(env, fields, es, path, depth, i).issues)
      && (!g.aborted ==>
            forall i, x | 0 <= i < k && x in FieldVerdict(env, fields, es, path, depth, i).issues :: x in g.issues)
    decreases k
  {
    hide CheckedFields, FieldVerdict, KeptField;
    if k > 0 {
      FieldsGather(env, fields, es, path, depth, k - 1);
      NextField(env, fields, es, path, depth, k);
    } else {
      NoFields(env, fields, es, path, depth);
    }
  }

  lemma {:induction false} FieldsGive(env: Env, fields: seq<Field>, es: seq<(Key, Value)>, path: seq<Part>, depth: nat,
                                      k: nat, rs: seq<Value>)
    requires k <= |fields| && k == |rs|
    requires forall i | 0 <= i < k :: FieldVerdict(env, fields, es, path, depth, i).result == Some(rs[i])
    ensures CheckedFields(env, fields, es, path, depth, k) == Gathered([], PresentFields(fields[..k], rs), false)
    decreases k
  {
    hide CheckedFields, FieldVerdict;
    if k > 0 {
      FieldsGive(env, fields, es, path, depth, k - 1, rs[..k - 1]);
      NextField(env, fields, es, path, depth, k);
      FieldClean(env, fields, es, path, depth, k - 1);
      assert fields[..k][..k - 1] == fields[..k - 1] && fields[..k][k - 1] == fields[k - 1];
    } else {
      NoFields(env, fields, es, path, depth);
    }
  }

  lemma FieldClean(env: Env, fields: seq<Field>, es: seq<(Key, Value)>, path: seq<Part>, depth: nat, i: nat)
    requires i < |fields|
    ensures
      var v := FieldVerdict(env, fields, es, path, depth, i);
      v.result.Some? <==> v.issues == [] && !v.aborted
  {
    ValueIffNoIssue(env, fields[i].node, FieldValue(fields[i], es), path + [KeyPart(Name(fields[i].name))], depth + 1);
    hide Checked;
  }

  ghost function FieldResultsOf(env: Env, fields: seq<Field>, es: seq<(Key, Value)>, path: seq<Part>, depth: nat)
    : (rs: seq<Value>)
    requires forall i | 0 <= i < |fields| :: FieldVerdict(env, fields, es, path, depth, i).result.Some?
    ensures |rs| == |fields|
    ensures forall i | 0 <= i < |rs| :: FieldVerdict(env, fields, es, path, depth, i).result == Some(rs[i])
  {
    seq(|fields|, i requires 0 <= i < |fields| => FieldVerdict(env, fields, es, path, depth, i).result.value)
  }

  lemma FieldsWereClean(env: Env, fields: seq<Field>, es: seq<(Key, Value)>, path: seq<Part>, depth: nat)
    requires
      var g := CheckedFields(env, fields, es, path, depth, |fields|);
      g.issues == [] && !g.aborted
    ensures forall i | 0 <= i < |fields| :: FieldVerdict(env, fields, es, path, depth, i).result.Some?
  {
    FieldsGather(env, fields, es, path, depth, |fields|);
    hide CheckedFields, FieldVerdict;
    forall i | 0 <= i < |fields| ensures FieldVerdict(env, fields, es, path, depth, i).result.Some? {
      FieldClean(env, fields, es, path, depth, i);
      var issues := FieldVerdict(env, fields, es, path, depth, i).issues;
      forall x ensures x in issues ==> x in CheckedFields(env, fields, es, path, depth, |fields|).issues { }
      SomeIssue(issues);
    }
  }

  lemma KnownMeans(fields: seq<Field>, k: Key)
    ensures KnownKey(fields, k) <==> IsField(fields, k)
  {
  }

  lemma {:induction false} UnknownMeans(fields: seq<Field>, es: seq<(Key, Value)>, path: seq<Part>)
    ensures forall x :: x in UnknownKeys(fields, es, path) <==>
      exists i | 0 <= i < |es| :: !IsField(fields, es[i].0) && x == Issue(path + [KeyPart(es[i].0)], UnknownKey)
    decreases |es|
  {
    if es != [] {
      UnknownMeans(fields, es[..|es| - 1], path);
      KnownMeans(fields, es[|es| - 1].0);
      hide KnownKey, IsField;
    }
  }

  /** The fields came to what they should, and `v` is the object's verdict. */
  ghost predicate ObjectCame(env: Env, node: Node, es: seq<(Key, Value)>, path: seq<Part>, depth: nat, v: Verdict) {
    && node.ObjectNode?
    && var g := CheckedFields(env, node.fields, es, path, depth, |node.fields|);
       var issues := g.issues + if node.strict then UnknownKeys(node.fields, es, path) else [];
       && v == (if g.aborted then Verdict(g.issues, None, true)
                else Verdict(issues, if issues == [] then Some(Table(g.out)) else None, false))
       && forall i | 0 <= i < |node.fields| ::
            Means(env, node.fields[i].node, FieldGiven(node.fields[i], es), path + [KeyPart(Name(node.fields[i].name))],
                  FieldVerdict(env, node.fields, es, path, depth, i))
  }

  ghost predicate TakesEach(env: Env, fields: seq<Field>, es: seq<(Key, Value)>, rs: seq<Value>) {
    |rs| == |fields| && forall i | 0 <= i < |rs| :: Takes(env, fields[i].node, FieldGiven(fields[i], es), rs[i])
  }

  lemma TakesObject(env: Env, node: Node, es: seq<(Key, Value)>, r: Value)
    requires node.ObjectNode?
    ensures Takes(env, node, Table(es), r) <==>
      && (node.strict ==> forall i | 0 <= i < |es| :: IsField(node.fields, es[i].0))
      && exists rs :: TakesEach(env, node.fields, es, rs) && r == Table(PresentFields(node.fields, rs))
  {
    var fields := node.fields;
    hide IsField, FieldGiven;
    if rs :| TakesEach(env, fields, es, rs) && r == Table(PresentFields(fields, rs)) {
      assert |rs| == |fields| && r == Table(PresentFields(fields, rs))
             && forall i | 0 <= i < |rs| :: Takes(env, fields[i].node, FieldGiven(fields[i], es), rs[i]);
    }
    if Takes(env, node, Table(es), r) {
      var rs: seq<Value> :|
        |rs| == |fields| && r == Table(PresentFields(fields, rs))
        && forall i | 0 <= i < |rs| :: Takes(env, fields[i].node, FieldGiven(fields[i], es), rs[i]);
      assert TakesEach(env, fields, es, rs);
    }
  }

  /** No key is unknown exactly where every key is a field's. */
  lemma NoneUnknown(fields: seq<Field>, es: seq<(Key, Value)>, path: seq<Part>)
    ensures UnknownKeys(fields, es, path) == [] <==> forall i | 0 <= i < |es| :: IsField(fields, es[i].0)
  {
    UnknownMeans(fields, es, path);
    SomeIssue(UnknownKeys(fields, es, path));
    hide UnknownKeys, IsField;
    if i :| 0 <= i < |es| && !IsField(fields, es[i].0) {
      assert Issue(path + [KeyPart(es[i].0)], UnknownKey) in UnknownKeys(fields, es, path);
    }
  }

  lemma ObjectTakes(env: Env, node: Node, es: seq<(Key, Value)>, path: seq<Part>, depth: nat, v: Verdict)
    requires ObjectCame(env, node, es, path, depth, v)
    ensures forall r :: v.result == Some(r) <==> Takes(env, node, Table(es), r)
  {
    forall r ensures v.result == Some(r) <==> Takes(env, node, Table(es), r) {
      TakesObject(env, node, es, r);
      NoneUnknown(node.fields, es, path);
      hide *;
      ObjectGives(env, node, es, path, depth, v, r);
    }
  }

  lemma ObjectGives(env: Env, node: Node, es: seq<(Key, Value)>, path: seq<Part>, depth: nat, v: Verdict, r: Value)
    requires ObjectCame(env, node, es, path, depth, v)
    ensures v.result == Some(r) <==>
      && (node.strict ==> UnknownKeys(node.fields, es, path) == [])
      && exists rs :: TakesEach(env, node.fields, es, rs) && r == Table(PresentFields(node.fields, rs))
  {
    var fields := node.fields;
    assert fields[..|fields|] == fields;
    hide CheckedFields, FieldVerdict, Breaks, Faults, Takes, FieldGiven, PresentFields, UnknownKeys;
    if v.result.Some? {
      FieldsWereClean(env, fields, es, path, depth);
      var rs := FieldResultsOf(env, fields, es, path, depth);
      FieldsGive(env, fields, es, path, depth, |fields|, rs);
      assert TakesEach(env, fields, es, rs);
      forall rs' | TakesEach(env, fields, es, rs') ensures rs' == rs {
        SameEach(env, fields, es, path, depth, rs', rs);
      }
    } else if rs :| TakesEach(env, fields, es, rs) && r == Table(PresentFields(fields, rs)) {
      FieldsGive(env, fields, es, path, depth, |fields|, rs);
    }
  }

  lemma SameEach(env: Env, fields: seq<Field>, es: seq<(Key, Value)>, path: seq<Part>, depth: nat, a: seq<Value>,
                 b: seq<Value>)
    requires TakesEach(env, fields, es, a) && TakesEach(env, fields, es, b)
    requires forall i | 0 <= i < |fields| ::
      Means(env, fields[i].node, FieldGiven(fields[i], es), path + [KeyPart(Name(fields[i].name))],
            FieldVerdict(env, fields, es, path, depth, i))
    ensures a == b
  {
    hide FieldVerdict, Breaks, Faults, Takes, FieldGiven;
    forall i | 0 <= i < |a| ensures a[i] == b[i] {
      assert Takes(env, fields[i].node, FieldGiven(fields[i], es), a[i]);
      assert Takes(env, fields[i].node, FieldGiven(fields[i], es), b[i]);
      assert FieldVerdict(env, fields, es, path, depth, i).result == Some(a[i]);
    }
  }

  lemma ObjectBreaks(env: Env, node: Node, es: seq<(Key, Value)>, path: seq<Part>, depth: nat, v: Verdict)
    requires ObjectCame(env, node, es, path, depth, v)
    ensures v.aborted <==> Breaks(env, node, Table(es))
  {
    FieldsGather(env, node.fields, es, path, depth, |node.fields|);
    hide CheckedFields, FieldVerdict, Takes, Faults, FieldGiven, UnknownKeys;
  }

  lemma ObjectFaults(env: Env, node: Node, es: seq<(Key, Value)>, path: seq<Part>, depth: nat, v: Verdict)
    requires ObjectCame(env, node, es, path, depth, v)
    ensures forall q, m | Issue(q, m) in v.issues :: path <= q && Faults(env, node, Table(es), q[|path|..], m)
    ensures !v.aborted ==>
      forall q, m | path <= q && Faults(env, node, Table(es), q[|path|..], m) :: Issue(q, m) in v.issues
  {
    var fields := node.fields;
    FieldsGather(env, fields, es, path, depth, |fields|);
    UnknownMeans(fields, es, path);
    hide CheckedFields, FieldVerdict, Takes, Breaks, FieldGiven, UnknownKeys, IsField;
    forall q: seq<Part>, m | Issue(q, m) in v.issues ensures path <= q && Faults(env, node, Table(es), q[|path|..], m) {
      if i: nat :| i < |fields| && Issue(q, m) in FieldVerdict(env, fields, es, path, depth, i).issues {
        BelowKey(path, q, Name(fields[i].name));
      } else {
        var i: nat :| i < |es| && !IsField(fields, es[i].0) && q == path + [KeyPart(es[i].0)];
        BelowKey(path, q, es[i].0);
      }
    }
    forall q: seq<Part>, m | !v.aborted && path <= q && Faults(env, node, Table(es), q[|path|..], m)
      ensures Issue(q, m) in v.issues
    {
      BelowKey(path, q, q[|path|].key);
    }
  }

  lemma BelowKey(path: seq<Part>, q: seq<Part>, k: Key)
    ensures path + [KeyPart(k)] <= q <==> path <= q && |path| < |q| && q[|path|] == KeyPart(k)
    ensures path + [KeyPart(k)] <= q ==> q[|path|..][1..] == q[|path + [KeyPart(k)]|..]
    ensures q == path + [KeyPart(k)] <==> path + [KeyPart(k)] <= q && |q| == |path| + 1
  {
  }

  // ---------------------------------------------------------------------- the check

  lemma {:induction false} CheckMeans(env: Env, node: Node, value: Value, path: seq<Part>, depth: nat)
    requires Depth(node) + depth <= MAX_DEPTH
    ensures Means(env, node, value, path, Checked(env, node, value, path, depth))
    decreases node
  {
    match node
    case Func(f) => FuncVerdictMeans(env, node, value, path);
    case Optional(inner) => OptionalMeans(env, node, value, path, depth);
    case ListNode(item, _, _) => ListCheckMeans(env, node, value, path, depth);
    case ObjectNode(fields, _) => ObjectCheckMeans(env, node, value, path, depth);
    case _ => ScalarMeans(env, node, value, path);
  }

  lemma {:induction false} OptionalMeans(env: Env, node: Node, value: Value, path: seq<Part>, depth: nat)
    requires node.Optional? && Depth(node) + depth <= MAX_DEPTH
    ensures Means(env, node, value, path, Checked(env, node, value, path, depth))
    decreases node, 0
  {
    var v := Checked(env, node, value, path, depth);
    assert depth <= MAX_DEPTH && Depth(node.inner) + depth <= MAX_DEPTH;
    assert v == if OptionalSkips(node.inner, value) then Pass(Nil) else Checked(env, node.inner, value, path, depth);
    hide *;
    WaivedMeans(node.inner, value);
    if Waived(node.inner, value) {
      WaivedPasses(env, node, value, path);
    } else {
      CheckMeans(env, node.inner, value, path, depth);
      UnwaivedMeans(env, node, value, path, v);
    }
  }

  lemma WaivedPasses(env: Env, node: Node, value: Value, path: seq<Part>)
    requires node.Optional? && Waived(node.inner, value)
    ensures Means(env, node, value, path, Pass(Nil))
  {
    hide Waived;
  }

  lemma UnwaivedMeans(env: Env, node: Node, value: Value, path: seq<Part>, v: Verdict)
    requires node.Optional? && !Waived(node.inner, value) && Means(env, node.inner, value, path, v)
    ensures Means(env, node, value, path, v)
  {
    hide Waived;
    forall r ensures Takes(env, node, value, r) <==> Takes(env, node.inner, value, r) { }
    forall rel, m ensures Faults(env, node, value, rel, m) <==> Faults(env, node.inner, value, rel, m) { }
    assert Breaks(env, node, value) <==> Breaks(env, node.inner, value);
    hide Takes, Faults, Breaks;
  }

  lemma {:induction false} ListCheckMeans(env: Env, node: Node, value: Value, path: seq<Part>, depth: nat)
    requires node.ListNode? && Depth(node) + depth <= MAX_DEPTH
    ensures Means(env, node, value, path, Checked(env, node, value, path, depth))
    decreases node, 0
  {
    assert Depth(node.item) + depth + 1 <= MAX_DEPTH;
    hide *;
    if ItemsOf(node, value).Ok? {
      ItemsMean(node, value);
      var items := Elements(value.entries);
      forall i | 0 <= i < |items|
        ensures Means(env, node.item, items[i], path + [ItemPart(i + 1)],
                      ItemVerdict(env, node.item, items, path, depth, i))
      {
        CheckMeans(env, node.item, items[i], path + [ItemPart(i + 1)], depth + 1);
        ItemVerdictIs(env, node.item, items, path, depth, i);
      }
      ListOfItems(env, node, value, path, depth);
    } else {
      ListChecked(env, node, value, path, depth);
      ItemsMean(node, value);
      NotAList(env, node, value, path, ItemsOf(node, value).error);
    }
  }

  lemma ListOfItems(env: Env, node: Node, value: Value, path: seq<Part>, depth: nat)
    requires node.ListNode? && depth <= MAX_DEPTH && ItemsOf(node, value).Ok? && value.Table?
    requires
      var items := Elements(value.entries);
      forall i | 0 <= i < |items| ::
        Means(env, node.item, items[i], path + [ItemPart(i + 1)], ItemVerdict(env, node.item, items, path, depth, i))
    ensures Means(env, node, value, path, Checked(env, node, value, path, depth))
  {
    var v := Checked(env, node, value, path, depth);
    ListChecked(env, node, value, path, depth);
    ItemsMean(node, value);
    hide Checked, CheckedItems, ItemVerdict, Elements, IsArray, FewEnough, FaultsList, ItemsOf, Takes, Faults, Breaks;
    assert ListCame(env, node, value, path, depth, v) by { hide Means; }
    hide ListCame;
    ListTakes(env, node, value, path, depth, v);
    ListFaults(env, node, value, path, depth, v);
    ListBreaks(env, node, value, path, depth, v);
  }

  lemma ItemVerdictIs(env: Env, item: Node, items: seq<Value>, path: seq<Part>, depth: nat, i: nat)
    requires i < |items|
    ensures ItemVerdict(env, item, items, path, depth, i)
         == Checked(env, item, items[i], path + [ItemPart(i + 1)], depth + 1)
  {
    hide Checked;
  }

  lemma NotAList(env: Env, node: Node, value: Value, path: seq<Part>, e: Message)
    requires node.ListNode?
    requires !(value.Table? && IsArray(value.entries) && FewEnough(|value.entries|, node.minItems, node.maxItems))
    requires forall m :: m == e <==> FaultsList(node, value, m)
    ensures Means(env, node, value, path, Fails(path, e))
  {
    hide FaultsList, IsArray, FewEnough;
    forall q ensures path <= q && q[|path|..] == [] <==> q == path { }
  }

  lemma {:induction false} ObjectCheckMeans(env: Env, node: Node, value: Value, path: seq<Part>, depth: nat)
    requires node.ObjectNode? && Depth(node) + depth <= MAX_DEPTH
    ensures Means(env, node, value, path, Checked(env, node, value, path, depth))
    decreases node, 0
  {
    assert DepthOfFields(node.fields) + depth + 1 <= MAX_DEPTH;
    hide *;
    if value.Table? {
      var fields, es := node.fields, value.entries;
      forall i | 0 <= i < |fields|
        ensures Means(env, fields[i].node, FieldGiven(fields[i], es), path + [KeyPart(Name(fields[i].name))],
                      FieldVerdict(env, fields, es, path, depth, i))
      {
        FieldNotDeeper(fields, i);
        FieldVerdictIs(env, fields, es, path, depth, i);
        CheckMeans(env, fields[i].node, FieldGiven(fields[i], es), path + [KeyPart(Name(fields[i].name))], depth + 1);
      }
      ObjectOfFields(env, node, es, path, depth);
    } else {
      ObjectChecked(env, node, value, path, depth);
      NotATable(env, node, value, path);
    }
  }

  lemma ObjectOfFields(env: Env, node: Node, es: seq<(Key, Value)>, path: seq<Part>, depth: nat)
    requires node.ObjectNode? && depth <= MAX_DEPTH
    requires forall i | 0 <= i < |node.fields| ::
      Means(env, node.fields[i].node, FieldGiven(node.fields[i], es), path + [KeyPart(Name(node.fields[i].name))],
            FieldVerdict(env, node.fields, es, path, depth, i))
    ensures Means(env, node, Table(es), path, Checked(env, node, Table(es), path, depth))
  {
    var v := Checked(env, node, Table(es), path, depth);
    ObjectChecked(env, node, Table(es), path, depth);
    hide Checked, CheckedFields, FieldVerdict, FieldGiven, UnknownKeys, Takes, Faults, Breaks;
    assert ObjectCame(env, node, es, path, depth, v) by { hide Means; }
    hide ObjectCame;
    ObjectTakes(env, node, es, path, depth, v);
    ObjectFaults(env, node, es, path, depth, v);
    ObjectBreaks(env, node, es, path, depth, v);
  }

  lemma FieldVerdictIs(env: Env, fields: seq<Field>, es: seq<(Key, Value)>, path: seq<Part>, depth: nat, i: nat)
    requires i < |fields|
    ensures FieldVerdict(env, fields, es, path, depth, i)
         == Checked(env, fields[i].node, FieldGiven(fields[i], es), path + [KeyPart(Name(fields[i].name))], depth + 1)
  {
    HeldMeans(es, Name(fields[i].name));
    GivenMeans(fields[i].node, Held(es, Name(fields[i].name)));
    hide Checked, Held;
  }

  lemma NotATable(env: Env, node: Node, value: Value, path: seq<Part>)
    requires node.ObjectNode? && !value.Table?
    ensures Means(env, node, value, path, Fails(path, if value.Nil? then Required else MustBeObject))
  {
    forall q ensures path <= q && q[|path|..] == [] <==> q == path { }
  }

  /** For every schema the constructors accept and every value: validation gives `r`
      exactly where the schema takes the value to it. */
  lemma ValidatedTakes(env: Env, node: Node, value: Value, r: Value)
    requires Depth(node) <= 64
    ensures Validated(env, node, value).result == Some(r) <==> Takes(env, node, Given(node, value), r)
  {
    GivenMeans(node, value);
    CheckMeans(env, node, Given(node, value), [], 0);
    hide Checked, Takes, Faults, Breaks;
  }

  /** And it reports only what is wrong, each thing where it is wrong, and all of it
      unless it is cut short; it is cut short exactly where something breaks. */
  lemma ValidatedReports(env: Env, node: Node, value: Value)
    requires Depth(node) <= 64
    ensures
      var v := Validated(env, node, value);
      && (v.aborted <==> Breaks(env, node, Given(node, value)))
      && (forall q, m | Issue(q, m) in v.issues :: Faults(env, node, Given(node, value), q, m))
      && (!v.aborted ==> forall q, m | Faults(env, node, Given(node, value), q, m) :: Issue(q, m) in v.issues)
  {
    GivenMeans(node, value);
    CheckMeans(env, node, Given(node, value), [], 0);
    hide Checked, Takes, Faults, Breaks;
    forall q: seq<Part> ensures q[0..] == q { }
  }
}
