/** All a check has to say, in order: each issue once, item by item and field by field. */
module ValidateSays {
  import opened Prelude
  import opened ValidateSpec
  import opened ValidateLaws
  import opened ValidateMeans
  import opened ValidateWhole

  // -------------------------------------------------------- every issue, in order

  function Flat(parts: seq<seq<Issue>>): seq<Issue> {
    if parts == [] then [] else Flat(parts[..|parts| - 1]) + parts[|parts| - 1]
  }

  function Told(here: bool, path: seq<Part>, m: Message): seq<Issue> { if here then [Issue(path, m)] else [] }

  /** What a text is told: too short, too long, and then of the wrong form. */
  function TextIssues(env: Env, node: Node, s: Bytes, path: seq<Part>): seq<Issue>
    requires node.StrNode?
  {
    var n := env.chars(s);
    (match node.minLen case None => [] case Some(lo) => Told(n < lo, path, AtLeastChars(lo)))
    + (match node.maxLen case None => [] case Some(hi) => Told(hi < n, path, AtMostChars(hi)))
    + Told(node.pattern.Some? && env.find(s, node.pattern.value) == Some(false), path, BadFormat)
  }

  /** For each key of a table that is no field's, that it is unknown. */
  function Strangers(fields: seq<Field>, es: seq<(Key, Value)>, path: seq<Part>): seq<seq<Issue>> {
    seq(|es|, i requires 0 <= i < |es| => Told(!IsField(fields, es[i].0), path + [KeyPart(es[i].0)], UnknownKey))
  }

  /** `issues` are all the schema has to say of the value, in order: of a list item by
      item, of an object field by field and then key by key, of a scalar one thing, or of
      a text up to three. */
  ghost predicate Says(env: Env, node: Node, value: Value, path: seq<Part>, issues: seq<Issue>)
    decreases node
  {
    match node
    case Func(f) =>
      issues == (match env.call(f, value) case Rejected(text) => [Issue(path, User(text))] case _ => [])
    case Optional(inner) => if Waived(inner, value) then issues == [] else Says(env, inner, value, path, issues)
    case ListNode(item, lo, hi) =>
      if value.Table? && IsArray(value.entries) && FewEnough(|value.entries|, lo, hi) then
        exists parts: seq<seq<Issue>> ::
          && |parts| == |value.entries| && issues == Flat(parts)
          && forall i | 0 <= i < |parts| ::
               Says(env, item, Elements(value.entries)[i], path + [ItemPart(i + 1)], parts[i])
      else exists m :: FaultsList(node, value, m) && issues == [Issue(path, m)]
    case ObjectNode(fields, strict) =>
      if !value.Table? then issues == [Issue(path, if value.Nil? then Required else MustBeObject)]
      else exists parts: seq<seq<Issue>> ::
        && |parts| == |fields|
        && issues == Flat(parts) + (if strict then Flat(Strangers(fields, value.entries, path)) else [])
        && forall i | 0 <= i < |parts| ::
             Says(env, fields[i].node, FieldGiven(fields[i], value.entries), path + [KeyPart(Name(fields[i].name))],
                  parts[i])
    case _ =>
      if node.StrNode? && value.Str? then issues == TextIssues(env, node, value.s, path)
      else if exists m :: FaultsScalar(env, node, value, m) then
        exists m :: FaultsScalar(env, node, value, m) && issues == [Issue(path, m)]
      else issues == []
  }

  lemma ScalarSays(env: Env, node: Node, value: Value, path: seq<Part>)
    requires IsScalar(node) && !ScalarVerdict(env, node, value, path).aborted
    ensures Says(env, node, value, path, ScalarVerdict(env, node, value, path).issues)
  {
    var v := ScalarVerdict(env, node, value, path);
    if node.StrNode? && value.Str? {
      TextSays(env, node, value.s, path);
    } else {
      ScalarMeans(env, node, value, path);
      AtMostOne(env, node, value, path);
      hide ScalarVerdict, Says, Means;
      MeansScalarBack(env, node, value, path, v);
      SaysOne(env, node, value, path, v.issues);
    }
  }

  lemma SaysOne(env: Env, node: Node, value: Value, path: seq<Part>, issues: seq<Issue>)
    requires IsScalar(node) && !(node.StrNode? && value.Str?) && |issues| <= 1
    requires forall q, m | Issue(q, m) in issues :: q == path && FaultsScalar(env, node, value, m)
    requires forall m | FaultsScalar(env, node, value, m) :: Issue(path, m) in issues
    ensures Says(env, node, value, path, issues)
  {
    hide FaultsScalar;
    if issues != [] {
      var x := issues[0];
      assert x == Issue(x.path, x.message) && x in issues;
      assert FaultsScalar(env, node, value, x.message) && issues == [Issue(path, x.message)];
    }
  }

  lemma TextSays(env: Env, node: Node, s: Bytes, path: seq<Part>)
    requires node.StrNode? && !ScalarVerdict(env, node, Str(s), path).aborted
    ensures ScalarVerdict(env, node, Str(s), path).issues == TextIssues(env, node, s, path)
  {
  }

  lemma AtMostOne(env: Env, node: Node, value: Value, path: seq<Part>)
    requires IsScalar(node) && !(node.StrNode? && value.Str?)
    ensures |ScalarVerdict(env, node, value, path).issues| <= 1
  {
    hide ParseInt, LitMatches, AsBool, ReadInt, Bounded;
  }

  lemma MeansScalarBack(env: Env, node: Node, value: Value, path: seq<Part>, v: Verdict)
    requires IsScalar(node) && Means(env, node, value, path, v) && !v.aborted
    ensures forall q, m | Issue(q, m) in v.issues :: q == path && FaultsScalar(env, node, value, m)
    ensures forall m | FaultsScalar(env, node, value, m) :: Issue(path, m) in v.issues
  {
    hide FaultsScalar;
    forall q, m | Issue(q, m) in v.issues ensures q == path && FaultsScalar(env, node, value, m) {
      assert Faults(env, node, value, q[|path|..], m);
    }
    forall m | FaultsScalar(env, node, value, m) ensures Issue(path, m) in v.issues {
      assert path[|path|..] == [] && Faults(env, node, value, path[|path|..], m);
    }
  }

  lemma {:induction false} FlatSnoc(parts: seq<seq<Issue>>, last: seq<Issue>)
    ensures Flat(parts + [last]) == Flat(parts) + last
  {
    assert (parts + [last])[..|parts|] == parts;
  }

  // ------------------------------------------------------------------ list and object

  ghost function ItemIssues(env: Env, item: Node, items: seq<Value>, path: seq<Part>, depth: nat, k: nat)
    : (parts: seq<seq<Issue>>)
    requires k <= |items|
    ensures |parts| == k && forall i | 0 <= i < k :: parts[i] == ItemVerdict(env, item, items, path, depth, i).issues
  {
    seq(k, i requires 0 <= i < k => ItemVerdict(env, item, items, path, depth, i).issues)
  }

  lemma {:induction false} ItemsSay(env: Env, item: Node, items: seq<Value>, path: seq<Part>, depth: nat, k: nat)
    requires k <= |items| && !CheckedItems(env, item, items, path, depth, k).aborted
    ensures CheckedItems(env, item, items, path, depth, k).issues == Flat(ItemIssues(env, item, items, path, depth, k))
    decreases k
  {
    hide CheckedItems, ItemVerdict, KeptItem;
    if k > 0 {
      NextItem(env, item, items, path, depth, k);
      ItemsSay(env, item, items, path, depth, k - 1);
      var last := ItemVerdict(env, item, items, path, depth, k - 1).issues;
      FlatSnoc(ItemIssues(env, item, items, path, depth, k - 1), last);
      assert ItemIssues(env, item, items, path, depth, k)
          == ItemIssues(env, item, items, path, depth, k - 1) + [last];
      hide Flat;
    } else {
      NoItems(env, item, items, path, depth);
    }
  }

  ghost function FieldIssues(env: Env, fields: seq<Field>, es: seq<(Key, Value)>, path: seq<Part>, depth: nat, k: nat)
    : (parts: seq<seq<Issue>>)
    requires k <= |fields|
    ensures |parts| == k && forall i | 0 <= i < k :: parts[i] == FieldVerdict(env, fields, es, path, depth, i).issues
  {
    seq(k, i requires 0 <= i < k => FieldVerdict(env, fields, es, path, depth, i).issues)
  }

  lemma {:induction false} FieldsSay(env: Env, fields: seq<Field>, es: seq<(Key, Value)>, path: seq<Part>, depth: nat,
                                     k: nat)
    requires k <= |fields| && !CheckedFields(env, fields, es, path, depth, k).aborted
    ensures CheckedFields(env, fields, es, path, depth, k).issues
         == Flat(FieldIssues(env, fields, es, path, depth, k))
    decreases k
  {
    hide CheckedFields, FieldVerdict, KeptField;
    if k > 0 {
      NextField(env, fields, es, path, depth, k);
      FieldsSay(env, fields, es, path, depth, k - 1);
      FlatSnoc(FieldIssues(env, fields, es, path, depth, k - 1),
               FieldVerdict(env, fields, es, path, depth, k - 1).issues);
      assert FieldIssues(env, fields, es, path, depth, k)
          == FieldIssues(env, fields, es, path, depth, k - 1)
             + [FieldVerdict(env, fields, es, path, depth, k - 1).issues];
      hide Flat;
    } else {
      NoFields(env, fields, es, path, depth);
    }
  }

  lemma {:induction false} UnknownSay(fields: seq<Field>, es: seq<(Key, Value)>, path: seq<Part>)
    ensures UnknownKeys(fields, es, path) == Flat(Strangers(fields, es, path))
    decreases |es|
  {
    if es != [] {
      var most, last := es[..|es| - 1], es[|es| - 1].0;
      UnknownSay(fields, most, path);
      KnownMeans(fields, last);
      var x := Told(!IsField(fields, last), path + [KeyPart(last)], UnknownKey);
      FlatSnoc(Strangers(fields, most, path), x);
      assert Strangers(fields, es, path) == Strangers(fields, most, path) + [x];
      hide KnownKey, IsField, Flat;
    }
  }

  /** A check that is not cut short says exactly that. */
  lemma {:induction false} CheckSays(env: Env, node: Node, value: Value, path: seq<Part>, depth: nat)
    requires Depth(node) + depth <= MAX_DEPTH && !Checked(env, node, value, path, depth).aborted
    ensures Says(env, node, value, path, Checked(env, node, value, path, depth).issues)
    decreases node
  {
    match node
    case Func(f) =>
    case Optional(inner) => OptionalSays(env, node, value, path, depth);
    case ListNode(item, _, _) => ListSays(env, node, value, path, depth);
    case ObjectNode(fields, _) => ObjectSays(env, node, value, path, depth);
    case _ => ScalarSays(env, node, value, path);
  }

  lemma {:induction false} OptionalSays(env: Env, node: Node, value: Value, path: seq<Part>, depth: nat)
    requires node.Optional? && Depth(node) + depth <= MAX_DEPTH && !Checked(env, node, value, path, depth).aborted
    ensures Says(env, node, value, path, Checked(env, node, value, path, depth).issues)
    decreases node, 0
  {
    WaivedMeans(node.inner, value);
    if !OptionalSkips(node.inner, value) { CheckSays(env, node.inner, value, path, depth); }
    hide OptionalSkips, Waived;
  }

  lemma {:induction false} ListSays(env: Env, node: Node, value: Value, path: seq<Part>, depth: nat)
    requires node.ListNode? && Depth(node) + depth <= MAX_DEPTH && !Checked(env, node, value, path, depth).aborted
    ensures Says(env, node, value, path, Checked(env, node, value, path, depth).issues)
    decreases node, 0
  {
    hide Checked, CheckedItems, ItemVerdict, Elements, IsArray, FewEnough, FaultsList, ItemsOf, Says;
    ListChecked(env, node, value, path, depth);
    ItemsMean(node, value);
    if ItemsOf(node, value).Ok? {
      var items := Elements(value.entries);
      ItemsSay(env, node.item, items, path, depth, |items|);
      ItemsGather(env, node.item, items, path, depth, |items|);
      var parts := ItemIssues(env, node.item, items, path, depth, |items|);
      forall i | 0 <= i < |items| ensures Says(env, node.item, items[i], path + [ItemPart(i + 1)], parts[i]) {
        ItemVerdictIs(env, node.item, items, path, depth, i);
        CheckSays(env, node.item, items[i], path + [ItemPart(i + 1)], depth + 1);
      }
      SaysOfItems(env, node, value, path, parts);
    } else {
      SaysNoList(env, node, value, path, ItemsOf(node, value).error);
    }
  }

  lemma SaysOfItems(env: Env, node: Node, value: Value, path: seq<Part>, parts: seq<seq<Issue>>)
    requires node.ListNode? && value.Table? && IsArray(value.entries)
    requires FewEnough(|value.entries|, node.minItems, node.maxItems) && |parts| == |value.entries|
    requires forall i | 0 <= i < |parts| ::
      Says(env, node.item, Elements(value.entries)[i], path + [ItemPart(i + 1)], parts[i])
    ensures Says(env, node, value, path, Flat(parts))
  {
  }

  lemma SaysNoList(env: Env, node: Node, value: Value, path: seq<Part>, e: Message)
    requires node.ListNode?
    requires !(value.Table? && IsArray(value.entries) && FewEnough(|value.entries|, node.minItems, node.maxItems))
    requires FaultsList(node, value, e)
    ensures Says(env, node, value, path, [Issue(path, e)])
  {
  }

  lemma {:induction false} ObjectSays(env: Env, node: Node, value: Value, path: seq<Part>, depth: nat)
    requires node.ObjectNode? && Depth(node) + depth <= MAX_DEPTH && !Checked(env, node, value, path, depth).aborted
    ensures Says(env, node, value, path, Checked(env, node, value, path, depth).issues)
    decreases node, 0
  {
    ObjectChecked(env, node, value, path, depth);
    if value.Table? {
      hide Checked, CheckedFields, FieldVerdict, FieldGiven, UnknownKeys, Says, Flat, Strangers;
      var fields, es := node.fields, value.entries;
      FieldsSay(env, fields, es, path, depth, |fields|);
      FieldsGather(env, fields, es, path, depth, |fields|);
      UnknownSay(fields, es, path);
      var parts := FieldIssues(env, fields, es, path, depth, |fields|);
      forall i | 0 <= i < |fields|
        ensures Says(env, fields[i].node, FieldGiven(fields[i], es), path + [KeyPart(Name(fields[i].name))], parts[i])
      {
        FieldNotDeeper(fields, i);
        FieldVerdictIs(env, fields, es, path, depth, i);
        CheckSays(env, fields[i].node, FieldGiven(fields[i], es), path + [KeyPart(Name(fields[i].name))], depth + 1);
      }
      SaysOfFields(env, node, es, path, parts);
    }
  }

  lemma SaysOfFields(env: Env, node: Node, es: seq<(Key, Value)>, path: seq<Part>, parts: seq<seq<Issue>>)
    requires node.ObjectNode? && |parts| == |node.fields|
    requires forall i | 0 <= i < |parts| ::
      Says(env, node.fields[i].node, FieldGiven(node.fields[i], es), path + [KeyPart(Name(node.fields[i].name))],
           parts[i])
    ensures Says(env, node, Table(es), path,
                 Flat(parts) + if node.strict then Flat(Strangers(node.fields, es, path)) else [])
  {
  }

  /** For every schema the constructors accept and every value where nothing breaks: the
      issues are exactly these, in this order. */
  lemma ValidatedSays(env: Env, node: Node, value: Value)
    requires Depth(node) <= 64 && !Breaks(env, node, Given(node, value))
    ensures Says(env, node, Given(node, value), [], Validated(env, node, value).issues)
  {
    ValidatedReports(env, node, value);
    GivenMeans(node, value);
    hide Checked, Says, Breaks, Faults;
    CheckSays(env, node, Given(node, value), [], 0);
  }
}
