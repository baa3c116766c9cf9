/** `lur.validate` as promised: every issue is collected, without a limit, and a
    value comes back exactly when there is none. */
module ValidateSpec {
  import opened Prelude

  type Bytes = seq<byte>

  datatype Number = Fin(r: real) | PosInf | NegInf | NaN

  datatype Key = Name(s: Bytes) | Index(i: nat) | OtherKey(id: nat)

  /** A table is its pairs, in the order `pairs` gives them. `Null` is `lur.null`;
      `Opaque` is anything a schema never looks into. */
  datatype Value =
    | Nil | Null | Bool(b: bool) | Num(n: Number) | Str(s: Bytes) | Table(entries: seq<(Key, Value)>) | Opaque(id: nat)

  datatype Lit = LitStr(text: Bytes) | LitNum(num: Number) | LitBool(flag: bool)

  datatype Field = Field(name: Bytes, node: Node)

  datatype Node =
    | StrNode(pattern: Option<Bytes>, minLen: Option<nat>, maxLen: Option<nat>, strDefault: Option<Bytes>)
    | IntNode(intMin: Option<int>, intMax: Option<int>, intDefault: Option<int>, clamp: bool)
    | NumNode(numMin: Option<real>, numMax: Option<real>, numDefault: Option<real>, clamp: bool)
    | BoolNode(boolDefault: Option<bool>)
    | OneOf(options: seq<Lit>)
    | ListNode(item: Node, minItems: Option<nat>, maxItems: Option<nat>)
    | ObjectNode(fields: seq<Field>, strict: bool)
    | Optional(inner: Node)
    | Func(f: nat)

  datatype Called = Returned(value: Value) | Rejected(text: Bytes) | Fatal

  /** What the checker calls into: validator functions, `string.find` (whether it
      matches; `None` is an error that must keep propagating), the character count
      of a string and the decimal float parser. */
  datatype Env = Env(
    call: (nat, Value) -> Called,
    find: (Bytes, Bytes) -> Option<bool>,
    chars: Bytes -> nat,
    parseFloat: Bytes -> Option<real>)

  datatype Part = KeyPart(key: Key) | ItemPart(index: nat)

  datatype Message =
    | Required | MustBeString | AtLeastChars(n: nat) | AtMostChars(n: nat) | BadFormat | MustBeBoolean | NotAnOption
    | OutOfRange | NotInteger | Below(bound: real) | Above(bound: real) | NotFinite
    | MustBeList | TooFew(n: nat) | TooMany(n: nat) | MustBeObject | UnknownKey | TooDeep | User(text: Bytes)

  datatype Issue = Issue(path: seq<Part>, message: Message)

  const MAX_DEPTH: nat := 64
  const MAX_SAFE_INT: int := 0x20_0000_0000_0000
  const I64_MIN: int := -0x8000_0000_0000_0000
  const I64_MAX: int := 0x7fff_ffff_ffff_ffff

  function Max(a: nat, b: nat): nat { if a > b then a else b }

  /** Nesting depth of a schema. */
  function Depth(node: Node): nat
    decreases node
  {
    1 + match node
      case ListNode(item, _, _) => Depth(item)
      case Optional(inner) => Depth(inner)
      case ObjectNode(fields, _) => DepthOfFields(fields)
      case _ => 0
  }

  function DepthOfFields(fields: seq<Field>): nat
    decreases fields
  {
    if fields == [] then 0 else Max(DepthOfFields(fields[..|fields| - 1]), Depth(fields[|fields| - 1].node))
  }

  function HasDefault(node: Node): bool
    decreases node
  {
    match node
    case StrNode(_, _, _, d) => d.Some?
    case IntNode(_, _, d, _) => d.Some?
    case NumNode(_, _, d, _) => d.Some?
    case BoolNode(d) => d.Some?
    case Optional(inner) => HasDefault(inner)
    case _ => false
  }

  /** Does the value count as not provided? `""` does for scalars read from text. */
  predicate IsMissing(node: Node, value: Value)
    decreases node
  {
    value.Nil? || (value == Str([]) && match node
      case IntNode(_, _, _, _) => true
      case NumNode(_, _, _, _) => true
      case BoolNode(_) => true
      case Optional(inner) => IsMissing(inner, value)
      case _ => false)
  }

  /** `optional` only waives "required"; a default still fills. */
  predicate OptionalSkips(inner: Node, value: Value) {
    (IsMissing(inner, value) && !HasDefault(inner)) || (value.Nil? && inner.Func?)
  }

  function Unwrapped(node: Node): Node
    decreases node
  {
    if node.Optional? then Unwrapped(node.inner) else node
  }

  /** `lur.null` as a field or at the root is absent, except to a function. */
  function AbsentIfNull(node: Node, value: Value): Value {
    if value.Null? && !Unwrapped(node).Func? then Nil else value
  }

  predicate IsBlank(value: Value) { value.Nil? || value == Str([]) }

  // ----------------------------------------------------------------- tables

  function Lookup(es: seq<(Key, Value)>, k: Key): Value {
    if es == [] then Nil else if es[0].0 == k then es[0].1 else Lookup(es[1..], k)
  }

  predicate HasKey(es: seq<(Key, Value)>, k: Key) { exists i :: 0 <= i < |es| && es[i].0 == k }

  predicate IsDense(es: seq<(Key, Value)>) { forall i | 1 <= i <= |es| :: HasKey(es, Index(i)) }

  /** The elements of a dense array; `None` for a table with holes or other keys. */
  function AsList(es: seq<(Key, Value)>): Option<seq<Value>> {
    if IsDense(es) then Some(seq(|es|, i requires 0 <= i < |es| => Lookup(es, Index(i + 1)))) else None
  }

  function ListTable(items: seq<Value>): Value {
    Table(seq(|items|, i requires 0 <= i < |items| => (Index(i + 1), items[i])))
  }

  // ----------------------------------------------------------------- numbers

  predicate IsDigit(c: byte) { 48 <= c <= 57 }

  predicate AllDigits(ds: Bytes) { forall i | 0 <= i < |ds| :: IsDigit(ds[i]) }

  function DigitsValue(ds: Bytes): nat
    requires AllDigits(ds)
  {
    if ds == [] then 0 else
      assert IsDigit(ds[|ds| - 1]);
      10 * DigitsValue(ds[..|ds| - 1]) + (ds[|ds| - 1] as int - 48)
  }

  /** A decimal integer string, `-?[0-9]+`, as the integer it spells. */
  function ParseInt(s: Bytes): Option<int> {
    var negative := s != [] && s[0] == 45;
    var digits := if negative then s[1..] else s;
    if digits == [] || !AllDigits(digits) then None
    else
      var n: int := DigitsValue(digits);
      Some(if negative then -n else n)
  }

  /** The magnitude test on a 64-bit integer: its absolute value wraps, so that of
      the least one is itself. */
  function WrappingAbs(n: int): int { if n == I64_MIN then I64_MIN else if n < 0 then -n else n }

  predicate InRange(n: int) { I64_MIN <= n <= I64_MAX && WrappingAbs(n) <= MAX_SAFE_INT }

  predicate IsInteger(r: real) { r == r.Floor as real }

  predicate SafeInteger(r: real) { IsInteger(r) && -(MAX_SAFE_INT as real) <= r <= MAX_SAFE_INT as real }

  // ---------------------------------------------------------- the full check

  datatype Verdict = Verdict(issues: seq<Issue>, result: Option<Value>, aborted: bool)

  function Pass(v: Value): Verdict { Verdict([], Some(v), false) }
  function Fails(path: seq<Part>, m: Message): Verdict { Verdict([Issue(path, m)], None, false) }

  function DefaultOr(d: Option<Value>, path: seq<Part>): Verdict {
    if d.Some? then Pass(d.value) else Fails(path, Required)
  }

  function LengthIssues(env: Env, s: Bytes, lo: Option<nat>, hi: Option<nat>, path: seq<Part>): seq<Issue> {
    (if lo.Some? && env.chars(s) < lo.value then [Issue(path, AtLeastChars(lo.value))] else [])
    + (if hi.Some? && env.chars(s) > hi.value then [Issue(path, AtMostChars(hi.value))] else [])
  }

  function StrVerdict(env: Env, node: Node, s: Bytes, path: seq<Part>): Verdict
    requires node.StrNode?
  {
    var lens := LengthIssues(env, s, node.minLen, node.maxLen, path);
    var found := if node.pattern.Some? then env.find(s, node.pattern.value) else Some(true);
    if found.None? then Verdict(lens, None, true) else
      var issues := lens + if found.value then [] else [Issue(path, BadFormat)];
      Verdict(issues, if issues == [] then Some(Str(s)) else None, false)
  }

  function ReadInt(value: Value): Result<int, Message> {
    match value
    case Str(s) =>
      (match ParseInt(s)
       case None => Err(NotInteger)
       case Some(n) => if InRange(n) then Ok(n) else Err(OutOfRange))
    case Num(Fin(r)) => if SafeInteger(r) then Ok(r.Floor) else Err(if IsInteger(r) then OutOfRange else NotInteger)
    case _ => Err(NotInteger)
  }

  function ReadNumber(env: Env, value: Value): Option<real> {
    match value
    case Str(s) => env.parseFloat(s)
    case Num(Fin(r)) => Some(r)
    case _ => None
  }

  /** Enforce `min`, then `max`; out of range is clamped or rejected. */
  function Bounded(r: real, lo: Option<real>, hi: Option<real>, clamp: bool): Result<real, Message> {
    if lo.Some? && r < lo.value && !clamp then Err(Below(lo.value)) else
      var raised := if lo.Some? && r < lo.value then lo.value else r;
      if hi.Some? && raised > hi.value && !clamp then Err(Above(hi.value))
      else Ok(if hi.Some? && raised > hi.value then hi.value else raised)
  }

  function RealOf(n: Option<int>): Option<real> { if n.Some? then Some(n.value as real) else None }

  function NumberVerdict(r: Result<real, Message>, path: seq<Part>): Verdict {
    match r case Ok(n) => Pass(Num(Fin(n))) case Err(m) => Fails(path, m)
  }

  predicate LitMatches(lit: Lit, value: Value) {
    match lit
    case LitStr(a) => value == Str(a)
    case LitBool(a) => value == Bool(a)
    case LitNum(a) => value == Num(a) && a != NaN
  }

  function AsBool(value: Value): Option<bool> {
    match value
    case Bool(b) => Some(b)
    case Str(s) =>
      if s == [116, 114, 117, 101] then Some(true)
      else if s == [102, 97, 108, 115, 101] then Some(false)
      else None
    case _ => None
  }

  function ScalarVerdict(env: Env, node: Node, value: Value, path: seq<Part>): Verdict
    requires node.StrNode? || node.IntNode? || node.NumNode? || node.BoolNode? || node.OneOf?
  {
    match node
    case StrNode(_, _, _, d) =>
      (match value
       case Nil => DefaultOr(if d.Some? then Some(Str(d.value)) else None, path)
       case Str(s) => StrVerdict(env, node, s, path)
       case _ => Fails(path, MustBeString))
    case IntNode(lo, hi, d, clamp) =>
      if IsBlank(value) then DefaultOr(if d.Some? then Some(Num(Fin(d.value as real))) else None, path) else
        (match ReadInt(value)
         case Err(m) => Fails(path, m)
         case Ok(n) => NumberVerdict(Bounded(n as real, RealOf(lo), RealOf(hi), clamp), path))
    case NumNode(lo, hi, d, clamp) =>
      if IsBlank(value) then DefaultOr(if d.Some? then Some(Num(Fin(d.value))) else None, path) else
        (match ReadNumber(env, value)
         case None => Fails(path, NotFinite)
         case Some(r) => NumberVerdict(Bounded(r, lo, hi, clamp), path))
    case BoolNode(d) =>
      if IsBlank(value) then DefaultOr(if d.Some? then Some(Bool(d.value)) else None, path) else
        (match AsBool(value) case Some(b) => Pass(Bool(b)) case None => Fails(path, MustBeBoolean))
    case OneOf(options) =>
      if value.Nil? then Fails(path, Required)
      else if exists i :: 0 <= i < |options| && LitMatches(options[i], value) then Pass(value)
      else Fails(path, NotAnOption)
  }

  function FuncVerdict(env: Env, f: nat, value: Value, path: seq<Part>): Verdict {
    match env.call(f, value)
    case Returned(v) => Pass(v)
    case Rejected(text) => Fails(path, User(text))
    case Fatal => Verdict([], None, true)
  }

  /** What the members of a list or object came to: their issues, in order, and the
      non-nil results. */
  datatype Gathered<T> = Gathered(issues: seq<Issue>, out: seq<T>, aborted: bool)

  function Joined<T>(g: Gathered<T>, v: Verdict, kept: seq<T>): Gathered<T> {
    Gathered(g.issues + v.issues, g.out + kept, v.aborted)
  }

  /** A nil result is left out of its list or object. */
  function KeptItem(x: Option<Value>): seq<Value> { if x.Some? && !x.value.Nil? then [x.value] else [] }

  function KeptField(name: Bytes, x: Option<Value>): seq<(Key, Value)> {
    if x.Some? && !x.value.Nil? then [(Name(name), x.value)] else []
  }

  /** Why a value has no items to check, or its items. */
  function ItemsOf(node: Node, value: Value): Result<seq<Value>, Message>
    requires node.ListNode?
  {
    if value.Nil? then Err(Required)
    else if !value.Table? || AsList(value.entries).None? then Err(MustBeList)
    else
      var items := AsList(value.entries).value;
      if node.minItems.Some? && |items| < node.minItems.value then Err(TooFew(node.minItems.value))
      else if node.maxItems.Some? && |items| > node.maxItems.value then Err(TooMany(node.maxItems.value))
      else Ok(items)
  }

  predicate KnownKey(fields: seq<Field>, k: Key) { k.Name? && exists i :: 0 <= i < |fields| && fields[i].name == k.s }

  function UnknownKeys(fields: seq<Field>, es: seq<(Key, Value)>, path: seq<Part>): seq<Issue> {
    if es == [] then [] else
      var last := es[|es| - 1].0;
      UnknownKeys(fields, es[..|es| - 1], path)
      + if KnownKey(fields, last) then [] else [Issue(path + [KeyPart(last)], UnknownKey)]
  }

  /** The unlimited check. */
  function Checked(env: Env, node: Node, value: Value, path: seq<Part>, depth: nat): Verdict
    decreases node, 0, 0
  {
    if depth > MAX_DEPTH then Fails(path, TooDeep) else
      match node
      case Func(f) => FuncVerdict(env, f, value, path)
      case Optional(inner) => if OptionalSkips(inner, value) then Pass(Nil) else Checked(env, inner, value, path, depth)
      case ListNode(item, _, _) =>
        (match ItemsOf(node, value)
         case Err(m) => Fails(path, m)
         case Ok(items) =>
           var g := CheckedItems(env, item, items, path, depth, |items|);
           Verdict(g.issues, if g.issues == [] && !g.aborted then Some(ListTable(g.out)) else None, g.aborted))
      case ObjectNode(fields, strict) =>
        if !value.Table? then Fails(path, if value.Nil? then Required else MustBeObject) else
          var g := CheckedFields(env, fields, value.entries, path, depth, |fields|);
          if g.aborted then Verdict(g.issues, None, true) else
            var issues := g.issues + if strict then UnknownKeys(fields, value.entries, path) else [];
            Verdict(issues, if issues == [] then Some(Table(g.out)) else None, false)
      case _ => ScalarVerdict(env, node, value, path)
  }

  /** The first `k` items of a list. */
  function CheckedItems(env: Env, item: Node, items: seq<Value>, path: seq<Part>, depth: nat, k: nat): Gathered<Value>
    requires k <= |items|
    decreases item, 1, k
  {
    if k == 0 then Gathered([], [], false) else
      var g := CheckedItems(env, item, items, path, depth, k - 1);
      if g.aborted then g else
        var v := Checked(env, item, items[k - 1], path + [ItemPart(k)], depth + 1);
        Joined(g, v, KeptItem(v.result))
  }

  function FieldValue(f: Field, es: seq<(Key, Value)>): Value { AbsentIfNull(f.node, Lookup(es, Name(f.name))) }

  /** The first `k` fields of an object. */
  function CheckedFields(env: Env, fields: seq<Field>, es: seq<(Key, Value)>, path: seq<Part>, depth: nat, k: nat)
    : Gathered<(Key, Value)>
    requires k <= |fields|
    decreases fields, 1, k
  {
    if k == 0 then Gathered([], [], false) else
      var g := CheckedFields(env, fields, es, path, depth, k - 1);
      if g.aborted then g else
        var f := fields[k - 1];
        var v := Checked(env, f.node, FieldValue(f, es), path + [KeyPart(Name(f.name))], depth + 1);
        Joined(g, v, KeptField(f.name, v.result))
  }

  /** Validation of a whole value, as `try` and `parse` run it. */
  function Validated(env: Env, node: Node, value: Value): Verdict {
    Checked(env, node, AbsentIfNull(node, value), [], 0)
  }

  // ---------------------------------------------------------------- laws

  lemma ListChecked(env: Env, node: Node, value: Value, path: seq<Part>, depth: nat)
    requires node.ListNode? && depth <= MAX_DEPTH
    ensures match ItemsOf(node, value)
      case Err(m) => Checked(env, node, value, path, depth) == Fails(path, m)
      case Ok(items) =>
        var g := CheckedItems(env, node.item, items, path, depth, |items|);
        Checked(env, node, value, path, depth)
          == Verdict(g.issues, if g.issues == [] && !g.aborted then Some(ListTable(g.out)) else None, g.aborted)
  {
  }

  lemma ObjectChecked(env: Env, node: Node, value: Value, path: seq<Part>, depth: nat)
    requires node.ObjectNode? && depth <= MAX_DEPTH
    ensures !value.Table? ==>
      Checked(env, node, value, path, depth) == Fails(path, if value.Nil? then Required else MustBeObject)
    ensures value.Table? ==>
      var g := CheckedFields(env, node.fields, value.entries, path, depth, |node.fields|);
      var issues := g.issues + if node.strict then UnknownKeys(node.fields, value.entries, path) else [];
      Checked(env, node, value, path, depth)
        == if g.aborted then Verdict(g.issues, None, true)
           else Verdict(issues, if issues == [] then Some(Table(g.out)) else None, false)
  {
  }

  /** A check that is not aborted returns a value exactly when it has no issue. */
  lemma ValueIffNoIssue(env: Env, node: Node, value: Value, path: seq<Part>, depth: nat)
    ensures
      var v := Checked(env, node, value, path, depth);
      v.result.Some? <==> v.issues == [] && !v.aborted
    decreases node
  {
    if depth <= MAX_DEPTH && node.Optional? && !OptionalSkips(node.inner, value) {
      ValueIffNoIssue(env, node.inner, value, path, depth);
    }
  }

  predicate NoneTooDeep(issues: seq<Issue>) { forall i | 0 <= i < |issues| :: issues[i].message != TooDeep }

  /** Schemas the constructors accept never reach the depth limit. */
  lemma {:induction false} NeverTooDeep(env: Env, node: Node, value: Value, path: seq<Part>, depth: nat)
    requires Depth(node) + depth <= MAX_DEPTH
    ensures NoneTooDeep(Checked(env, node, value, path, depth).issues)
    decreases node, 0, 0
  {
    match node
    case Optional(inner) => NeverTooDeep(env, inner, value, path, depth);
    case ListNode(item, _, _) =>
      if ItemsOf(node, value).Ok? {
        ItemsNeverTooDeep(env, item, ItemsOf(node, value).value, path, depth, |ItemsOf(node, value).value|);
      }
    case ObjectNode(fields, strict) =>
      if value.Table? {
        FieldsNeverTooDeep(env, fields, value.entries, path, depth, |fields|);
        UnknownNotTooDeep(fields, value.entries, path);
      }
    case _ =>
  }

  lemma {:induction false} ItemsNeverTooDeep(env: Env, item: Node, items: seq<Value>, path: seq<Part>, depth: nat,
                                             k: nat)
    requires k <= |items| && Depth(item) + depth + 1 <= MAX_DEPTH
    ensures NoneTooDeep(CheckedItems(env, item, items, path, depth, k).issues)
    decreases item, 1, k
  {
    if k > 0 {
      ItemsNeverTooDeep(env, item, items, path, depth, k - 1);
      NeverTooDeep(env, item, items[k - 1], path + [ItemPart(k)], depth + 1);
    }
  }

  lemma {:induction false} FieldsNeverTooDeep(env: Env, fields: seq<Field>, es: seq<(Key, Value)>, path: seq<Part>,
                                              depth: nat, k: nat)
    requires k <= |fields| && DepthOfFields(fields) + depth + 1 <= MAX_DEPTH
    ensures NoneTooDeep(CheckedFields(env, fields, es, path, depth, k).issues)
    decreases fields, 1, k
  {
    if k > 0 {
      FieldsNeverTooDeep(env, fields, es, path, depth, k - 1);
      FieldNotDeeper(fields, k - 1);
      var f := fields[k - 1];
      NeverTooDeep(env, f.node, FieldValue(f, es), path + [KeyPart(Name(f.name))], depth + 1);
    }
  }

  lemma {:induction false} FieldNotDeeper(fields: seq<Field>, k: nat)
    requires k < |fields|
    ensures Depth(fields[k].node) <= DepthOfFields(fields)
  {
    if k < |fields| - 1 { FieldNotDeeper(fields[..|fields| - 1], k); }
  }

  lemma {:induction false} UnknownNotTooDeep(fields: seq<Field>, es: seq<(Key, Value)>, path: seq<Part>)
    ensures NoneTooDeep(UnknownKeys(fields, es, path))
  {
    if es != [] { UnknownNotTooDeep(fields, es[..|es| - 1], path); }
  }
}
