/** What a schema makes of a value, and what it finds wrong with one, said of the schema
    and the value alone; the check is proved to return the one and to report the other. */
module ValidateMeans {
  import opened Prelude
  import opened ValidateSpec

  // ------------------------------------------------------------ texts and numbers

  function Ascii(t: string): Bytes
    requires forall i | 0 <= i < |t| :: t[i] < 128 as char
  {
    seq(|t|, i requires 0 <= i < |t| => t[i] as int as byte)
  }

  function Pow10(n: nat): nat { if n == 0 then 1 else 10 * Pow10(n - 1) }

  /** What the digits are worth, the first the most. */
  function Worth(ds: Bytes): int {
    if ds == [] then 0 else (ds[0] as int - 48) * Pow10(|ds| - 1) + Worth(ds[1..])
  }

  /** `ds` is `n` in decimal; leading zeros are allowed. */
  predicate SpellsNat(ds: Bytes, n: int) {
    ds != [] && (forall i | 0 <= i < |ds| :: 48 <= ds[i] <= 57) && n == Worth(ds)
  }

  predicate Spells(s: Bytes, n: int) { if Ascii("-") <= s then SpellsNat(s[1..], -n) else SpellsNat(s, n) }

  /** Within 2^53 of zero; or -2^63, where the test on the magnitude wraps. */
  predicate Passes(n: int) {
    -9_007_199_254_740_992 <= n <= 9_007_199_254_740_992 || n == -9_223_372_036_854_775_808
  }

  /** The value stands for the integer `n`, whatever its size. */
  predicate StandsFor(value: Value, n: int) {
    match value
    case Str(s) => Spells(s, n)
    case Num(Fin(r)) => r == n as real
    case _ => false
  }

  /** And `int` reads it. */
  predicate ReadsAs(value: Value, n: int) {
    && StandsFor(value, n)
    && if value.Str? then Passes(n) else -9_007_199_254_740_992 <= n <= 9_007_199_254_740_992
  }

  predicate NumberIs(env: Env, value: Value, r: real) {
    match value
    case Str(s) => env.parseFloat(s) == Some(r)
    case Num(Fin(x)) => r == x
    case _ => false
  }

  predicate IsBelow(r: real, lo: Option<real>) { lo.Some? && r < lo.value }
  predicate IsAbove(r: real, hi: Option<real>) { hi.Some? && hi.value < r }
  predicate Within(r: real, lo: Option<real>, hi: Option<real>) { !IsBelow(r, lo) && !IsAbove(r, hi) }

  /** What the bounds make of `r`: itself if it is within them, and else, with `clamp`,
      the bound it is beyond (the upper one if the lower is above that). */
  predicate Keeps(r: real, lo: Option<real>, hi: Option<real>, clamp: bool, x: real) {
    if Within(r, lo, hi) then x == r
    else clamp && if IsBelow(r, lo) && !IsAbove(lo.value, hi) then x == lo.value else Some(x) == hi
  }

  /** With `clamp` and bounds in order, that is the nearest number within them. */
  lemma ClampIsNearest(r: real, lo: Option<real>, hi: Option<real>, x: real, y: real)
    requires Keeps(r, lo, hi, true, x) && (lo.Some? && hi.Some? ==> lo.value <= hi.value)
    requires Within(y, lo, hi)
    ensures Within(x, lo, hi)
    ensures (if x < r then r - x else x - r) <= (if y < r then r - y else y - r)
  {
  }

  predicate Listed(options: seq<Lit>, value: Value) {
    exists i | 0 <= i < |options| ::
      match options[i]
      case LitStr(text) => value == Str(text)
      case LitNum(num) => value == Num(num) && !num.NaN?
      case LitBool(flag) => value == Bool(flag)
  }

  predicate BoolIs(value: Value, b: bool) {
    value == Bool(b) || value == Str(if b then Ascii("true") else Ascii("false"))
  }

  // ------------------------------------------------------- what counts as given

  predicate Blank(value: Value) { value.Nil? || value == Str([]) }

  /** Scalars read from text, for which `""` counts as not given. */
  predicate FromText(node: Node)
    decreases node
  {
    node.IntNode? || node.NumNode? || node.BoolNode? || (node.Optional? && FromText(node.inner))
  }

  /** What fills in for a missing value. */
  function DefaultOf(node: Node): Option<Value>
    decreases node
  {
    match node
    case StrNode(_, _, _, d) => if d.Some? then Some(Str(d.value)) else None
    case IntNode(_, _, d, _) => if d.Some? then Some(Num(Fin(d.value as real))) else None
    case NumNode(_, _, d, _) => if d.Some? then Some(Num(Fin(d.value))) else None
    case BoolNode(d) => if d.Some? then Some(Bool(d.value)) else None
    case Optional(inner) => DefaultOf(inner)
    case _ => None
  }

  /** `optional` accepts the value as absent. */
  predicate Waived(inner: Node, value: Value) {
    || (value.Nil? && inner.Func?)
    || (DefaultOf(inner).None? && (value.Nil? || (value == Str([]) && FromText(inner))))
  }

  predicate IsFunc(node: Node)
    decreases node
  {
    node.Func? || (node.Optional? && IsFunc(node.inner))
  }

  /** A `null` field or root is nil, except to a function. */
  function Given(node: Node, value: Value): Value { if value == Null && !IsFunc(node) then Nil else value }

  // ----------------------------------------------------------------------- tables

  predicate FirstAt(es: seq<(Key, Value)>, k: Key, i: nat) {
    i < |es| && es[i].0 == k && forall j | 0 <= j < i :: es[j].0 != k
  }

  /** What a table holds under `k`. */
  ghost function Held(es: seq<(Key, Value)>, k: Key): Value {
    if exists i: nat :: FirstAt(es, k, i) then
      var i: nat :| FirstAt(es, k, i);
      es[i].1
    else Nil
  }

  predicate Has(es: seq<(Key, Value)>, k: Key) { exists j | 0 <= j < |es| :: k == es[j].0 }

  /** The keys are 1 to as many as there are. */
  predicate IsArray(es: seq<(Key, Value)>) { forall n | 1 <= n <= |es| :: Has(es, Index(n)) }

  ghost function Elements(es: seq<(Key, Value)>): (r: seq<Value>)
    ensures |r| == |es| && forall i | 0 <= i < |r| :: r[i] == Held(es, Index(i + 1))
  {
    seq(|es|, i requires 0 <= i < |es| => Held(es, Index(i + 1)))
  }

  /** The results that are not nil, in order. */
  function Present(rs: seq<Value>): seq<Value> {
    if rs == [] then [] else
      Present(rs[..|rs| - 1]) + if rs[|rs| - 1].Nil? then [] else [rs[|rs| - 1]]
  }

  function PresentFields(fields: seq<Field>, rs: seq<Value>): seq<(Key, Value)>
    requires |fields| == |rs|
  {
    if rs == [] then [] else
      var n := |rs| - 1;
      PresentFields(fields[..n], rs[..n]) + if rs[n].Nil? then [] else [(Name(fields[n].name), rs[n])]
  }

  predicate IsField(fields: seq<Field>, k: Key) {
    exists i | 0 <= i < |fields| :: k == Name(fields[i].name)
  }

  ghost function FieldGiven(f: Field, es: seq<(Key, Value)>): Value { Given(f.node, Held(es, Name(f.name))) }

  // -------------------------------------------------------- what a schema accepts

  predicate FewEnough(n: nat, lo: Option<nat>, hi: Option<nat>) {
    (lo.Some? ==> lo.value <= n) && (hi.Some? ==> n <= hi.value)
  }

  /** A scalar schema turns `value` into `r`. */
  ghost predicate TakesScalar(env: Env, node: Node, value: Value, r: Value) {
    match node
    case StrNode(pattern, lo, hi, d) =>
      if value.Nil? then DefaultOf(node) == Some(r)
      else value.Str? && r == value && FewEnough(env.chars(value.s), lo, hi)
           && (pattern.Some? ==> env.find(value.s, pattern.value) == Some(true))
    case IntNode(lo, hi, d, clamp) =>
      if Blank(value) then DefaultOf(node) == Some(r)
      else exists n, x :: ReadsAs(value, n) && r == Num(Fin(x))
                       && Keeps(n as real, RealOf(lo), RealOf(hi), clamp, x)
    case NumNode(lo, hi, d, clamp) =>
      if Blank(value) then DefaultOf(node) == Some(r)
      else exists n, x :: NumberIs(env, value, n) && r == Num(Fin(x)) && Keeps(n, lo, hi, clamp, x)
    case BoolNode(d) =>
      if Blank(value) then DefaultOf(node) == Some(r) else r.Bool? && BoolIs(value, r.b)
    case OneOf(options) => !value.Nil? && Listed(options, value) && r == value
    case _ => false
  }

  /** A schema turns `value` into `r`; `Nil` is "absent". */
  ghost predicate Takes(env: Env, node: Node, value: Value, r: Value)
    decreases node
  {
    match node
    case Func(f) => env.call(f, value) == Returned(r)
    case Optional(inner) => if Waived(inner, value) then r == Nil else Takes(env, inner, value, r)
    case ListNode(item, lo, hi) =>
      && value.Table? && IsArray(value.entries) && FewEnough(|value.entries|, lo, hi)
      && exists rs: seq<Value> ::
           && |rs| == |value.entries| && r == ListTable(Present(rs))
           && forall i | 0 <= i < |rs| :: Takes(env, item, Elements(value.entries)[i], rs[i])
    case ObjectNode(fields, strict) =>
      && value.Table?
      && (strict ==> forall i | 0 <= i < |value.entries| :: IsField(fields, value.entries[i].0))
      && exists rs: seq<Value> ::
           && |rs| == |fields| && r == Table(PresentFields(fields, rs))
           && forall i | 0 <= i < |rs| :: Takes(env, fields[i].node, FieldGiven(fields[i], value.entries), rs[i])
    case _ => TakesScalar(env, node, value, r)
  }

  // --------------------------------------------------------- what a schema reports

  /** What is wrong with the value as far as a scalar schema goes. */
  ghost predicate FaultsScalar(env: Env, node: Node, value: Value, m: Message) {
    match node
    case StrNode(pattern, lo, hi, d) =>
      if value.Nil? then d.None? && m == Required
      else if !value.Str? then m == MustBeString
      else
        || (lo.Some? && env.chars(value.s) < lo.value && m == AtLeastChars(lo.value))
        || (hi.Some? && hi.value < env.chars(value.s) && m == AtMostChars(hi.value))
        || (pattern.Some? && env.find(value.s, pattern.value) == Some(false) && m == BadFormat)
    case IntNode(lo, hi, d, clamp) =>
      if Blank(value) then d.None? && m == Required
      else if exists n :: ReadsAs(value, n) then
        exists n :: ReadsAs(value, n) && FaultsBound(n as real, RealOf(lo), RealOf(hi), clamp, m)
      else m == if exists n :: StandsFor(value, n) then OutOfRange else NotInteger
    case NumNode(lo, hi, d, clamp) =>
      if Blank(value) then d.None? && m == Required
      else if exists n :: NumberIs(env, value, n) then
        exists n :: NumberIs(env, value, n) && FaultsBound(n, lo, hi, clamp, m)
      else m == NotFinite
    case BoolNode(d) =>
      if Blank(value) then d.None? && m == Required
      else !BoolIs(value, true) && !BoolIs(value, false) && m == MustBeBoolean
    case OneOf(options) => if value.Nil? then m == Required else !Listed(options, value) && m == NotAnOption
    case _ => false
  }

  /** Without `clamp`, a number beyond a bound is told that bound, the lower one first. */
  predicate FaultsBound(r: real, lo: Option<real>, hi: Option<real>, clamp: bool, m: Message) {
    !clamp && if IsBelow(r, lo) then m == Below(lo.value) else IsAbove(r, hi) && m == Above(hi.value)
  }

  /** What is wrong with a list as a whole. */
  predicate FaultsList(node: Node, value: Value, m: Message)
    requires node.ListNode?
  {
    if value.Nil? then m == Required
    else if !value.Table? || !IsArray(value.entries) then m == MustBeList
    else if node.minItems.Some? && |value.entries| < node.minItems.value then m == TooFew(node.minItems.value)
    else node.maxItems.Some? && node.maxItems.value < |value.entries| && m == TooMany(node.maxItems.value)
  }

  /** Something is wrong with the value `rel` below here, and `m` says what. */
  ghost predicate Faults(env: Env, node: Node, value: Value, rel: seq<Part>, m: Message)
    decreases node
  {
    match node
    case Func(f) => rel == [] && m.User? && env.call(f, value) == Rejected(m.text)
    case Optional(inner) => !Waived(inner, value) && Faults(env, inner, value, rel, m)
    case ListNode(item, lo, hi) =>
      if rel == [] then FaultsList(node, value, m)
      else
        && value.Table? && IsArray(value.entries) && FewEnough(|value.entries|, lo, hi)
        && rel[0].ItemPart? && 1 <= rel[0].index <= |value.entries|
        && Faults(env, item, Elements(value.entries)[rel[0].index - 1], rel[1..], m)
    case ObjectNode(fields, strict) =>
      if !value.Table? then rel == [] && m == if value.Nil? then Required else MustBeObject
      else
        && rel != [] && rel[0].KeyPart?
        && (|| (strict && |rel| == 1 && m == UnknownKey && !IsField(fields, rel[0].key)
                && Has(value.entries, rel[0].key))
            || exists i | 0 <= i < |fields| ::
                 && rel[0].key == Name(fields[i].name)
                 && Faults(env, fields[i].node, FieldGiven(fields[i], value.entries), rel[1..], m))
    case _ => rel == [] && FaultsScalar(env, node, value, m)
  }

  /** Somewhere in the value, a function or a pattern fails in a way that is no issue. */
  ghost predicate Breaks(env: Env, node: Node, value: Value)
    decreases node
  {
    match node
    case Func(f) => env.call(f, value).Fatal?
    case Optional(inner) => !Waived(inner, value) && Breaks(env, inner, value)
    case StrNode(pattern, _, _, _) => value.Str? && pattern.Some? && env.find(value.s, pattern.value).None?
    case ListNode(item, lo, hi) =>
      && value.Table? && IsArray(value.entries) && FewEnough(|value.entries|, lo, hi)
      && exists i | 0 <= i < |value.entries| :: Breaks(env, item, Elements(value.entries)[i])
    case ObjectNode(fields, _) =>
      && value.Table?
      && exists i | 0 <= i < |fields| :: Breaks(env, fields[i].node, FieldGiven(fields[i], value.entries))
    case _ => false
  }

  // ------------------------------------------------------------------ the scalars

  lemma {:induction false} DigitsAreWorth(ds: Bytes)
    requires AllDigits(ds)
    ensures DigitsValue(ds) == Worth(ds)
    decreases |ds|
  {
    if ds != [] {
      var most := ds[..|ds| - 1];
      DigitsAreWorth(most);
      WorthSnoc(most, ds[|ds| - 1]);
      assert ds == most + [ds[|ds| - 1]];
    }
  }

  lemma {:induction false} WorthSnoc(ds: Bytes, d: byte)
    ensures Worth(ds + [d]) == 10 * Worth(ds) + (d as int - 48)
    decreases |ds|
  {
    if ds == [] {
      assert (ds + [d])[1..] == [];
      assert Pow10(0) == 1;
    } else {
      assert (ds + [d])[1..] == ds[1..] + [d];
      WorthSnoc(ds[1..], d);
      var c, p := ds[0] as int - 48, Pow10(|ds| - 1);
      assert Pow10(|ds|) == 10 * p;
      assert c * (10 * p) == 10 * (c * p);
    }
  }

  lemma DigitsSpell(ds: Bytes, n: int)
    ensures SpellsNat(ds, n) <==> ds != [] && AllDigits(ds) && n == DigitsValue(ds)
  {
    if AllDigits(ds) { DigitsAreWorth(ds); }
    hide DigitsValue, Worth;
  }

  lemma ParsedSpells(s: Bytes)
    ensures forall n :: ParseInt(s) == Some(n) <==> Spells(s, n)
  {
    Dash(s);
    forall n ensures ParseInt(s) == Some(n) <==> Spells(s, n) {
      hide SpellsNat, DigitsValue, Ascii;
      if Ascii("-") <= s {
        DigitsSpell(s[1..], -n);
      } else {
        DigitsSpell(s, n);
      }
    }
  }

  lemma Dash(s: Bytes)
    ensures Ascii("-") <= s <==> s != [] && s[0] == 45
  {
    assert Ascii("-") == [45];
  }

  lemma PassesIs(n: int)
    ensures InRange(n) <==> Passes(n)
  {
  }

  lemma WholeIs(r: real)
    ensures IsInteger(r) <==> exists n :: StandsFor(Num(Fin(r)), n)
    ensures forall n | StandsFor(Num(Fin(r)), n) :: r.Floor == n
  {
    if IsInteger(r) { assert StandsFor(Num(Fin(r)), r.Floor); }
  }

  lemma ReadIntMeans(value: Value)
    ensures forall n | ReadsAs(value, n) :: ReadInt(value) == Ok(n)
    ensures ReadInt(value).Ok? ==> ReadsAs(value, ReadInt(value).value)
    ensures ReadInt(value).Err? ==>
      ReadInt(value).error == if exists n :: StandsFor(value, n) then OutOfRange else NotInteger
  {
    match value
    case Str(s) =>
      ParsedSpells(s);
      if ParseInt(s).Some? {
        PassesIs(ParseInt(s).value);
        assert StandsFor(value, ParseInt(s).value);
      }
      hide ParseInt, Spells, InRange, Passes;
    case Num(Fin(r)) =>
      WholeIs(r);
      if IsInteger(r) { assert StandsFor(value, r.Floor); }
    case _ =>
  }

  lemma BoundedMeans(r: real, lo: Option<real>, hi: Option<real>, clamp: bool)
    ensures forall x :: Bounded(r, lo, hi, clamp) == Ok(x) <==> Keeps(r, lo, hi, clamp, x)
    ensures forall m :: Bounded(r, lo, hi, clamp) == Err(m) <==> FaultsBound(r, lo, hi, clamp, m)
  {
  }

  lemma IntMeans(env: Env, node: Node, value: Value, path: seq<Part>)
    requires node.IntNode?
    ensures
      var v := ScalarVerdict(env, node, value, path);
      && !v.aborted && (forall r :: v.result == Some(r) <==> TakesScalar(env, node, value, r))
      && forall q, m :: Issue(q, m) in v.issues <==> q == path && FaultsScalar(env, node, value, m)
  {
    if !Blank(value) {
      ReadIntMeans(value);
      hide ReadInt, ReadsAs, StandsFor;
      if ReadInt(value).Ok? {
        BoundedMeans(ReadInt(value).value as real, RealOf(node.intMin), RealOf(node.intMax), node.clamp);
      }
      hide Bounded, Keeps, FaultsBound;
    }
  }

  lemma NumMeans(env: Env, node: Node, value: Value, path: seq<Part>)
    requires node.NumNode?
    ensures
      var v := ScalarVerdict(env, node, value, path);
      && !v.aborted && (forall r :: v.result == Some(r) <==> TakesScalar(env, node, value, r))
      && forall q, m :: Issue(q, m) in v.issues <==> q == path && FaultsScalar(env, node, value, m)
  {
    if !Blank(value) {
      var n := ReadNumber(env, value);
      assert forall x :: n == Some(x) <==> NumberIs(env, value, x);
      hide ReadNumber, NumberIs;
      if n.Some? { BoundedMeans(n.value, node.numMin, node.numMax, node.clamp); }
      hide Bounded, Keeps, FaultsBound;
    }
  }

  lemma StrMeans(env: Env, node: Node, value: Value, path: seq<Part>)
    requires node.StrNode?
    ensures
      var v := ScalarVerdict(env, node, value, path);
      && (v.aborted <==> Breaks(env, node, value))
      && (forall r :: v.result == Some(r) <==> TakesScalar(env, node, value, r))
      && (forall q, m | Issue(q, m) in v.issues :: q == path && FaultsScalar(env, node, value, m))
      && (!v.aborted ==> forall m | FaultsScalar(env, node, value, m) :: Issue(path, m) in v.issues)
  {
  }

  lemma BoolMeans(env: Env, node: Node, value: Value, path: seq<Part>)
    requires node.BoolNode? || node.OneOf?
    ensures
      var v := ScalarVerdict(env, node, value, path);
      && !v.aborted && (forall r :: v.result == Some(r) <==> TakesScalar(env, node, value, r))
      && forall q, m :: Issue(q, m) in v.issues <==> q == path && FaultsScalar(env, node, value, m)
  {
    assert Ascii("true") == [116, 114, 117, 101] && Ascii("false") == [102, 97, 108, 115, 101];
    hide Ascii;
  }

  // ---------------------------------------------------------- missing and absent

  lemma {:induction false} DefaultsMean(node: Node)
    ensures HasDefault(node) <==> DefaultOf(node).Some?
    decreases node
  {
    if node.Optional? { DefaultsMean(node.inner); }
  }

  lemma {:induction false} MissingMeans(node: Node, value: Value)
    ensures IsMissing(node, value) <==> value.Nil? || (value == Str([]) && FromText(node))
    decreases node
  {
    if node.Optional? { MissingMeans(node.inner, value); }
  }

  lemma WaivedMeans(inner: Node, value: Value)
    ensures OptionalSkips(inner, value) <==> Waived(inner, value)
  {
    DefaultsMean(inner);
    MissingMeans(inner, value);
  }

  lemma {:induction false} FuncMeans(node: Node)
    ensures Unwrapped(node).Func? <==> IsFunc(node)
    decreases node
  {
    if node.Optional? { FuncMeans(node.inner); }
  }

  lemma GivenMeans(node: Node, value: Value)
    ensures AbsentIfNull(node, value) == Given(node, value)
  {
    FuncMeans(node);
  }

  // ------------------------------------------------------------------------ tables

  lemma {:induction false} LookupIsFirst(es: seq<(Key, Value)>, k: Key)
    ensures HasKey(es, k) ==> exists i: nat :: FirstAt(es, k, i) && es[i].1 == Lookup(es, k)
    ensures !HasKey(es, k) ==> Lookup(es, k) == Nil
    decreases |es|
  {
    if es != [] {
      LookupIsFirst(es[1..], k);
      if es[0].0 == k {
        assert FirstAt(es, k, 0);
      } else {
        HasLater(es, k);
        assert Lookup(es, k) == Lookup(es[1..], k);
        hide HasKey, Lookup, FirstAt;
        if HasKey(es, k) {
          var j: nat :| FirstAt(es[1..], k, j) && es[1..][j].1 == Lookup(es[1..], k);
          FirstLater(es, k, j);
        }
      }
    }
  }

  lemma HasLater(es: seq<(Key, Value)>, k: Key)
    requires es != [] && es[0].0 != k
    ensures HasKey(es, k) <==> HasKey(es[1..], k)
  {
    if i :| 0 <= i < |es| && es[i].0 == k { assert es[1..][i - 1].0 == k; }
    if i :| 0 <= i < |es[1..]| && es[1..][i].0 == k { assert es[i + 1].0 == k; }
  }

  lemma FirstLater(es: seq<(Key, Value)>, k: Key, j: nat)
    requires es != [] && es[0].0 != k && FirstAt(es[1..], k, j)
    ensures FirstAt(es, k, j + 1) && es[j + 1] == es[1..][j]
  {
    forall l | 0 <= l < j + 1 ensures es[l].0 != k { assert l > 0 ==> es[l] == es[1..][l - 1]; }
  }

  lemma HeldMeans(es: seq<(Key, Value)>, k: Key)
    ensures Lookup(es, k) == Held(es, k)
  {
    LookupIsFirst(es, k);
    if i: nat :| FirstAt(es, k, i) {
      assert es[i].0 == k && HasKey(es, k);
      var j: nat :| FirstAt(es, k, j) && es[j].1 == Lookup(es, k);
      assert forall n: nat | FirstAt(es, k, n) :: n == j;
    }
  }

  lemma ListMeans(es: seq<(Key, Value)>)
    ensures AsList(es) == if IsArray(es) then Some(Elements(es)) else None
  {
    DenseMeans(es);
    if IsArray(es) {
      hide IsArray, IsDense, Held;
      forall i | 0 <= i < |es| ensures AsList(es).value[i] == Elements(es)[i] { HeldMeans(es, Index(i + 1)); }
      assert AsList(es).value == Elements(es);
    }
  }

  lemma DenseMeans(es: seq<(Key, Value)>)
    ensures IsDense(es) <==> IsArray(es)
  {
    forall n: nat | 1 <= n <= |es| ensures HasKey(es, Index(n)) <==> Has(es, Index(n)) { HasMeans(es, Index(n)); }
    hide HasKey, Has;
  }

  lemma HasMeans(es: seq<(Key, Value)>, k: Key)
    ensures HasKey(es, k) <==> Has(es, k)
  {
  }

  lemma ItemsMean(node: Node, value: Value)
    requires node.ListNode?
    ensures forall m :: ItemsOf(node, value) == Err(m) <==> FaultsList(node, value, m)
    ensures ItemsOf(node, value).Ok? <==>
      value.Table? && IsArray(value.entries) && FewEnough(|value.entries|, node.minItems, node.maxItems)
    ensures ItemsOf(node, value).Ok? ==> ItemsOf(node, value).value == Elements(value.entries)
  {
    if value.Table? { ListMeans(value.entries); }
    hide AsList, IsArray, Elements;
  }
}
