/** Route patterns and the choice among them: a request takes the most specific
    route that matches it, whatever the order of registration. */
module Router {
  import opened Prelude
  import opened Recency

  datatype Seg = Static(text: string) | Param(name: string, optional: bool)
  type Pattern = seq<Seg>
  type Params = seq<(string, seq<byte>)>

  datatype Route = Route(method_: string, pattern: Pattern, id: nat)

  // ------------------------------------------------------------- splitting

  predicate Piece(s: string) { s != "" && '/' !in s }

  /** The text before the first `/`, and what follows it. */
  function UpToSlash(path: string): (r: (string, string))
    ensures '/' !in r.0
    ensures '/' in path ==> path == r.0 + "/" + r.1
    ensures '/' !in path ==> r == (path, "")
  {
    if path == "" then ("", "")
    else if path[0] == '/' then ("", path[1..])
    else
      var (head, tail) := UpToSlash(path[1..]);
      assert path == [path[0]] + path[1..];
      ([path[0]] + head, tail)
  }

  /** `split('/')` without the empty pieces, so `/a/` is `/a`. */
  function Pieces(path: string): (r: seq<string>)
    ensures forall s | s in r :: Piece(s)
    decreases |path|
  {
    if path == "" then [] else
      var (head, tail) := UpToSlash(path);
      (if head == "" then [] else [head]) + Pieces(tail)
  }

  function PathOf(pieces: seq<string>): string {
    if pieces == [] then "" else "/" + pieces[0] + PathOf(pieces[1..])
  }

  lemma {:induction false} SlashEnds(s: string, rest: string)
    requires '/' !in s
    ensures UpToSlash(s + "/" + rest) == (s, rest)
  {
    if s == "" {
      assert (s + "/" + rest)[1..] == rest;
    } else {
      SlashEnds(s[1..], rest);
      assert (s + "/" + rest)[1..] == s[1..] + "/" + rest;
      assert s == [s[0]] + s[1..];
    }
  }

  lemma PieceThen(s: string, rest: string)
    requires Piece(s) && (rest == "" || rest[0] == '/')
    ensures Pieces(s + rest) == [s] + Pieces(rest)
  {
    if rest == "" {
      assert s + rest == s;
    } else {
      assert s + rest == s + "/" + rest[1..];
      SlashEnds(s, rest[1..]);
      assert UpToSlash(rest) == ("", rest[1..]);
      assert Pieces(rest) == [] + Pieces(rest[1..]);
    }
  }

  lemma SlashFirst(rest: string)
    ensures Pieces("/" + rest) == Pieces(rest)
  {
    assert ("/" + rest)[1..] == rest;
    assert Pieces("/" + rest) == [] + Pieces(rest);
  }

  /** A request path made of given pieces splits back into them. */
  lemma {:induction false} PathSplits(pieces: seq<string>)
    requires forall s | s in pieces :: Piece(s)
    ensures Pieces(PathOf(pieces)) == pieces
  {
    hide Pieces, Piece;
    if pieces == [] {
      NoPieces();
    } else {
      assert pieces[0] in pieces;
      PathSplits(pieces[1..]);
      var rest := PathOf(pieces[1..]);
      PieceThen(pieces[0], rest);
      SlashFirst(pieces[0] + rest);
      assert "/" + (pieces[0] + rest) == "/" + pieces[0] + rest;
    }
  }

  lemma NoPieces()
    ensures Pieces("") == []
  {
  }

  // -------------------------------------------------------------- patterns

  /** How one non-empty piece of a pattern reads. */
  function SegOf(s: string): Seg {
    if s == "" || s[0] != ':' then Static(s) else
      var name := s[1..];
      if name != "" && name[|name| - 1] == '?' then Param(name[..|name| - 1], true) else Param(name, false)
  }

  function Segs(path: string): (p: Pattern)
    ensures |p| == |Pieces(path)| && forall i | 0 <= i < |p| :: p[i] == SegOf(Pieces(path)[i])
  {
    seq(|Pieces(path)|, i requires 0 <= i < |Pieces(path)| => SegOf(Pieces(path)[i]))
  }

  predicate Optional(s: Seg) { s.Param? && s.optional }

  predicate Named(p: Pattern) { forall i | 0 <= i < |p| && p[i].Param? :: p[i].name != "" }

  /** Optional params come last. */
  predicate Trailing(p: Pattern) { forall i, j | 0 <= i < j < |p| && Optional(p[i]) :: Optional(p[j]) }

  datatype PatternError = NeedsName | MisplacedOptional

  function Parsed(path: string): Result<Pattern, PatternError> {
    var p := Segs(path);
    if !Named(p) then Err(NeedsName) else if !Trailing(p) then Err(MisplacedOptional) else Ok(p)
  }

  method ParsePattern(path: string) returns (r: Result<Pattern, PatternError>)
    ensures r == Parsed(path)
  {
    var segs := Segs(path);
    if exists i :: 0 <= i < |segs| && segs[i].Param? && segs[i].name == "" {
      return Err(NeedsName);
    }
    hide Segs, Named;
    var seenOptional := false;
    for k := 0 to |segs|
      invariant Trailing(segs[..k])
      invariant seenOptional <==> exists i :: 0 <= i < k && Optional(segs[i])
    {
      TrailingOneMore(segs, k);
      if Optional(segs[k]) {
        seenOptional := true;
      } else if seenOptional {
        return Err(MisplacedOptional);
      }
    }
    assert segs[..|segs|] == segs;
    return Ok(segs);
  }

  lemma TrailingOneMore(p: Pattern, k: nat)
    requires k < |p| && Trailing(p[..k])
    ensures Trailing(p[..k + 1]) <==> (Optional(p[k]) || !exists i :: 0 <= i < k && Optional(p[i]))
    ensures Trailing(p) ==> Trailing(p[..k + 1])
  {
    var q := p[..k + 1];
    forall i | 0 <= i < k ensures q[i] == p[..k][i] == p[i] { }
    assert q[k] == p[k];
  }

  /** The required prefix. */
  function MinLen(p: Pattern): (n: nat)
    ensures n <= |p|
    ensures forall i | 0 <= i < n :: !Optional(p[i])
    ensures n < |p| ==> Optional(p[n])
  {
    if p == [] || Optional(p[0]) then 0 else 1 + MinLen(p[1..])
  }

  predicate SameUpTo(a: Pattern, b: Pattern, n: nat)
    requires n <= |a| && n <= |b|
  {
    forall i | 0 <= i < n :: (a[i].Static? && b[i].Static? && a[i].text == b[i].text) || (a[i].Param? && b[i].Param?)
  }

  predicate Overlaps(a: Pattern, b: Pattern) {
    var lo := if MinLen(a) > MinLen(b) then MinLen(a) else MinLen(b);
    var hi := if |a| < |b| then |a| else |b|;
    exists n | lo <= n <= hi :: SameUpTo(a, b, n)
  }

  /** A request fits a pattern that covers its length and agrees with its static
      segments. */
  predicate Fits(p: Pattern, req: seq<string>) {
    && MinLen(p) <= |req| <= |p|
    && forall i | 0 <= i < |req| && p[i].Static? :: p[i].text == req[i]
  }

  /** The params a request gives a pattern, in order, decoded. */
  function ParamsOf(p: Pattern, req: seq<string>, decode: string -> seq<byte>, n: nat): Params
    requires n <= |p| && n <= |req|
  {
    if n == 0 then [] else
      ParamsOf(p, req, decode, n - 1) + match p[n - 1]
        case Static(_) => []
        case Param(name, _) => [(name, decode(req[n - 1]))]
  }

  function Matched(p: Pattern, req: seq<string>, decode: string -> seq<byte>): Option<Params> {
    if Fits(p, req) then Some(ParamsOf(p, req, decode, |req|)) else None
  }

  method MatchPattern(p: Pattern, req: seq<string>, decode: string -> seq<byte>) returns (r: Option<Params>)
    ensures r == Matched(p, req, decode)
    ensures Trailing(p) ==> forall params :: r == Some(params) <==> Serves(p, req, decode, params)
  {
    hide Serves;
    forall params | Trailing(p) ensures Matched(p, req, decode) == Some(params) <==> Serves(p, req, decode, params) {
      MatchMeans(p, req, decode, params);
    }
    if |req| < MinLen(p) || |req| > |p| {
      return None;
    }
    var params: Params := [];
    for i := 0 to |req|
      invariant forall k | 0 <= k < i && p[k].Static? :: p[k].text == req[k]
      invariant params == ParamsOf(p, req, decode, i)
    {
      match p[i] {
        case Static(text) =>
          if text != req[i] {
            return None;
          }
        case Param(name, _) => params := params + [(name, decode(req[i]))];
      }
    }
    return Some(params);
  }

  // ----------------------------------------------------------- specificity

  datatype Order = Before | Same | After

  /** At the first position where one is static and the other is not, static wins. */
  function ShapeOrder(a: Pattern, b: Pattern): Order {
    if a == [] || b == [] then Same
    else if a[0].Static? && b[0].Param? then Before
    else if a[0].Param? && b[0].Static? then After
    else ShapeOrder(a[1..], b[1..])
  }

  const ANY := "ANY"

  predicate MoreSpecific(a: Route, b: Route) {
    match ShapeOrder(a.pattern, b.pattern)
    case Before => true
    case After => false
    case Same => a.method_ != ANY && b.method_ == ANY
  }

  /** Which of the first `n` segments are static. */
  function Kinds(p: Pattern, n: nat): (r: seq<bool>)
    requires n <= |p|
    ensures |r| == n && forall i | 0 <= i < n :: r[i] == p[i].Static?
  {
    seq(n, i requires 0 <= i < n => p[i].Static?)
  }

  function KindOrder(a: seq<bool>, b: seq<bool>): Order
    requires |a| == |b|
  {
    if a == [] then Same
    else if a[0] && !b[0] then Before
    else if !a[0] && b[0] then After
    else KindOrder(a[1..], b[1..])
  }

  lemma {:induction false} KindsAreOrdered(a: seq<bool>, b: seq<bool>, c: seq<bool>)
    requires |a| == |b| == |c|
    ensures KindOrder(a, b) == Same <==> a == b
    ensures KindOrder(a, b) == Before <==> KindOrder(b, a) == After
    ensures KindOrder(a, b) == Before && KindOrder(b, c) == Before ==> KindOrder(a, c) == Before
  {
    if a != [] {
      KindsAreOrdered(a[1..], b[1..], c[1..]);
      assert a == [a[0]] + a[1..] && b == [b[0]] + b[1..];
    }
  }

  lemma {:induction false} ParamsSameShape(a: Pattern, b: Pattern)
    requires forall i | 0 <= i < |a| :: a[i].Param?
    requires forall i | 0 <= i < |b| :: b[i].Param?
    ensures ShapeOrder(a, b) == Same
  {
    if a != [] && b != [] {
      ParamsSameShape(a[1..], b[1..]);
    }
  }

  /** Past position `n` only params are left, so the first `n` decide. */
  lemma {:induction false} ShapeIsKinds(a: Pattern, b: Pattern, n: nat)
    requires n <= |a| && n <= |b|
    requires forall i | n <= i < |a| :: a[i].Param?
    requires forall i | n <= i < |b| :: b[i].Param?
    ensures ShapeOrder(a, b) == KindOrder(Kinds(a, n), Kinds(b, n))
  {
    if n == 0 {
      ParamsSameShape(a, b);
    } else {
      ShapeIsKinds(a[1..], b[1..], n - 1);
      assert Kinds(a, n)[1..] == Kinds(a[1..], n - 1);
      assert Kinds(b, n)[1..] == Kinds(b[1..], n - 1);
    }
  }

  lemma PastMinLen(p: Pattern, n: nat)
    requires Trailing(p) && MinLen(p) <= n
    ensures forall i | n <= i < |p| :: p[i].Param?
  {
  }

  /** On patterns that a request fits, shape is decided within its length. */
  lemma FittingShape(a: Pattern, b: Pattern, req: seq<string>)
    requires Trailing(a) && Trailing(b) && Fits(a, req) && Fits(b, req)
    ensures ShapeOrder(a, b) == KindOrder(Kinds(a, |req|), Kinds(b, |req|))
  {
    PastMinLen(a, |req|);
    PastMinLen(b, |req|);
    ShapeIsKinds(a, b, |req|);
  }

  lemma SameShapeOverlaps(a: Pattern, b: Pattern, req: seq<string>)
    requires Trailing(a) && Trailing(b) && Fits(a, req) && Fits(b, req) && ShapeOrder(a, b) == Same
    ensures Overlaps(a, b)
  {
    FittingShape(a, b, req);
    KindsAreOrdered(Kinds(a, |req|), Kinds(b, |req|), Kinds(b, |req|));
    forall i | 0 <= i < |req|
      ensures (a[i].Static? && b[i].Static? && a[i].text == b[i].text) || (a[i].Param? && b[i].Param?)
    {
      assert Kinds(a, |req|)[i] == Kinds(b, |req|)[i];
    }
    assert SameUpTo(a, b, |req|);
  }

  // ------------------------------------------ what matching and choosing mean

  /** The places among the first `n` segments that are params, in order. */
  predicate ParamsAt(p: Pattern, n: nat, at: seq<nat>) {
    && n <= |p| && Rising(at)
    && (forall k | 0 <= k < |at| :: at[k] < n && p[at[k]].Param?)
    && forall i | 0 <= i < n && p[i].Param? :: i in at
  }

  /** The pattern serves a request with these params: every piece has a segment, a
      static one being that piece; every segment left over is optional; and each param
      is named with the decoded piece in its place. */
  ghost predicate Serves(p: Pattern, req: seq<string>, decode: string -> seq<byte>, params: Params) {
    && |req| <= |p|
    && (forall i | 0 <= i < |req| && p[i].Static? :: p[i].text == req[i])
    && (forall i | |req| <= i < |p| :: p[i].Param? && p[i].optional)
    && exists at :: ParamsAt(p, |req|, at) && ParamsAre(p, req, decode, at, params)
  }

  ghost predicate ParamsAre(p: Pattern, req: seq<string>, decode: string -> seq<byte>, at: seq<nat>, params: Params) {
    && |params| == |at| && |req| <= |p|
    && forall k | 0 <= k < |at| && at[k] < |req| && p[at[k]].Param? ::
         params[k] == (p[at[k]].name, decode(req[at[k]]))
  }

  /** The params of a prefix are where its params are. */
  lemma {:induction false} ParamsOfMean(p: Pattern, req: seq<string>, decode: string -> seq<byte>, n: nat)
    returns (at: seq<nat>)
    requires n <= |p| && n <= |req| <= |p|
    ensures ParamsAt(p, n, at) && ParamsAre(p, req, decode, at, ParamsOf(p, req, decode, n))
  {
    hide *;
    if n == 0 {
      at := [];
      NoParams(p, req, decode);
    } else {
      var most := ParamsOfMean(p, req, decode, n - 1);
      OnePlaceMore(p, n, most);
      ParamsStep(p, req, decode, n);
      OneParamMore(p, req, decode, n, most, ParamsOf(p, req, decode, n - 1));
      at := if p[n - 1].Param? then most + [n - 1] else most;
    }
  }

  lemma NoParams(p: Pattern, req: seq<string>, decode: string -> seq<byte>)
    requires |req| <= |p|
    ensures ParamsAt(p, 0, []) && ParamsAre(p, req, decode, [], ParamsOf(p, req, decode, 0))
  {
  }

  lemma ParamsStep(p: Pattern, req: seq<string>, decode: string -> seq<byte>, n: nat)
    requires 0 < n <= |p| && n <= |req|
    ensures
      var most := ParamsOf(p, req, decode, n - 1);
      ParamsOf(p, req, decode, n) == if p[n - 1].Param? then most + [(p[n - 1].name, decode(req[n - 1]))] else most
  {
    assert ParamsOf(p, req, decode, n - 1) + [] == ParamsOf(p, req, decode, n - 1);
  }

  lemma OneParamMore(p: Pattern, req: seq<string>, decode: string -> seq<byte>, n: nat, at: seq<nat>, params: Params)
    requires 0 < n <= |p| && n <= |req| <= |p| && ParamsAre(p, req, decode, at, params)
    ensures p[n - 1].Param? ==>
      ParamsAre(p, req, decode, at + [n - 1], params + [(p[n - 1].name, decode(req[n - 1]))])
  {
  }

  lemma OnePlaceMore(p: Pattern, n: nat, at: seq<nat>)
    requires 0 < n <= |p| && ParamsAt(p, n - 1, at)
    ensures ParamsAt(p, n, if p[n - 1].Param? then at + [n - 1] else at)
  {
    if p[n - 1].Param? {
      var more := at + [n - 1];
      assert more[|at|] == n - 1;
      forall i | i in at ensures i in more { }
    }
  }

  lemma SamePlaces(p: Pattern, n: nat, a: seq<nat>, b: seq<nat>)
    requires ParamsAt(p, n, a) && ParamsAt(p, n, b)
    ensures a == b
  {
    forall i | i in a ensures i in b { assert p[i].Param?; }
    forall i | i in b ensures i in a { assert p[i].Param?; }
    RisingUnique(a, b);
  }

  lemma NoPlaces(p: Pattern, n: nat, at: seq<nat>)
    requires ParamsAt(p, n, at)
    ensures at == [] <==> forall i | 0 <= i < n :: p[i].Static?
  {
    if at != [] { assert p[at[0]].Param?; }
  }

  lemma FitsCovers(p: Pattern, req: seq<string>)
    requires Trailing(p)
    ensures Fits(p, req) <==>
      && |req| <= |p|
      && (forall i | 0 <= i < |req| && p[i].Static? :: p[i].text == req[i])
      && forall i | |req| <= i < |p| :: p[i].Param? && p[i].optional
  {
    if |req| < MinLen(p) { assert !Optional(p[|req|]); }
    forall i | MinLen(p) <= i < |p| ensures Optional(p[i]) { assert Optional(p[MinLen(p)]); }
  }

  /** A pattern whose optional params come last gives exactly the params it serves the
      request with, and none iff it does not serve it. */
  lemma MatchMeans(p: Pattern, req: seq<string>, decode: string -> seq<byte>, params: Params)
    requires Trailing(p)
    ensures Matched(p, req, decode) == Some(params) <==> Serves(p, req, decode, params)
  {
    FitsCovers(p, req);
    hide Trailing, Fits, ParamsOf, ParamsAt, ParamsAre;
    if Fits(p, req) {
      var at := ParamsOfMean(p, req, decode, |req|);
      if Serves(p, req, decode, params) {
        var b :| ParamsAt(p, |req|, b) && ParamsAre(p, req, decode, b, params);
        SamePlaces(p, |req|, at, b);
        SameParams(p, req, decode, at, params, ParamsOf(p, req, decode, |req|));
      }
    }
  }

  lemma SameParams(p: Pattern, req: seq<string>, decode: string -> seq<byte>, at: seq<nat>, a: Params, b: Params)
    requires ParamsAt(p, |req|, at) && ParamsAre(p, req, decode, at, a) && ParamsAre(p, req, decode, at, b)
    ensures a == b
  {
  }

  /** At the first place where one pattern has a static segment and the other a param,
      it is `a` that has the static one. */
  predicate StaticFirst(a: Pattern, b: Pattern) {
    exists i | 0 <= i < |a| && i < |b| ::
      && a[i].Static? && b[i].Param?
      && forall j | 0 <= j < i :: a[j].Static? <==> b[j].Static?
  }

  /** As far as both go, static segments stand against static ones. */
  predicate SameKinds(a: Pattern, b: Pattern) {
    forall i | 0 <= i < |a| && i < |b| :: a[i].Static? <==> b[i].Static?
  }

  lemma {:induction false} ShapeMeans(a: Pattern, b: Pattern)
    ensures ShapeOrder(a, b) == Before <==> StaticFirst(a, b)
    ensures ShapeOrder(a, b) == After <==> StaticFirst(b, a)
    ensures ShapeOrder(a, b) == Same <==> SameKinds(a, b)
    decreases |a|
  {
    if a != [] && b != [] {
      if a[0].Static? == b[0].Static? {
        ShapeMeans(a[1..], b[1..]);
        StaticLater(a, b);
        StaticLater(b, a);
        assert SameKinds(a, b) <==> SameKinds(a[1..], b[1..]) by {
          if SameKinds(a, b) {
            forall i | 0 <= i < |a[1..]| && i < |b[1..]| ensures a[1..][i].Static? <==> b[1..][i].Static? {
              assert a[1..][i] == a[i + 1] && b[1..][i] == b[i + 1];
            }
          } else {
            var i :| 0 <= i < |a| && i < |b| && !(a[i].Static? <==> b[i].Static?);
            assert a[1..][i - 1] == a[i] && b[1..][i - 1] == b[i];
          }
        }
      } else {
        hide ShapeOrder;
      }
    }
  }

  lemma StaticLater(a: Pattern, b: Pattern)
    requires a != [] && b != [] && a[0].Static? == b[0].Static?
    ensures StaticFirst(a, b) <==> StaticFirst(a[1..], b[1..])
  {
    if i :| 0 <= i < |a| && i < |b| && a[i].Static? && b[i].Param?
            && forall j | 0 <= j < i :: a[j].Static? <==> b[j].Static? {
      assert a[1..][i - 1] == a[i] && b[1..][i - 1] == b[i];
      forall j | 0 <= j < i - 1 ensures a[1..][j].Static? <==> b[1..][j].Static? {
        assert a[1..][j] == a[j + 1] && b[1..][j] == b[j + 1];
      }
    }
    if i :| 0 <= i < |a[1..]| && i < |b[1..]| && a[1..][i].Static? && b[1..][i].Param?
            && forall j | 0 <= j < i :: a[1..][j].Static? <==> b[1..][j].Static? {
      assert a[1..][i] == a[i + 1] && b[1..][i] == b[i + 1];
      forall j | 0 <= j < i + 1 ensures a[j].Static? <==> b[j].Static? {
        if j > 0 { assert a[1..][j - 1] == a[j] && b[1..][j - 1] == b[j]; }
      }
    }
  }

  /** Route `a` goes before `b`: a static segment stands first where theirs differ; or
      they do not differ, and `a` names a method where `b` takes any. */
  predicate Outranks(a: Route, b: Route) {
    StaticFirst(a.pattern, b.pattern) || (SameKinds(a.pattern, b.pattern) && a.method_ != "ANY" && b.method_ == "ANY")
  }

  lemma MoreSpecificMeans(a: Route, b: Route)
    ensures MoreSpecific(a, b) <==> Outranks(a, b)
  {
    ShapeMeans(a.pattern, b.pattern);
    hide ShapeOrder, StaticFirst, SameKinds;
  }

  // ------------------------------------------------- what `overlaps` means

  /** Pieces that fit both patterns over their first `n` segments. */
  function Probe(a: Pattern, b: Pattern, n: nat): (r: seq<string>)
    requires n <= |a| && n <= |b|
    ensures |r| == n
    ensures forall i | 0 <= i < n :: r[i] == if a[i].Static? then a[i].text else if b[i].Static? then b[i].text else "x"
  {
    seq(n, i requires 0 <= i < n => if a[i].Static? then a[i].text else if b[i].Static? then b[i].text else "x")
  }

  lemma StaticsArePieces(path: string)
    ensures forall i | 0 <= i < |Segs(path)| && Segs(path)[i].Static? :: Piece(Segs(path)[i].text)
  {
    forall i | 0 <= i < |Segs(path)| && Segs(path)[i].Static? ensures Piece(Segs(path)[i].text) {
      assert Pieces(path)[i] in Pieces(path);
    }
  }

  /** Some request path is served by both patterns. */
  ghost predicate Share(a: Pattern, b: Pattern, decode: string -> seq<byte>) {
    exists path, ps, qs :: Serves(a, Pieces(path), decode, ps) && Serves(b, Pieces(path), decode, qs)
  }

  lemma SharedBy(a: Pattern, b: Pattern, decode: string -> seq<byte>, path: string, ps: Params, qs: Params)
    requires Serves(a, Pieces(path), decode, ps) && Serves(b, Pieces(path), decode, qs)
    ensures Share(a, b, decode)
  {
    hide Serves, Pieces;
  }

  lemma SharedFits(a: Pattern, b: Pattern, decode: string -> seq<byte>)
    requires Trailing(a) && Trailing(b)
    ensures Share(a, b, decode) <==> exists path :: Fits(a, Pieces(path)) && Fits(b, Pieces(path))
  {
    hide Trailing, Fits, Pieces, Serves, ParamsOf, ParamsAt, ParamsAre;
    if path, ps, qs :| Serves(a, Pieces(path), decode, ps) && Serves(b, Pieces(path), decode, qs) {
      MatchMeans(a, Pieces(path), decode, ps);
      MatchMeans(b, Pieces(path), decode, qs);
    }
    if path :| Fits(a, Pieces(path)) && Fits(b, Pieces(path)) {
      var req := Pieces(path);
      var ps, qs := Matched(a, req, decode).value, Matched(b, req, decode).value;
      MatchMeans(a, req, decode, ps);
      MatchMeans(b, req, decode, qs);
      SharedBy(a, b, decode, path, ps, qs);
    }
  }

  /** Two patterns overlap exactly when some request path is served by both and static
      segments stand against static ones as far as both go. */
  lemma OverlapsMeans(x: string, y: string, decode: string -> seq<byte>)
    requires Parsed(x).Ok? && Parsed(y).Ok?
    ensures Overlaps(Segs(x), Segs(y)) <==> Share(Segs(x), Segs(y), decode) && SameKinds(Segs(x), Segs(y))
  {
    var a, b := Segs(x), Segs(y);
    assert Trailing(a) && Trailing(b);
    ShapeMeans(a, b);
    hide *;
    SharedFits(a, b, decode);
    OverlapsFits(x, y);
  }

  lemma OverlapsFits(x: string, y: string)
    requires Parsed(x).Ok? && Parsed(y).Ok?
    ensures Overlaps(Segs(x), Segs(y)) <==>
      && (exists path :: Fits(Segs(x), Pieces(path)) && Fits(Segs(y), Pieces(path)))
      && ShapeOrder(Segs(x), Segs(y)) == Same
  {
    var a, b := Segs(x), Segs(y);
    StaticsArePieces(x);
    StaticsArePieces(y);
    hide Segs, Pieces, Fits, ShapeOrder, Overlaps;
    assert Trailing(a) && Trailing(b);
    if path :| Fits(a, Pieces(path)) && Fits(b, Pieces(path)) && ShapeOrder(a, b) == Same {
      SameShapeOverlaps(a, b, Pieces(path));
    }
    if Overlaps(a, b) {
      var req := ProbeFits(a, b);
      PathSplits(req);
      assert Fits(a, Pieces(PathOf(req)));
    }
  }

  lemma ProbeFits(a: Pattern, b: Pattern) returns (req: seq<string>)
    requires Trailing(a) && Trailing(b) && Overlaps(a, b)
    requires forall i | 0 <= i < |a| && a[i].Static? :: Piece(a[i].text)
    requires forall i | 0 <= i < |b| && b[i].Static? :: Piece(b[i].text)
    ensures Fits(a, req) && Fits(b, req) && ShapeOrder(a, b) == Same
    ensures forall s | s in req :: Piece(s)
  {
    hide Trailing;
    var n: nat :| MinLen(a) <= n && MinLen(b) <= n && n <= |a| && n <= |b| && SameUpTo(a, b, n);
    req := Probe(a, b, n);
    FittingShape(a, b, req);
    KindsAreOrdered(Kinds(a, n), Kinds(b, n), Kinds(b, n));
    hide ShapeOrder, KindOrder;
    assert Kinds(a, n) == Kinds(b, n);
  }

  /** `/u/:id` and `/u/new` match a request together and yet do not overlap. */
  lemma SharingIsNotOverlapping()
    ensures
      var a, b := [Static("u"), Param("id", false)], [Static("u"), Static("new")];
      Fits(a, ["u", "new"]) && Fits(b, ["u", "new"]) && !Overlaps(a, b)
  {
    var a, b := [Static("u"), Param("id", false)], [Static("u"), Static("new")];
    assert MinLen(a[1..]) == 1 + MinLen(a[1..][1..]) && MinLen(b[1..]) == 1 + MinLen(b[1..][1..]);
    forall n: nat | n == 2 ensures !SameUpTo(a, b, n) {
      assert a[1].Param? && b[1].Static?;
    }
  }

  // ------------------------------------------------------------ the router

  type Registration = (string, string)

  predicate Clash(r: Registration, s: Registration) { r.0 == s.0 && Overlaps(Segs(r.1), Segs(s.1)) }

  lemma OverlapsSymmetric(a: Pattern, b: Pattern)
    ensures Overlaps(a, b) == Overlaps(b, a)
  {
    if n: nat :| MinLen(a) <= n && MinLen(b) <= n && n <= |a| && n <= |b| && SameUpTo(a, b, n) {
      assert SameUpTo(b, a, n);
    }
    if n: nat :| MinLen(a) <= n && MinLen(b) <= n && n <= |a| && n <= |b| && SameUpTo(b, a, n) {
      assert SameUpTo(a, b, n);
    }
  }

  /** A pattern overlaps itself. */
  lemma OverlapsSelf(a: Pattern)
    ensures Overlaps(a, a)
  {
    assert SameUpTo(a, a, |a|);
  }

  /** Every pattern parses and no two routes of a method overlap. */
  predicate Acceptable(regs: seq<Registration>) {
    && (forall i | 0 <= i < |regs| :: Parsed(regs[i].1).Ok?)
    && forall i, j | 0 <= i < j < |regs| :: !Clash(regs[i], regs[j])
  }

  /** The routes of a registration list, each with its place in it. */
  ghost predicate Registered(routes: seq<Route>, regs: seq<Registration>) {
    && |routes| == |regs|
    && forall i | 0 <= i < |regs| :: routes[i] == Route(regs[i].0, Segs(regs[i].1), i)
  }

  datatype BuildError = BadPattern(at: nat, why: PatternError) | Duplicate(at: nat)

  /** Builds exactly the acceptable lists; an error names the first registration
      that cannot be added to those before it. */
  method Build(regs: seq<Registration>) returns (r: Result<seq<Route>, BuildError>)
    ensures r.Ok? <==> Acceptable(regs)
    ensures r.Ok? ==> Registered(r.value, regs)
    ensures r.Err? ==>
      var i := r.error.at;
      && i < |regs| && Acceptable(regs[..i]) && !Acceptable(regs[..i + 1])
      && (r.error.BadPattern? ==> Parsed(regs[i].1) == Err(r.error.why))
      && (r.error.Duplicate? ==> Parsed(regs[i].1).Ok? && exists j :: 0 <= j < i && Clash(regs[j], regs[i]))
  {
    hide Overlaps, Segs, Named, Trailing, Acceptable, Registered, Parsed, Clash;
    var routes: seq<Route> := [];
    NothingRegistered();
    assert regs[..0] == [];
    for id := 0 to |regs|
      invariant |routes| == id && Acceptable(regs[..id]) && Registered(routes, regs[..id])
    {
      var (verb, path) := regs[id];
      var parsed := ParsePattern(path);
      if parsed.Err? {
        BadPatternRefused(regs, id);
        return Err(BadPattern(id, parsed.error));
      }
      ParsedIs(path);
      var clash := exists k ::
        0 <= k < |routes| && routes[k].method_ == verb && Overlaps(routes[k].pattern, parsed.value);
      if clash {
        ghost var k :| 0 <= k < |routes| && routes[k].method_ == verb && Overlaps(routes[k].pattern, parsed.value);
        ClashRefused(regs, routes, k, id);
        return Err(Duplicate(id));
      }
      AcceptsOneMore(regs, id, routes, parsed.value);
      routes := routes + [Route(verb, parsed.value, id)];
    }
    assert regs[..|regs|] == regs;
    return Ok(routes);
  }

  lemma NothingRegistered()
    ensures Acceptable([]) && Registered([], [])
  {
  }

  lemma ParsedIs(path: string)
    ensures Parsed(path).Ok? ==> Parsed(path).value == Segs(path)
  {
    hide Segs, Named, Trailing;
  }

  lemma BadPatternRefused(regs: seq<Registration>, id: nat)
    requires id < |regs| && Parsed(regs[id].1).Err?
    ensures !Acceptable(regs[..id + 1]) && !Acceptable(regs)
  {
    hide Parsed, Clash;
    assert regs[..id + 1][id] == regs[id];
  }

  lemma ClashRefused(regs: seq<Registration>, routes: seq<Route>, k: nat, id: nat)
    requires k < id < |regs| && Registered(routes, regs[..id])
    requires |routes| == id && routes[k].method_ == regs[id].0 && Overlaps(routes[k].pattern, Segs(regs[id].1))
    ensures Clash(regs[k], regs[id]) && !Acceptable(regs[..id + 1]) && !Acceptable(regs)
  {
    hide Parsed, Overlaps, Segs;
    assert regs[..id][k] == regs[k];
    assert Clash(regs[k], regs[id]);
    assert regs[..id + 1][k] == regs[k] && regs[..id + 1][id] == regs[id];
  }

  lemma AcceptsOneMore(regs: seq<Registration>, id: nat, routes: seq<Route>, p: Pattern)
    requires id < |regs| && Acceptable(regs[..id]) && Registered(routes, regs[..id])
    requires Parsed(regs[id].1) == Ok(p)
    requires forall k | 0 <= k < |routes| :: !(routes[k].method_ == regs[id].0 && Overlaps(routes[k].pattern, p))
    ensures Acceptable(regs[..id + 1]) && Registered(routes + [Route(regs[id].0, p, id)], regs[..id + 1])
  {
    hide Overlaps, Segs, Named, Trailing;
    var more := regs[..id + 1];
    forall i, j | 0 <= i < j < |more| ensures !Clash(more[i], more[j]) {
      assert i < id ==> regs[..id][i] == regs[i];
      assert j < id ==> regs[..id][j] == regs[j];
      assert routes[i].method_ == regs[i].0;
    }
    forall i | 0 <= i < |more| ensures Parsed(more[i].1).Ok? {
      assert i < id ==> regs[..id][i] == regs[i];
    }
  }

  /** Does route `r` answer this request? */
  predicate Answers(r: Route, verb: string, req: seq<string>) {
    (r.method_ == ANY || r.method_ == verb) && Fits(r.pattern, req)
  }

  ghost predicate Accepted(routes: seq<Route>, regs: seq<Registration>) {
    Acceptable(regs) && Registered(routes, regs)
  }

  lemma AcceptedPair(routes: seq<Route>, regs: seq<Registration>, i: nat, j: nat)
    requires Accepted(routes, regs) && i < |routes| && j < |routes| && i != j
    ensures Trailing(routes[i].pattern) && Trailing(routes[j].pattern)
    ensures routes[i].method_ == routes[j].method_ ==> !Overlaps(routes[i].pattern, routes[j].pattern)
  {
    hide Overlaps, Segs;
    OverlapsSymmetric(routes[i].pattern, routes[j].pattern);
    assert Parsed(regs[i].1).Ok? && Parsed(regs[j].1).Ok?;
    if i < j { assert !Clash(regs[i], regs[j]); } else { assert !Clash(regs[j], regs[i]); }
  }

  /** Among the routes answering one request, any two are ordered. */
  lemma SpecificityIsTotal(routes: seq<Route>, regs: seq<Registration>, verb: string, req: seq<string>, i: nat, j: nat)
    requires Accepted(routes, regs) && i < |routes| && j < |routes| && i != j
    requires Answers(routes[i], verb, req) && Answers(routes[j], verb, req)
    ensures MoreSpecific(routes[i], routes[j]) <==> !MoreSpecific(routes[j], routes[i])
  {
    var a, b := routes[i], routes[j];
    AcceptedPair(routes, regs, i, j);
    FittingShape(a.pattern, b.pattern, req);
    FittingShape(b.pattern, a.pattern, req);
    KindsAreOrdered(Kinds(a.pattern, |req|), Kinds(b.pattern, |req|), Kinds(b.pattern, |req|));
    KindsAreOrdered(Kinds(b.pattern, |req|), Kinds(a.pattern, |req|), Kinds(a.pattern, |req|));
    hide Overlaps, Trailing, Fits;
    if ShapeOrder(a.pattern, b.pattern) == Same && a.method_ == b.method_ {
      SameShapeOverlaps(a.pattern, b.pattern, req);
    }
  }

  /** The order is transitive on the routes that fit one request. */
  lemma SpecificityIsTransitive(a: Route, b: Route, c: Route, req: seq<string>)
    requires Trailing(a.pattern) && Trailing(b.pattern) && Trailing(c.pattern)
    requires Fits(a.pattern, req) && Fits(b.pattern, req) && Fits(c.pattern, req)
    requires MoreSpecific(a, b) && MoreSpecific(b, c)
    ensures MoreSpecific(a, c) && a != c
  {
    FittingShape(a.pattern, b.pattern, req);
    FittingShape(b.pattern, c.pattern, req);
    FittingShape(a.pattern, c.pattern, req);
    var n := |req|;
    var ka, kb, kc := Kinds(a.pattern, n), Kinds(b.pattern, n), Kinds(c.pattern, n);
    hide Fits, Trailing, ShapeOrder, Kinds, KindOrder;
    KindsAreOrdered(ka, kb, kc);
    KindsAreOrdered(ka, kc, kc);
    KindsAreOrdered(kb, kc, kc);
  }

  /** Route `w` answers and is more specific than every other that does. */
  ghost predicate Best(routes: seq<Route>, verb: string, req: seq<string>, n: nat, w: Option<nat>)
    requires n <= |routes|
  {
    match w
    case None => forall j | 0 <= j < n :: !Answers(routes[j], verb, req)
    case Some(i) =>
      && i < n && Answers(routes[i], verb, req)
      && forall j | 0 <= j < n && j != i && Answers(routes[j], verb, req) :: MoreSpecific(routes[i], routes[j])
  }

  lemma BestOfOneMore(routes: seq<Route>, regs: seq<Registration>, verb: string, req: seq<string>, n: nat,
                      w: Option<nat>)
    requires Accepted(routes, regs) && n < |routes| && Best(routes, verb, req, n, w)
    requires w.Some? ==> w.value < |routes|
    requires Answers(routes[n], verb, req)
    ensures Best(routes, verb, req, n + 1, if w.None? || MoreSpecific(routes[n], routes[w.value]) then Some(n) else w)
  {
    if w.Some? {
      var i := w.value;
      SpecificityIsTotal(routes, regs, verb, req, n, i);
      forall j | 0 <= j < n && j != i && Answers(routes[j], verb, req) && MoreSpecific(routes[n], routes[i])
        ensures MoreSpecific(routes[n], routes[j])
      {
        AcceptedPair(routes, regs, n, i);
        AcceptedPair(routes, regs, n, j);
        hide Accepted, MoreSpecific, Trailing, Fits;
        AnswersFits(routes[n], verb, req);
        AnswersFits(routes[i], verb, req);
        AnswersFits(routes[j], verb, req);
        SpecificityIsTransitive(routes[n], routes[i], routes[j], req);
      }
    }
  }

  lemma AnswersFits(r: Route, verb: string, req: seq<string>)
    requires Answers(r, verb, req)
    ensures Fits(r.pattern, req)
  {
  }

  /** `r` is the most specific route that answers, with the params it takes from the
      request; or nothing answers. */
  ghost predicate Answer(routes: seq<Route>, verb: string, req: seq<string>, decode: string -> seq<byte>,
                         r: Option<(nat, Params)>)
  {
    && Best(routes, verb, req, |routes|, if r.Some? then Some(r.value.0) else None)
    && (r.Some? ==> r.value.0 < |routes| && Matched(routes[r.value.0].pattern, req, decode) == Some(r.value.1))
  }

  /** Does route `r` take a request of this method and path? */
  ghost predicate Hit(r: Route, verb: string, req: seq<string>, decode: string -> seq<byte>) {
    (r.method_ == "ANY" || r.method_ == verb) && exists ps :: Serves(r.pattern, req, decode, ps)
  }

  /** `r` is the route that takes the request and outranks every other that does, with
      the params it serves it with; or none takes it. */
  ghost predicate Chosen(routes: seq<Route>, verb: string, req: seq<string>, decode: string -> seq<byte>,
                         r: Option<(nat, Params)>)
  {
    match r
    case None => forall j | 0 <= j < |routes| :: !Hit(routes[j], verb, req, decode)
    case Some((i, params)) =>
      && i < |routes| && Hit(routes[i], verb, req, decode) && Serves(routes[i].pattern, req, decode, params)
      && forall j | 0 <= j < |routes| && j != i && Hit(routes[j], verb, req, decode) :: Outranks(routes[i], routes[j])
  }

  lemma AnswerIsChosen(routes: seq<Route>, regs: seq<Registration>, verb: string, req: seq<string>,
                       decode: string -> seq<byte>, r: Option<(nat, Params)>)
    requires Accepted(routes, regs) && Answer(routes, verb, req, decode, r)
    ensures Chosen(routes, verb, req, decode, r)
  {
    forall j | 0 <= j < |routes| ensures Hit(routes[j], verb, req, decode) <==> Answers(routes[j], verb, req) {
      assert Trailing(routes[j].pattern) by { AcceptedOne(routes, regs, j); }
      hide Accepted, Fits, Trailing, Serves, ParamsOf;
      if ps :| Serves(routes[j].pattern, req, decode, ps) { MatchMeans(routes[j].pattern, req, decode, ps); }
      if Fits(routes[j].pattern, req) {
        MatchMeans(routes[j].pattern, req, decode, Matched(routes[j].pattern, req, decode).value);
      }
    }
    if r.Some? {
      AcceptedOne(routes, regs, r.value.0);
      MatchMeans(routes[r.value.0].pattern, req, decode, r.value.1);
    }
    hide Accepted, Answers, Hit, Serves, MoreSpecific, Outranks, Matched;
    forall i, j | 0 <= i < |routes| && 0 <= j < |routes|
      ensures MoreSpecific(routes[i], routes[j]) <==> Outranks(routes[i], routes[j])
    {
      MoreSpecificMeans(routes[i], routes[j]);
    }
  }

  lemma AcceptedOne(routes: seq<Route>, regs: seq<Registration>, i: nat)
    requires Accepted(routes, regs) && i < |routes|
    ensures Trailing(routes[i].pattern)
  {
    hide Overlaps, Segs;
    assert Parsed(regs[i].1).Ok?;
  }

  /** A route that spells the request out, under its own method, is the one chosen. */
  lemma LiteralWins(routes: seq<Route>, verb: string, req: seq<string>, decode: string -> seq<byte>, i: nat,
                    r: Option<(nat, Params)>)
    requires i < |routes| && Chosen(routes, verb, req, decode, r)
    requires routes[i].method_ == verb && |routes[i].pattern| == |req|
    requires forall k | 0 <= k < |req| :: routes[i].pattern[k] == Static(req[k])
    ensures r == Some((i, []))
  {
    var p := routes[i].pattern;
    assert ParamsAt(p, |req|, []) && ParamsAre(p, req, decode, [], []);
    assert Serves(p, req, decode, []);
    assert Hit(routes[i], verb, req, decode);
    hide ParamsAt, Outranks;
    forall j | 0 <= j < |routes| && Hit(routes[j], verb, req, decode) ensures !Outranks(routes[j], routes[i]) {
      NotOutranked(routes[j], routes[i]);
    }
    assert r.value.0 == i;
    var at :| ParamsAt(p, |req|, at) && ParamsAre(p, req, decode, at, r.value.1);
    NoPlaces(p, |req|, at);
  }

  /** Nothing that takes requests of its method outranks an all-static route. */
  lemma NotOutranked(a: Route, b: Route)
    requires forall k | 0 <= k < |b.pattern| :: b.pattern[k].Static?
    requires a.method_ == "ANY" || a.method_ == b.method_
    ensures !Outranks(a, b)
  {
  }

  /** The route that is more specific than every other that answers, with the
      params it takes from the path. `upper` is the method's upper-casing. */
  method Resolve(routes: seq<Route>, ghost regs: seq<Registration>, verb: string, path: string,
                 upper: string -> string, decode: string -> seq<byte>)
    returns (r: Option<(nat, Params)>)
    requires Accepted(routes, regs)
    ensures Answer(routes, upper(verb), Pieces(path), decode, r)
    ensures Chosen(routes, upper(verb), Pieces(path), decode, r)
  {
    hide Chosen, Fits, MoreSpecific, Pieces, Overlaps, Acceptable;
    var verb := upper(verb);
    var req := Pieces(path);
    var best: Option<Route> := None;
    var bestParams: Params := [];
    for k := 0 to |routes|
      invariant Best(routes, verb, req, k, if best.Some? then Some(best.value.id) else None)
      invariant best.Some? ==> best.value.id < k && routes[best.value.id] == best.value
      invariant best.Some? ==> Matched(best.value.pattern, req, decode) == Some(bestParams)
    {
      var route := routes[k];
      if route.method_ != ANY && route.method_ != verb {
        continue;
      }
      var params := MatchPattern(route.pattern, req, decode);
      if params.None? {
        continue;
      }
      BestOfOneMore(routes, regs, verb, req, k, if best.Some? then Some(best.value.id) else None);
      if best.None? || MoreSpecific(route, best.value) {
        best := Some(route);
        bestParams := params.value;
      }
    }
    r := if best.Some? then Some((best.value.id, bestParams)) else None;
    AnswerIsChosen(routes, regs, verb, req, decode, r);
  }

  /** Registrations of an acceptable list are distinct. */
  lemma RegistrationsDiffer(regs: seq<Registration>, i: nat, j: nat)
    requires Acceptable(regs) && i < |regs| && j < |regs| && i != j
    ensures regs[i] != regs[j]
  {
    OverlapsSelf(Segs(regs[i].1));
    hide Overlaps, Segs;
    if i < j { assert !Clash(regs[i], regs[j]); } else { assert !Clash(regs[j], regs[i]); }
  }

  /** Acceptance does not depend on the order of registration. */
  lemma AcceptanceIgnoresOrder(regs: seq<Registration>, other: seq<Registration>)
    requires Acceptable(regs) && multiset(regs) == multiset(other)
    ensures Acceptable(other)
  {
    hide Overlaps, Segs, Parsed;
    forall i | 0 <= i < |other| ensures Parsed(other[i].1).Ok? {
      assert other[i] in multiset(other);
      assert other[i] in regs;
    }
    forall i, j | 0 <= i < j < |other| ensures !Clash(other[i], other[j]) {
      hide Clash;
      TwoOf(other, i, j);
      assert other[i] in multiset(regs) && other[j] in multiset(regs);
      var k :| 0 <= k < |regs| && regs[k] == other[i];
      if l :| 0 <= l < |regs| && l != k && regs[l] == other[j] {
        ClashSymmetric(regs[k], regs[l]);
        if k < l { assert !Clash(regs[k], regs[l]); } else { assert !Clash(regs[l], regs[k]); }
      } else {
        OneOf(regs, k, other[j]);
      }
    }
  }

  lemma ClashSymmetric(r: Registration, s: Registration)
    ensures Clash(r, s) == Clash(s, r)
  {
    OverlapsSymmetric(Segs(r.1), Segs(s.1));
  }

  /** Two places hold at least two copies, or two values. */
  lemma TwoOf(regs: seq<Registration>, i: nat, j: nat)
    requires i < j < |regs|
    ensures regs[i] == regs[j] ==> multiset(regs)[regs[i]] >= 2
  {
    assert regs == regs[..i] + [regs[i]] + regs[i + 1..j] + [regs[j]] + regs[j + 1..];
  }

  /** A value found nowhere but at `k` is there at most once. */
  lemma OneOf(regs: seq<Registration>, k: nat, v: Registration)
    requires k < |regs| && forall l | 0 <= l < |regs| && l != k :: regs[l] != v
    ensures multiset(regs)[v] <= 1
    ensures multiset(regs)[v] == 1 ==> regs[k] == v
  {
    assert regs == regs[..k] + [regs[k]] + regs[k + 1..];
  }

  /** The same registration is best in every permutation of an accepted list. */
  lemma SameBest(
    regs: seq<Registration>, routes: seq<Route>, other: seq<Registration>, routes': seq<Route>,
    verb: string, req: seq<string>, w: Option<nat>, w': Option<nat>)
    requires Accepted(routes, regs) && Accepted(routes', other) && multiset(regs) == multiset(other)
    requires Best(routes, verb, req, |routes|, w) && Best(routes', verb, req, |routes'|, w')
    ensures w.Some? == w'.Some?
    ensures w.Some? ==> w.value < |regs| && w'.value < |other| && regs[w.value] == other[w'.value]
    ensures w.Some? ==> routes[w.value].pattern == routes'[w'.value].pattern
  {
    hide Acceptable, MoreSpecific, Fits;
    if w.Some? { AnswersToo(regs, routes, other, routes', verb, req, w.value); }
    if w'.Some? { AnswersToo(other, routes', regs, routes, verb, req, w'.value); }
    if w.Some? {
      var j := Found(regs, other, w.value);
      var i' := w'.value;
      var k := Found(other, regs, i');
      if other[i'] != regs[w.value] {
        assert MoreSpecific(routes[w.value], routes[k]);
        assert MoreSpecific(routes'[i'], routes'[j]);
        SpecificityIsTotal(routes, regs, verb, req, w.value, k);
        MoreSpecificIgnoresId(routes[w.value], routes[k], routes'[j], routes'[i']);
      }
    }
  }

  /** For every permutation of an accepted list, a request gets the same answer: the
      same method, pattern and params, or none. */
  lemma OrderOfRegistrationIsIrrelevant(
    regs: seq<Registration>, routes: seq<Route>, other: seq<Registration>, routes': seq<Route>,
    verb: string, req: seq<string>, decode: string -> seq<byte>, r: Option<(nat, Params)>, r': Option<(nat, Params)>)
    requires Accepted(routes, regs) && Accepted(routes', other) && multiset(regs) == multiset(other)
    requires Answer(routes, verb, req, decode, r) && Answer(routes', verb, req, decode, r')
    ensures r.Some? == r'.Some?
    ensures r.Some? ==>
      && r.value.0 < |regs| && r'.value.0 < |other| && regs[r.value.0] == other[r'.value.0]
      && routes[r.value.0].method_ == routes'[r'.value.0].method_
      && routes[r.value.0].pattern == routes'[r'.value.0].pattern
      && r.value.1 == r'.value.1
  {
    hide Acceptable, Best, Matched;
    SameBest(regs, routes, other, routes', verb, req,
             if r.Some? then Some(r.value.0) else None, if r'.Some? then Some(r'.value.0) else None);
  }

  lemma AnswersToo(regs: seq<Registration>, routes: seq<Route>, other: seq<Registration>, routes': seq<Route>,
                   verb: string, req: seq<string>, i: nat)
    requires Registered(routes, regs) && Registered(routes', other) && multiset(regs) == multiset(other)
    requires i < |regs| && Answers(routes[i], verb, req)
    ensures exists j :: 0 <= j < |other| && other[j] == regs[i] && Answers(routes'[j], verb, req)
  {
    var j := Found(regs, other, i);
    assert Answers(routes'[j], verb, req);
  }

  lemma MoreSpecificIgnoresId(a: Route, b: Route, a': Route, b': Route)
    requires a.method_ == a'.method_ && a.pattern == a'.pattern
    requires b.method_ == b'.method_ && b.pattern == b'.pattern
    ensures MoreSpecific(b, a) == MoreSpecific(b', a')
  {
  }

  lemma Found(regs: seq<Registration>, other: seq<Registration>, i: nat) returns (j: nat)
    requires i < |regs| && multiset(regs) == multiset(other)
    ensures j < |other| && other[j] == regs[i]
  {
    assert regs[i] in multiset(regs);
    assert regs[i] in other;
    j :| 0 <= j < |other| && other[j] == regs[i];
  }
}
