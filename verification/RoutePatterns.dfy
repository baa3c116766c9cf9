/** How a path is cut into pieces and how the pieces of a pattern read: laws that leave
    the router no other way to do it. */
module RoutePatterns {
  import opened Prelude
  import opened Router

  // ------------------------------------------------------------------ pieces

  /** A slash ends a piece, wherever it stands and however many there are. */
  lemma {:induction false} PiecesJoin(a: string, b: string)
    ensures Pieces(a + "/" + b) == Pieces(a) + Pieces(b)
    decreases |a|
  {
    hide Pieces, UpToSlash, Piece;
    if '/' in a {
      TailShorter(a);
      PiecesJoin(UpToSlash(a).1, b);
      JoinsTail(a, b);
    } else {
      JoinsWhole(a, b);
    }
  }

  lemma JoinsTail(a: string, b: string)
    requires '/' in a && Pieces(UpToSlash(a).1 + "/" + b) == Pieces(UpToSlash(a).1) + Pieces(b)
    ensures Pieces(a + "/" + b) == Pieces(a) + Pieces(b)
  {
    HeadOf(a, b);
    PiecesStep(a);
    PiecesStep(a + "/" + b);
    hide *;
    var (head, tail) := UpToSlash(a);
    Grouped(if head == "" then [] else [head], Pieces(tail), Pieces(b));
  }

  lemma Grouped(a: seq<string>, b: seq<string>, c: seq<string>)
    ensures a + (b + c) == a + b + c
  {
  }

  lemma JoinsWhole(a: string, b: string)
    requires '/' !in a
    ensures Pieces(a + "/" + b) == Pieces(a) + Pieces(b)
  {
    WholeHead(a);
    SlashEnds(a, b);
    NoPieces();
    hide *;
    PiecesStep(a + "/" + b);
    if a != "" { PiecesStep(a); }
  }

  lemma {:induction false} TailShorter(a: string)
    requires '/' in a
    ensures |UpToSlash(a).1| < |a|
  {
  }

  lemma PiecesStep(path: string)
    requires path != ""
    ensures
      var (head, tail) := UpToSlash(path);
      Pieces(path) == (if head == "" then [] else [head]) + Pieces(tail)
  {
  }

  lemma WholeHead(a: string)
    requires '/' !in a
    ensures UpToSlash(a) == (a, "")
  {
  }

  lemma {:induction false} HeadOf(a: string, b: string)
    requires '/' in a
    ensures UpToSlash(a + "/" + b) == (UpToSlash(a).0, UpToSlash(a).1 + "/" + b)
    decreases |a|
  {
    if a[0] == '/' {
      assert (a + "/" + b)[1..] == a[1..] + "/" + b;
    } else {
      HeadOf(a[1..], b);
      assert (a + "/" + b)[1..] == a[1..] + "/" + b;
    }
  }

  /** A piece is a path of one piece. */
  lemma OnePiece(s: string)
    requires Piece(s)
    ensures Pieces(s) == [s]
  {
    WholeHead(s);
    NoPieces();
  }

  // ---------------------------------------------------------------- patterns

  /** `:name?` is an optional param, any other `:name` a required one, and what does
      not start with a colon stands for itself. */
  predicate Writes(s: string, g: Seg) {
    match g
    case Static(text) => s == text && (s == "" || s[0] != ':')
    case Param(name, optional) =>
      if optional then s == ":" + name + "?" else s == ":" + name && (name == "" || name[|name| - 1] != '?')
  }

  lemma SegMeans(s: string, g: Seg)
    requires s != ""
    ensures SegOf(s) == g <==> Writes(s, g)
  {
    if s[0] == ':' {
      var name := s[1..];
      assert s == ":" + name;
      if name != "" && name[|name| - 1] == '?' { assert s == ":" + name[..|name| - 1] + "?"; }
      forall n: string | s == ":" + n ensures n == name { }
      forall n: string | s == ":" + n + "?" ensures name == n + "?" && n == name[..|name| - 1] { }
    }
  }

  /** A path reads as a pattern, piece by piece. */
  ghost predicate WritesAll(path: string, p: Pattern) {
    |p| == |Pieces(path)| && forall i | 0 <= i < |p| :: Writes(Pieces(path)[i], p[i])
  }

  /** Every path reads as one pattern, the router's. */
  lemma SegsMean(path: string, p: Pattern)
    ensures Segs(path) == p <==> WritesAll(path, p)
  {
    forall i | 0 <= i < |Pieces(path)| && i < |p|
      ensures Segs(path)[i] == p[i] <==> Writes(Pieces(path)[i], p[i])
    {
      assert Pieces(path)[i] in Pieces(path);
      SegMeans(Pieces(path)[i], p[i]);
      hide Writes, Pieces, SegOf;
    }
    hide Writes, Pieces, SegOf;
  }

  /** It is accepted unless a param has no name, which is found first, or something
      comes after an optional param that is not one. */
  lemma ParsedMeans(path: string, p: Pattern)
    requires WritesAll(path, p)
    ensures
      var nameless := exists i | 0 <= i < |p| :: p[i].Param? && p[i].name == "";
      var misplaced := exists i, j | 0 <= i < j < |p| ::
        p[i].Param? && p[i].optional && !(p[j].Param? && p[j].optional);
      Parsed(path) == if nameless then Err(NeedsName) else if misplaced then Err(MisplacedOptional) else Ok(p)
  {
    SegsMean(path, p);
    hide Segs, WritesAll;
  }
}
