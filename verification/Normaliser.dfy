/** `normalise`: whitespace is collapsed outside literals only. */
module Normaliser {
  import opened Options
  import opened Text
  import opened RustScan

  /** The characters that are not whitespace, in order. */
  function Ink(t: string): string {
    if |t| == 0 then "" else (if IsSpace(t[0]) then "" else [t[0]]) + Ink(t[1..])
  }

  /** The words of a text separated by single spaces, as `" ".join(t.split())`: `started`
      when a word was put out before, `pending` when whitespace was seen since. */
  function Collapse(t: string, started: bool, pending: bool): string {
    if |t| == 0 then ""
    else if IsSpace(t[0]) then Collapse(t[1..], started, true)
    else (if pending && started then " " else "") + [t[0]] + Collapse(t[1..], true, false)
  }

  datatype Piece = Space | Literal(text: string) | Comment(text: string) | Other(text: string)

  /** The piece at the front of a text, and its length. */
  function FirstPiece(t: string): (p: (Piece, nat))
    requires |t| > 0
    ensures 1 <= p.1 <= |t|
    ensures p.0.Space? ==> p.1 == 1 && IsSpace(t[0])
    ensures !p.0.Space? ==> p.0.text == t[..p.1]
  {
    match LiteralLen(t)
    case Some(n) => (Literal(t[..n]), n)
    case None =>
      if IsSpace(t[0]) then (Space, 1)
      else match CommentLen(t)
        case Some(n) => (Comment(t[..n]), n)
        case None => (Other(t[..1]), 1)
  }

  function Gap(started: bool, pending: bool): string {
    if pending && started then " " else ""
  }

  /** `normalise` of the rest of a text: `started` when something was put out before,
      `pending` when whitespace was seen since. */
  function NormaliseFrom(t: string, started: bool, pending: bool): string
    decreases |t|
  {
    if |t| == 0 then ""
    else
      var (piece, n) := FirstPiece(t);
      match piece
      case Space => NormaliseFrom(t[n..], started, true)
      case Comment(text) => Gap(started, pending) + Collapse(text, false, false) + NormaliseFrom(t[n..], true, false)
      case _ => Gap(started, pending) + piece.text + NormaliseFrom(t[n..], true, false)
  }

  function Normalise(t: string): string {
    NormaliseFrom(t, false, false)
  }

  // ----- literals are kept byte for byte, everything else up to whitespace -----

  /** The literals of a text, in order. */
  function Literals(t: string): seq<string>
    decreases |t|
  {
    if |t| == 0 then []
    else
      var (piece, n) := FirstPiece(t);
      (if piece.Literal? then [piece.text] else []) + Literals(t[n..])
  }

  function Prepend(s: string, gaps: seq<string>): (r: seq<string>)
    requires |gaps| > 0
    ensures |r| == |gaps|
  {
    [s + gaps[0]] + gaps[1..]
  }

  /** The stretches of a text between its literals. */
  function Gaps(t: string): (g: seq<string>)
    ensures |g| == |Literals(t)| + 1
    decreases |t|
  {
    if |t| == 0 then [""]
    else
      var (piece, n) := FirstPiece(t);
      if piece.Literal? then [""] + Gaps(t[n..]) else Prepend(t[..n], Gaps(t[n..]))
  }

  /** The stretches of the normalised text between the same literals. */
  function OutGaps(t: string, started: bool, pending: bool): (g: seq<string>)
    ensures |g| == |Literals(t)| + 1
    decreases |t|
  {
    if |t| == 0 then [""]
    else
      var (piece, n) := FirstPiece(t);
      var gap := Gap(started, pending);
      match piece
      case Space => OutGaps(t[n..], started, true)
      case Literal(text) => [gap] + OutGaps(t[n..], true, false)
      case Comment(text) => Prepend(gap + Collapse(text, false, false), OutGaps(t[n..], true, false))
      case Other(text) => Prepend(gap + text, OutGaps(t[n..], true, false))
  }

  function Weave(gaps: seq<string>, literals: seq<string>): string
    requires |gaps| == |literals| + 1
  {
    if literals == [] then gaps[0] else gaps[0] + literals[0] + Weave(gaps[1..], literals[1..])
  }

  lemma WeavePrepend(s: string, gaps: seq<string>, literals: seq<string>)
    requires |gaps| == |literals| + 1
    ensures Weave(Prepend(s, gaps), literals) == s + Weave(gaps, literals)
  {
    assert Prepend(s, gaps)[1..] == gaps[1..];
    if literals != [] {
      var rest := Weave(gaps[1..], literals[1..]);
      assert (s + gaps[0]) + literals[0] + rest == s + (gaps[0] + literals[0] + rest);
    }
  }

  lemma WeaveNothing(gap: string)
    ensures Weave([gap], []) == gap
  {
  }

  lemma WeaveLiteral(gap: string, literal: string, gaps: seq<string>, literals: seq<string>)
    requires |gaps| == |literals| + 1
    ensures Weave([gap] + gaps, [literal] + literals) == gap + literal + Weave(gaps, literals)
  {
    assert ([gap] + gaps)[1..] == gaps && ([literal] + literals)[1..] == literals;
  }

  lemma {:induction false} TextIsWoven(t: string)
    ensures Weave(Gaps(t), Literals(t)) == t
    decreases |t|
  {
    hide FirstPiece, Weave, Prepend;
    if |t| > 0 {
      var (piece, n) := FirstPiece(t);
      TextIsWoven(t[n..]);
      assert t == t[..n] + t[n..];
      if piece.Literal? {
        WeaveLiteral("", piece.text, Gaps(t[n..]), Literals(t[n..]));
      } else {
        assert Literals(t) == [] + Literals(t[n..]) == Literals(t[n..]);
        WeavePrepend(t[..n], Gaps(t[n..]), Literals(t[n..]));
      }
    } else {
      WeaveNothing("");
    }
  }

  lemma {:induction false} NormalisedIsWoven(t: string, started: bool, pending: bool)
    ensures Weave(OutGaps(t, started, pending), Literals(t)) == NormaliseFrom(t, started, pending)
    decreases |t|
  {
    if |t| > 0 {
      var (piece, n) := FirstPiece(t);
      var gap, lits := Gap(started, pending), Literals(t[n..]);
      match piece
      case Space =>
        NormalisedIsWoven(t[n..], started, true);
        assert Literals(t) == lits;
      case Literal(text) =>
        NormalisedIsWoven(t[n..], true, false);
        var g := OutGaps(t, started, pending);
        assert g[1..] == OutGaps(t[n..], true, false) && Literals(t)[1..] == lits;
      case Comment(text) =>
        NormalisedIsWoven(t[n..], true, false);
        assert Literals(t) == lits;
        WeavePrepend(gap + Collapse(text, false, false), OutGaps(t[n..], true, false), lits);
      case Other(text) =>
        NormalisedIsWoven(t[n..], true, false);
        assert Literals(t) == lits;
        WeavePrepend(gap + text, OutGaps(t[n..], true, false), lits);
    }
  }

  lemma {:induction false} InkConcat(a: string, b: string)
    ensures Ink(a + b) == Ink(a) + Ink(b)
  {
    if |a| == 0 {
      assert a + b == b;
    } else {
      assert (a + b)[1..] == a[1..] + b;
      InkConcat(a[1..], b);
    }
  }

  lemma {:induction false} CollapseKeepsInk(t: string, started: bool, pending: bool)
    ensures Ink(Collapse(t, started, pending)) == Ink(t)
  {
    if |t| > 0 {
      if IsSpace(t[0]) {
        CollapseKeepsInk(t[1..], started, true);
      } else {
        CollapseKeepsInk(t[1..], true, false);
        var gap := if pending && started then " " else "";
        InkConcat(gap + [t[0]], Collapse(t[1..], true, false));
        InkConcat(gap, [t[0]]);
      }
    }
  }

  ghost predicate SameInk(g: seq<string>, h: seq<string>) {
    |g| == |h| && forall k :: 0 <= k < |g| ==> Ink(g[k]) == Ink(h[k])
  }

  lemma PrependInk(s: string, r: string, g: seq<string>, h: seq<string>)
    requires |g| > 0 && SameInk(g, h) && Ink(s) == Ink(r)
    ensures SameInk(Prepend(s, g), Prepend(r, h))
  {
    InkConcat(s, g[0]);
    InkConcat(r, h[0]);
  }

  lemma {:induction false} GapsKeepInk(t: string, started: bool, pending: bool)
    ensures SameInk(OutGaps(t, started, pending), Gaps(t))
    decreases |t|
  {
    if |t| > 0 {
      hide Prepend, SameInk;
      var (piece, n) := FirstPiece(t);
      var gap := Gap(started, pending);
      var out, src := OutGaps(t[n..], piece.Space? ==> started, piece.Space?), Gaps(t[n..]);
      GapsKeepInk(t[n..], piece.Space? ==> started, piece.Space?);
      PieceInk(t, gap);
      match piece
      case Space =>
        DropBlank(t[..n], out, src);
      case Literal(text) =>
        FrontInk(gap, out, src);
      case Comment(text) =>
        PrependInk(gap + Collapse(text, false, false), text, out, src);
      case Other(text) =>
        PrependInk(gap + text, text, out, src);
    }
  }

  lemma PieceInk(t: string, gap: string)
    requires |t| > 0 && (gap == "" || gap == " ")
    ensures Ink(gap) == ""
    ensures var (piece, n) := FirstPiece(t);
            && (piece.Space? ==> Ink(t[..n]) == "")
            && (piece.Comment? ==> Ink(gap + Collapse(piece.text, false, false)) == Ink(piece.text))
            && (piece.Other? ==> Ink(gap + piece.text) == Ink(piece.text))
  {
    var (piece, n) := FirstPiece(t);
    if !piece.Space? {
      CollapseKeepsInk(piece.text, false, false);
      InkConcat(gap, Collapse(piece.text, false, false));
      InkConcat(gap, piece.text);
    }
  }

  lemma DropBlank(s: string, out: seq<string>, src: seq<string>)
    requires |src| > 0 && SameInk(out, src) && Ink(s) == ""
    ensures SameInk(out, Prepend(s, src))
  {
    InkConcat(s, src[0]);
  }

  lemma FrontInk(gap: string, out: seq<string>, src: seq<string>)
    requires SameInk(out, src) && Ink(gap) == ""
    ensures SameInk([gap] + out, [""] + src)
  {
  }

  /** The text and its normal form are woven around the same literals, byte for byte, and
      the stretches between them differ in whitespace only. */
  lemma NormaliseKeepsLiterals(t: string)
    ensures exists gaps: seq<string>, out: seq<string>, literals: seq<string> ::
              && |gaps| == |out| == |literals| + 1
              && literals == Literals(t)
              && t == Weave(gaps, literals)
              && Normalise(t) == Weave(out, literals)
              && SameInk(out, gaps)
  {
    var gaps, out, literals := Gaps(t), OutGaps(t, false, false), Literals(t);
    TextIsWoven(t);
    NormalisedIsWoven(t, false, false);
    GapsKeepInk(t, false, false);
    assert t == Weave(gaps, literals) && Normalise(t) == Weave(out, literals);
  }

  lemma {:induction false} WeaveInk(g: seq<string>, h: seq<string>, literals: seq<string>)
    requires |g| == |literals| + 1 && SameInk(g, h)
    ensures Ink(Weave(g, literals)) == Ink(Weave(h, literals))
  {
    if literals != [] {
      WeaveInk(g[1..], h[1..], literals[1..]);
      InkConcat(g[0] + literals[0], Weave(g[1..], literals[1..]));
      InkConcat(h[0] + literals[0], Weave(h[1..], literals[1..]));
      InkConcat(g[0], literals[0]);
      InkConcat(h[0], literals[0]);
    }
  }

  /** Every character that is not whitespace survives, in order. */
  lemma NormaliseKeepsInk(t: string)
    ensures Ink(Normalise(t)) == Ink(t)
  {
    TextIsWoven(t);
    NormalisedIsWoven(t, false, false);
    GapsKeepInk(t, false, false);
    WeaveInk(OutGaps(t, false, false), Gaps(t), Literals(t));
  }
}
