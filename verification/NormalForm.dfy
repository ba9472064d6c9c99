/** What equal normal forms mean: `normalise` prints a sequence of tokens, and a text whose tokens
    are not run together by losing a line end is read back from its normal form. */
module NormalForm {
  import opened Options
  import opened Text
  import opened RustScan
  import opened Normaliser

  // ----- the tokens of a text -----

  /** A piece that is put out, and whether whitespace separates it from the one before. */
  datatype Token = Token(gap: bool, piece: Piece)

  /** Comments are put out collapsed. */
  function Shown(p: Piece): (q: Piece)
    ensures !p.Space? ==> !q.Space?
  {
    if p.Comment? then Comment(Collapse(p.text, false, false)) else p
  }

  function Tokens(t: string, started: bool, pending: bool): (ts: seq<Token>)
    ensures forall k :: k in ts ==> !k.piece.Space?
    decreases |t|
  {
    if |t| == 0 then []
    else
      var (piece, n) := FirstPiece(t);
      if piece.Space? then Tokens(t[n..], started, true)
      else [Token(started && pending, Shown(piece))] + Tokens(t[n..], true, false)
  }

  function TokensOf(t: string): seq<Token> {
    Tokens(t, false, false)
  }

  function Print(ts: seq<Token>): string
    requires forall k :: k in ts ==> !k.piece.Space?
  {
    if ts == [] then "" else (if ts[0].gap then " " else "") + ts[0].piece.text + Print(ts[1..])
  }

  /** The normal form is the print of the tokens. */
  lemma {:induction false} FormPrintsTokens(t: string, started: bool, pending: bool)
    ensures NormaliseFrom(t, started, pending) == Print(Tokens(t, started, pending))
    decreases |t|
  {
    hide FirstPiece, Collapse;
    if |t| > 0 {
      var (piece, n) := FirstPiece(t);
      if piece.Space? {
        FormPrintsTokens(t[n..], started, true);
      } else {
        FormPrintsTokens(t[n..], true, false);
        var rest := Tokens(t[n..], true, false);
        assert ([Token(started && pending, Shown(piece))] + rest)[1..] == rest;
      }
    }
  }

  // ----- tidy texts -----

  predicate AllSpace(t: string) {
    forall i :: 0 <= i < |t| ==> IsSpace(t[i])
  }

  /** Whitespace, then a quote. */
  predicate QuoteAfterGap(t: string) {
    var n := Run(t, IsSpace);
    0 < n < |t| && t[n] == '\''
  }

  /** Nothing but whitespace follows a line comment, and no lone quote is followed by whitespace
      and a quote. */
  predicate Tidy(t: string)
    decreases |t|
  {
    |t| > 0 ==>
      var (piece, n) := FirstPiece(t);
      && Tidy(t[n..])
      && (piece.Comment? && StartsWith(t, "//") ==> AllSpace(t[n..]))
      && (piece == Other("'") ==> !QuoteAfterGap(t[1..]))
  }

  // ----- whitespace at the front -----

  lemma SpaceIsSpace(t: string)
    requires |t| > 0 && IsSpace(t[0])
    ensures FirstPiece(t) == (Space, 1)
  {
    assert t[..0] == "";
  }

  lemma InkIsNoSpace(t: string)
    requires |t| > 0 && !IsSpace(t[0])
    ensures !FirstPiece(t).0.Space?
  {
  }

  lemma {:induction false} BlankHasNoForm(t: string, started: bool, pending: bool)
    requires AllSpace(t)
    ensures NormaliseFrom(t, started, pending) == "" && Tokens(t, started, pending) == [] && Tidy(t)
    decreases |t|
  {
    hide FirstPiece, IsSpace;
    if |t| > 0 {
      SpaceIsSpace(t);
      BlankHasNoForm(t[1..], started, true);
    }
  }

  /** The first piece that is put out shows its first character. */
  lemma ShownStarts(t: string)
    requires |t| > 0 && !IsSpace(t[0])
    ensures var p := Shown(FirstPiece(t).0); !p.Space? && |p.text| > 0 && p.text[0] == t[0]
  {
    hide LiteralLen, CommentLen;
    var (piece, n) := FirstPiece(t);
    InkIsNoSpace(t);
    assert piece.text == t[..n];
  }

  /** After whitespace the form of the rest is a space and what follows, or nothing. */
  lemma {:induction false} GapIsShown(t: string, pending: bool)
    requires pending || (|t| > 0 && IsSpace(t[0]))
    ensures var n := Run(t, IsSpace);
            NormaliseFrom(t, true, pending) == if n == |t| then "" else " " + NormaliseFrom(t[n..], false, false)
    decreases |t|
  {
    hide FirstPiece, IsSpace, Collapse;
    if |t| > 0 {
      if IsSpace(t[0]) {
        SpaceIsSpace(t);
        GapIsShown(t[1..], true);
        var n := Run(t, IsSpace);
        assert t[n..] == t[1..][n - 1..];
      } else {
        InkIsNoSpace(t);
        assert t[0..] == t;
      }
    }
  }

  /** Without whitespace in front it does not matter what came before. */
  lemma StartIsForgotten(t: string)
    requires |t| > 0 ==> !IsSpace(t[0])
    ensures NormaliseFrom(t, true, false) == NormaliseFrom(t, false, false)
  {
    hide FirstPiece, Collapse;
    if |t| > 0 { InkIsNoSpace(t); }
  }

  lemma FormStarts(t: string)
    requires |t| > 0 && !IsSpace(t[0])
    ensures var q := NormaliseFrom(t, false, false); |q| > 0 && q[0] == t[0]
  {
    hide FirstPiece, Collapse;
    ShownStarts(t);
    InkIsNoSpace(t);
  }

  // ----- collapsed text -----

  lemma CollapseStep(t: string, started: bool, pending: bool)
    ensures t == "" ==> Collapse(t, started, pending) == ""
    ensures t != "" && IsSpace(t[0]) ==> Collapse(t, started, pending) == Collapse(t[1..], started, true)
    ensures t != "" && !IsSpace(t[0]) ==>
              Collapse(t, started, pending) == Gap(started, pending) + [t[0]] + Collapse(t[1..], true, false)
  {
    hide IsSpace;
  }

  /** Ink after a gap, read as that gap and the ink. */
  lemma InkStep(c: char, rest: string, started: bool, pending: bool)
    requires !IsSpace(c)
    ensures Collapse(Gap(started, pending) + [c] + rest, started, false) ==
            Gap(started, pending) + [c] + Collapse(rest, true, false)
  {
    assert IsSpace(' ');
    hide IsSpace, Collapse;
    var ink := [c] + rest;
    assert ink[1..] == rest;
    if started && pending {
      var t := " " + ink;
      assert Gap(started, pending) + [c] + rest == t && t[1..] == ink;
      CollapseStep(t, started, false);
      CollapseStep(ink, started, true);
    } else {
      assert Gap(started, pending) + [c] + rest == ink;
      CollapseStep(ink, started, false);
    }
  }

  lemma {:induction false} CollapseIsStable(t: string, started: bool, pending: bool)
    ensures Collapse(Collapse(t, started, pending), started, false) == Collapse(t, started, pending)
  {
    hide IsSpace, Collapse, Gap;
    CollapseStep(t, started, pending);
    if t == "" {
      CollapseStep("", started, false);
    } else if IsSpace(t[0]) {
      CollapseIsStable(t[1..], started, true);
    } else {
      CollapseIsStable(t[1..], true, false);
      InkStep(t[0], Collapse(t[1..], true, false), started, pending);
    }
  }

  lemma {:induction false} CollapseHasNoNewline(t: string, started: bool, pending: bool)
    ensures '\n' !in Collapse(t, started, pending)
  {
    if |t| > 0 {
      CollapseHasNoNewline(t[1..], started, true);
      CollapseHasNoNewline(t[1..], true, false);
    }
  }

  predicate IsInk(c: char) {
    !IsSpace(c)
  }

  /** `q` has the same characters as `t` up to the first whitespace of `t`, and ends or has
      whitespace there. */
  predicate SameHead(t: string, q: string) {
    var k := Run(t, IsInk);
    k <= |q| && q[..k] == t[..k] && (k < |q| ==> IsSpace(q[k]))
  }

  lemma {:induction false} CollapsedHead(t: string)
    ensures var c := Collapse(t, true, false); SameHead(t, c) && (Run(t, IsInk) == |t| ==> c == t)
  {
    assert IsSpace(' ');
    hide IsSpace;
    if |t| > 0 && !IsSpace(t[0]) {
      CollapsedHead(t[1..]);
      var c, k := Collapse(t, true, false), Run(t, IsInk);
      assert c == [t[0]] + Collapse(t[1..], true, false);
      assert c[..k] == [t[0]] + c[1..][..k - 1] && t[..k] == [t[0]] + t[1..][..k - 1];
    } else if |t| > 0 {
      PendingCollapse(t[1..]);
    }
  }

  lemma {:induction false} CollapsedGoesOn(t: string)
    requires Run(t, IsInk) < |t| && !IsSpace(t[|t| - 1])
    ensures |Collapse(t, true, false)| > Run(t, IsInk)
  {
    if IsSpace(t[0]) {
      PendingCollapse(t[1..]);
      assert t[1..][|t| - 2] == t[|t| - 1];
    } else {
      CollapsedGoesOn(t[1..]);
    }
  }

  /** Pending whitespace shows as one space, unless nothing follows. */
  lemma {:induction false} PendingCollapse(t: string)
    ensures var c := Collapse(t, true, true); c == "" || c[0] == ' '
    ensures !AllSpace(t) ==> Collapse(t, true, true) != ""
  {
    if |t| > 0 && IsSpace(t[0]) {
      PendingCollapse(t[1..]);
      if AllSpace(t[1..]) { assert forall i :: 0 < i < |t| ==> t[i] == t[1..][i - 1]; }
    }
  }

  // ----- literals are read back -----

  lemma {:induction false} FindFixed(t: string, needle: string, y: string)
    requires Find(t, needle).Some?
    ensures var k := Find(t, needle).value; Find(t[..k + |needle|] + y, needle) == Some(k)
  {
    var k := Find(t, needle).value;
    var x := t[..k + |needle|];
    if k == 0 {
      assert (x + y)[..|needle|] == needle;
    } else {
      FindFixed(t[1..], needle, y);
      assert x[1..] == t[1..][..k - 1 + |needle|] && (x + y)[1..] == x[1..] + y;
      assert (x + y)[..|needle|] == t[..|needle|];
    }
  }

  lemma {:induction false} StringFixed(t: string, y: string)
    requires StringTail(t) < |t|
    ensures var m := StringTail(t); m > 0 && StringTail(t[..m] + y) == m
  {
    var m := StringTail(t);
    var x := t[..m];
    if t[0] == '\\' {
      StringFixed(t[2..], y);
      assert x[2..] == t[2..][..m - 2] && (x + y)[2..] == x[2..] + y;
    } else if t[0] != '"' {
      StringFixed(t[1..], y);
      assert x[1..] == t[1..][..m - 1] && (x + y)[1..] == x[1..] + y;
    }
  }

  lemma {:induction false} RunFixed(x: string, y: string, p: char -> bool)
    requires Run(x, p) < |x|
    ensures Run(x + y, p) == Run(x, p)
  {
    RunCut(x, y, p);
  }

  lemma RawFixed(t: string, y: string)
    requires RawLen(t).Some? && RawLen(t).value < |t|
    ensures var m := RawLen(t).value; RawLen(t[..m] + y) == Some(m)
  {
    var m, h := RawLen(t).value, Run(t, IsHash);
    var close := "\"" + Repeat('#', h);
    var x, rest := t[..m], t[h + 1..];
    FindFixed(rest, close, y);
    RunPrefix(t, m, y, IsHash);
    assert (x + y)[h + 1..] == rest[..m - h - 1] + y;
  }

  /** A run that ends inside a prefix ends there whatever follows the prefix. */
  lemma RunPrefix(t: string, m: nat, y: string, p: char -> bool)
    requires m <= |t| && Run(t, p) < m
    ensures Run(t[..m] + y, p) == Run(t, p)
  {
    RunCut(t[..m], t[m..], p);
    assert t[..m] + t[m..] == t;
    RunFixed(t[..m], y, p);
  }

  lemma CharFixed(t: string, y: string)
    requires |t| > 0 && t[0] == '\'' && CharLen(t).Some? && CharLen(t).value < |t|
    ensures var m := CharLen(t).value; CharLen(t[..m] + y) == Some(m)
  {
    var m := CharLen(t).value;
    if t[1] == '\\' {
      FindFixed(t[3..], "'", y);
      assert (t[..m] + y)[3..] == t[3..][..m - 3] + y;
    }
  }

  lemma WordFixed(t: string, m: nat, y: string)
    requires WordLen(t) < m <= |t|
    ensures WordLen(t[..m] + y) == WordLen(t)
  {
    if IsWordStart(t[0]) { RunPrefix(t, m, y, IsWordChar); }
  }

  lemma PrefixIsWord(word: string)
    ensures word in PREFIXES ==> word != "" && word[0] != '"' && word[0] != '\''
  {
  }

  /** A closed literal is the same literal whatever follows it. */
  lemma LiteralFixed(t: string, y: string)
    requires |t| > 0 && LiteralLen(t).Some? && LiteralLen(t).value < |t|
    ensures var m := LiteralLen(t).value; LiteralLen(t[..m] + y) == Some(m)
  {
    hide StringTail, CharLen, RawLen, PREFIXES, WordLen, Run;
    var m := LiteralLen(t).value;
    var x := t[..m];
    if t[0] == '"' {
      StringFixed(t[1..], y);
      assert (x + y)[1..] == t[1..][..m - 1] + y;
    } else if t[0] == '\'' {
      CharFixed(t, y);
    } else {
      var w := WordLen(t);
      var rest := t[w..];
      PrefixIsWord(t[..w]);
      assert w < m;
      WordFixed(t, m, y);
      assert (x + y)[..w] == t[..w] && (x + y)[w..] == rest[..m - w] + y;
      if t[w - 1] == 'r' {
        RawFixed(rest, y);
      } else if rest[0] == '"' {
        StringFixed(rest[1..], y);
        assert (rest[..m - w] + y)[1..] == rest[1..][..m - w - 1] + y;
      } else {
        CharFixed(rest, y);
      }
    }
  }

  // ----- comments are read back -----

  lemma {:induction false} NotFound(t: string, c: char)
    requires c !in t
    ensures Find(t, [c]) == None
  {
    if |t| > 0 {
      assert t[..1] == [t[0]] && t[0] in t;
      NotFound(t[1..], c);
    }
  }

  /** A comment that does not reach the end of the text ends at a line end or with a slash. */
  lemma CommentEnds(t: string)
    requires CommentLen(t).Some? && CommentLen(t).value < |t|
    ensures var n := CommentLen(t).value;
            if StartsWith(t, "//") then t[n] == '\n' else StartsWith(t, "/*") && t[n - 1] == '/'
  {
    var n := CommentLen(t).value;
    if StartsWith(t, "//") {
      FoundAt(t, '\n');
    } else {
      BlockEnds(t[2..], 1);
    }
  }

  lemma {:induction false} FoundAt(t: string, c: char)
    requires Find(t, [c]).Some?
    ensures t[Find(t, [c]).value] == c
    ensures forall i :: 0 <= i < Find(t, [c]).value ==> t[i] != c
  {
    if StartsWith(t, [c]) {
      assert t[..1][0] == t[0];
    } else {
      FoundAt(t[1..], c);
      assert |t| > 0 ==> t[..1] == [t[0]];
    }
  }

  lemma {:induction false} BlockEnds(u: string, depth: nat)
    requires depth > 0 && BlockTail(u, depth) < |u|
    ensures var m := BlockTail(u, depth); m >= 2 && u[m - 1] == '/'
    decreases |u|
  {
    if StartsWith(u, "/*") {
      BlockEnds(u[2..], depth + 1);
    } else if StartsWith(u, "*/") {
      assert u[..2][1] == u[1];
      if depth > 1 { BlockEnds(u[2..], depth - 1); }
    } else {
      BlockEnds(u[1..], depth);
    }
  }

  lemma TwoCharacters(u: string, a: char, b: char)
    ensures StartsWith(u, [a, b]) <==> |u| >= 2 && u[0] == a && u[1] == b
  {
    if |u| >= 2 { assert u[..2] == [u[0], u[1]]; }
  }

  lemma BlockUnfold(u: string, depth: nat)
    ensures BlockTail(u, depth) ==
            if |u| == 0 || depth == 0 then 0
            else if StartsWith(u, "/*") then 2 + BlockTail(u[2..], depth + 1)
            else if StartsWith(u, "*/") then 2 + BlockTail(u[2..], depth - 1)
            else 1 + BlockTail(u[1..], depth)
  {
  }

  lemma CollapseUnfold(t: string, pending: bool)
    ensures Collapse(t, true, pending) ==
            if |t| == 0 then ""
            else if IsSpace(t[0]) then Collapse(t[1..], true, true)
            else (if pending then " " else "") + [t[0]] + Collapse(t[1..], true, false)
  {
  }

  lemma SpaceOpensNothing(u: string)
    requires |u| > 0 && IsSpace(u[0])
    ensures !StartsWith(u, "/*") && !StartsWith(u, "*/")
  {
    TwoCharacters(u, '/', '*');
    TwoCharacters(u, '*', '/');
  }

  /** What one step inside a block comment reads, and the depth after it. */
  function BlockStep(u: string, depth: nat): (nat, nat)
    requires |u| > 0 && depth > 0
  {
    if StartsWith(u, "/*") then (2, depth + 1) else if StartsWith(u, "*/") then (2, depth - 1) else (1, depth)
  }

  lemma OpenerText(u: string, m: nat)
    requires 2 <= m <= |u| && !IsSpace(u[0]) && !IsSpace(u[1])
    ensures Collapse(u[..m], true, false) == u[..2] + Collapse(u[2..][..m - 2], true, false)
  {
    hide Collapse, IsSpace;
    CollapseUnfold(u[..m], false);
    CollapseUnfold(u[..m][1..], false);
    var d := Collapse(u[2..][..m - 2], true, false);
    assert u[..m][1..][1..] == u[2..][..m - 2];
    assert "" + [u[0]] + ("" + [u[1]] + d) == u[..2] + d;
  }

  /** Two texts that open alike are read alike. */
  lemma OpenerReads(u: string, z: string, depth: nat)
    requires |u| > 0 && depth > 0 && BlockStep(u, depth).0 == 2
    requires |z| >= 2 && |u| >= 2 ==> z[..2] == u[..2]
    ensures |u| >= 2 && !IsSpace(u[0]) && !IsSpace(u[1])
    ensures |z| >= 2 ==> BlockTail(z, depth) == 2 + BlockTail(z[2..], BlockStep(u, depth).1)
  {
    hide BlockTail;
    assert u[0] == u[..2][0] && u[1] == u[..2][1];
    BlockUnfold(z, depth);
  }

  lemma OpenerStays(u: string, depth: nat, y: string)
    requires |u| > 0 && depth > 0 && BlockStep(u, depth).0 == 2
    ensures var (w, e) := BlockStep(u, depth);
            var c := Collapse(u[..BlockTail(u, depth)], true, false);
            var d := Collapse(u[w..][..BlockTail(u[w..], e)], true, false);
            c == u[..2] + d && BlockTail(c + y, depth) == 2 + BlockTail(d + y, e)
  {
    hide Collapse, BlockTail, StartsWith, IsSpace, BlockStep;
    var m := BlockTail(u, depth);
    OpenerReads(u, u, depth);
    OpenerText(u, m);
    var d := Collapse(u[2..][..m - 2], true, false);
    var z := (u[..2] + d) + y;
    assert z[..2] == u[..2] && z[2..] == d + y;
    OpenerReads(u, z, depth);
  }

  lemma PlainStays(u: string, depth: nat, y: string)
    requires |u| > 0 && depth > 0 && BlockStep(u, depth).0 == 1 && !IsSpace(u[0])
    requires BlockTail(u, depth) == |u| ==> y == ""
    ensures var c := Collapse(u[..BlockTail(u, depth)], true, false);
            var d := Collapse(u[1..][..BlockTail(u[1..], depth)], true, false);
            c == [u[0]] + d && BlockTail(c + y, depth) == 1 + BlockTail(d + y, depth)
  {
    assert IsSpace(' ') && !IsSpace('/') && !IsSpace('*');
    hide Collapse, BlockTail, IsSpace, StartsWith;
    var m := BlockTail(u, depth);
    BlockUnfold(u, depth);
    BlockUnfold(u[1..], depth);
    CollapseUnfold(u[..m], false);
    var c, d := Collapse(u[..m], true, false), Collapse(u[1..][..m - 1], true, false);
    assert u[..m][1..] == u[1..][..m - 1];
    assert c == [u[0]] + d && (c + y)[1..] == d + y;
    if m > 1 { SecondStays(u, m, depth, y); }
    TwoCharacters(u, '/', '*');
    TwoCharacters(u, '*', '/');
    TwoCharacters(c + y, '/', '*');
    TwoCharacters(c + y, '*', '/');
    BlockUnfold(c + y, depth);
  }

  lemma SecondStays(u: string, m: nat, depth: nat, y: string)
    requires 1 < m <= |u| && depth > 0 && m == BlockTail(u, depth) && (m == |u| ==> y == "")
    ensures var r := Collapse(u[1..][..m - 1], true, false) + y; r == "" || r[0] == u[1] || IsSpace(r[0])
  {
    assert IsSpace(' ') && !IsSpace('/');
    hide Collapse, BlockTail, IsSpace;
    var v := u[1..][..m - 1];
    CollapseUnfold(v, false);
    if IsSpace(u[1]) {
      PendingCollapse(v[1..]);
      if m < |u| {
        BlockEnds(u, depth);
        assert v[m - 2] == '/' && v[1..][m - 3] == '/';
      }
    }
  }

  /** What a block comment reads after collapsing its whitespace: the same nesting, to its end. */
  lemma {:induction false} BlockCollapsed(u: string, depth: nat, pending: bool, y: string)
    requires BlockTail(u, depth) == |u| ==> y == ""
    ensures var c := Collapse(u[..BlockTail(u, depth)], true, pending); BlockTail(c + y, depth) == |c|
    decreases |u|
  {
    assert IsSpace(' ');
    hide Collapse, BlockTail, StartsWith, BlockStep, IsSpace;
    var m := BlockTail(u, depth);
    var c := Collapse(u[..m], true, pending);
    BlockUnfold(u, depth);
    CollapseUnfold(u[..m], pending);
    if |u| == 0 || depth == 0 {
      BlockUnfold(c + y, depth);
    } else if IsSpace(u[0]) {
      SpaceOpensNothing(u);
      assert u[..m][1..] == u[1..][..m - 1];
      BlockCollapsed(u[1..], depth, true, y);
    } else {
      var (w, e) := BlockStep(u, depth);
      StepIsShort(u, depth);
      BlockCollapsed(u[w..], e, false, y);
      InkCollapsed(u, depth, pending, y);
    }
  }

  lemma InkCollapsed(u: string, depth: nat, pending: bool, y: string)
    requires |u| > 0 && depth > 0 && !IsSpace(u[0])
    requires BlockTail(u, depth) == |u| ==> y == ""
    requires var (w, e) := BlockStep(u, depth);
             var d := Collapse(u[w..][..BlockTail(u[w..], e)], true, false);
             BlockTail(d + y, e) == |d|
    ensures var c := Collapse(u[..BlockTail(u, depth)], true, pending); BlockTail(c + y, depth) == |c|
  {
    hide Collapse, BlockTail, StartsWith, IsSpace;
    var m := BlockTail(u, depth);
    StepIsShort(u, depth);
    if BlockStep(u, depth).0 == 2 { OpenerStays(u, depth, y); } else { PlainStays(u, depth, y); }
    CollapseUnfold(u[..m], pending);
    CollapseUnfold(u[..m], false);
    if pending {
      var d := Collapse(u[..m], true, false);
      assert Collapse(u[..m], true, true) == " " + d;
      GapIsSkipped(d, depth, y);
    }
  }

  lemma GapIsSkipped(d: string, depth: nat, y: string)
    requires depth > 0 && BlockTail(d + y, depth) == |d|
    ensures BlockTail(" " + d + y, depth) == |" " + d|
  {
    var c := " " + d + y;
    hide BlockTail, StartsWith;
    assert c[1..] == d + y;
    SpaceOpensNothing(c);
    BlockUnfold(c, depth);
  }

  lemma StepIsShort(u: string, depth: nat)
    requires |u| > 0 && depth > 0
    ensures var (w, e) := BlockStep(u, depth);
            1 <= w <= 2 && w <= |u| && BlockTail(u, depth) == w + BlockTail(u[w..], e)
  {
    BlockUnfold(u, depth);
  }

  // ----- the front of a normal form -----

  lemma {:induction false} RunIs(t: string, p: char -> bool, m: nat)
    requires m <= |t| && (forall i :: 0 <= i < m ==> p(t[i])) && (m < |t| ==> !p(t[m]))
    ensures Run(t, p) == m
  {
    if m > 0 { RunIs(t[1..], p, m - 1); }
  }

  lemma FormOfInk(t: string, started: bool, pending: bool)
    requires |t| > 0 && !IsSpace(t[0])
    ensures var (piece, n) := FirstPiece(t);
            NormaliseFrom(t, started, pending) ==
            Gap(started, pending) + Shown(piece).text + NormaliseFrom(t[n..], true, false)
  {
    hide FirstPiece, Collapse, Gap, IsSpace;
    InkIsNoSpace(t);
  }

  /** The form of a text that starts with ink: what its first piece shows, then the rest. */
  lemma FormUnfolds(t: string, started: bool, pending: bool)
    requires |t| > 0 && !IsSpace(t[0])
    ensures var (piece, n) := FirstPiece(t);
            NormaliseFrom(t, false, false) == Shown(piece).text + NormaliseFrom(t[n..], true, false)
    ensures NormaliseFrom(t, started, pending) == Gap(started, pending) + NormaliseFrom(t, false, false)
  {
    hide FirstPiece, Collapse, IsSpace, NormaliseFrom, Shown;
    InkIsNoSpace(t);
    var (piece, n) := FirstPiece(t);
    FormOfInk(t, false, false);
    FormOfInk(t, started, pending);
    var s, r, g := Shown(piece).text, NormaliseFrom(t[n..], true, false), Gap(started, pending);
    assert "" + s + r == s + r && g + s + r == g + (s + r);
  }

  lemma RestStarts(t: string)
    requires |t| > 0 && IsSpace(t[0])
    ensures var r := NormaliseFrom(t, true, false); r == "" || IsSpace(r[0])
  {
    GapIsShown(t, false);
  }

  lemma CommentTextEnds(t: string)
    requires |t| > 0 && FirstPiece(t).0.Comment?
    ensures var n := FirstPiece(t).1; n < |t| && !IsSpace(t[n]) ==> !IsSpace(t[n - 1])
  {
    if FirstPiece(t).1 < |t| { CommentEnds(t); }
  }

  lemma PieceHead(t: string)
    requires |t| > 0 && !IsSpace(t[0])
    ensures var (piece, n) := FirstPiece(t);
            var s, k := Shown(piece).text, Run(t[..n], IsInk);
            && SameHead(t[..n], s) && (k == n ==> s == t[..n])
            && (k == |s| < n ==> n == |t| || IsSpace(t[n]))
  {
    hide LiteralLen, CommentLen;
    var (piece, n) := FirstPiece(t);
    InkIsNoSpace(t);
    var x := t[..n];
    if piece.Comment? {
      assert Collapse(x, false, false) == Collapse(x, true, false);
      CollapsedHead(x);
      CommentTextEnds(t);
      if Run(x, IsInk) < n && !IsSpace(x[n - 1]) { CollapsedGoesOn(x); }
    }
  }

  /** The front ends inside the first piece. */
  lemma HeadInPiece(t: string, n: nat, s: string, r: string)
    requires n <= |t| && SameHead(t[..n], s) && Run(t[..n], IsInk) < n
    requires Run(t[..n], IsInk) == |s| ==> r == "" || IsSpace(r[0])
    ensures SameHead(t, s + r)
  {
    hide IsSpace;
    var k := Run(t[..n], IsInk);
    assert t == t[..n] + t[n..];
    RunCut(t[..n], t[n..], IsInk);
    assert (s + r)[..k] == s[..k] && t[..k] == t[..n][..k];
  }

  /** The front goes on after the first piece. */
  lemma HeadAfterPiece(t: string, n: nat, r: string)
    requires n <= |t| && Run(t[..n], IsInk) == n && SameHead(t[n..], r)
    ensures SameHead(t, t[..n] + r)
  {
    hide IsSpace;
    var j := Run(t[n..], IsInk);
    InkRunsOn(t, n);
    assert t[..n + j] == t[..n] + t[n..][..j] && (t[..n] + r)[..n + j] == t[..n] + r[..j];
  }

  lemma {:induction false} HeadIsKept(t: string)
    requires |t| > 0 && !IsSpace(t[0])
    ensures SameHead(t, NormaliseFrom(t, false, false))
    decreases |t|
  {
    hide FirstPiece, Shown, NormaliseFrom, IsSpace, SameHead, Run, IsInk;
    var (piece, n) := FirstPiece(t);
    var s, r := Shown(piece).text, NormaliseFrom(t[n..], true, false);
    FormUnfolds(t, false, false);
    PieceHead(t);
    RestIsBlankOrGap(t, n);
    if Run(t[..n], IsInk) < n {
      HeadInPiece(t, n, s, r);
    } else {
      if n < |t| && !IsSpace(t[n]) {
        StartIsForgotten(t[n..]);
        HeadIsKept(t[n..]);
      } else {
        BlankHead(t[n..], r);
      }
      HeadAfterPiece(t, n, r);
    }
  }

  lemma BlankHead(t: string, r: string)
    requires (t == "" || IsSpace(t[0])) && (r == "" || IsSpace(r[0]))
    ensures SameHead(t, r)
  {
    assert Run(t, IsInk) == 0;
  }

  lemma RestIsBlankOrGap(t: string, n: nat)
    requires n <= |t|
    ensures n == |t| ==> NormaliseFrom(t[n..], true, false) == ""
    ensures n < |t| && IsSpace(t[n]) ==>
              var r := NormaliseFrom(t[n..], true, false); r == "" || IsSpace(r[0])
  {
    hide FirstPiece, IsSpace;
    if n < |t| && IsSpace(t[n]) { RestStarts(t[n..]); }
  }

  lemma InkRunsOn(t: string, n: nat)
    requires n <= |t| && Run(t[..n], IsInk) == n
    ensures Run(t, IsInk) == n + Run(t[n..], IsInk)
  {
    hide IsSpace;
    var j := Run(t[n..], IsInk);
    assert forall i :: 0 <= i < n ==> t[i] == t[..n][i];
    assert forall i :: n <= i < |t| ==> t[i] == t[n..][i - n];
    RunIs(t, IsInk, n + j);
  }

  // ----- a character that starts nothing still starts nothing -----

  /** The two texts agree up to the first whitespace of `t`. */
  lemma HeadAt(t: string, q: string, i: nat)
    requires SameHead(t, q) && i <= Run(t, IsInk)
    ensures i < Run(t, IsInk) ==> i < |q| && i < |t| && q[i] == t[i] && !IsSpace(t[i])
    ensures i == Run(t, IsInk) ==> (i < |q| ==> IsSpace(q[i])) && (i < |t| ==> IsSpace(t[i]))
  {
    hide IsSpace;
    var k := Run(t, IsInk);
    if i < k { assert q[i] == q[..k][i] && t[i] == t[..k][i]; }
  }

  lemma RunInFront(t: string, w: nat, p: char -> bool)
    requires w <= Run(t, IsInk) && forall c :: p(c) ==> !IsSpace(c)
    ensures w + Run(t[w..], p) <= Run(t, IsInk)
  {
    hide IsSpace;
    var k := Run(t, IsInk);
    assert k < |t| ==> !IsInk(t[k]) && t[w..][k - w] == t[k];
  }

  lemma FrontsAgree(t: string, q: string, m: nat)
    requires SameHead(t, q) && m <= Run(t, IsInk)
    ensures m <= |q| && t[..m] == q[..m]
  {
    var k := Run(t, IsInk);
    assert t[..m] == t[..k][..m] && q[..m] == q[..k][..m];
  }

  lemma RunOver(t: string, q: string, w: nat, p: char -> bool)
    requires w <= |t| && w + Run(t[w..], p) <= |q|
    requires var m := w + Run(t[w..], p); t[..m] == q[..m] && (m < |q| ==> !p(q[m]))
    ensures Run(q[w..], p) == Run(t[w..], p)
  {
    var h := Run(t[w..], p);
    hide Run;
    forall i | 0 <= i < h ensures p(q[w..][i]) {
      assert q[w..][i] == q[..w + h][w + i] && t[..w + h][w + i] == t[w..][i];
    }
    RunIs(q[w..], p, h);
  }

  /** A run of characters other than whitespace is as long in both. */
  lemma RunIsKept(t: string, q: string, w: nat, p: char -> bool)
    requires SameHead(t, q) && w <= Run(t, IsInk) && forall c :: p(c) ==> !IsSpace(c)
    ensures w <= |q|
    ensures var h := Run(t[w..], p);
            && Run(q[w..], p) == h && w + h <= Run(t, IsInk) && t[..w + h] == q[..w + h]
  {
    var m := w + Run(t[w..], p);
    RunInFront(t, w, p);
    HeadAt(t, q, m);
    FrontsAgree(t, q, m);
    assert m < |t| ==> t[w..][m - w] == t[m];
    hide IsSpace, IsInk, SameHead;
    RunOver(t, q, w, p);
  }

  lemma WordCharsAreInk()
    ensures forall c :: IsWordChar(c) ==> !IsSpace(c)
    ensures forall c :: IsHash(c) ==> !IsSpace(c)
    ensures !IsSpace('"') && !IsSpace('\'') && !IsSpace('\\') && !IsSpace('/') && !IsSpace('*')
  {
  }

  lemma WordIsKept(t: string, q: string)
    requires SameHead(t, q) && |t| > 0 && !IsSpace(t[0])
    ensures |q| > 0 && q[0] == t[0] && WordLen(q) == WordLen(t) <= Run(t, IsInk)
    ensures t[..WordLen(t)] == q[..WordLen(t)]
  {
    hide IsSpace, IsWordChar, IsWordStart;
    WordCharsAreInk();
    HeadAt(t, q, 0);
    RunIsKept(t, q, 0, IsWordChar);
    assert t[0..] == t && q[0..] == q;
  }

  /** The character at an index of the front: the same, or whitespace or the end in both. */
  lemma CharIsKept(t: string, q: string, i: nat, c: char)
    requires SameHead(t, q) && i <= Run(t, IsInk) && !IsSpace(c)
    ensures (i < |t| && t[i] == c) <==> (i < |q| && q[i] == c)
  {
    hide IsSpace;
    HeadAt(t, q, i);
  }

  lemma NoRawIsKept(t: string, q: string, w: nat)
    requires SameHead(t, q) && w <= Run(t, IsInk) && RawLen(t[w..]) == None
    ensures w <= |q| && RawLen(q[w..]) == None
  {
    hide IsSpace, Find;
    WordCharsAreInk();
    RunIsKept(t, q, w, IsHash);
    var h := Run(t[w..], IsHash);
    CharIsKept(t, q, w + h, '"');
    if h < |q[w..]| { assert q[w..][h] == q[w + h]; }
    if h < |t[w..]| { assert t[w..][h] == t[w + h]; }
  }

  lemma NoCommentIsKept(t: string, q: string)
    requires SameHead(t, q) && |t| > 0 && !IsSpace(t[0]) && CommentLen(t) == None
    ensures CommentLen(q) == None
  {
    hide IsSpace, Find, BlockTail;
    WordCharsAreInk();
    TwoCharacters(t, '/', '/');
    TwoCharacters(t, '/', '*');
    TwoCharacters(q, '/', '/');
    TwoCharacters(q, '/', '*');
    HeadAt(t, q, 0);
    assert Run(t, IsInk) > 0;
    CharIsKept(t, q, 1, '/');
    CharIsKept(t, q, 1, '*');
  }

  /** A lone quote stays one, unless whitespace and another quote follow it. */
  lemma QuoteIsKept(t: string)
    requires |t| > 0 && t[0] == '\'' && CharLen(t) == None
    ensures var q := NormaliseFrom(t, false, false);
            && |q| > 0 && q[0] == '\'' && (CharLen(q) == None <==> !QuoteAfterGap(t[1..]))
  {
    WordCharsAreInk();
    hide IsSpace, Find, FirstPiece, NormaliseFrom;
    var q := NormaliseFrom(t, false, false);
    HeadIsKept(t);
    HeadAt(t, q, 0);
    if |t| > 1 && IsSpace(t[1]) {
      QuoteGap(t);
    } else {
      CharIsKept(t, q, 1, '\\');
      if |t| > 1 {
        InkRun(t, 2);
        CharIsKept(t, q, 2, '\'');
      } else {
        OnlyInk(t);
      }
    }
  }

  /** A text of one character is its own form. */
  lemma OnlyInk(t: string)
    requires |t| == 1 && !IsSpace(t[0])
    ensures |NormaliseFrom(t, false, false)| == 1
  {
    hide FirstPiece;
    FormUnfolds(t, false, false);
    PieceHead(t);
    var (piece, n) := FirstPiece(t);
    assert t[..1] == t && t[1..] == "";
    assert Run(t, IsInk) == 1;
  }

  lemma InkRun(t: string, n: nat)
    requires n <= |t| && forall i :: 0 <= i < n ==> !IsSpace(t[i])
    ensures Run(t, IsInk) >= n
  {
    hide IsSpace;
    var k := Run(t, IsInk);
    assert k < |t| ==> !IsInk(t[k]);
  }

  lemma QuotePiece(t: string)
    requires |t| > 0 && t[0] == '\'' && CharLen(t) == None
    ensures FirstPiece(t) == (Other("'"), 1)
  {
    hide Find, BlockTail;
    assert t[..1] == "'";
    TwoCharacters(t, '/', '/');
    TwoCharacters(t, '/', '*');
  }

  lemma QuoteGap(t: string)
    requires |t| > 1 && t[0] == '\'' && CharLen(t) == None && IsSpace(t[1])
    ensures var q := NormaliseFrom(t, false, false); CharLen(q) == None <==> !QuoteAfterGap(t[1..])
  {
    WordCharsAreInk();
    QuotePiece(t);
    hide IsSpace, Find, FirstPiece, NormaliseFrom, CommentLen, LiteralLen;
    FormUnfolds(t, false, false);
    var rest := t[1..];
    GapIsShown(rest, false);
    var n := Run(rest, IsSpace);
    var q, r := NormaliseFrom(t, false, false), NormaliseFrom(rest[n..], false, false);
    if n == |rest| {
      assert q == "'";
    } else {
      FormStarts(rest[n..]);
      assert q == "'" + (" " + r) && q[1] == ' ' && q[2] == rest[n];
    }
  }

  /** Where a quote that the front piece looks at is followed by whitespace and another quote. */
  predicate LooksAtQuoteGap(t: string) {
    || (|t| > 0 && t[0] == '\'' && QuoteAfterGap(t[1..]))
    || (|t| > 1 && t[0] == 'b' && t[1] == '\'' && QuoteAfterGap(t[2..]))
  }

  lemma BytePrefix(t: string)
    requires |t| > 1 && t[0] == 'b' && t[1] == '\''
    ensures WordLen(t) == 1 && LiteralLen(t) == Beyond(1, CharLen(t[1..]))
  {
    RunIs(t, IsWordChar, 1);
    assert t[..1] == "b";
  }

  lemma ByteIsKept(t: string)
    requires |t| > 1 && t[0] == 'b' && t[1] == '\'' && FirstPiece(t).0.Other?
    ensures var q := NormaliseFrom(t, false, false); LiteralLen(q) == None <==> !QuoteAfterGap(t[2..])
    ensures FirstPiece(t[1..]) == (Other("'"), 1) && |NormaliseFrom(t, false, false)| > 0
  {
    WordCharsAreInk();
    BytePrefix(t);
    assert CharLen(t[1..]) == None;
    hide IsSpace, Find, NormaliseFrom, CommentLen, LiteralLen, Run;
    assert !IsSpace(t[0]) by { WordIsInk(t); }
    var q, r := NormaliseFrom(t, false, false), NormaliseFrom(t[1..], false, false);
    FormUnfolds(t, false, false);
    StartIsForgotten(t[1..]);
    assert q == "b" + r;
    QuotePiece(t[1..]);
    QuoteIsKept(t[1..]);
    assert t[1..][1..] == t[2..] && q[1..] == r;
    BytePrefix(q);
  }

  lemma WordIsInk(t: string)
    requires |t| > 0 && IsWordChar(t[0])
    ensures !IsSpace(t[0])
  {
  }

  /** Nothing at the word of length `w` opens a literal. */
  predicate OpensNothing(t: string, w: nat)
    requires w <= |t|
  {
    t[..w] in PREFIXES ==>
      if w > 0 && t[w - 1] == 'r' then RawLen(t[w..]) == None
      else !(w < |t| && t[w] == '"') && !(w < |t| && t[w] == '\'' && t[..w] == "b" && CharLen(t[w..]) != None)
  }

  lemma OpensNothingIff(t: string)
    requires |t| > 0 && t[0] != '"' && t[0] != '\''
    ensures LiteralLen(t) == None <==> OpensNothing(t, WordLen(t))
  {
    hide WordLen, RawLen, CharLen, StringTail;
    PrefixIsWord(t[..WordLen(t)]);
  }

  /** No literal starts at a word that is not a prefix, or a prefix without its quote. */
  lemma WordStaysPlain(t: string)
    requires |t| > 0 && !IsSpace(t[0]) && LiteralLen(t) == None && t[0] != '\''
    requires !(t[0] == 'b' && |t| > 1 && t[1] == '\'')
    ensures LiteralLen(NormaliseFrom(t, false, false)) == None
  {
    WordCharsAreInk();
    assert t[0] != '"';
    var q := NormaliseFrom(t, false, false);
    hide IsSpace, NormaliseFrom, WordLen, Run, RawLen, CharLen, StringTail, PREFIXES, LiteralLen;
    HeadIsKept(t);
    WordIsKept(t, q);
    OpensNothingIff(t);
    OpensNothingIff(q);
    var w := WordLen(t);
    if t[..w] in PREFIXES {
      PrefixIsWord(t[..w]);
      assert t[w - 1] == t[..w][w - 1] == q[..w][w - 1] == q[w - 1];
      if t[w - 1] == 'r' {
        NoRawIsKept(t, q, w);
      } else {
        CharIsKept(t, q, w, '"');
        CharIsKept(t, q, w, '\'');
        if t[..w] == "b" { ByteWord(t, w); }
      }
    }
  }

  lemma ByteWord(t: string, w: nat)
    requires w <= |t| && t[..w] == "b"
    ensures w == 1 && t[0] == 'b'
  {
    assert t[..w][0] == 'b';
  }

  /** A character that starts no literal and no comment is read back as such, unless it looks at
      a quote that whitespace separates from another: that becomes a literal. */
  lemma OtherIsKept(t: string)
    requires |t| > 0 && FirstPiece(t).0.Other?
    ensures var q := NormaliseFrom(t, false, false);
            && |q| > 0
            && (LooksAtQuoteGap(t) ==> FirstPiece(q).0.Literal?)
            && (!LooksAtQuoteGap(t) ==> FirstPiece(q) == (Other(t[..1]), 1))
  {
    OtherIsInk(t);
    var q := NormaliseFrom(t, false, false);
    hide IsSpace, NormaliseFrom, CommentLen, CharLen, Run;
    HeadIsKept(t);
    HeadAt(t, q, 0);
    assert 0 < Run(t, IsInk) by { InkRun(t, 1); }
    NoCommentIsKept(t, q);
    assert q[..1] == t[..1];
    if t[0] == '\'' {
      QuoteIsKept(t);
    } else if t[0] == 'b' && |t| > 1 && t[1] == '\'' {
      ByteIsKept(t);
    } else {
      WordStaysPlain(t);
    }
  }

  lemma OtherIsInk(t: string)
    requires |t| > 0 && FirstPiece(t).0.Other?
    ensures FirstPiece(t).1 == 1 && !IsSpace(t[0]) && LiteralLen(t) == None && CommentLen(t) == None
    ensures t[0] == '\'' ==> CharLen(t) == None
  {
  }

  // ----- one piece is read back -----

  /** Which scanner decides the front piece. */
  lemma PieceIs(t: string)
    requires |t| > 0
    ensures LiteralLen(t).Some? ==> var n := LiteralLen(t).value; FirstPiece(t) == (Literal(t[..n]), n)
    ensures LiteralLen(t) == None && !IsSpace(t[0]) && CommentLen(t).Some? ==>
              var n := CommentLen(t).value; FirstPiece(t) == (Comment(t[..n]), n)
    ensures FirstPiece(t).0.Literal? ==> LiteralLen(t).Some?
    ensures FirstPiece(t).0.Comment? ==> LiteralLen(t) == None && !IsSpace(t[0]) && CommentLen(t).Some?
  {
    hide LiteralLen, CommentLen, IsSpace;
  }

  lemma LiteralIsKept(t: string)
    requires |t| > 0 && FirstPiece(t).0.Literal?
    ensures !IsSpace(t[0])
    ensures var q := NormaliseFrom(t, false, false); |q| > 0 && FirstPiece(q) == FirstPiece(t)
  {
    hide NormaliseFrom, LiteralLen, CommentLen, IsSpace, FirstPiece, Collapse;
    PieceIs(t);
    LiteralIsInk(t);
    FormUnfolds(t, false, false);
    var m := LiteralLen(t).value;
    var r := NormaliseFrom(t[m..], true, false);
    var q := t[..m] + r;
    if m < |t| {
      LiteralFixed(t, r);
    } else {
      RestIsBlankOrGap(t, m);
      assert q == t;
    }
    assert q[..m] == t[..m];
    PieceIs(q);
  }

  lemma LiteralIsInk(t: string)
    requires |t| > 0 && LiteralLen(t).Some?
    ensures !IsSpace(t[0])
  {
    hide StringTail, CharLen, RawLen, Run;
    assert t[..0] == "";
  }

  lemma NoLiteralAtSlash(t: string)
    requires |t| > 0 && t[0] == '/'
    ensures LiteralLen(t) == None && !IsSpace(t[0])
  {
    assert t[..0] == "";
  }

  lemma CommentOpens(t: string)
    requires CommentLen(t).Some?
    ensures |t| >= 2 && t[0] == '/' && (t[1] == '/' || t[1] == '*')
    ensures StartsWith(t, "//") <==> t[1] == '/'
    ensures t[1] == '*' ==> CommentLen(t) == Some(2 + BlockTail(t[2..], 1))
  {
    hide Find, BlockTail;
    TwoCharacters(t, '/', '/');
    TwoCharacters(t, '/', '*');
  }

  lemma LineLen(t: string)
    requires |t| >= 2 && t[0] == '/' && t[1] == '/'
    ensures CommentLen(t) == if Find(t, "\n").Some? then Find(t, "\n") else Some(|t|)
  {
    hide Find, BlockTail;
    TwoCharacters(t, '/', '/');
  }

  lemma BlockLen(t: string)
    requires |t| >= 2 && t[0] == '/' && t[1] == '*'
    ensures CommentLen(t) == Some(2 + BlockTail(t[2..], 1))
  {
    hide Find, BlockTail;
    TwoCharacters(t, '/', '/');
    TwoCharacters(t, '/', '*');
  }

  /** The collapsed text of a comment opens like the comment. */
  lemma CollapsedOpens(c: string)
    requires |c| >= 2 && c[0] == '/' && (c[1] == '/' || c[1] == '*')
    ensures Collapse(c, false, false) == c[..2] + Collapse(c[2..], true, false)
  {
    assert !IsSpace('/') && !IsSpace('*');
    hide IsSpace, Collapse;
    CollapseInk(c);
    CollapseUnfold(c[1..], false);
    assert c[1..][1..] == c[2..];
    var d := Collapse(c[2..], true, false);
    assert [c[0]] + ("" + [c[1]] + d) == c[..2] + d;
  }

  lemma CommentText(t: string, n: nat)
    requires 2 <= n <= |t| && t[0] == '/' && (t[1] == '/' || t[1] == '*')
    ensures Collapse(t[..n], false, false) == t[..2] + Collapse(t[2..n], true, false)
  {
    hide Collapse;
    CollapsedOpens(t[..n]);
    assert t[..n][2..] == t[2..n] && t[..n][..2] == t[..2];
  }

  lemma CommentFront(t: string)
    requires |t| > 0 && FirstPiece(t).0.Comment?
    ensures CommentLen(t).Some? && FirstPiece(t) == (Comment(t[..CommentLen(t).value]), CommentLen(t).value)
    ensures |t| >= 2 && t[0] == '/' && (t[1] == '/' || t[1] == '*') && !IsSpace(t[0])
  {
    hide LiteralLen, IsSpace, FirstPiece, CommentLen;
    PieceIs(t);
    CommentOpens(t);
  }

  /** The form of a text that starts with a comment. */
  lemma CommentForm(t: string)
    requires |t| > 0 && FirstPiece(t).0.Comment?
    ensures CommentLen(t).Some? && FirstPiece(t) == (Comment(t[..CommentLen(t).value]), CommentLen(t).value)
    ensures |t| >= 2 && t[0] == '/' && (t[1] == '/' || t[1] == '*') && !IsSpace(t[0])
    ensures var n := CommentLen(t).value;
            var s := Collapse(t[..n], false, false);
            && n >= 2 && s == t[..2] + Collapse(t[2..n], true, false)
            && Shown(FirstPiece(t).0) == Comment(s)
            && NormaliseFrom(t, false, false) == s + NormaliseFrom(t[n..], true, false)
  {
    hide NormaliseFrom, LiteralLen, IsSpace, FirstPiece, Collapse, CommentLen;
    CommentFront(t);
    FormUnfolds(t, false, false);
    CommentText(t, CommentLen(t).value);
  }

  lemma BlockCommentIsKept(t: string)
    requires |t| > 0 && FirstPiece(t).0.Comment? && t[1] == '*'
    ensures var q, s := NormaliseFrom(t, false, false), Shown(FirstPiece(t).0).text;
            CommentLen(q) == Some(|s|) && q[..|s|] == s
  {
    hide NormaliseFrom, LiteralLen, IsSpace, Collapse, FirstPiece, Shown, CommentLen, BlockTail;
    CommentForm(t);
    CommentOpens(t);
    var n, u := CommentLen(t).value, t[2..];
    var r := NormaliseFrom(t[n..], true, false);
    RestIsBlankOrGap(t, n);
    assert t[2..n] == u[..n - 2];
    BlockCollapsed(u, 1, false, r);
    var d := Collapse(u[..n - 2], true, false);
    var q := (t[..2] + d) + r;
    assert q[2..] == d + r && q[0] == t[0] && q[1] == t[1];
    BlockLen(q);
    assert q[..2 + |d|] == t[..2] + d;
  }

  /** A line comment that nothing but whitespace follows is read back. */
  lemma LineCommentIsKept(t: string)
    requires |t| > 0 && FirstPiece(t).0.Comment? && t[1] == '/' && AllSpace(t[FirstPiece(t).1..])
    ensures var q, s := NormaliseFrom(t, false, false), Shown(FirstPiece(t).0).text;
            CommentLen(q) == Some(|s|) && q[..|s|] == s
  {
    hide NormaliseFrom, LiteralLen, IsSpace, Collapse, FirstPiece, Shown, CommentLen;
    CommentForm(t);
    var n := CommentLen(t).value;
    BlankHasNoForm(t[n..], true, false);
    CollapseHasNoNewline(t[..n], false, false);
    var s := Collapse(t[..n], false, false);
    NotFound(s, '\n');
    assert s + "" == s && s[..|s|] == s && s[0] == t[..2][0] && s[1] == t[..2][1];
    LineLen(s);
  }

  /** A line comment with more after it takes at least the start of that with it. */
  lemma LineCommentGrows(t: string)
    requires |t| > 0 && FirstPiece(t).0.Comment? && t[1] == '/' && !AllSpace(t[FirstPiece(t).1..])
    ensures var q, s := NormaliseFrom(t, false, false), Shown(FirstPiece(t).0).text;
            && CommentLen(q).Some? && CommentLen(q).value >= |s| + 2
            && |q| >= |s| + 2 && q[..|s|] == s && !IsSpace(q[|s| + 1])
  {
    assert IsSpace('\n');
    hide NormaliseFrom, LiteralLen, Collapse, FirstPiece, Shown, CommentLen, IsSpace;
    CommentForm(t);
    CommentOpens(t);
    CommentEnds(t);
    var n := CommentLen(t).value;
    var rest := t[n..];
    assert rest[0] == '\n';
    GapIsShown(rest, false);
    InkAfterGap(rest);
    var k := Run(rest, IsSpace);
    FormStarts(rest[k..]);
    CollapseHasNoNewline(t[..n], false, false);
    var s, f := Collapse(t[..n], false, false), NormaliseFrom(rest[k..], false, false);
    NoLineEndIn(s, f);
    LineLen(s + (" " + f));
  }

  lemma InkAfterGap(t: string)
    requires !AllSpace(t)
    ensures Run(t, IsSpace) < |t| && !IsSpace(t[Run(t, IsSpace)])
  {
    hide IsSpace;
  }

  lemma NoLineEndIn(s: string, f: string)
    requires '\n' !in s && |s| >= 2 && f != "" && f[0] != '\n'
    ensures var q := s + (" " + f);
            && q[0] == s[0] && q[1] == s[1] && q[..|s|] == s && q[|s| + 1] == f[0]
            && (Find(q, "\n").Some? ==> Find(q, "\n").value >= |s| + 2)
  {
    var q := s + (" " + f);
    forall i | 0 <= i < |s| + 2 ensures q[i] != '\n' {
      if i < |s| { assert q[i] == s[i] && s[i] in s; }
    }
    FindNotBefore(q, "\n", |s| + 2);
  }

  // ----- the whole text is read back -----

  /** The front piece of `t` is read back from the normal form. */
  predicate FrontKept(t: string)
    requires |t| > 0
  {
    var q, p := NormaliseFrom(t, false, false), Shown(FirstPiece(t).0);
    !p.Space? && |q| > 0 && FirstPiece(q) == (p, |p.text|)
  }

  /** Something else is. */
  predicate FrontLost(t: string)
    requires |t| > 0
  {
    var q, p := NormaliseFrom(t, false, false), Shown(FirstPiece(t).0);
    |q| > 0 && !IsSpace(q[0]) && Shown(FirstPiece(q).0) != p
  }

  lemma {:induction false} InkCount(t: string, s: string, n: nat)
    requires |s| + 2 <= n <= |t| && t[..|s|] == s && !IsSpace(t[|s| + 1])
    ensures Ink(t[..n]) != Ink(s)
  {
    var m := |s| + 1;
    assert t[..n] == s + ([t[|s|]] + ([t[m]] + t[m + 1..n]));
    InkConcat(s, [t[|s|]] + ([t[m]] + t[m + 1..n]));
    InkConcat([t[|s|]], [t[m]] + t[m + 1..n]);
    InkConcat([t[m]], t[m + 1..n]);
    assert [t[m]][1..] == "" && |Ink([t[m]])| == 1;
  }

  lemma CommentIsKept(t: string)
    requires |t| > 0 && FirstPiece(t).0.Comment?
    ensures StartsWith(t, "//") <==> t[1] == '/'
    ensures StartsWith(t, "//") && !AllSpace(t[FirstPiece(t).1..]) ==> FrontLost(t)
    ensures !(StartsWith(t, "//") && !AllSpace(t[FirstPiece(t).1..])) ==> FrontKept(t)
  {
    hide NormaliseFrom, LiteralLen, IsSpace, Collapse, FirstPiece, CommentLen, AllSpace, Ink;
    CommentForm(t);
    CommentOpens(t);
    var n := CommentLen(t).value;
    var q, s := NormaliseFrom(t, false, false), Collapse(t[..n], false, false);
    assert q[0] == s[0] == '/';
    NoLiteralAtSlash(q);
    PieceIs(q);
    CollapseIsStable(t[..n], false, false);
    if t[1] == '*' {
      BlockCommentIsKept(t);
    } else if AllSpace(t[n..]) {
      LineCommentIsKept(t);
    } else {
      LineCommentGrows(t);
      var m := CommentLen(q).value;
      InkCount(q, s, m);
      CollapseKeepsInk(q[..m], false, false);
      CollapseKeepsInk(s, false, false);
    }
  }

  /** What decides whether the front piece is read back. */
  predicate FrontTidy(t: string)
    requires |t| > 0
  {
    var (piece, n) := FirstPiece(t);
    && (piece.Comment? && StartsWith(t, "//") ==> AllSpace(t[n..]))
    && (piece.Other? ==> !LooksAtQuoteGap(t))
  }

  lemma FrontIsKeptIff(t: string)
    requires |t| > 0 && !IsSpace(t[0])
    ensures if FrontTidy(t) then FrontKept(t) else FrontLost(t)
  {
    hide NormaliseFrom, LiteralLen, IsSpace, Collapse, FirstPiece, CommentLen, AllSpace, LooksAtQuoteGap;
    InkIsNoSpace(t);
    FormStarts(t);
    var q := NormaliseFrom(t, false, false);
    match FirstPiece(t).0
    case Comment(_) => CommentIsKept(t);
    case Literal(_) => LiteralIsKept(t);
    case Other(_) =>
      OtherIsInk(t);
      OtherIsKept(t);
      ShownStarts(q);
  }

  /** A piece that looks at a bad quote is that quote or stands before it. */
  lemma TidyIsFrontTidy(t: string)
    requires |t| > 0 && !IsSpace(t[0])
    ensures Tidy(t) <==> FrontTidy(t) && Tidy(t[FirstPiece(t).1..])
  {
    hide NormaliseFrom, LiteralLen, IsSpace, Collapse, CommentLen, AllSpace, QuoteAfterGap, FirstPiece;
    InkIsNoSpace(t);
    var (piece, n) := FirstPiece(t);
    if piece.Other? {
      OtherIsInk(t);
      assert t[..1] == [t[0]];
      if |t| > 1 && t[0] == 'b' && t[1] == '\'' {
        ByteIsKept(t);
        assert t[1..][1..] == t[2..];
      }
    }
  }

  lemma TokensUnfold(t: string, started: bool, pending: bool)
    requires |t| > 0 && !IsSpace(t[0])
    ensures var (piece, n) := FirstPiece(t);
            Tokens(t, started, pending) == [Token(started && pending, Shown(piece))] + Tokens(t[n..], true, false)
  {
    InkIsNoSpace(t);
  }

  lemma GapIsRead(q: string, started: bool, pending: bool)
    ensures Tokens(Gap(started, pending) + q, started, false) == Tokens(q, started, started && pending)
  {
    hide FirstPiece;
    if started && pending {
      var t := " " + q;
      SpaceIsSpace(t);
      assert t[1..] == q;
    } else {
      assert "" + q == q;
    }
  }

  lemma SameTokens(a: Token, x: seq<Token>, b: Token, y: seq<Token>)
    ensures [a] + x == [b] + y <==> a == b && x == y
  {
    if [a] + x == [b] + y {
      assert a == ([a] + x)[0] == ([b] + y)[0] == b;
      assert x == ([a] + x)[1..] == ([b] + y)[1..] == y;
    }
  }

  /** The tokens of a text are read back from its normal form exactly when it is tidy. */
  lemma {:induction false} ReadsBackFrom(t: string, started: bool, pending: bool)
    ensures Tokens(NormaliseFrom(t, started, pending), started, false) == Tokens(t, started, pending) <==> Tidy(t)
    decreases |t|
  {
    hide FirstPiece, NormaliseFrom, Tokens, Shown, FrontTidy, IsSpace, Tidy, Gap;
    if |t| == 0 {
      assert t == "";
      EmptyIsTidy(started, pending);
      EmptyIsTidy(started, false);
    } else if IsSpace(t[0]) {
      SpaceIsRead(t, started, pending);
      ReadsBackFrom(t[1..], started, true);
    } else {
      var (piece, n) := FirstPiece(t);
      var q, s, r := NormaliseFrom(t, false, false), Shown(piece).text, NormaliseFrom(t[n..], true, false);
      FormUnfolds(t, started, pending);
      GapIsRead(q, started, pending);
      FrontIsKeptIff(t);
      TidyIsFrontTidy(t);
      TokensUnfold(t, started, pending);
      FormStarts(t);
      TokensUnfold(q, started, started && pending);
      var front := FirstPiece(q);
      SameTokens(Token(started && started && pending, Shown(front.0)), Tokens(q[front.1..], true, false),
                 Token(started && pending, Shown(piece)), Tokens(t[n..], true, false));
      if FrontTidy(t) {
        assert q[|s|..] == r;
        ShownTwice(piece);
        ReadsBackFrom(t[n..], true, false);
      }
    }
  }

  lemma ShownTwice(p: Piece)
    ensures Shown(Shown(p)) == Shown(p)
  {
    hide Collapse;
    if p.Comment? { CollapseIsStable(p.text, false, false); }
  }

  lemma EmptyIsTidy(started: bool, pending: bool)
    ensures NormaliseFrom("", started, pending) == "" && Tokens("", started, pending) == [] && Tidy("")
  {
  }

  lemma SpaceIsRead(t: string, started: bool, pending: bool)
    requires |t| > 0 && IsSpace(t[0])
    ensures NormaliseFrom(t, started, pending) == NormaliseFrom(t[1..], started, true)
    ensures Tokens(t, started, pending) == Tokens(t[1..], started, true)
    ensures Tidy(t) <==> Tidy(t[1..])
  {
    hide FirstPiece;
    SpaceIsSpace(t);
  }

  // ----- the main results -----

  /** A text is read back from its normal form exactly when it is tidy. */
  lemma ReadsBackIff(t: string)
    ensures TokensOf(Normalise(t)) == TokensOf(t) <==> Tidy(t)
  {
    ReadsBackFrom(t, false, false);
  }

  /** Tidy texts have the same normal form exactly when they have the same tokens: the same
      literals, byte for byte, the same comments up to whitespace inside them, the same other
      characters, with whitespace in the same places. */
  lemma SameFormMeansSameTokens(a: string, b: string)
    requires Tidy(a) && Tidy(b)
    ensures Normalise(a) == Normalise(b) <==> TokensOf(a) == TokensOf(b)
  {
    hide Normalise, Tidy, Print, Tokens, NormaliseFrom;
    ReadsBackIff(a);
    ReadsBackIff(b);
    if TokensOf(a) == TokensOf(b) {
      FormIsPrint(a);
      FormIsPrint(b);
    }
  }

  lemma FormIsPrint(t: string)
    ensures Normalise(t) == Print(TokensOf(t))
  {
    FormPrintsTokens(t, false, false);
  }

  /** The normal form of a tidy text is its own. */
  lemma TidyFormIsStable(t: string)
    requires Tidy(t)
    ensures Normalise(Normalise(t)) == Normalise(t)
  {
    hide Normalise, Tidy, Print, Tokens;
    ReadsBackIff(t);
    FormIsPrint(t);
    FormIsPrint(Normalise(t));
  }

  /** Of two texts with one normal form, the first tidy, the tokens are the same exactly when the
      second is tidy too. */
  lemma TidyTwinIff(a: string, b: string)
    requires Tidy(a) && Normalise(a) == Normalise(b)
    ensures TokensOf(a) == TokensOf(b) <==> Tidy(b)
  {
    hide Normalise, Tidy, TokensOf;
    ReadsBackIff(a);
    ReadsBackIff(b);
  }

  /** A tidy text whose tokens are those of another has its normal form, and the other is tidy. */
  lemma SameTokensIff(a: string, b: string)
    requires Tidy(a)
    ensures TokensOf(a) == TokensOf(b) <==> Normalise(a) == Normalise(b) && Tidy(b)
  {
    hide Normalise, Tidy, TokensOf, Print;
    FormIsPrint(a);
    FormIsPrint(b);
    if Normalise(a) == Normalise(b) { TidyTwinIff(a, b); }
  }

  /** Which texts can be mistaken for a tidy one with other tokens: exactly those that are not tidy
      and whose normal form is its own. */
  lemma HasTidyTwinIff(b: string)
    ensures (exists a :: Tidy(a) && Normalise(a) == Normalise(b) && TokensOf(a) != TokensOf(b)) <==>
            !Tidy(b) && Normalise(Normalise(b)) == Normalise(b)
  {
    hide Normalise, Tidy, TokensOf, Print;
    var n := Normalise(b);
    ReadsBackIff(b);
    ReadsBackIff(n);
    FormIsPrint(n);
    if a :| Tidy(a) && Normalise(a) == n && TokensOf(a) != TokensOf(b) {
      TidyTwinIff(a, b);
      TidyFormIsStable(a);
    }
    if !Tidy(b) && Normalise(n) == n {
      assert Tidy(n) && TokensOf(n) != TokensOf(b);
    }
  }

  // ----- what happens to a text that is not tidy -----

  lemma LineComment(c: string, r: string)
    requires |c| >= 2 && c[0] == '/' && c[1] == '/' && '\n' !in c && (r == "" || r[0] == '\n')
    ensures FirstPiece(c + r) == (Comment(c), |c|) && !IsSpace((c + r)[0]) && (c + r)[|c|..] == r
  {
    hide LiteralLen, CommentLen, IsSpace, FirstPiece;
    var t := c + r;
    NoLiteralAtSlash(t);
    LineLen(t);
    if r == "" {
      assert t == c;
      NotFound(t, '\n');
    } else {
      FoundFirst(t, '\n', |c|);
    }
    PieceIs(t);
    assert t[..|c|] == c;
  }

  lemma {:induction false} FoundFirst(t: string, c: char, n: nat)
    requires n < |t| && t[n] == c && forall i :: 0 <= i < n ==> t[i] != c
    ensures Find(t, [c]) == Some(n)
  {
    assert t[..1] == [t[0]];
    if n > 0 { FoundFirst(t[1..], c, n - 1); }
  }

  lemma JoinFront(r: string)
    ensures var t := "//\n" + r;
            !IsSpace(t[0]) && FirstPiece(t) == (Comment("//"), 2) && t[2..] == "\n" + r
  {
    hide FirstPiece, IsSpace;
    assert "//\n" + r == "//" + ("\n" + r);
    LineComment("//", "\n" + r);
  }

  lemma JoinedRest(r: string)
    requires r != "" && !IsSpace(r[0])
    ensures NormaliseFrom("\n" + r, true, false) == " " + NormaliseFrom(r, false, false)
    ensures Tokens("\n" + r, true, false) == Tokens(r, true, true) && |Tokens(r, true, true)| > 0
  {
    assert IsSpace('\n');
    hide FirstPiece, NormaliseFrom, Tokens, IsSpace;
    var rest := "\n" + r;
    assert rest[1..] == r && rest[0] == '\n';
    RunIs(rest, IsSpace, 1);
    GapIsShown(rest, false);
    SpaceIsRead(rest, true, false);
    TokensUnfold(r, true, true);
  }

  /** Code on the line after a line comment is joined to the comment. */
  lemma CodeJoinsComment(r: string)
    requires r != "" && !IsSpace(r[0])
    ensures Normalise("//\n" + r) == "// " + Normalise(r)
    ensures |TokensOf("//\n" + r)| >= 2
  {
    hide FirstPiece, NormaliseFrom, Tokens, IsSpace, Collapse, Shown;
    var t := "//\n" + r;
    JoinFront(r);
    JoinedRest(r);
    FormUnfolds(t, false, false);
    TokensUnfold(t, false, false);
    BareComment();
    assert "//" + (" " + NormaliseFrom(r, false, false)) == "// " + NormaliseFrom(r, false, false);
  }

  lemma BareComment()
    ensures Shown(Comment("//")) == Comment("//")
  {
    CollapsedOpens("//");
    assert "//"[2..] == "" && "//"[..2] == "//";
  }

  /** The same code behind the comment on its line. */
  lemma CommentedOutForm(r: string)
    requires r != "" && !IsSpace(r[0]) && '\n' !in r
    ensures Normalise("// " + r) == "// " + Collapse(r, false, false)
    ensures |TokensOf("// " + r)| == 1
  {
    hide FirstPiece, NormaliseFrom, Tokens, IsSpace, Collapse, Normalise;
    var t := "// " + r;
    assert t + "" == t;
    LineComment(t, "");
    OnePiece(t);
    assert t[|t|..] == "";
    TokensUnfold(t, false, false);
    EmptyIsTidy(true, false);
    CollapsedRemark(r);
  }

  lemma CollapsedRemark(r: string)
    requires r != "" && !IsSpace(r[0])
    ensures Collapse("// " + r, false, false) == "// " + Collapse(r, false, false)
  {
    assert IsSpace(' ');
    hide IsSpace, Collapse;
    var t, gap := "// " + r, " " + r;
    CollapsedOpens(t);
    RemarkParts(t, r);
    assert gap[1..] == r;
    CollapseUnfold(gap, false);
    CollapseInk(r);
    RemarkParts("// " + Collapse(r, false, false), Collapse(r, false, false));
    var u := "// " + Collapse(r, false, false);
    assert u == u[..2] + u[2..];
  }

  lemma RemarkParts(t: string, r: string)
    requires t == "// " + r
    ensures t[..2] == "//" && t[2..] == " " + r
  {
  }

  lemma CollapseInk(r: string)
    requires r != "" && !IsSpace(r[0])
    ensures Collapse(r, false, false) == [r[0]] + Collapse(r[1..], true, false)
    ensures Collapse(r, true, true) == " " + Collapse(r, false, false)
  {
    hide IsSpace;
  }

  /** Commenting out code that stands after an empty line comment cannot be seen: two texts with
      different tokens and one normal form. */
  lemma CommentingOutIsInvisible(r: string)
    requires r != "" && !IsSpace(r[0]) && '\n' !in r && Normalise(r) == Collapse(r, false, false)
    ensures Normalise("//\n" + r) == Normalise("// " + r)
    ensures TokensOf("//\n" + r) != TokensOf("// " + r)
  {
    hide Normalise, TokensOf, Collapse;
    CodeJoinsComment(r);
    CommentedOutForm(r);
  }

  lemma JoinedSemicolon()
    ensures Normalise("//\n;") == Normalise("// ;") && TokensOf("//\n;") != TokensOf("// ;")
  {
    OneOther(';');
    CommentingOutIsInvisible(";");
    assert "//\n" + ";" == "//\n;" && "// " + ";" == "// ;";
  }

  lemma OnePiece(t: string)
    requires t != "" && !IsSpace(t[0]) && FirstPiece(t).1 == |t|
    ensures Normalise(t) == Shown(FirstPiece(t).0).text
  {
    hide FirstPiece, Collapse, IsSpace;
    FormUnfolds(t, false, false);
    assert t[|t|..] == "";
    BlankHasNoForm("", true, false);
  }

  lemma OneOther(c: char)
    requires c == ';'
    ensures Normalise([c]) == [c] == Collapse([c], false, false) && !IsSpace(c)
  {
    var t := [c];
    assert t[1..] == "" && t[..1] == t && t[..0] == "";
    TwoCharacters(t, '/', '/');
    TwoCharacters(t, '/', '*');
    assert FirstPiece(t) == (Other(t), 1);
    OnePiece(t);
  }
}
