/** Normalising twice: which normal forms are their own. */
module FormStability {
  import opened Options
  import opened Text
  import opened RustScan
  import opened Normaliser
  import opened NormalForm

  /** Reading the form of `t` gives that form again. */
  predicate StableFrom(t: string, started: bool, pending: bool) {
    NormaliseFrom(NormaliseFrom(t, started, pending), started, false) == NormaliseFrom(t, started, pending)
  }

  // ----- tidy pieces in front do not matter -----

  lemma GapIsFormed(q: string, started: bool, pending: bool)
    ensures NormaliseFrom(Gap(started, pending) + q, started, false) == NormaliseFrom(q, started, started && pending)
  {
    hide FirstPiece, Collapse;
    if started && pending {
      var t := " " + q;
      SpaceIsSpace(t);
      assert t[1..] == q;
    } else {
      assert "" + q == q;
    }
  }

  lemma SameEnds(a: string, b: string, c: string)
    ensures a + b == a + c <==> b == c
  {
    if a + b == a + c { assert b == (a + b)[|a|..] == (a + c)[|a|..] == c; }
  }

  /** The form of a text read after what came before it. */
  lemma FormTwice(t: string, started: bool, pending: bool)
    requires |t| > 0 && !IsSpace(t[0])
    ensures var q := NormaliseFrom(t, false, false);
            && NormaliseFrom(t, started, pending) == Gap(started, pending) + q
            && NormaliseFrom(Gap(started, pending) + q, started, false) ==
               Gap(started, pending) + NormaliseFrom(q, false, false)
  {
    hide FirstPiece, NormaliseFrom, Shown, IsSpace;
    var q := NormaliseFrom(t, false, false);
    FormUnfolds(t, started, pending);
    FormStarts(t);
    GapIsFormed(q, started, pending);
    FormUnfolds(q, started, started && pending);
  }

  lemma StableFromInk(t: string, started: bool, pending: bool)
    requires |t| > 0 && !IsSpace(t[0])
    ensures StableFrom(t, started, pending) <==> StableFrom(t, false, false)
  {
    hide FirstPiece, NormaliseFrom, IsSpace, Gap;
    var q := NormaliseFrom(t, false, false);
    FormTwice(t, started, pending);
    SameEnds(Gap(started, pending), NormaliseFrom(q, false, false), q);
  }

  lemma StableStep(t: string)
    requires |t| > 0 && !IsSpace(t[0]) && FrontTidy(t)
    ensures StableFrom(t, false, false) <==> StableFrom(t[FirstPiece(t).1..], true, false)
  {
    hide FirstPiece, NormaliseFrom, Shown, IsSpace, FrontTidy;
    var (piece, n) := FirstPiece(t);
    var s, r := Shown(piece).text, NormaliseFrom(t[n..], true, false);
    FormUnfolds(t, false, false);
    FrontIsKeptIff(t);
    FormStarts(t);
    var q := NormaliseFrom(t, false, false);
    FormUnfolds(q, false, false);
    ShownTwice(piece);
    assert q[|s|..] == r;
    SameEnds(s, NormaliseFrom(r, true, false), r);
  }

  lemma StableSpace(t: string, started: bool, pending: bool)
    requires |t| > 0 && IsSpace(t[0])
    ensures StableFrom(t, started, pending) <==> StableFrom(t[1..], started, true)
  {
    hide FirstPiece, NormaliseFrom, IsSpace;
    SpaceIsRead(t, started, pending);
  }

  /** Reading `t` stops at index `k`, and every piece before is read back. */
  predicate TidyTo(t: string, k: nat)
    requires k <= |t|
    decreases |t|
  {
    k > 0 ==> FrontTidy(t) && FirstPiece(t).1 <= k && TidyTo(t[FirstPiece(t).1..], k - FirstPiece(t).1)
  }

  /** What has been put out and what is pending at that index. */
  function StateAt(t: string, k: nat, started: bool, pending: bool): (bool, bool)
    requires k <= |t| && TidyTo(t, k)
    decreases |t|
  {
    if k == 0 then (started, pending)
    else
      var (piece, n) := FirstPiece(t);
      if piece.Space? then StateAt(t[n..], k - n, started, true) else StateAt(t[n..], k - n, true, false)
  }

  /** Behind a tidy front it is the rest that decides. */
  lemma {:induction false} StableTail(t: string, k: nat, started: bool, pending: bool)
    requires k <= |t| && TidyTo(t, k)
    ensures var (s, p) := StateAt(t, k, started, pending);
            StableFrom(t, started, pending) <==> StableFrom(t[k..], s, p)
    decreases |t|
  {
    hide FirstPiece, StableFrom, FrontTidy, IsSpace;
    if k == 0 {
      assert t[0..] == t;
    } else {
      var (piece, n) := FirstPiece(t);
      assert t[n..][k - n..] == t[k..];
      if IsSpace(t[0]) {
        SpaceIsSpace(t);
        StableSpace(t, started, pending);
        StableTail(t[1..], k - 1, started, true);
      } else {
        InkIsNoSpace(t);
        StableFromInk(t, started, pending);
        StableStep(t);
        StableTail(t[n..], k - n, true, false);
      }
    }
  }

  // ----- a line comment joined with what follows it -----

  lemma {:induction false} CollapseIsShort(t: string, started: bool, pending: bool)
    ensures |Collapse(t, started, pending)| <= |t| + (if pending then 1 else 0)
  {
    hide Collapse, IsSpace;
    CollapseStep(t, started, pending);
    if t != "" {
      CollapseIsShort(t[1..], started, true);
      CollapseIsShort(t[1..], true, false);
    }
  }

  lemma {:induction false} CollapseEnds(t: string, started: bool, pending: bool)
    ensures var c := Collapse(t, started, pending); c != "" ==> !IsSpace(c[|c| - 1])
  {
    hide Collapse, IsSpace;
    CollapseStep(t, started, pending);
    if t != "" {
      CollapseEnds(t[1..], started, true);
      CollapseEnds(t[1..], true, false);
    }
  }

  /** Collapsing over a gap: what is before, a space, what is after. */
  lemma {:induction false} CollapseOver(d: string, f: string, pending: bool)
    requires d != "" && !IsSpace(d[|d| - 1]) && f != "" && !IsSpace(f[0])
    ensures Collapse(d + (" " + f), true, pending) ==
            Collapse(d, true, pending) + (" " + Collapse(f, false, false))
  {
    assert IsSpace(' ');
    hide Collapse, IsSpace;
    var t := d + (" " + f);
    CollapseUnfold(t, pending);
    CollapseUnfold(d, pending);
    assert t[1..] == d[1..] + (" " + f);
    if |d| > 1 {
      CollapseOver(d[1..], f, IsSpace(d[0]));
    } else {
      var gap := " " + f;
      assert d[1..] == "" && t[1..] == gap && gap[1..] == f;
      CollapseUnfold("", false);
      CollapseUnfold(gap, false);
      CollapseInk(f);
    }
  }

  lemma {:induction false} NoInkIsAllSpace(t: string)
    requires Ink(t) == ""
    ensures AllSpace(t)
  {
    if t != "" {
      NoInkIsAllSpace(t[1..]);
      assert forall i :: 0 < i < |t| ==> t[i] == t[1..][i - 1];
    }
  }

  /** A shorter text with the same ink and one space after it does not spell the longer one with
      a line end after it. */
  lemma SpacesDiffer(v: string, rest: string, d: string, r: string)
    requires |d| <= |v| && Ink(d) == Ink(v) && rest != "" && rest[0] == '\n'
    requires r == "" || (|r| >= 2 && r[0] == ' ' && !IsSpace(r[1]))
    ensures d + r != v + rest
  {
    assert IsSpace('\n');
    hide IsSpace, Ink;
    var u, t := d + r, v + rest;
    assert u[..|d|] == d && t[..|d|] == v[..|d|];
    if r == "" {
      assert |u| < |t|;
    } else if d == v[..|d|] {
      var e := v[|d|..];
      assert v == d + e;
      InkConcat(d, e);
      assert |Ink(d + e)| == |Ink(d)| + |Ink(e)|;
      NoInkIsAllSpace(e);
      assert u[|d|] == ' ' && u[|d| + 1] == r[1];
      assert t[|d|] == if e == "" then rest[0] else e[0];
      assert |e| > 1 ==> t[|d| + 1] == e[1];
      assert |e| == 1 ==> t[|d| + 1] == rest[0];
    }
  }

  /** The form of the rest of a text that starts with whitespace: a gap and ink, or nothing. */
  lemma GapForm(rest: string)
    requires rest != "" && IsSpace(rest[0])
    ensures var r := NormaliseFrom(rest, true, false);
            r == "" || (|r| >= 2 && r[0] == ' ' && !IsSpace(r[1]))
  {
    hide FirstPiece, NormaliseFrom, IsSpace, Run;
    GapIsShown(rest, false);
    var k := Run(rest, IsSpace);
    if k < |rest| {
      InkAtRun(rest);
      FormStarts(rest[k..]);
    }
  }

  lemma LineForm(v: string, rest: string)
    requires |v| >= 2 && v[0] == '/' && v[1] == '/' && '\n' !in v && (rest == "" || rest[0] == '\n')
    ensures NormaliseFrom(v + rest, false, false) == Collapse(v, false, false) + NormaliseFrom(rest, true, false)
  {
    hide FirstPiece, NormaliseFrom, Collapse, IsSpace;
    LineComment(v, rest);
    FormUnfolds(v + rest, false, false);
  }

  /** A text that starts with a line comment and goes on after it is not its own form: the line
      end is lost. */
  lemma LineEndIsLost(v: string, rest: string)
    requires |v| >= 2 && v[0] == '/' && v[1] == '/' && '\n' !in v && rest != "" && rest[0] == '\n'
    ensures NormaliseFrom(v + rest, false, false) != v + rest
  {
    assert IsSpace('\n');
    hide NormaliseFrom, Collapse, IsSpace, Ink;
    LineForm(v, rest);
    CollapseIsShort(v, false, false);
    CollapseKeepsInk(v, false, false);
    GapForm(rest);
    SpacesDiffer(v, rest, Collapse(v, false, false), NormaliseFrom(rest, true, false));
  }

  lemma InkAtRun(t: string)
    requires Run(t, IsSpace) < |t|
    ensures !IsSpace(t[Run(t, IsSpace)])
  {
  }

  /** A collapsed line comment with more behind it on its line. */
  lemma OneLineIsStableIff(c: string, f: string)
    requires |c| >= 2 && c[0] == '/' && c[1] == '/' && '\n' !in c && Collapse(c, false, false) == c
    requires f != "" && !IsSpace(f[0])
    ensures var u := c + (" " + f); NormaliseFrom(u, false, false) == u <==> Collapse(f, false, false) == f
  {
    hide NormaliseFrom, Collapse, IsSpace;
    CollapseHasNoNewline(f, false, false);
    if '\n' in f {
      var i := FirstLineEnd(f);
      SplitLine(c, f, i);
      LineEndIsLost(c + (" " + f[..i]), f[i..]);
    } else {
      OneLineForm(c, f);
      SameEnds(c, " " + Collapse(f, false, false), " " + f);
      SameEnds(" ", Collapse(f, false, false), f);
    }
  }

  lemma {:induction false} FirstLineEnd(f: string) returns (i: nat)
    requires '\n' in f
    ensures i < |f| && f[i] == '\n' && '\n' !in f[..i]
  {
    if f[0] == '\n' {
      i := 0;
    } else {
      i := FirstLineEnd(f[1..]);
      assert f[..i + 1] == [f[0]] + f[1..][..i];
      i := i + 1;
    }
  }

  lemma SplitLine(c: string, f: string, i: nat)
    requires |c| >= 2 && i < |f| && '\n' !in c && '\n' !in f[..i]
    ensures var v := c + (" " + f[..i]);
            c + (" " + f) == v + f[i..] && v[0] == c[0] && v[1] == c[1] && '\n' !in v
  {
    assert f == f[..i] + f[i..];
  }

  lemma OneLineForm(c: string, f: string)
    requires |c| >= 2 && c[0] == '/' && c[1] == '/' && '\n' !in c && Collapse(c, false, false) == c
    requires f != "" && !IsSpace(f[0]) && '\n' !in f
    ensures NormaliseFrom(c + (" " + f), false, false) == c + (" " + Collapse(f, false, false))
  {
    hide NormaliseFrom, Collapse, IsSpace;
    var u := c + (" " + f);
    assert u + "" == u && u[0] == c[0] && u[1] == c[1];
    LineForm(u, "");
    EmptyIsTidy(true, false);
    CollapsedJoin(c, f);
  }

  lemma TailIsStable(c: string)
    requires |c| >= 2 && !IsSpace(c[0]) && Collapse(c, false, false) == c
    ensures Collapse(c[1..], true, false) == c[1..] && !IsSpace(c[|c| - 1])
  {
    hide Collapse, IsSpace;
    CollapseEnds(c, false, false);
    CollapseInk(c);
    assert c == [c[0]] + c[1..];
    SameEnds([c[0]], Collapse(c[1..], true, false), c[1..]);
  }

  lemma FrontAndTail(c: string, y: string)
    requires c != ""
    ensures (c + y)[0] == c[0] && (c + y)[1..] == c[1..] + y && [c[0]] + (c[1..] + y) == c + y
  {
  }

  lemma CollapsedJoin(c: string, f: string)
    requires |c| >= 2 && c[0] == '/' && Collapse(c, false, false) == c && f != "" && !IsSpace(f[0])
    ensures Collapse(c + (" " + f), false, false) == c + (" " + Collapse(f, false, false))
  {
    assert !IsSpace('/');
    hide Collapse, IsSpace;
    TailIsStable(c);
    FrontAndTail(c, " " + f);
    CollapseInk(c + (" " + f));
    CollapseOver(c[1..], f, false);
    FrontAndTail(c, " " + Collapse(f, false, false));
  }

  /** A line comment with more after it, read after a tidy front. */
  lemma JoinIsStableIff(c: string, rest: string, started: bool, pending: bool)
    requires |c| >= 2 && c[0] == '/' && c[1] == '/' && '\n' !in c && rest != "" && rest[0] == '\n'
    requires Run(rest, IsSpace) < |rest|
    ensures var form := Normalise(rest[Run(rest, IsSpace)..]);
            StableFrom(c + rest, started, pending) <==> Collapse(form, false, false) == form
  {
    assert IsSpace('\n') && !IsSpace('/');
    hide NormaliseFrom, Collapse, IsSpace, Run, StableFrom;
    var k := Run(rest, IsSpace);
    var r, d := rest[k..], Collapse(c, false, false);
    assert (c + rest)[0] == '/';
    StableFromInk(c + rest, started, pending);
    LineForm(c, rest);
    GapIsShown(rest, false);
    InkAtRun(rest);
    FormStarts(r);
    var f := NormaliseFrom(r, false, false);
    CollapsedOpens(c);
    CollapseIsStable(c, false, false);
    CollapseHasNoNewline(c, false, false);
    assert d[0] == c[..2][0] && d[1] == c[..2][1];
    OneLineIsStableIff(d, f);
    StableMeans(c + rest);
  }

  lemma StableMeans(t: string)
    ensures var n := NormaliseFrom(t, false, false);
            StableFrom(t, false, false) <==> NormaliseFrom(n, false, false) == n
  {
  }

  // ----- the main results -----

  /** The code after the first line comment that is not the end of a text decides whether its
      normal form is its own: it is, exactly when the normal form of that code has no whitespace
      to lose to the comment. */
  lemma JoinedFormIsStableIff(t: string, k: nat, c: string, rest: string)
    requires k <= |t| && TidyTo(t, k) && t[k..] == c + rest
    requires |c| >= 2 && c[0] == '/' && c[1] == '/' && '\n' !in c && rest != "" && rest[0] == '\n'
    requires Run(rest, IsSpace) < |rest|
    ensures var form := Normalise(rest[Run(rest, IsSpace)..]);
            Normalise(Normalise(t)) == Normalise(t) <==> Collapse(form, false, false) == form
  {
    hide NormaliseFrom, Collapse, IsSpace, Run, StableFrom, TidyTo;
    StableTail(t, k, false, false);
    var (s, p) := StateAt(t, k, false, false);
    JoinIsStableIff(c, rest, s, p);
    StableMeans(t);
  }

  /** The same for an empty comment at the start. */
  lemma EmptyCommentIsStableIff(r: string)
    requires r != "" && !IsSpace(r[0])
    ensures var n := Normalise("//\n" + r); Normalise(n) == n <==> Collapse(Normalise(r), false, false) == Normalise(r)
  {
    assert IsSpace('\n');
    hide Normalise, Collapse, IsSpace, FrontTidy, Run;
    var rest, t := "\n" + r, "//\n" + r;
    RunIs(rest, IsSpace, 1);
    assert rest[1..] == r && t == "//" + rest && t[0..] == t;
    JoinedFormIsStableIff(t, 0, "//", rest);
  }

  lemma JoinedLiteralIsNotStable()
    ensures var n := Normalise("//\n\"\t\""); Normalise(n) != n
  {
    hide Normalise, Collapse, IsSpace;
    var r := "\"\t\"";
    TabLiteral(r);
    EmptyCommentIsStableIff(r);
    assert "//\n" + r == "//\n\"\t\"";
  }

  lemma TabLiteral(r: string)
    requires r == "\"\t\""
    ensures Normalise(r) == r && !IsSpace(r[0]) && '\n' !in r && Collapse(r, false, false) != r
  {
    assert r[1..] == "\t\"" && r[1..][1..] == "\"";
    assert StringTail(r[1..][1..]) == 1;
    assert LiteralLen(r) == Some(3);
    assert r[..3] == r;
    PieceIs(r);
    OnePiece(r);
    CollapseHasNoTab(r, false, false);
    assert r[1] == '\t' && '\t' in r;
  }

  lemma {:induction false} CollapseHasNoTab(t: string, started: bool, pending: bool)
    ensures '\t' !in Collapse(t, started, pending)
  {
    if |t| > 0 {
      CollapseHasNoTab(t[1..], started, true);
      CollapseHasNoTab(t[1..], true, false);
    }
  }
}
