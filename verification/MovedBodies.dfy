/** Function extraction of the moved-body checker: which functions a text holds, and why
    moving one of them between files cannot change the comparison. */
module MovedBodies {
  import opened Options
  import opened Text
  import opened RustScan
  import opened Normaliser

  type Body = (string, string)

  // ----- one step of the function scan -----

  const QUALIFIERS: set<string> := {"pub", "const", "async", "unsafe", "extern", "default"}

  /** What one step of the scan consumes, the prefix text pending after it, and the
      function it found. */
  datatype Token = Token(len: nat, pending: Option<string>, found: Option<Body>)

  function TextOf(pending: Option<string>): string {
    if pending.Some? then pending.value else ""
  }

  function Keep(pending: Option<string>, t: string): Option<string> {
    if pending.Some? then Some(pending.value + t) else None
  }

  /** Length of the outer attribute or doc comment at the front, 0 when there is none. */
  function MarkLen(t: string): (n: nat)
    ensures n <= |t|
  {
    if StartsWith(t, "#[") then 1 + MatchingLen(t[1..], '[', ']', 0) else DocLen(t)
  }

  function DocLen(t: string): (n: nat)
    ensures n <= |t|
  {
    if StartsWith(t, "///") || StartsWith(t, "/**") then DocComment(t); CommentLen(t).value else 0
  }

  function Step(t: string, pending: Option<string>): (tok: Token)
    requires |t| > 0
    ensures 1 <= tok.len <= |t|
  {
    if IsSpace(t[0]) then Token(1, Keep(pending, t[..1]), None)
    else
      var m := MarkLen(t);
      if m > 0 then Token(m, Some(TextOf(pending) + t[..m]), None)
      else if StartsWith(t, "#![") then Token(2 + MatchingLen(t[2..], '[', ']', 0), None, None)
      else PlainStep(t, pending)
  }

  /** A step that starts at neither whitespace nor an attribute nor a doc comment. */
  function PlainStep(t: string, pending: Option<string>): (tok: Token)
    requires |t| > 0
    ensures 1 <= tok.len <= |t|
  {
    var k := SkipLen(t);
    if k > 0 then
      var drops := t[0] != '/' && !(pending.Some? && t[0] == '"');
      Token(k, if drops then None else Keep(pending, t[..k]), None)
    else WordStep(t, pending)
  }

  lemma DocComment(t: string)
    requires StartsWith(t, "///") || StartsWith(t, "/**")
    ensures CommentLen(t).Some?
  {
    assert t[..2] == t[..3][..2];
  }

  /** A step that starts at neither whitespace, attribute, literal nor comment. */
  function WordStep(t: string, pending: Option<string>): (tok: Token)
    requires |t| > 0
    ensures 1 <= tok.len <= |t|
  {
    var w := WordLen(t);
    var word := t[..w];
    if word == "fn" && FnHead(t).Some? then FnStep(t, pending)
    else if word in QUALIFIERS then
      var n := QualifierLen(t, w);
      Token(n, Some(TextOf(pending) + t[..n]), None)
    else Token(if w > 0 then w else 1, None, None)
  }

  /** A qualifier of length `w` and, after `pub`, its restriction. */
  function QualifierLen(t: string, w: nat): (n: nat)
    requires w <= |t|
    ensures w <= n <= |t|
  {
    w + (if t[..w] == "pub" then VisibilityLen(t[w..]) else 0)
  }

  function FnStep(t: string, pending: Option<string>): (tok: Token)
    requires |t| >= 2 && FnHead(t).Some?
    ensures 1 <= tok.len <= |t|
  {
    var (name, at) := FnHead(t).value;
    var stop := at + BodyLen(t[at..], NO_NESTING);
    Token(stop, None, Some((name, Normalise(TextOf(pending) + t[..stop]))))
  }

  /** The name after `fn` and the index where it ends; `None` when no name follows. */
  function FnHead(t: string): (h: Option<(string, nat)>)
    requires |t| >= 2
    ensures h.Some? ==> 2 < h.value.1 <= |t|
  {
    match NameAfter(t[2..])
    case None => None
    case Some((name, at)) => Some((name, 2 + at))
  }

  function NameAfter(rest: string): (h: Option<(string, nat)>)
    ensures h.Some? ==> 0 < h.value.1 <= |rest|
  {
    var s := Run(rest, IsSpace);
    var n := WordLen(rest[s..]);
    if n == 0 then None else Some((rest[s..][..n], s + n))
  }

  /** The `(..)` of `pub (..)`, whitespace before it included; 0 when there is none. */
  function VisibilityLen(t: string): (n: nat)
    ensures n <= |t|
  {
    var s := Run(t, IsSpace);
    if s < |t| && t[s] == '(' then s + MatchingLen(t[s..], '(', ')', 0) else 0
  }

  function Count(found: Option<Body>): multiset<Body> {
    if found.Some? then multiset{found.value} else multiset{}
  }

  /** The multiset of functions in a text, from a given pending prefix on. */
  function Scan(t: string, pending: Option<string>): multiset<Body>
    decreases |t|
  {
    if |t| == 0 then multiset{}
    else
      var tok := Step(t, pending);
      Count(tok.found) + Scan(t[tok.len..], tok.pending)
  }

  function FnBodies(t: string): multiset<Body> {
    Scan(t, None)
  }

  // ----- locality -----

  /** Reading `t` stops at index `k` with no prefix pending: no literal, comment,
      attribute, word or function reaches across that cut. */
  predicate CleanCut(t: string, k: nat, pending: Option<string>)
    requires k <= |t|
    decreases |t|
  {
    if k == 0 then pending == None
    else
      var tok := Step(t, pending);
      tok.len <= k && CleanCut(t[tok.len..], k - tok.len, tok.pending)
  }

  lemma DocCut(x: string, y: string)
    requires DocLen(x + y) <= |x|
    ensures DocLen(x) == DocLen(x + y)
  {
    StartsCut(x, y, "///");
    StartsCut(x, y, "/**");
    if StartsWith(x + y, "///") || StartsWith(x + y, "/**") {
      DocComment(x + y);
      CommentCut(x, y);
      DocNeedsThree(x + y);
    }
  }

  // The third character of a doc comment is still inside it.
  lemma DocNeedsThree(t: string)
    requires StartsWith(t, "///") || StartsWith(t, "/**")
    ensures CommentLen(t).Some? && CommentLen(t).value >= 3
  {
    DocComment(t);
    assert t[0] == t[..3][0] && t[1] == t[..3][1] && t[2] == t[..3][2];
    if StartsWith(t, "//") {
      FindNotBefore(t, "\n", 3);
    }
  }

  lemma MarkCut(x: string, y: string)
    requires |x| > 0 && MarkLen(x + y) <= |x|
    ensures MarkLen(x) == MarkLen(x + y)
  {
    StartsCut(x, y, "#[");
    if StartsWith(x + y, "#[") {
      OpenConsumes((x + y)[1..], '[', ']');
      assert (x + y)[1..] == x[1..] + y;
      MatchingCut(x[1..], y, '[', ']', 0);
    } else {
      DocCut(x, y);
    }
  }

  lemma StepCut(x: string, y: string, pending: Option<string>)
    requires |x| > 0 && Step(x + y, pending).len <= |x|
    ensures Step(x, pending) == Step(x + y, pending)
  {
    hide PlainStep, MarkLen, MatchingLen, TextOf, Keep, SkipLen, WordStep;
    var t := x + y;
    var n := Step(t, pending).len;
    assert t[0] == x[0] && t[..n] == x[..n];
    if !IsSpace(x[0]) {
      MarkCut(x, y);
      StartsCut(x, y, "#![");
      if MarkLen(t) > 0 {
      } else if StartsWith(t, "#![") {
        assert t[2..] == x[2..] + y;
        OpenConsumes(t[2..], '[', ']');
        MatchingCut(x[2..], y, '[', ']', 0);
      } else {
        PlainStepCut(x, y, pending);
      }
    }
  }

  lemma PlainStepCut(x: string, y: string, pending: Option<string>)
    requires |x| > 0 && PlainStep(x + y, pending).len <= |x|
    ensures PlainStep(x, pending) == PlainStep(x + y, pending)
  {
    hide SkipLen, WordStep;
    SkipCut(x, y);
    var k := SkipLen(x + y);
    if k == 0 {
      WordStepCut(x, y, pending);
    } else {
      assert (x + y)[..k] == x[..k];
    }
  }

  lemma WordStepCut(x: string, y: string, pending: Option<string>)
    requires |x| > 0 && WordStep(x + y, pending).len <= |x|
    ensures WordStep(x, pending) == WordStep(x + y, pending)
  {
    hide WordLen, FnHead, BodyLen, Normalise, QualifierLen, TextOf;
    var t := x + y;
    var w := WordLen(t);
    WordCut(x, y);
    assert w <= |x|;
    assert t[..w] == x[..w];
    if t[..w] == "fn" {
      FnStepCut(x, y, pending);
    } else if t[..w] in QUALIFIERS {
      QualifierCut(x, y, w);
      var n := QualifierLen(t, w);
      assert t[..n] == x[..n];
    }
  }

  lemma QualifierCut(x: string, y: string, w: nat)
    requires w <= |x| && QualifierLen(x + y, w) <= |x|
    ensures QualifierLen(x, w) == QualifierLen(x + y, w)
  {
    assert (x + y)[..w] == x[..w] && (x + y)[w..] == x[w..] + y;
    if x[..w] == "pub" {
      VisibilityCut(x[w..], y);
    }
  }

  lemma FnStepCut(x: string, y: string, pending: Option<string>)
    requires |x| >= 2 && (FnHead(x + y).Some? ==> FnStep(x + y, pending).len <= |x|)
    ensures FnHead(x).Some? == FnHead(x + y).Some?
    ensures FnHead(x).Some? ==> FnStep(x, pending) == FnStep(x + y, pending)
  {
    hide Normalise, BodyLen, FnHead;
    var t := x + y;
    FnHeadCut(x, y);
    if FnHead(t).Some? {
      var at := FnHead(t).value.1;
      assert t[at..] == x[at..] + y;
      BodyCut(x[at..], y, NO_NESTING);
      var stop := FnStep(t, pending).len;
      assert t[..stop] == x[..stop];
    }
  }

  lemma FnHeadCut(x: string, y: string)
    requires |x| >= 2 && (FnHead(x + y).Some? ==> FnHead(x + y).value.1 <= |x|)
    ensures FnHead(x) == FnHead(x + y)
  {
    assert (x + y)[2..] == x[2..] + y;
    NameCut(x[2..], y);
  }

  lemma NameCut(x: string, y: string)
    requires NameAfter(x + y).Some? ==> NameAfter(x + y).value.1 <= |x|
    ensures NameAfter(x) == NameAfter(x + y)
  {
    RunCut(x, y, IsSpace);
    var s := Run(x + y, IsSpace);
    if s < |x| {
      var r := x[s..];
      assert (x + y)[s..] == r + y;
      WordCut(r, y);
      var n := WordLen(r + y);
      if n <= |r| { assert (r + y)[..n] == r[..n]; }
    }
  }

  lemma VisibilityCut(x: string, y: string)
    requires VisibilityLen(x + y) <= |x|
    ensures VisibilityLen(x) == VisibilityLen(x + y)
  {
    RunCut(x, y, IsSpace);
    var s := Run(x + y, IsSpace);
    if s < |x| {
      assert (x + y)[s..] == x[s..] + y;
      if x[s] == '(' { MatchingCut(x[s..], y, '(', ')', 0); }
    } else if s < |x + y| && (x + y)[s] == '(' {
      OpenConsumes((x + y)[s..], '(', ')');
    }
  }

  lemma OpenConsumes(t: string, open: char, close: char)
    requires |t| > 0
    ensures MatchingLen(t, open, close, 0) > 0
  {
  }

  /** Extraction is local: at a clean cut the functions of the whole text are those of
      the two parts, counted with multiplicity. */
  lemma {:induction false} Locality(t: string, k: nat, pending: Option<string>)
    requires k <= |t| && CleanCut(t, k, pending)
    ensures Scan(t, pending) == Scan(t[..k], pending) + FnBodies(t[k..])
    decreases |t|
  {
    hide Step, Scan, Count;
    if k == 0 {
      assert t[0..] == t;
      ScanUnfolds(t[..0], pending);
    } else {
      var tok := Step(t, pending);
      StepBeforeCut(t, k, pending);
      ScanUnfolds(t, pending);
      ScanUnfolds(t[..k], pending);
      var rest := t[tok.len..];
      assert rest[..k - tok.len] == t[..k][tok.len..] && rest[k - tok.len..] == t[k..];
      Locality(rest, k - tok.len, tok.pending);
    }
  }

  lemma ScanUnfolds(t: string, pending: Option<string>)
    ensures Scan(t, pending) ==
            if |t| == 0 then multiset{}
            else var tok := Step(t, pending); Count(tok.found) + Scan(t[tok.len..], tok.pending)
  {
  }

  lemma StepBeforeCut(t: string, k: nat, pending: Option<string>)
    requires 0 < k <= |t| && Step(t, pending).len <= k
    ensures Step(t[..k], pending) == Step(t, pending)
  {
    hide Step;
    assert t == t[..k] + t[k..];
    StepCut(t[..k], t[k..], pending);
  }

  // ----- pieces that end cleanly whatever follows them -----

  /** Whatever is written after `x`, reading stops at its end with nothing pending. */
  ghost predicate SelfContained(x: string) {
    forall y :: CleanCut(x + y, |x|, None)
  }

  lemma {:induction false} CutsCompose(t: string, j: nat, k: nat, pending: Option<string>)
    requires j + k <= |t| && CleanCut(t, j, pending) && CleanCut(t[j..], k, None)
    ensures CleanCut(t, j + k, pending)
    decreases |t|
  {
    hide Step;
    if j == 0 {
      assert t[0..] == t;
    } else {
      var tok := Step(t, pending);
      assert t[tok.len..][j - tok.len..] == t[j..];
      CutsCompose(t[tok.len..], j - tok.len, k, tok.pending);
    }
  }

  lemma SelfContainedConcat(x: string, y: string)
    requires SelfContained(x) && SelfContained(y)
    ensures SelfContained(x + y)
  {
    hide Step;
    forall z ensures CleanCut((x + y) + z, |x + y|, None) {
      assert (x + y) + z == x + (y + z);
      assert (x + (y + z))[|x|..] == y + z;
      assert CleanCut(x + (y + z), |x|, None) && CleanCut(y + z, |y|, None);
      CutsCompose(x + (y + z), |x|, |y|, None);
    }
  }

  function Concat(pieces: seq<string>): string {
    if pieces == [] then "" else pieces[0] + Concat(pieces[1..])
  }

  /** The functions of the pieces, each piece read on its own. */
  function PieceBodies(pieces: seq<string>): multiset<Body> {
    if pieces == [] then multiset{} else FnBodies(pieces[0]) + PieceBodies(pieces[1..])
  }

  /** A file made of self-contained pieces holds exactly the functions of its pieces. */
  lemma {:induction false} FileIsSumOfPieces(pieces: seq<string>)
    requires forall p :: p in pieces ==> SelfContained(p)
    ensures FnBodies(Concat(pieces)) == PieceBodies(pieces)
  {
    if pieces != [] {
      var p, rest := pieces[0], Concat(pieces[1..]);
      assert p in pieces && CleanCut(p + rest, |p|, None);
      assert (p + rest)[..|p|] == p && (p + rest)[|p|..] == rest;
      Locality(p + rest, |p|, None);
      FileIsSumOfPieces(pieces[1..]);
    }
  }

  // ----- which pieces are self-contained -----

  /** Reading `x` alone, the last step is a closing brace, or a function whose body closes at
      the end. */
  predicate EndsClosed(x: string, pending: Option<string>)
    decreases |x|
  {
    |x| > 0 &&
    var tok := Step(x, pending);
    if tok.len < |x| then EndsClosed(x[tok.len..], tok.pending) else x == "}" || ClosedFunction(x)
  }

  /** `x` starts with `fn` and a name, and the body after it closes. */
  predicate ClosedFunction(x: string) {
    |x| >= 2 && x[..WordLen(x)] == "fn" && FnHead(x).Some? && BodyCloses(x[FnHead(x).value.1..], NO_NESTING)
  }

  lemma VisibilityMore(x: string, y: string)
    requires EndsInBrace(x) && VisibilityLen(x) < |x|
    ensures VisibilityLen(x + y) == VisibilityLen(x)
  {
    RunMore(x, y, IsSpace);
    var s := Run(x, IsSpace);
    SuffixEndsInBrace(x, s);
    assert (x + y)[s..] == x[s..] + y;
    if x[s] == '(' { MatchingMore(x[s..], y, '(', ')', 0); }
  }

  lemma FnHeadMore(x: string, y: string)
    requires EndsInBrace(x) && WordLen(x) == 2
    ensures FnHead(x + y) == FnHead(x) && (FnHead(x).Some? ==> FnHead(x).value.1 < |x|)
  {
    hide NameAfter, WordLen, Run;
    WordMore(x, y);
    SuffixEndsInBrace(x, 2);
    assert (x + y)[2..] == x[2..] + y;
    NameMore(x[2..], y);
  }

  lemma NameMore(x: string, y: string)
    requires EndsInBrace(x)
    ensures NameAfter(x + y) == NameAfter(x) && (NameAfter(x).Some? ==> NameAfter(x).value.1 < |x|)
  {
    hide WordLen;
    RunMore(x, y, IsSpace);
    var s := Run(x, IsSpace);
    var r := x[s..];
    SuffixEndsInBrace(x, s);
    assert (x + y)[s..] == r + y;
    WordMore(r, y);
    var n := WordLen(r);
    assert (r + y)[..n] == r[..n];
  }

  lemma FnStepMore(x: string, y: string, pending: Option<string>)
    requires EndsInBrace(x) && WordLen(x) == 2 && FnHead(x).Some?
    requires BodyCloses(x[FnHead(x).value.1..], NO_NESTING)
    ensures FnHead(x + y).Some? && FnStep(x + y, pending) == FnStep(x, pending)
  {
    hide Normalise, BodyLen, BodyCloses, FnHead;
    FnHeadMore(x, y);
    var t, at := x + y, FnHead(x).value.1;
    SuffixEndsInBrace(x, at);
    assert t[at..] == x[at..] + y;
    BodyMore(x[at..], y, NO_NESTING);
    var stop := at + BodyLen(x[at..], NO_NESTING);
    assert t[..stop] == x[..stop];
  }

  lemma WordStepMore(x: string, y: string, pending: Option<string>)
    requires EndsInBrace(x)
    requires WordStep(x, pending).len < |x| || ClosedFunction(x)
    ensures WordStep(x + y, pending) == WordStep(x, pending)
  {
    hide WordLen, FnHead, BodyLen, Normalise, BodyCloses, QualifierLen, TextOf;
    WordMore(x, y);
    var w := WordLen(x);
    assert WordLen(x + y) == w && (x + y)[..w] == x[..w];
    if x[..w] == "fn" {
      FnHeadMore(x, y);
      if FnHead(x).Some? {
        var at := FnHead(x).value.1;
        if FnStep(x, pending).len < |x| { ShortBodyCloses(x[at..], NO_NESTING); }
        FnStepMore(x, y, pending);
      }
    } else if x[..w] in QUALIFIERS {
      QualifierMore(x, y, w);
      var n := QualifierLen(x, w);
      assert (x + y)[..n] == x[..n];
    }
  }

  lemma QualifierMore(x: string, y: string, w: nat)
    requires EndsInBrace(x) && w < |x| && QualifierLen(x, w) < |x|
    ensures QualifierLen(x + y, w) == QualifierLen(x, w)
  {
    assert (x + y)[..w] == x[..w] && (x + y)[w..] == x[w..] + y;
    SuffixEndsInBrace(x, w);
    if x[..w] == "pub" { VisibilityMore(x[w..], y); }
  }

  lemma MarkMore(x: string, y: string)
    requires EndsInBrace(x) && MarkLen(x) < |x|
    ensures MarkLen(x + y) == MarkLen(x)
  {
    LongStartsMore(x, y, "///");
    LongStartsMore(x, y, "/**");
    StartsMore(x, y, "#[");
    if StartsWith(x, "#[") {
      SuffixEndsInBrace(x, 1);
      assert (x + y)[1..] == x[1..] + y;
      MatchingMore(x[1..], y, '[', ']', 0);
    } else if StartsWith(x, "///") || StartsWith(x, "/**") {
      DocComment(x);
      CommentMore(x, y);
    }
  }

  lemma LongStartsMore(x: string, y: string, p: string)
    requires EndsInBrace(x) && |p| == 3 && p[0] != '}' && p[1] != '}'
    ensures StartsWith(x + y, p) <==> StartsWith(x, p)
  {
    StartsCut(x, y, p);
    if |x + y| >= 3 {
      assert (x + y)[..3][0] == (x + y)[0] && (x + y)[..3][1] == (x + y)[1];
    }
  }

  lemma FunctionFirst(x: string, pending: Option<string>)
    requires ClosedFunction(x)
    ensures !IsSpace(x[0]) && MarkLen(x) == 0 && !StartsWith(x, "#![") && SkipLen(x) == 0
  {
    hide FnHead, BodyCloses, Run, MatchingLen, StringTail, CharLen, RawLen;
    assert x[0] == x[..WordLen(x)][0] == 'f';
    FirstChar(x, "#[");
    FirstChar(x, "#![");
    FirstChar(x, "///");
    FirstChar(x, "/**");
    FirstChar(x, "//");
    FirstChar(x, "/*");
  }

  lemma StepMore(x: string, y: string, pending: Option<string>)
    requires EndsInBrace(x)
    requires Step(x, pending).len < |x| || ClosedFunction(x)
    ensures Step(x + y, pending) == Step(x, pending)
  {
    hide PlainStep, MarkLen, MatchingLen, ClosedFunction, StartsWith;
    if ClosedFunction(x) { FunctionFirst(x, pending); }
    var n := Step(x, pending).len;
    assert (x + y)[..n] == x[..n];
    assert (x + y)[0] == x[0];
    if !IsSpace(x[0]) {
      MarkMore(x, y);
      InnerMore(x, y);
      if MarkLen(x) == 0 && !StartsWith(x, "#![") { PlainStepMore(x, y, pending); }
    }
  }

  lemma InnerMore(x: string, y: string)
    requires EndsInBrace(x)
    ensures StartsWith(x + y, "#![") <==> StartsWith(x, "#![")
    ensures StartsWith(x, "#![") && 2 + MatchingLen(x[2..], '[', ']', 0) < |x| ==>
              MatchingLen((x + y)[2..], '[', ']', 0) == MatchingLen(x[2..], '[', ']', 0)
  {
    LongStartsMore(x, y, "#![");
    if StartsWith(x, "#![") {
      SuffixEndsInBrace(x, 2);
      assert (x + y)[2..] == x[2..] + y;
      if MatchingLen(x[2..], '[', ']', 0) < |x| - 2 { MatchingMore(x[2..], y, '[', ']', 0); }
    }
  }

  lemma PlainStepMore(x: string, y: string, pending: Option<string>)
    requires EndsInBrace(x)
    requires PlainStep(x, pending).len < |x| || ClosedFunction(x)
    ensures PlainStep(x + y, pending) == PlainStep(x, pending)
  {
    hide WordStep, ClosedFunction;
    if ClosedFunction(x) { FunctionFirst(x, pending); }
    SkipMore(x, y);
    var k := SkipLen(x);
    if k == 0 {
      WordStepMore(x, y, pending);
    } else {
      assert (x + y)[..k] == x[..k];
    }
  }

  /** A brace outside a function is a step of its own and drops what was pending. */
  lemma BraceStep(y: string, pending: Option<string>)
    ensures Step("}" + y, pending) == Token(1, None, None)
  {
    var x := "}" + y;
    hide MatchingLen, StringTail, CharLen, RawLen, FnHead, FnStep, QualifierLen, Run;
    assert x[0] == '}' && x[..0] == "";
    FirstChar(x, "#[");
    FirstChar(x, "#![");
    FirstChar(x, "///");
    FirstChar(x, "/**");
    FirstChar(x, "//");
    FirstChar(x, "/*");
  }

  lemma {:induction false} EndsCleanly(x: string, y: string, pending: Option<string>)
    requires EndsInBrace(x) && EndsClosed(x, pending)
    ensures CleanCut(x + y, |x|, pending)
    decreases |x|
  {
    hide Step, ClosedFunction;
    var tok := Step(x, pending);
    if x == "}" {
      BraceStep(y, pending);
      assert (x + y)[1..] == y;
    } else {
      StepMore(x, y, pending);
      assert (x + y)[tok.len..] == x[tok.len..] + y;
      if tok.len < |x| {
        SuffixEndsInBrace(x, tok.len);
        EndsCleanly(x[tok.len..], y, tok.pending);
      } else {
        LastStepIsFunction(x, pending);
      }
    }
  }

  lemma LastStepIsFunction(x: string, pending: Option<string>)
    requires ClosedFunction(x) && Step(x, pending).len == |x|
    ensures Step(x, pending).pending == None
  {
    FunctionFirst(x, pending);
  }

  /** A checkable sufficient condition, read off the piece alone: any text that ends with the
      closing brace of a function, of an `impl` or `mod` block or of anything else, at a step
      of its own. */
  lemma ClosedPiecesAreSelfContained(x: string)
    requires EndsInBrace(x) && EndsClosed(x, None)
    ensures SelfContained(x)
  {
    forall y ensures CleanCut(x + y, |x|, None) {
      EndsCleanly(x, y, None);
    }
  }

  lemma BlankIsSelfContained(c: char)
    requires IsSpace(c)
    ensures SelfContained([c])
  {
    forall y ensures CleanCut([c] + y, 1, None) {
      assert ([c] + y)[1..] == y;
    }
  }

  // ----- moving pieces between files -----

  function Flatten(files: seq<seq<string>>): seq<string> {
    if files == [] then [] else files[0] + Flatten(files[1..])
  }

  function Texts(files: seq<seq<string>>): (r: seq<string>)
    ensures |r| == |files|
  {
    if files == [] then [] else [Concat(files[0])] + Texts(files[1..])
  }

  /** The functions of all listed files (`side`). */
  function Side(texts: seq<string>): multiset<Body> {
    if texts == [] then multiset{} else FnBodies(texts[0]) + Side(texts[1..])
  }

  lemma {:induction false} PieceBodiesConcat(a: seq<string>, b: seq<string>)
    ensures PieceBodies(a + b) == PieceBodies(a) + PieceBodies(b)
  {
    if a == [] {
      assert a + b == b;
    } else {
      assert (a + b)[1..] == a[1..] + b;
      PieceBodiesConcat(a[1..], b);
    }
  }

  lemma TakeOut(a: seq<string>, p: string) returns (rest: seq<string>)
    requires p in multiset(a)
    ensures PieceBodies(a) == FnBodies(p) + PieceBodies(rest)
    ensures multiset(a) == multiset{p} + multiset(rest)
    ensures |rest| < |a|
  {
    hide FnBodies;
    var i :| 0 <= i < |a| && a[i] == p;
    var pre, post := a[..i], a[i + 1..];
    rest := pre + post;
    assert a == pre + ([p] + post);
    PieceBodiesConcat(pre, post);
    PieceBodiesConcat(pre, [p] + post);
    PieceBodiesConcat([p], post);
    assert PieceBodies([p]) == FnBodies(p);
  }

  lemma {:induction false} PieceBodiesIgnoreOrder(a: seq<string>, b: seq<string>)
    requires multiset(a) == multiset(b)
    ensures PieceBodies(a) == PieceBodies(b)
    decreases |a|
  {
    hide FnBodies;
    if a == [] {
      assert |b| == |multiset(b)| == 0;
    } else {
      hide PieceBodies;
      var p := a[0];
      assert p in multiset(a);
      var tail := TakeOut(a, p);
      var rest := TakeOut(b, p);
      CancelOne(p, multiset(tail), multiset(rest));
      PieceBodiesIgnoreOrder(tail, rest);
    }
  }

  lemma CancelOne(p: string, a: multiset<string>, b: multiset<string>)
    requires multiset{p} + a == multiset{p} + b
    ensures a == b
  {
    assert a == (multiset{p} + a) - multiset{p};
    assert b == (multiset{p} + b) - multiset{p};
  }

  lemma {:induction false} SideIsPieceBodies(files: seq<seq<string>>)
    requires forall p :: p in Flatten(files) ==> SelfContained(p)
    ensures Side(Texts(files)) == PieceBodies(Flatten(files))
  {
    if files != [] {
      assert forall p :: p in files[0] || p in Flatten(files[1..]) ==> p in Flatten(files);
      FileIsSumOfPieces(files[0]);
      SideIsPieceBodies(files[1..]);
      PieceBodiesConcat(files[0], Flatten(files[1..]));
    }
  }

  datatype Report = Report(lost: set<string>, added: set<string>, changed: set<string>)

  function Names(bodies: multiset<Body>): set<string> {
    set b | b in bodies :: b.0
  }

  /** `compare`: the names missing on one side, and those present on both with another text. */
  function Compare(before: multiset<Body>, after: multiset<Body>): Report {
    var lost, added := Names(before - after), Names(after - before);
    Report(lost - added, added - lost, lost * added)
  }

  /** The report is empty exactly when the two sides hold the same functions, counted. */
  lemma EmptyReportMeansEqual(before: multiset<Body>, after: multiset<Body>)
    ensures Compare(before, after) == Report({}, {}, {}) <==> before == after
  {
    var lost, added := before - after, after - before;
    if Compare(before, after) == Report({}, {}, {}) {
      assert Names(lost) == (Names(lost) - Names(added)) + (Names(lost) * Names(added));
      assert Names(added) == (Names(added) - Names(lost)) + (Names(lost) * Names(added));
      assert forall b :: b in lost ==> b.0 in Names(lost);
      assert forall b :: b in added ==> b.0 in Names(added);
      forall b ensures before[b] == after[b] {
        assert lost[b] == 0 && added[b] == 0;
      }
    }
  }

  /** A name is reported in exactly one way, and only for a function whose count differs. */
  lemma ReportIsExact(before: multiset<Body>, after: multiset<Body>, name: string)
    ensures var r := Compare(before, after);
            && (name in r.lost + r.changed <==> exists text :: before[(name, text)] > after[(name, text)])
            && (name in r.added + r.changed <==> exists text :: after[(name, text)] > before[(name, text)])
            && r.lost !! r.added !! r.changed
  {
    var lost, added := before - after, after - before;
    assert forall b :: b in lost <==> before[b] > after[b];
    assert forall b :: b in added <==> after[b] > before[b];
    if name in Names(lost) {
      var b :| b in lost && b.0 == name;
      assert before[(name, b.1)] > after[(name, b.1)];
    }
    if name in Names(added) {
      var b :| b in added && b.0 == name;
      assert after[(name, b.1)] > before[(name, b.1)];
    }
    if exists text :: before[(name, text)] > after[(name, text)] {
      var text :| before[(name, text)] > after[(name, text)];
      assert (name, text) in lost;
    }
    if exists text :: after[(name, text)] > before[(name, text)] {
      var text :| after[(name, text)] > before[(name, text)];
      assert (name, text) in added;
    }
  }

  /** Rearranging self-contained pieces among the listed files, in any order and into any
      number of files, leaves the report empty. */
  lemma MovesAreInvisible(before: seq<seq<string>>, after: seq<seq<string>>)
    requires multiset(Flatten(before)) == multiset(Flatten(after))
    requires forall p :: p in Flatten(before) ==> SelfContained(p)
    ensures Compare(Side(Texts(before)), Side(Texts(after))) == Report({}, {}, {})
  {
    forall p | p in Flatten(after) ensures SelfContained(p) {
      assert p in multiset(Flatten(after));
      assert p in Flatten(before);
    }
    SideIsPieceBodies(before);
    SideIsPieceBodies(after);
    PieceBodiesIgnoreOrder(Flatten(before), Flatten(after));
    EmptyReportMeansEqual(Side(Texts(before)), Side(Texts(after)));
  }
}
