/** A function as it is written, with the attributes, doc comments and qualifiers before it: the
    checker records it under its name with exactly that text. */
module FunctionMeaning {
  import opened Options
  import opened Text
  import opened RustScan
  import opened ScannerMeaning
  import opened BodyMeaning
  import opened BodyTrees
  import opened Normaliser
  import opened MovedBodies
  import opened FunctionChanges

  // ----- steps, by what the text starts with -----

  predicate IsGap(s: string) {
    forall i :: 0 <= i < |s| ==> IsSpace(s[i])
  }

  /** A word that is no literal prefix is a step of its own. */
  lemma WordFirst(w: string, rest: string, pending: Option<string>)
    requires IsWord(w) && Parts(rest)
    requires w != "r" && w != "br" && w != "cr" && w != "b" && w != "c"
    ensures var t := w + rest;
            Step(t, pending) == WordStep(t, pending) && WordLen(t) == |w| && t[..|w|] == w && t[|w|..] == rest
  {
    hide SkipLen, WordStep, LiteralLen, FnHead;
    var t := w + rest;
    WordIsRead(w, rest);
    NoPrefix(w, rest);
    LiteralIsSkipped(t);
    FirstChar(t, "#[");
    FirstChar(t, "#![");
    FirstChar(t, "///");
    FirstChar(t, "/**");
  }

  /** `fn`, a name, and the rest of the function from the name on. */
  lemma FunctionStep(gap: string, name: string, tail: string, pending: Option<string>)
    requires gap != "" && IsGap(gap) && IsWord(name) && Parts(tail)
    ensures var t := "fn" + (gap + (name + tail));
            var stop := 2 + |gap| + |name| + BodyLen(tail, Nesting(0, 0, false));
            stop <= |t| &&
            Step(t, pending) == Token(stop, None, Some((name, Normalise(TextOf(pending) + t[..stop]))))
  {
    hide Step, WordStep, BodyLen, Normalise, IsSpace, IsWord, FnHead, NameAfter, FnStep;
    var after := gap + (name + tail);
    SpaceParts(gap, name + tail);
    FnIsWord();
    WordFirst("fn", after, pending);
    NameIsRead(gap, name, tail);
    HeadIsRead(after, name, |gap| + |name|);
    FnStepIs("fn" + after, name, 2 + |gap| + |name|, tail, pending);
  }

  /** For every text behind the name: the function recorded ends with the first brace of its code at
      which the braces meet. */
  lemma FunctionEndsWhereBracesMeet(gap: string, name: string, tail: string, i: nat, pending: Option<string>)
    requires gap != "" && IsGap(gap) && IsWord(name) && Parts(tail) && i < |tail|
    requires BracesMeet(BodyMeaning.Code(tail)[..i + 1])
    requires forall j :: 0 <= j < i ==> !StopsAt(BodyMeaning.Code(tail), j)
    ensures var t := "fn" + (gap + (name + tail[..i + 1]));
            Step("fn" + (gap + (name + tail)), pending) ==
            Token(|t|, None, Some((name, Normalise(TextOf(pending) + t))))
  {
    hide Step, BodyMeaning.Code, BodyLen, Normalise, IsWord, IsGap, StopsAt, BracesMeet;
    BodyEndsWhereBracesMeet(tail, i);
    FunctionStep(gap, name, tail, pending);
    var all, t := "fn" + (gap + (name + tail)), "fn" + (gap + (name + tail[..i + 1]));
    assert all[..|t|] == t;
  }

  lemma FnIsWord()
    ensures IsWord("fn")
  {
  }

  lemma FnStepIs(t: string, name: string, at: nat, tail: string, pending: Option<string>)
    requires WordLen(t) == 2 && t[..2] == "fn" && FnHead(t) == Some((name, at)) && t[at..] == tail
    ensures var stop := at + BodyLen(tail, NO_NESTING);
            && stop <= |t|
            && WordStep(t, pending) == Token(stop, None, Some((name, Normalise(TextOf(pending) + t[..stop]))))
  {
    hide BodyLen, Normalise, FnHead, WordLen;
  }

  lemma SpaceParts(gap: string, rest: string)
    requires gap != "" && IsGap(gap)
    ensures Parts(gap + rest)
  {
  }

  lemma NameIsRead(gap: string, name: string, tail: string)
    requires IsGap(gap) && IsWord(name) && Parts(tail)
    ensures NameAfter(gap + (name + tail)) == Some((name, |gap| + |name|))
  {
    hide WordLen;
    var after := gap + (name + tail);
    AllAreRun(gap, name + tail, IsSpace);
    WordIsRead(name, tail);
    assert after[|gap|..] == name + tail;
  }

  lemma HeadIsRead(after: string, name: string, at: nat)
    requires NameAfter(after) == Some((name, at))
    ensures FnHead("fn" + after) == Some((name, 2 + at))
  {
    hide NameAfter;
    assert ("fn" + after)[2..] == after;
  }

  /** One of the qualifiers, when no restriction in parentheses follows it. */
  lemma QualifierStep(w: string, rest: string, pending: Option<string>)
    requires w == "pub" || w == "const" || w == "async" || w == "unsafe" || w == "extern" || w == "default"
    requires Parts(rest)
    requires w == "pub" ==> forall i :: 0 <= i < |rest| && rest[i] == '(' ==> !IsGap(rest[..i])
    ensures Step(w + rest, pending) == Token(|w|, Some(TextOf(pending) + w), None)
  {
    hide Step, WordLen, FnHead, MatchingLen;
    QualifierIsWord(w);
    WordFirst(w, rest, pending);
    if w == "pub" {
      var s := Run(rest, IsSpace);
      assert IsGap(rest[..s]);
    }
  }

  lemma QualifierIsWord(w: string)
    requires w == "pub" || w == "const" || w == "async" || w == "unsafe" || w == "extern" || w == "default"
    ensures IsWord(w)
  {
  }

  /** `pub` and its restriction. */
  lemma RestrictedStep(gap: string, inside: string, rest: string, pending: Option<string>)
    requires IsGap(gap) && IsPlain(inside) && '(' !in inside && ')' !in inside
    ensures var w := "pub" + gap + "(" + inside + ")";
            Step(w + rest, pending) == Token(|w|, Some(TextOf(pending) + w), None)
  {
    hide Step, WordLen, FnHead, MatchingLen, IsSpace, SkipLen;
    var tail := "(" + (inside + (")" + rest));
    var w := "pub" + gap + "(" + inside + ")";
    var after := gap + tail;
    assert w + rest == "pub" + after;
    SpaceOrOpen(gap, tail);
    QualifierIsWord("pub");
    WordFirst("pub", after, pending);
    AllAreRun(gap, tail, IsSpace);
    assert after[|gap|..] == tail;
    BracketIsRead(inside, rest, '(', ')');
    assert ("pub" + after)[..|w|] == w;
  }

  lemma SpaceOrOpen(gap: string, tail: string)
    requires IsGap(gap) && tail != "" && tail[0] == '('
    ensures Parts(gap + tail) && !IsSpace(tail[0])
  {
  }

  /** An attribute. */
  lemma AttributeStep(inside: string, rest: string, pending: Option<string>)
    requires IsPlain(inside) && '[' !in inside && ']' !in inside
    ensures var w := "#[" + inside + "]";
            Step(w + rest, pending) == Token(|w|, Some(TextOf(pending) + w), None)
  {
    hide MatchingLen, SkipLen;
    var w, tail := "#[" + inside + "]", "[" + (inside + ("]" + rest));
    assert (w + rest)[1..] == tail && (w + rest)[..2] == "#[" && (w + rest)[..|w|] == w;
    BracketIsRead(inside, rest, '[', ']');
  }

  lemma BracketIsRead(inside: string, rest: string, open: char, close: char)
    requires IsPlain(inside) && open !in inside && close !in inside
    requires (open == '(' && close == ')') || (open == '[' && close == ']')
    ensures MatchingLen([open] + (inside + ([close] + rest)), open, close, 0) == |inside| + 2
  {
    hide MatchingLen, SkipLen;
    var y, z := inside + ([close] + rest), [close] + rest;
    PunctuationIsCode(open, y);
    PunctuationIsCode(close, rest);
    BracketStep(open, y, open, close, 0);
    PlainInBracket(inside, z, open, close, 1);
    BracketStep(close, rest, open, close, 1);
  }

  lemma BracketStep(c: char, rest: string, open: char, close: char, depth: int)
    requires SkipLen([c] + rest) == 0
    ensures MatchingLen([c] + rest, open, close, depth) ==
            if c == open then 1 + MatchingLen(rest, open, close, depth + 1)
            else if c == close then (if depth == 1 then 1 else 1 + MatchingLen(rest, open, close, depth - 1))
            else 1 + MatchingLen(rest, open, close, depth)
  {
    hide SkipLen;
    assert ([c] + rest)[1..] == rest;
  }

  lemma {:induction false} PlainInBracket(s: string, rest: string, open: char, close: char, depth: int)
    requires IsPlain(s) && Separates(rest) && open !in s && close !in s
    ensures MatchingLen(s + rest, open, close, depth) == |s| + MatchingLen(rest, open, close, depth)
  {
    hide SkipLen, MatchingLen, Separates;
    if s == "" {
      assert s + rest == rest;
    } else {
      PlainIsCode(s, rest);
      assert s + rest == [s[0]] + (s[1..] + rest);
      BracketStep(s[0], s[1..] + rest, open, close, depth);
      PlainInBracket(s[1..], rest, open, close, depth);
    }
  }

  /** Doc comments of both kinds. */
  lemma DocStep(text: string, rest: string, pending: Option<string>)
    requires '\n' !in text
    ensures var w := "///" + text;
            Step(w + "\n" + rest, pending) == Token(|w|, Some(TextOf(pending) + w), None)
  {
    var w := "///" + text;
    var t := w + "\n" + rest;
    assert t == "//" + ("/" + text) + "\n" + rest;
    LineIsRead("/" + text, rest);
    assert t[..3] == "///" && t[..|w|] == w;
    FirstChar(t, "#[");
  }

  lemma DocBlockStep(remark: Remark, rest: string, pending: Option<string>)
    requires IsRemark(remark) && Inset(remark) != "" && Inset(remark)[0] == '*'
    ensures var w := "/*" + Inset(remark) + "*/";
            Step(w + rest, pending) == Token(|w|, Some(TextOf(pending) + w), None)
  {
    hide CommentLen, Inset, IsRemark;
    var w := "/*" + Inset(remark) + "*/";
    var t := w + rest;
    CommentIsRead(remark, rest);
    assert t[..3] == "/**" && t[..|w|] == w;
    FirstChar(t, "#[");
    FirstChar(t, "///");
  }

  function Kept(pending: Option<string>, t: string): Option<string> {
    match pending
    case None => None
    case Some(p) => Some(p + t)
  }

  /** Whitespace is kept with a prefix, and so are ordinary comments and, for the ABI of
      `extern "C"`, a string. */
  lemma GapStep(c: char, rest: string, pending: Option<string>)
    requires IsSpace(c)
    ensures Step([c] + rest, pending) == Token(1, Kept(pending, [c]), None)
  {
    assert ([c] + rest)[..1] == [c];
  }

  lemma LineCommentStep(text: string, rest: string, pending: Option<string>)
    requires '\n' !in text && (text != "" ==> text[0] != '/')
    ensures var w := "//" + text;
            Step(w + "\n" + rest, pending) == Token(|w|, Kept(pending, w), None)
  {
    hide CommentLen, LiteralLen;
    var w := "//" + text;
    var t := w + "\n" + rest;
    LineIsRead(text, rest);
    assert t[..|w|] == w;
    assert |t| >= 3 ==> t[..3][2] != '/' && t[..3][1] == '/';
    FirstChar(t, "#[");
    FirstChar(t, "#![");
  }

  lemma BlockCommentStep(remark: Remark, rest: string, pending: Option<string>)
    requires IsRemark(remark) && Inset(remark) != "" && Inset(remark)[0] != '*'
    ensures var w := "/*" + Inset(remark) + "*/";
            Step(w + rest, pending) == Token(|w|, Kept(pending, w), None)
  {
    hide CommentLen, LiteralLen, Inset, IsRemark;
    var w := "/*" + Inset(remark) + "*/";
    var t := w + rest;
    CommentIsRead(remark, rest);
    assert t[..|w|] == w;
    assert t[..3][2] != '*' && t[..3][1] == '*';
    FirstChar(t, "#[");
    FirstChar(t, "#![");
  }

  lemma StringStep(inside: string, rest: string, pending: Option<string>)
    requires Inside(inside)
    ensures var w := "\"" + inside + "\"";
            Step(w + rest, pending) == Token(|w|, Kept(pending, w), None)
  {
    hide SkipLen, Inside, Step;
    var w := "\"" + inside + "\"";
    QuotedIsSkipped("", inside, rest);
    assert "" + w == w && (w + rest)[..|w|] == w && (w + rest)[0] == '"';
    LiteralStep(w + rest, |w|, pending);
  }

  lemma LiteralStep(t: string, n: nat, pending: Option<string>)
    requires t != "" && t[0] != '#' && t[0] != '/' && !IsSpace(t[0]) && SkipLen(t) == n > 0
    ensures Step(t, pending) == Token(n, if t[0] == '"' then Kept(pending, t[..n]) else None, None)
  {
    hide SkipLen, MarkLen, StartsWith, IsSpace;
    NotMarked(t);
  }

  lemma NotMarked(t: string)
    requires t != "" && t[0] != '#' && t[0] != '/'
    ensures MarkLen(t) == 0 && !StartsWith(t, "#![")
  {
    FirstChar(t, "#[");
    FirstChar(t, "#![");
    FirstChar(t, "///");
    FirstChar(t, "/**");
  }

  /** Anything else drops the prefix: another literal, an inner attribute, another word, `fn`
      without a name, or any other character. */
  lemma OtherLiteralStep(m: Skipped, rest: string, pending: Option<string>)
    requires IsSkipped(m) && !m.LineComment? && !m.BlockComment? && Written(m)[0] != '"'
    ensures Step(Written(m) + rest, pending) == Token(|Written(m)|, None, None)
  {
    hide SkipLen, IsSkipped, Step;
    SkippedIsSkipped(m, rest);
    LiteralStart(m);
    hide Written;
    LiteralStep(Written(m) + rest, |Written(m)|, pending);
  }

  lemma LiteralStart(m: Skipped)
    requires IsSkipped(m) && !m.LineComment? && !m.BlockComment?
    ensures var w := Written(m); w != "" && w[0] != '/' && w[0] != '#' && !IsSpace(w[0])
  {
  }

  lemma InnerAttributeStep(inside: string, rest: string, pending: Option<string>)
    requires IsPlain(inside) && '[' !in inside && ']' !in inside
    ensures var w := "#![" + inside + "]";
            Step(w + rest, pending) == Token(|w|, None, None)
  {
    hide MatchingLen, SkipLen;
    var w, tail := "#![" + inside + "]", "[" + (inside + ("]" + rest));
    var t := w + rest;
    assert t[2..] == tail && t[..3] == "#![" && t[..2][1] == '!';
    BracketIsRead(inside, rest, '[', ']');
    FirstChar(t, "///");
    FirstChar(t, "/**");
  }

  lemma OtherWordStep(w: string, rest: string, pending: Option<string>)
    requires IsWord(w) && Parts(rest) && w !in {"r", "b", "br", "c", "cr"}
    requires w !in {"pub", "const", "async", "unsafe", "extern", "default"}
    requires w == "fn" ==> forall i :: 0 <= i < |rest| && IsGap(rest[..i]) ==> !IsWordStart(rest[i])
    ensures Step(w + rest, pending) == Token(|w|, None, None)
  {
    hide Step, WordLen;
    WordFirst(w, rest, pending);
    if w == "fn" {
      var s := Run(rest, IsSpace);
      assert IsGap(rest[..s]);
      assert (w + rest)[2..] == rest;
      NoNameAfter(rest);
    }
  }

  lemma NoNameAfter(rest: string)
    requires forall i :: 0 <= i < |rest| && IsGap(rest[..i]) ==> !IsWordStart(rest[i])
    ensures NameAfter(rest) == None
  {
    var s := Run(rest, IsSpace);
    assert IsGap(rest[..s]);
  }

  lemma OtherCharacterStep(c: char, rest: string, pending: Option<string>)
    requires !IsWordStart(c) && c !in "\"'/#" && !IsSpace(c)
    ensures Step([c] + rest, pending) == Token(1, None, None)
  {
    hide SkipLen;
    var t := [c] + rest;
    PunctuationIsCode(c, rest);
    NotMarked(t);
    assert t[..0] == "";
  }

  // ----- a function with what is written before it -----

  /** What may stand before a function and is recorded with it. */
  datatype Mark =
    | Attribute(text: string)
    | Doc(text: string)
    | DocBlock(remark: Remark)
    | Qualifier(word: string)
    | Restricted(gap: string, text: string)

  function MarkText(m: Mark): string {
    match m
    case Attribute(text) => "#[" + text + "]"
    case Doc(text) => "///" + text
    case DocBlock(remark) => "/*" + Inset(remark) + "*/"
    case Qualifier(word) => word
    case Restricted(gap, text) => "pub" + gap + "(" + text + ")"
  }

  /** A mark, and whitespace that parts it from what follows. */
  predicate IsMark(m: Mark, gap: string) {
    IsGap(gap) &&
    match m
    case Attribute(text) => IsPlain(text) && '[' !in text && ']' !in text
    case Doc(text) => '\n' !in text && gap != "" && gap[0] == '\n'
    case DocBlock(remark) => IsRemark(remark) && Inset(remark) != "" && Inset(remark)[0] == '*'
    case Qualifier(word) => word in {"pub", "const", "async", "unsafe", "extern", "default"} && gap != ""
    case Restricted(inner, text) => IsGap(inner) && IsPlain(text) && '(' !in text && ')' !in text
  }

  datatype Prefix = Done | Lead(mark: Mark, gap: string, more: Prefix)

  function PrefixText(p: Prefix): string {
    match p
    case Done => ""
    case Lead(mark, gap, more) => MarkText(mark) + gap + PrefixText(more)
  }

  predicate IsPrefix(p: Prefix) {
    match p
    case Done => true
    case Lead(mark, gap, more) => IsMark(mark, gap) && IsPrefix(more)
  }

  /** What follows starts neither with whitespace nor with a parenthesis. */
  predicate Begins(rest: string) {
    rest != "" && !IsSpace(rest[0]) && rest[0] != '('
  }

  lemma MarkStep(m: Mark, gap: string, rest: string, pending: Option<string>)
    requires IsMark(m, gap) && Begins(rest)
    ensures MarkText(m) != ""
    ensures Step(MarkText(m) + (gap + rest), pending) ==
            Token(|MarkText(m)|, Some(TextOf(pending) + MarkText(m)), None)
  {
    hide Step, IsRemark, Inset;
    var after := gap + rest;
    match m
    case Attribute(text) => AttributeStep(text, after, pending);
    case Doc(text) =>
      assert "///" + text + (gap + rest) == "///" + text + "\n" + after[1..];
      DocStep(text, after[1..], pending);
    case DocBlock(remark) => DocBlockStep(remark, after, pending);
    case Qualifier(word) =>
      SpaceParts(gap, rest);
      forall i | 0 <= i < |after| && after[i] == '(' ensures !IsGap(after[..i]) {
        assert i > |gap| && after[..i][|gap|] == rest[0];
      }
      QualifierStep(word, after, pending);
    case Restricted(inner, text) => RestrictedStep(inner, text, after, pending);
  }

  /** A step that finds nothing hands its text and what is pending to the rest of the scan. */
  lemma StepGoesOn(s: string, rest: string, pending: Option<string>, after: Option<string>, k: nat)
    requires s != "" && k <= |rest| && Step(s + rest, pending) == Token(|s|, after, None)
    ensures Scan(s + rest, pending) == Scan(rest, after)
    ensures CleanCut(rest, k, after) ==> CleanCut(s + rest, |s| + k, pending)
  {
    hide Step;
    assert (s + rest)[|s|..] == rest;
  }

  lemma {:induction false} GapGoesOn(gap: string, rest: string, text: string, k: nat)
    requires IsGap(gap) && k <= |rest|
    ensures Scan(gap + rest, Some(text)) == Scan(rest, Some(text + gap))
    ensures CleanCut(rest, k, Some(text + gap)) ==> CleanCut(gap + rest, |gap| + k, Some(text))
  {
    hide Step, Scan, CleanCut;
    if gap == "" {
      assert gap + rest == rest && text + gap == text;
    } else {
      var c, x := gap[0], gap[1..];
      assert gap + rest == [c] + (x + rest) && text + gap == text + [c] + x;
      GapStep(c, x + rest, Some(text));
      StepGoesOn([c], x + rest, Some(text), Some(text + [c]), |x| + k);
      GapGoesOn(x, rest, text + [c], k);
    }
  }

  /** Every mark before a function is pending when the function is reached. */
  lemma {:induction false} PrefixIsPending(p: Prefix, rest: string, pending: Option<string>, k: nat)
    requires IsPrefix(p) && p != Done && Begins(rest) && k <= |rest|
    ensures var after := Some(TextOf(pending) + PrefixText(p));
            && Scan(PrefixText(p) + rest, pending) == Scan(rest, after)
            && (CleanCut(rest, k, after) ==> CleanCut(PrefixText(p) + rest, |PrefixText(p)| + k, pending))
    decreases p
  {
    hide Step, Scan, CleanCut, MarkText, IsMark, IsGap, Begins;
    var m, gap, more := p.mark, p.gap, p.more;
    var x := PrefixText(more) + rest;
    PrefixBegins(more, rest);
    GapOfMark(m, gap);
    MarkStep(m, gap, x, pending);
    var w := MarkText(m);
    var text := TextOf(pending) + w;
    StepGoesOn(w, gap + x, pending, Some(text), |gap| + |PrefixText(more)| + k);
    GapGoesOn(gap, x, text, |PrefixText(more)| + k);
    assert PrefixText(p) + rest == w + (gap + x);
    assert TextOf(pending) + PrefixText(p) == text + gap + PrefixText(more);
    if more == Done {
      assert x == rest && text + gap + "" == text + gap;
    } else {
      PrefixIsPending(more, rest, Some(text + gap), k);
    }
  }

  lemma GapOfMark(m: Mark, gap: string)
    requires IsMark(m, gap)
    ensures IsGap(gap)
  {
  }

  lemma PrefixBegins(p: Prefix, rest: string)
    requires IsPrefix(p) && Begins(rest)
    ensures Begins(PrefixText(p) + rest)
  {
    if p.Lead? {
      assert MarkText(p.mark) != "";
      assert (PrefixText(p) + rest)[0] == MarkText(p.mark)[0];
    }
  }

  datatype Function = Function(prefix: Prefix, gap: string, name: string, signature: string, body: Block)

  predicate IsFunction(f: Function) {
    && IsPrefix(f.prefix) && f.gap != "" && IsGap(f.gap)
    && IsWord(f.name) && IsSignature(f.signature) && IsBlock(f.body)
  }

  /** From `fn` to the closing brace. */
  function BareText(f: Function): string {
    "fn" + (f.gap + (f.name + (f.signature + ("{" + (TextOfBlock(f.body) + "}")))))
  }

  function FunctionText(f: Function): string {
    PrefixText(f.prefix) + BareText(f)
  }

  lemma BareRegroups(gap: string, name: string, signature: string, block: string, rest: string)
    ensures "fn" + (gap + (name + (signature + ("{" + (block + "}"))))) + rest ==
            "fn" + (gap + (name + (signature + ("{" + (block + ("}" + rest))))))
  {
    var x := signature + ("{" + (block + "}"));
    assert x + rest == signature + ("{" + (block + ("}" + rest)));
    Regroup("fn", gap, name + x, rest);
    assert gap + (name + x) + rest == gap + (name + (x + rest));
  }

  lemma SignatureParts(signature: string, x: string)
    requires IsSignature(signature)
    ensures Parts(signature + ("{" + x))
  {
  }

  lemma BareStep(f: Function, rest: string, pending: Option<string>)
    requires IsFunction(f)
    ensures var t := BareText(f);
            Step(t + rest, pending) == Token(|t|, None, Some((f.name, Normalise(TextOf(pending) + t))))
  {
    hide Step, Normalise, BodyLen, IsSignature, IsBlock, TextOfBlock, IsGap, IsWord, IsPrefix;
    var t, block := BareText(f), TextOfBlock(f.body);
    var x := block + ("}" + rest);
    var tail := f.signature + ("{" + x);
    BareRegroups(f.gap, f.name, f.signature, block, rest);
    SignatureParts(f.signature, x);
    FunctionStep(f.gap, f.name, tail, pending);
    BodyIsRead(f.signature, f.body, rest);
    assert (t + rest)[..|t|] == t;
  }

  /** The main result: a function with whatever stands before it, any nesting of blocks in its
      body and anything behind it is recorded as one function, under its name, with the normal
      form of its whole text. */
  lemma WrittenFunctionIsRecorded(f: Function, rest: string)
    requires IsFunction(f)
    ensures FnBodies(FunctionText(f) + rest) ==
            multiset{(f.name, Normalise(FunctionText(f)))} + FnBodies(rest)
    ensures CleanCut(FunctionText(f) + rest, |FunctionText(f)|, None)
  {
    hide Step, Scan, CleanCut, Normalise, BareText, IsFunction;
    var t := BareText(f);
    if f.prefix == Done {
      assert FunctionText(f) == t;
      BareScan(f, rest, None);
      assert "" + t == t;
    } else {
      BareBegins(f, rest);
      var after := Some(PrefixText(f.prefix));
      PrefixIsPending(f.prefix, t + rest, None, |t|);
      assert "" + PrefixText(f.prefix) == PrefixText(f.prefix);
      BareScan(f, rest, after);
      assert FunctionText(f) + rest == PrefixText(f.prefix) + (t + rest);
    }
  }

  lemma BareBegins(f: Function, rest: string)
    requires IsFunction(f)
    ensures Begins(BareText(f) + rest) && IsPrefix(f.prefix)
  {
  }

  lemma BareScan(f: Function, rest: string, pending: Option<string>)
    requires IsFunction(f)
    ensures var t := BareText(f);
            && Scan(t + rest, pending) == multiset{(f.name, Normalise(TextOf(pending) + t))} + FnBodies(rest)
            && CleanCut(t + rest, |t|, pending)
  {
    hide Step, Normalise, IsFunction;
    var t := BareText(f);
    BareStep(f, rest, pending);
    assert t != "" && (t + rest)[|t|..] == rest;
    hide BareText;
    ScanUnfolds(t + rest, pending);
  }

  /** So it is one function, self-contained, wherever it is moved. */
  lemma WrittenFunctionIsOne(f: Function)
    requires IsFunction(f)
    ensures OneFunction(FunctionText(f), f.name) && SelfContained(FunctionText(f))
  {
    hide Step, Scan, CleanCut, Normalise, FunctionText, IsFunction;
    WrittenFunctionIsRecorded(f, "");
    assert FunctionText(f) + "" == FunctionText(f);
    ScanUnfolds("", None);
    forall y ensures CleanCut(FunctionText(f) + y, |FunctionText(f)|, None) {
      WrittenFunctionIsRecorded(f, y);
    }
  }

  /** Rewriting a function so that any character but whitespace differs is reported as a change
      of that name and of nothing else, whatever stays. */
  lemma EditIsReported(f: Function, g: Function, before: string, after: string)
    requires IsFunction(f) && IsFunction(g) && f.name == g.name && FnBodies(before) == FnBodies(after)
    requires Ink(FunctionText(f)) != Ink(FunctionText(g))
    ensures Compare(FnBodies(FunctionText(f) + before), FnBodies(FunctionText(g) + after)) ==
            Report({}, {}, {f.name})
  {
    hide Step, Scan, CleanCut, Normalise, FunctionText, IsFunction, Ink;
    WrittenFunctionIsRecorded(f, before);
    WrittenFunctionIsRecorded(g, after);
    NormaliseKeepsInk(FunctionText(f));
    NormaliseKeepsInk(FunctionText(g));
    OneDiffers((f.name, Normalise(FunctionText(f))), (g.name, Normalise(FunctionText(g))), FnBodies(before));
  }

  lemma OneDiffers(x: Body, y: Body, rest: multiset<Body>)
    requires x != y && x.0 == y.0
    ensures Compare(multiset{x} + rest, multiset{y} + rest) == Report({}, {}, {x.0})
  {
    var lost, added := (multiset{x} + rest) - (multiset{y} + rest), (multiset{y} + rest) - (multiset{x} + rest);
    assert lost == multiset{x} && added == multiset{y};
    assert Names(lost) == {x.0} && Names(added) == {x.0};
  }
}
