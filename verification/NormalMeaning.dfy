/** What the normal form looks like: the pieces of a text, comments with their own whitespace
    collapsed, joined by single spaces where whitespace parted them. */
module NormalMeaning {
  import opened Options
  import opened Text
  import opened RustScan
  import opened ScannerMeaning
  import opened BodyTrees
  import opened Normaliser

  // ----- words -----

  /** Words with the whitespace behind each of them. */
  datatype Words = NoWords | Word(text: string, gap: string, more: Words)

  predicate IsBlank(s: string) {
    forall i :: 0 <= i < |s| ==> IsSpace(s[i])
  }

  predicate IsInk(s: string) {
    s != "" && forall i :: 0 <= i < |s| ==> !IsSpace(s[i])
  }

  predicate AreWords(w: Words) {
    w.Word? ==>
      IsInk(w.text) && IsBlank(w.gap) && (w.more.Word? ==> w.gap != "") && AreWords(w.more)
  }

  function Loose(w: Words): string {
    match w
    case NoWords => ""
    case Word(text, gap, more) => text + (gap + Loose(more))
  }

  function List(w: Words): seq<string> {
    match w
    case NoWords => []
    case Word(text, _, more) => [text] + List(more)
  }

  lemma {:induction false} CollapseBlank(s: string, rest: string, started: bool, pending: bool)
    requires IsBlank(s)
    ensures Collapse(s + rest, started, pending) == Collapse(rest, started, pending || s != "")
  {
    if s == "" {
      assert s + rest == rest;
    } else {
      assert (s + rest)[1..] == s[1..] + rest;
      CollapseBlank(s[1..], rest, started, true);
    }
  }

  lemma {:induction false} CollapseInk(s: string, rest: string, started: bool, pending: bool)
    requires IsInk(s)
    ensures Collapse(s + rest, started, pending) ==
            (if pending && started then " " else "") + s + Collapse(rest, true, false)
  {
    var x := s[1..];
    assert (s + rest)[1..] == x + rest;
    if x == "" {
      assert x + rest == rest && s == [s[0]];
    } else {
      CollapseInk(x, rest, true, false);
      assert s == [s[0]] + x;
    }
  }

  lemma {:induction false} CollapseWords(w: Words, pending: bool)
    requires AreWords(w) && (w.Word? ==> pending)
    ensures Collapse(Loose(w), true, pending) == if w == NoWords then "" else " " + Join(List(w), ' ')
  {
    hide IsInk, IsBlank, Join, List;
    if w.Word? {
      hide Collapse;
      CollapseInk(w.text, w.gap + Loose(w.more), true, pending);
      CollapseBlank(w.gap, Loose(w.more), true, false);
      CollapseWords(w.more, w.gap != "");
      JoinOfList(w);
    }
  }

  lemma JoinOfList(w: Words)
    requires w.Word?
    ensures Join(List(w), ' ') == w.text + if w.more == NoWords then "" else " " + Join(List(w.more), ' ')
  {
    assert List(w)[1..] == List(w.more);
  }

  /** A comment is its words joined by single spaces. */
  lemma CommentIsItsWords(front: string, w: Words)
    requires IsBlank(front) && AreWords(w)
    ensures Collapse(front + Loose(w), false, false) == Join(List(w), ' ')
  {
    hide IsInk, IsBlank;
    CollapseBlank(front, Loose(w), false, false);
    if w.Word? {
      CollapseInk(w.text, w.gap + Loose(w.more), false, front != "");
      CollapseBlank(w.gap, Loose(w.more), true, false);
      CollapseWords(w.more, w.gap != "");
      JoinOfList(w);
    }
  }

  // ----- pieces -----

  /** Code without whitespace, a literal, or a comment as words. */
  datatype Item = Plain(text: string) | Quoted(literal: Skipped) | Remarked(comment: Skipped, words: Words)

  datatype Items = NoItems | Put(item: Item, gap: string, more: Items)

  predicate IsItem(p: Item) {
    match p
    case Plain(text) => IsPlain(text) && IsInk(text)
    case Quoted(m) => IsSkipped(m) && !m.LineComment? && !m.BlockComment?
    case Remarked(m, w) =>
      IsSkipped(m) && (m.LineComment? || m.BlockComment?) && AreWords(w) && Written(m) == Loose(w)
  }

  predicate AreItems(t: Items) {
    t.Put? ==>
      && IsItem(t.item) && IsBlank(t.gap) && t.gap != ""
      && (t.item.Remarked? && t.item.comment.LineComment? ==> t.gap[0] == '\n') && AreItems(t.more)
  }

  function ItemText(p: Item): string {
    match p
    case Plain(text) => text
    case Quoted(m) => Written(m)
    case Remarked(m, _) => Written(m)
  }

  function ItemsText(t: Items): string {
    match t
    case NoItems => ""
    case Put(p, gap, more) => ItemText(p) + (gap + ItemsText(more))
  }

  function ItemForm(p: Item): string {
    match p
    case Plain(text) => text
    case Quoted(m) => Written(m)
    case Remarked(_, w) => Join(List(w), ' ')
  }

  function Forms(t: Items): seq<string> {
    match t
    case NoItems => []
    case Put(p, _, more) => [ItemForm(p)] + Forms(more)
  }

  lemma SkippedFirst(m: Skipped, rest: string)
    requires IsSkipped(m) && (m.LineComment? ==> rest == "" || rest[0] == '\n')
    ensures Written(m) != "" && !IsSpace((Written(m) + rest)[0])
    ensures var w, t := Written(m), Written(m) + rest;
            FirstPiece(t) == (if m.LineComment? || m.BlockComment? then Comment(w) else Literal(w), |w|)
  {
    hide SkipLen, IsSkipped, LiteralLen, CommentLen;
    var w, t := Written(m), Written(m) + rest;
    SkippedIsSkipped(m, rest);
    SkippedStart(m);
    assert t[0] == w[0] && t[..|w|] == w;
    if m.LineComment? || m.BlockComment? {
      hide Written;
      SlashIsNoLiteral(t);
      assert CommentLen(t) == Some(|w|) by { SkippedIsComment(t, |w|); }
    } else {
      hide Written;
      LiteralIsSkipped(t);
    }
  }

  lemma SkippedStart(m: Skipped)
    requires IsSkipped(m)
    ensures var w := Written(m); w != "" && !IsSpace(w[0])
    ensures Written(m)[0] == '/' <==> m.LineComment? || m.BlockComment?
  {
  }

  lemma SlashIsNoLiteral(t: string)
    requires t != "" && t[0] == '/'
    ensures LiteralLen(t) == None
  {
    NoWord(t);
  }

  lemma SkippedIsComment(t: string, n: nat)
    requires t != "" && LiteralLen(t) == None && SkipLen(t) == n > 0
    ensures CommentLen(t) == Some(n)
  {
    hide LiteralLen, CommentLen;
  }

  lemma {:induction false} PlainIsKept(s: string, rest: string, started: bool, pending: bool)
    requires IsPlain(s) && IsInk(s) && Separates(rest)
    ensures NormaliseFrom(s + rest, started, pending) ==
            (if pending && started then " " else "") + s + NormaliseFrom(rest, true, false)
  {
    hide SkipLen, Separates, NormaliseFrom, IsPlain, IsSpace;
    var x := s[1..];
    PlainIsCode(s, rest);
    assert s + rest == [s[0]] + (x + rest);
    CodeIsKept(s[0], x + rest, started, pending);
    TailIsPlain(s);
    if x == "" {
      assert x + rest == rest && s == [s[0]];
    } else {
      PlainIsKept(x, rest, true, false);
      assert s == [s[0]] + x;
    }
  }

  lemma TailIsPlain(s: string)
    requires IsPlain(s) && s != ""
    ensures IsPlain(s[1..])
  {
  }

  lemma CodeIsKept(c: char, rest: string, started: bool, pending: bool)
    requires SkipLen([c] + rest) == 0 && !IsSpace(c)
    ensures NormaliseFrom([c] + rest, started, pending) ==
            (if pending && started then " " else "") + [c] + NormaliseFrom(rest, true, false)
  {
    hide LiteralLen, CommentLen;
    var t := [c] + rest;
    assert FirstPiece(t) == (Other(t[..1]), 1);
    assert t[1..] == rest && t[..1] == [c];
  }

  lemma SpaceSeparates(gap: string, rest: string)
    requires gap != "" && IsBlank(gap)
    ensures Separates(gap + rest)
  {
  }

  lemma ItemIsKept(p: Item, gap: string, rest: string, started: bool, pending: bool)
    requires IsItem(p) && IsBlank(gap) && gap != ""
    requires p.Remarked? && p.comment.LineComment? ==> gap[0] == '\n'
    ensures NormaliseFrom(ItemText(p) + (gap + rest), started, pending) ==
            (if pending && started then " " else "") + ItemForm(p) + NormaliseFrom(gap + rest, true, false)
  {
    hide FirstPiece, Written, IsSkipped, IsPlain, IsSpace;
    var after := gap + rest;
    match p
    case Plain(text) =>
      SpaceSeparates(gap, rest);
      PlainIsKept(text, after, started, pending);
    case Quoted(m) =>
      SkippedFirst(m, after);
      assert (Written(m) + after)[|Written(m)|..] == after;
    case Remarked(m, w) =>
      SkippedFirst(m, after);
      assert (Written(m) + after)[|Written(m)|..] == after;
      CommentIsItsWords("", w);
      assert "" + Loose(w) == Loose(w);
  }

  lemma {:induction false} BlankIsPending(gap: string, rest: string, started: bool, pending: bool)
    requires IsBlank(gap)
    ensures NormaliseFrom(gap + rest, started, pending) == NormaliseFrom(rest, started, pending || gap != "")
  {
    if gap == "" {
      assert gap + rest == rest;
    } else {
      var t := gap + rest;
      assert t[1..] == gap[1..] + rest;
      SpacePiece(t);
      hide FirstPiece;
      BlankIsPending(gap[1..], rest, started, true);
    }
  }

  lemma SpacePiece(t: string)
    requires t != "" && IsSpace(t[0])
    ensures FirstPiece(t) == (Space, 1)
  {
    hide CommentLen;
    if t[0] != '"' && t[0] != '\'' { NoWord(t); }
  }

  lemma NothingLeft()
    ensures NormaliseFrom("", false, false) == NormaliseFrom("", false, true) == NormaliseFrom("", true, true) == ""
  {
  }

  lemma {:induction false} ItemsAreJoined(t: Items)
    requires AreItems(t)
    ensures NormaliseFrom(ItemsText(t), true, true) == if t == NoItems then "" else " " + Join(Forms(t), ' ')
  {
    hide IsItem, ItemText, ItemForm, NormaliseFrom;
    if t == NoItems {
      NothingLeft();
    } else {
      ItemIsKept(t.item, t.gap, ItemsText(t.more), true, true);
      BlankIsPending(t.gap, ItemsText(t.more), true, false);
      ItemsAreJoined(t.more);
      JoinOfForms(t);
    }
  }

  lemma JoinOfForms(t: Items)
    requires t.Put?
    ensures Join(Forms(t), ' ') == ItemForm(t.item) + if t.more == NoItems then "" else " " + Join(Forms(t.more), ' ')
  {
    assert Forms(t)[1..] == Forms(t.more);
  }

  /** The normal form of a text of such pieces is their forms joined by single spaces, whatever
      whitespace stands before, between and behind them. */
  lemma NormalFormIsJoined(front: string, t: Items)
    requires IsBlank(front) && AreItems(t)
    ensures Normalise(front + ItemsText(t)) == Join(Forms(t), ' ')
  {
    hide IsItem, ItemText, ItemForm, NormaliseFrom;
    NothingLeft();
    BlankIsPending(front, ItemsText(t), false, false);
    if t.Put? {
      ItemIsKept(t.item, t.gap, ItemsText(t.more), false, front != "");
      BlankIsPending(t.gap, ItemsText(t.more), true, false);
      ItemsAreJoined(t.more);
      JoinOfForms(t);
    }
  }
}
