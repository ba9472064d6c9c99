/** Functions written out: a body of nested blocks, with literals and comments between, is read
    to the brace that closes it. */
module BodyTrees {
  import opened Options
  import opened Text
  import opened RustScan
  import opened ScannerMeaning
  import opened BodyMeaning

  // ----- literals and comments -----

  /** A literal with its prefix, or a comment. */
  datatype Skipped =
    | Quoted(prefix: string, inside: string)
    | Raw(prefix: string, hashes: nat, text: string)
    | Character(prefix: string, c: char)
    | Escape(prefix: string, escaped: char, more: string)
    | LineComment(text: string)
    | BlockComment(remark: Remark)

  function Written(m: Skipped): string {
    match m
    case Quoted(w, inside) => w + ("\"" + inside + "\"")
    case Raw(w, h, text) => w + (Repeat('#', h) + "\"" + text + "\"" + Repeat('#', h))
    case Character(w, c) => w + ("'" + [c] + "'")
    case Escape(w, e, more) => w + ("'\\" + [e] + more + "'")
    case LineComment(text) => "//" + text
    case BlockComment(remark) => "/*" + Inset(remark) + "*/"
  }

  predicate IsSkipped(m: Skipped) {
    match m
    case Quoted(w, inside) => (w == "" || w == "b" || w == "c") && Inside(inside)
    case Raw(w, h, text) =>
      var close := "\"" + Repeat('#', h);
      (w == "r" || w == "br" || w == "cr") && NotBefore(text + close, close, |text|)
    case Character(w, c) => (w == "" || w == "b") && c != '\\'
    case Escape(w, e, more) => (w == "" || w == "b") && '\'' !in more
    case LineComment(text) => '\n' !in text
    case BlockComment(remark) => IsRemark(remark)
  }

  /** Each is skipped as a whole, whatever follows; a line comment, when its line ends there. */
  lemma SkippedIsSkipped(m: Skipped, rest: string)
    requires IsSkipped(m) && (m.LineComment? ==> rest == "" || rest[0] == '\n')
    ensures SkipLen(Written(m) + rest) == |Written(m)| > 0
  {
    hide SkipLen, IsRemark, Inside, NotBefore, Inset;
    match m
    case Quoted(w, inside) => QuotedIsSkipped(w, inside, rest);
    case Raw(w, h, text) => RawIsSkipped(w, h, text, rest);
    case Character(w, c) => CharacterIsSkipped(w, c, rest);
    case Escape(w, e, more) => EscapeIsSkipped(w, e, more, rest);
    case LineComment(text) => LineIsSkipped(text, rest);
    case BlockComment(remark) => BlockIsSkipped(remark, rest);
  }

  lemma QuotedIsSkipped(w: string, inside: string, rest: string)
    requires (w == "" || w == "b" || w == "c") && Inside(inside)
    ensures SkipLen(w + ("\"" + inside + "\"") + rest) == |w| + |inside| + 2
  {
    hide SkipLen, LiteralLen, StringTail, Inside;
    var x := inside + "\"" + rest;
    Regrouped(w, "\"", inside, rest);
    StringIsRead(inside, rest);
    LiteralIsSkipped(w + ("\"" + x));
    if w == "" {
      BareLiterals(x);
      assert w + ("\"" + x) == "\"" + x;
    } else {
      StringPrefix(w, x);
    }
  }

  lemma Regrouped(w: string, quote: string, inside: string, rest: string)
    ensures w + (quote + inside + quote) + rest == w + (quote + (inside + quote + rest))
  {
  }

  lemma RawIsSkipped(w: string, h: nat, text: string, rest: string)
    requires IsSkipped(Raw(w, h, text))
    ensures SkipLen(Written(Raw(w, h, text)) + rest) == |Written(Raw(w, h, text))|
  {
    hide SkipLen, LiteralLen, RawLen, NotBefore, Repeat;
    var x := Repeat('#', h) + "\"" + text + "\"" + Repeat('#', h) + rest;
    RawIsRead(h, text, rest);
    LiteralIsSkipped(w + x);
    assert Written(Raw(w, h, text)) + rest == w + x;
    if h > 0 { assert x[0] == Repeat('#', h)[0]; HashFirst(h); }
    RawPrefix(w, x);
  }

  lemma HashFirst(h: nat)
    requires h > 0
    ensures Repeat('#', h)[0] == '#'
  {
  }

  lemma CharacterIsSkipped(w: string, c: char, rest: string)
    requires (w == "" || w == "b") && c != '\\'
    ensures SkipLen(w + ("'" + [c] + "'") + rest) == |w| + 3
  {
    hide SkipLen, CharLen;
    CharacterIsRead(c, rest);
    var x := [c] + "'";
    assert "'" + [c] + "'" + rest == "'" + (x + rest) && "'" + [c] + "'" == "'" + x;
    TickIsSkipped(w, x, rest);
  }

  lemma EscapeIsSkipped(w: string, e: char, more: string, rest: string)
    requires (w == "" || w == "b") && '\'' !in more
    ensures SkipLen(w + ("'\\" + [e] + more + "'") + rest) == |w| + |more| + 4
  {
    hide SkipLen, CharLen;
    EscapeIsRead(e, more, rest);
    var x := "\\" + [e] + more + "'";
    assert "'\\" + [e] + more + "'" + rest == "'" + (x + rest) && "'\\" + [e] + more + "'" == "'" + x;
    TickIsSkipped(w, x, rest);
  }

  lemma TickIsSkipped(w: string, x: string, rest: string)
    requires (w == "" || w == "b") && CharLen("'" + (x + rest)) == Some(1 + |x|)
    ensures SkipLen(w + ("'" + x) + rest) == |w| + 1 + |x|
  {
    hide SkipLen, LiteralLen, CharLen;
    var y := "'" + (x + rest);
    assert w + ("'" + x) + rest == w + y;
    LiteralIsSkipped(w + y);
    if w == "" {
      BareLiterals(x + rest);
      assert w + y == y;
    } else {
      StringPrefix(w, x + rest);
    }
  }

  lemma LineIsSkipped(text: string, rest: string)
    requires '\n' !in text && (rest == "" || rest[0] == '\n')
    ensures SkipLen("//" + text + rest) == 2 + |text|
  {
    hide CommentLen, LiteralLen;
    if rest == "" {
      LineIsRead(text, "");
      assert "//" + text + rest == "//" + text;
    } else {
      LineIsRead(text, rest[1..]);
      assert "//" + text + "\n" + rest[1..] == "//" + text + rest;
    }
  }

  lemma BlockIsSkipped(remark: Remark, rest: string)
    requires IsRemark(remark)
    ensures SkipLen("/*" + Inset(remark) + "*/" + rest) == |Inset(remark)| + 4
  {
    hide CommentLen, LiteralLen, IsRemark, Inset;
    CommentIsRead(remark, rest);
  }

  lemma LiteralIsSkipped(t: string)
    requires t != "" && t[0] != '/'
    ensures SkipLen(t) == match LiteralLen(t)
                          case None => 0
                          case Some(n) => n
  {
    hide LiteralLen;
    FirstChar(t, "//");
    FirstChar(t, "/*");
  }

  // ----- plain text -----

  /** Text that holds no literal and no comment and no brace. */
  predicate IsPlain(s: string) {
    forall i :: 0 <= i < |s| ==> s[i] !in "\"'/{}"
  }

  /** What may follow plain text without joining it to a literal. */
  predicate Separates(rest: string) {
    rest != "" && rest[0] !in "\"'/#" && Parts(rest)
  }

  lemma PlainIsCode(s: string, rest: string)
    requires s != "" && IsPlain(s) && Separates(rest)
    ensures SkipLen(s + rest) == 0
  {
    hide SkipLen, LiteralLen;
    var t := s + rest;
    LiteralIsSkipped(t);
    if !IsWordStart(s[0]) {
      NoWord(t);
    } else {
      WordOfPlain(s, rest);
      var w := WordLen(t);
      var word, after := t[..w], t[w..];
      assert t == word + after && after[0] == t[w];
      if word == "r" || word == "br" || word == "cr" {
        RawPrefix(word, after);
        assert after == s[w..] + rest;
        NoRawInPlain(s[w..], rest);
      } else {
        NoPrefix(word, after);
      }
    }
  }

  lemma WordOfPlain(s: string, rest: string)
    requires s != "" && IsPlain(s) && Separates(rest) && IsWordStart(s[0])
    ensures var w := WordLen(s + rest);
            && 0 < w <= |s| && IsWord((s + rest)[..w]) && Parts((s + rest)[w..])
            && (s + rest)[w] != '"' && (s + rest)[w] != '\''
  {
    RunCut(s, rest, IsWordChar);
    var t := s + rest;
    var w := WordLen(t);
    assert t[|s|] == rest[0] && !IsWordChar(t[|s|]);
    if w < |s| { assert t[w] == s[w]; } else { assert t[w] == rest[0]; }
  }

  lemma NoRawInPlain(s: string, rest: string)
    requires IsPlain(s) && Separates(rest)
    ensures RawLen(s + rest) == None
  {
    var t := s + rest;
    var h := Run(t, IsHash);
    assert t[|s|] == rest[0] && !IsHash(t[|s|]);
    if h < |s| { assert t[h] == s[h]; } else { assert t[h] == rest[0]; }
  }

  // ----- one character of a body -----

  lemma PunctuationIsCode(c: char, rest: string)
    requires !IsWordStart(c) && c !in "\"'/"
    ensures SkipLen([c] + rest) == 0
  {
    LiteralIsSkipped([c] + rest);
    NoWord([c] + rest);
  }

  lemma CharacterInBody(c: char, rest: string, n: Nesting)
    requires SkipLen([c] + rest) == 0 && n.inBody && n.braces > 0
    ensures BodyLen([c] + rest, n) ==
            if c == '{' then 1 + BodyLen(rest, n.(braces := n.braces + 1))
            else if c == '}' then (if n.braces == 1 then 1 else 1 + BodyLen(rest, n.(braces := n.braces - 1)))
            else 1 + BodyLen(rest, n)
  {
    hide SkipLen;
    assert ([c] + rest)[1..] == rest;
  }

  lemma SkippedInBody(m: string, rest: string, n: Nesting)
    requires m != "" && SkipLen(m + rest) == |m|
    ensures BodyLen(m + rest, n) == |m| + BodyLen(rest, n)
  {
    hide SkipLen;
    assert (m + rest)[|m|..] == rest;
  }

  lemma {:induction false} PlainInBody(s: string, rest: string, n: Nesting)
    requires IsPlain(s) && Separates(rest) && n.inBody && n.braces > 0
    ensures BodyLen(s + rest, n) == |s| + BodyLen(rest, n)
  {
    hide SkipLen, BodyLen, Separates;
    if s == "" {
      assert s + rest == rest;
    } else {
      PlainIsCode(s, rest);
      assert s + rest == [s[0]] + (s[1..] + rest);
      CharacterInBody(s[0], s[1..] + rest, n);
      PlainInBody(s[1..], rest, n);
    }
  }

  // ----- blocks -----

  /** What stands between the braces of a body. */
  datatype Block =
    | Empty
    | Code(text: string, more: Block)
    | Skip(what: Skipped, more: Block)
    | Lifetime(name: string, more: Block)
    | Nested(inner: Block, more: Block)

  function TextOfBlock(b: Block): string {
    match b
    case Empty => ""
    case Code(text, more) => " " + text + TextOfBlock(more)
    case Skip(what, more) => " " + Written(what) + ((if what.LineComment? then "\n" else "") + TextOfBlock(more))
    case Lifetime(name, more) => " '" + name + (" " + TextOfBlock(more))
    case Nested(inner, more) => "{" + TextOfBlock(inner) + ("}" + TextOfBlock(more))
  }

  predicate IsBlock(b: Block) {
    match b
    case Empty => true
    case Code(text, more) => IsPlain(text) && IsBlock(more)
    case Skip(what, more) => IsSkipped(what) && IsBlock(more)
    case Lifetime(name, more) => IsWord(name) && IsBlock(more)
    case Nested(inner, more) => IsBlock(inner) && IsBlock(more)
  }

  /** A block is read over whatever its depth, and the nesting is then what it was before. */
  lemma {:induction false} BlockIsRead(b: Block, rest: string, n: Nesting)
    requires IsBlock(b) && Separates(rest) && n.inBody && n.braces > 0
    ensures Separates(TextOfBlock(b) + rest)
    ensures BodyLen(TextOfBlock(b) + rest, n) == |TextOfBlock(b)| + BodyLen(rest, n)
    decreases b
  {
    hide SkipLen, BodyLen, Written, IsSkipped, IsPlain, IsWord, Separates;
    match b
    case Empty =>
      assert "" + rest == rest;
    case Code(text, more) =>
      var z := TextOfBlock(more) + rest;
      BlockIsRead(more, rest, n);
      SpaceInBody(text + z, n);
      PlainInBody(text, z, n);
      Regroup(" ", text, TextOfBlock(more), rest);
    case Skip(what, more) =>
      var z := TextOfBlock(more) + rest;
      BlockIsRead(more, rest, n);
      SkipInBody(what, z, n);
      RegroupFive(" ", Written(what), if what.LineComment? then "\n" else "", TextOfBlock(more), rest);
    case Lifetime(name, more) =>
      var z := TextOfBlock(more) + rest;
      BlockIsRead(more, rest, n);
      LifetimeInBody(name, z, n);
      assert " '" == " " + "'";
      RegroupSix(" ", "'", name, " ", TextOfBlock(more), rest);
    case Nested(inner, more) =>
      NestedInBody(inner, more, rest, n);
  }

  lemma RegroupFive(a: string, b: string, c: string, d: string, e: string)
    ensures a + b + (c + d) + e == a + (b + (c + (d + e)))
  {
  }

  lemma RegroupSix(a: string, b: string, c: string, d: string, e: string, f: string)
    ensures a + b + c + (d + e) + f == a + (b + (c + (d + (e + f))))
  {
  }

  lemma SpaceInBody(rest: string, n: Nesting)
    requires n.inBody && n.braces > 0
    ensures BodyLen(" " + rest, n) == 1 + BodyLen(rest, n)
    ensures BodyLen("\n" + rest, n) == 1 + BodyLen(rest, n)
    ensures Separates(" " + rest)
  {
    hide BodyLen, SkipLen;
    PunctuationIsCode(' ', rest);
    PunctuationIsCode('\n', rest);
    CharacterInBody(' ', rest, n);
    CharacterInBody('\n', rest, n);
  }

  lemma SkipInBody(what: Skipped, rest: string, n: Nesting)
    requires IsSkipped(what) && n.inBody && n.braces > 0
    ensures var eol := if what.LineComment? then "\n" else "";
            var t := " " + (Written(what) + (eol + rest));
            Separates(t) && BodyLen(t, n) == 1 + |Written(what)| + |eol| + BodyLen(rest, n)
  {
    hide BodyLen, SkipLen, Written, IsSkipped;
    var eol := if what.LineComment? then "\n" else "";
    SpaceInBody(Written(what) + (eol + rest), n);
    SkippedIsSkipped(what, eol + rest);
    SkippedInBody(Written(what), eol + rest, n);
    if eol == "" { assert eol + rest == rest; } else { SpaceInBody(rest, n); }
  }

  lemma LifetimeInBody(name: string, rest: string, n: Nesting)
    requires IsWord(name) && n.inBody && n.braces > 0
    ensures var t := " " + ("'" + (name + (" " + rest)));
            Separates(t) && BodyLen(t, n) == 3 + |name| + BodyLen(rest, n)
  {
    hide BodyLen, SkipLen, CharLen, LiteralLen;
    var x := name + (" " + rest);
    SpaceInBody("'" + x, n);
    var t := "'" + x;
    assert t[1] == name[0] && IsWordChar(t[1]);
    assert t[2] == if |name| > 1 then name[1] else ' ';
    LifetimeIsNone(t);
    BareLiterals(x);
    LiteralIsSkipped(t);
    CharacterInBody('\'', x, n);
    WordIsPlain(name);
    PlainInBody(name, " " + rest, n);
    SpaceInBody(rest, n);
  }

  lemma WordIsPlain(w: string)
    requires IsWord(w)
    ensures IsPlain(w)
  {
  }

  lemma {:induction false} NestedInBody(inner: Block, more: Block, rest: string, n: Nesting)
    requires IsBlock(inner) && IsBlock(more) && Separates(rest) && n.inBody && n.braces > 0
    ensures var t := TextOfBlock(Nested(inner, more)) + rest;
            Separates(t) && BodyLen(t, n) == |t| - |rest| + BodyLen(rest, n)
    decreases Nested(inner, more), 0
  {
    hide BodyLen, SkipLen;
    var deeper := n.(braces := n.braces + 1);
    var z := TextOfBlock(more) + rest;
    var y := TextOfBlock(inner) + ("}" + z);
    RegroupFive("{", TextOfBlock(inner), "}", TextOfBlock(more), rest);
    PunctuationIsCode('{', y);
    CharacterInBody('{', y, n);
    BlockIsRead(inner, "}" + z, deeper);
    PunctuationIsCode('}', z);
    CharacterInBody('}', z, deeper);
    BlockIsRead(more, rest, n);
  }

  // ----- signatures -----

  /** Plain text whose semicolons all stand inside parentheses or square brackets. */
  predicate IsSignature(s: string) {
    IsPlain(s) && Parts(s) && forall i :: 0 <= i < |s| && s[i] == ';' ==> !SignatureIsWhole(s[..i])
  }

  lemma {:induction false} SignatureIsRead(s: string, rest: string, n: Nesting) returns (m: Nesting)
    requires IsPlain(s) && Separates(rest) && !n.inBody
    requires forall i :: 0 <= i < |s| && s[i] == ';' ==> !WholeFrom(n, s[..i])
    ensures BodyLen(s + rest, n) == |s| + BodyLen(rest, m) && !m.inBody && m.braces == n.braces
  {
    hide SkipLen, Separates, WholeFrom, EndsDeclaration, Times;
    m := n;
    if s == "" {
      assert s + rest == rest;
    } else {
      var c, x := s[0], s[1..];
      PlainIsCode(s, rest);
      FirstCharacter(n, c, x);
      assert s[..0] == "" && s == [c] + x;
      var n' := Enter(n, c);
      NotOpened(n, c);
      forall i | 0 <= i < |x| && x[i] == ';' ensures !WholeFrom(n', x[..i]) {
        assert s[i + 1] == ';' && s[..i + 1] == [c] + x[..i];
        OneCharacterCounts(n, c, x[..i]);
      }
      m := SignatureIsRead(x, rest, n');
      assert (s + rest)[1..] == x + rest;
    }
  }

  lemma NotOpened(n: Nesting, c: char)
    requires !n.inBody && c != '{' && c != '}'
    ensures !ClosesFrom(n, [c]) && !Enter(n, c).inBody && Enter(n, c).braces == n.braces
  {
  }

  /** A body is read to the brace that closes it, whatever blocks, literals and comments it
      holds and whatever follows it. */
  lemma BodyIsRead(signature: string, b: Block, rest: string)
    requires IsSignature(signature) && IsBlock(b)
    ensures BodyLen(signature + ("{" + (TextOfBlock(b) + ("}" + rest))), Nesting(0, 0, false)) ==
            |signature| + |TextOfBlock(b)| + 2
  {
    hide SkipLen, BodyLen, TextOfBlock, IsBlock;
    var x := TextOfBlock(b) + ("}" + rest);
    forall i | 0 <= i < |signature| && signature[i] == ';' ensures !WholeFrom(NO_NESTING, signature[..i]) {
      assert !SignatureIsWhole(signature[..i]);
    }
    var m := SignatureIsRead(signature, "{" + x, NO_NESTING);
    PunctuationIsCode('{', x);
    BodyOpens(x, m);
    var inside := Nesting(1, m.others, true);
    PunctuationIsCode('}', rest);
    BlockIsRead(b, "}" + rest, inside);
    CharacterInBody('}', rest, inside);
  }

  lemma BodyOpens(x: string, n: Nesting)
    requires SkipLen("{" + x) == 0 && !n.inBody && n.braces == 0
    ensures BodyLen("{" + x, n) == 1 + BodyLen(x, Nesting(1, n.others, true))
  {
    hide SkipLen;
    assert ("{" + x)[1..] == x;
  }
}
