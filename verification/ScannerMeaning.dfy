/** What the scanners of the moved-body checker read, said of written-out literals and comments:
    each is read to its own end, whatever follows it. */
module ScannerMeaning {
  import opened Options
  import opened Text
  import opened RustScan

  // ----- searching -----

  predicate NotBefore(t: string, needle: string, k: nat)
    requires k <= |t|
  {
    forall j :: 0 <= j < k ==> !StartsWith(t[j..], needle)
  }

  lemma {:induction false} FindsFirst(t: string, needle: string, k: nat)
    requires k + |needle| <= |t| && t[k..k + |needle|] == needle
    requires NotBefore(t, needle, k)
    ensures Find(t, needle) == Some(k)
    decreases k
  {
    assert t[0..] == t;
    if k == 0 {
      assert t[..|needle|] == t[0..0 + |needle|];
    } else {
      assert !StartsWith(t[0..], needle);
      forall j | 0 <= j < k - 1 ensures !StartsWith(t[1..][j..], needle) {
        assert t[1..][j..] == t[j + 1..];
      }
      assert t[1..][k - 1..k - 1 + |needle|] == t[k..k + |needle|];
      FindsFirst(t[1..], needle, k - 1);
    }
  }

  lemma {:induction false} FindsNone(t: string, needle: string)
    requires forall j :: 0 <= j <= |t| ==> !StartsWith(t[j..], needle)
    ensures Find(t, needle) == None
  {
    assert t[0..] == t;
    assert !StartsWith(t[0..], needle);
    if t != "" {
      forall j | 0 <= j <= |t| - 1 ensures !StartsWith(t[1..][j..], needle) {
        assert t[1..][j..] == t[j + 1..];
      }
      FindsNone(t[1..], needle);
    }
  }

  lemma FindsCharacter(s: string, c: char, rest: string)
    requires c !in s
    ensures Find(s + [c] + rest, [c]) == Some(|s|) && Find(s, [c]) == None
  {
    var t := s + [c] + rest;
    forall j | 0 <= j < |s| ensures !StartsWith(t[j..], [c]) && !StartsWith(s[j..], [c]) {
      assert t[j..][..1] == [s[j]] == s[j..][..1] && s[j] in s;
    }
    FindsFirst(t, [c], |s|);
    FindsNone(s, [c]);
  }

  // ----- escaped strings -----

  /** The inside of an escaped string: no quote but behind a backslash, and no backslash that has
      nothing to escape. */
  predicate Inside(s: string) {
    if s == "" then true
    else if s[0] == '\\' then |s| >= 2 && Inside(s[2..])
    else s[0] != '"' && Inside(s[1..])
  }

  lemma {:induction false} StringIsRead(s: string, rest: string)
    requires Inside(s)
    ensures StringTail(s + "\"" + rest) == |s| + 1
  {
    var t := s + "\"" + rest;
    if s != "" {
      assert t[0] == s[0];
      var n := if s[0] == '\\' then 2 else 1;
      assert t[n..] == s[n..] + "\"" + rest;
      StringIsRead(s[n..], rest);
    }
  }

  /** Without an end the string is the rest of the text. */
  lemma {:induction false} OpenStringIsRead(s: string)
    requires Inside(s)
    ensures StringTail(s) == |s| && StringTail(s + "\\") == |s| + 1
  {
    if s != "" {
      var n := if s[0] == '\\' then 2 else 1;
      assert (s + "\\")[n..] == s[n..] + "\\";
      OpenStringIsRead(s[n..]);
    }
  }

  /** Every text is one of those three. */
  lemma {:induction false} StringsAreThese(t: string) returns (s: string, rest: string)
    ensures Inside(s)
    ensures t == s + "\"" + rest || t == s || t == s + "\\"
  {
    if t == "" || t == "\\" {
      s, rest := "", "";
    } else if t[0] == '"' {
      s, rest := "", t[1..];
    } else {
      var n := if t[0] == '\\' then 2 else 1;
      s, rest := StringsAreThese(t[n..]);
      assert (t[..n] + s)[n..] == s;
      s := t[..n] + s;
    }
  }

  // ----- raw strings -----

  lemma {:induction false} HashesAreRun(h: nat, rest: string)
    requires rest == "" || rest[0] != '#'
    ensures Run(Repeat('#', h) + rest, IsHash) == h
  {
    var t := Repeat('#', h) + rest;
    if h > 0 {
      assert t[1..] == Repeat('#', h - 1) + rest;
      HashesAreRun(h - 1, rest);
    } else {
      assert t == rest;
    }
  }

  /** A raw string ends with the first quote that has as many hashes behind it as the opening one
      has before it; without one it is the rest of the text. */
  lemma RawIsRead(h: nat, s: string, rest: string)
    requires var close := "\"" + Repeat('#', h);
             NotBefore(s + close, close, |s|)
    ensures RawLen(Repeat('#', h) + "\"" + s + "\"" + Repeat('#', h) + rest) == Some(h + 1 + |s| + 1 + h)
  {
    var close := "\"" + Repeat('#', h);
    var inner := s + close + rest;
    assert inner[|s|..|s| + |close|] == close;
    StillNotBefore(s + close, rest, close, |s|);
    FindsFirst(inner, close, |s|);
    hide Find, StartsWith, RawLen, Repeat;
    RawAfterQuote(h, inner);
    RawRegroup(Repeat('#', h), s, rest);
  }

  lemma StillNotBefore(t: string, rest: string, needle: string, k: nat)
    requires k + |needle| <= |t| && NotBefore(t, needle, k)
    ensures NotBefore(t + rest, needle, k)
  {
    forall j | 0 <= j < k ensures !StartsWith((t + rest)[j..], needle) {
      assert (t + rest)[j..] == t[j..] + rest;
      StartsCut(t[j..], rest, needle);
      assert !StartsWith(t[j..], needle);
    }
  }

  lemma RawRegroup(hashes: string, s: string, rest: string)
    ensures hashes + "\"" + s + "\"" + hashes + rest == hashes + ("\"" + (s + ("\"" + hashes) + rest))
  {
  }

  lemma RawAfterQuote(h: nat, inner: string)
    ensures RawLen(Repeat('#', h) + ("\"" + inner)) ==
            match Find(inner, "\"" + Repeat('#', h))
            case None => Some(h + 1 + |inner|)
            case Some(k) => Some(h + 1 + k + 1 + h)
  {
    var t := Repeat('#', h) + ("\"" + inner);
    HashesAreRun(h, "\"" + inner);
    hide Find, Repeat, Run;
    assert t[h] == '"' && t[h + 1..] == inner;
    RawUnfolds(t, h, inner);
  }

  lemma RawUnfolds(t: string, h: nat, inner: string)
    requires Run(t, IsHash) == h < |t| && t[h] == '"' && t[h + 1..] == inner
    ensures RawLen(t) == match Find(inner, "\"" + Repeat('#', h))
            case None => Some(h + 1 + |inner|)
            case Some(k) => Some(h + 1 + k + 1 + h)
  {
    hide Find, Repeat, Run;
  }

  lemma OpenRawIsRead(h: nat, s: string)
    requires forall j :: 0 <= j <= |s| ==> !StartsWith(s[j..], "\"" + Repeat('#', h))
    ensures RawLen(Repeat('#', h) + "\"" + s) == Some(h + 1 + |s|)
  {
    assert Repeat('#', h) + "\"" + s == Repeat('#', h) + ("\"" + s);
    RawAfterQuote(h, s);
    FindsNone(s, "\"" + Repeat('#', h));
  }

  lemma NoRaw(h: nat, rest: string)
    requires rest == "" || (rest[0] != '#' && rest[0] != '"')
    ensures RawLen(Repeat('#', h) + rest) == None
  {
    HashesAreRun(h, rest);
  }

  // ----- characters and lifetimes -----

  lemma CharacterIsRead(c: char, rest: string)
    requires c != '\\'
    ensures CharLen("'" + [c] + "'" + rest) == Some(3)
  {
  }

  lemma EscapeIsRead(e: char, s: string, rest: string)
    requires '\'' !in s
    ensures CharLen("'\\" + [e] + s + "'" + rest) == Some(|s| + 4)
    ensures CharLen("'\\" + [e] + s) == Some(|s| + 3) && CharLen("'\\") == Some(2)
  {
    FindsCharacter(s, '\'', rest);
    assert ("'\\" + [e] + s + "'" + rest)[3..] == s + "'" + rest;
    assert ("'\\" + [e] + s)[3..] == s;
  }

  lemma LifetimeIsNone(t: string)
    requires t != "" && (|t| > 1 ==> t[1] != '\\') && (|t| > 2 ==> t[2] != '\'')
    ensures CharLen(t) == None
  {
  }

  // ----- comments -----

  lemma LineIsRead(s: string, rest: string)
    requires '\n' !in s
    ensures CommentLen("//" + s + "\n" + rest) == Some(2 + |s|)
    ensures CommentLen("//" + s) == Some(2 + |s|)
  {
    FindsCharacter("//" + s, '\n', rest);
    assert ("//" + s)[..2] == "//" && ("//" + s + "\n" + rest)[..2] == "//";
  }

  /** What a block comment holds: words and further block comments. */
  datatype Remark = Nothing | Words(text: string, more: Remark) | Inner(inner: Remark, more: Remark)

  function Inset(r: Remark): string {
    match r
    case Nothing => ""
    case Words(text, more) => text + Inset(more)
    case Inner(inner, more) => "/*" + Inset(inner) + "*/" + Inset(more)
  }

  predicate MarkAt(s: string, i: nat)
    requires i + 1 < |s|
  {
    (s[i] == '/' && s[i + 1] == '*') || (s[i] == '*' && s[i + 1] == '/')
  }

  /** Words hold no mark of a comment and end in none of its characters. */
  predicate IsWords(s: string) {
    && (forall i :: 0 <= i && i + 1 < |s| ==> !MarkAt(s, i))
    && (s != "" ==> s[|s| - 1] != '/' && s[|s| - 1] != '*')
  }

  predicate IsRemark(r: Remark) {
    match r
    case Nothing => true
    case Words(text, more) => IsWords(text) && IsRemark(more)
    case Inner(inner, more) => IsRemark(inner) && IsRemark(more)
  }

  lemma MarksAreRead(x: string, depth: nat)
    requires depth > 0
    ensures BlockTail("/*" + x, depth) == 2 + BlockTail(x, depth + 1)
    ensures BlockTail("*/" + x, depth) == 2 + BlockTail(x, depth - 1)
  {
    assert ("/*" + x)[..2] == "/*" && ("/*" + x)[2..] == x;
    assert ("*/" + x)[..2] == "*/" && ("*/" + x)[2..] == x;
  }

  lemma OneIsRead(c: char, x: string, depth: nat)
    requires depth > 0 && (x != "" ==> !MarkAt([c] + x, 0))
    ensures BlockTail([c] + x, depth) == 1 + BlockTail(x, depth)
  {
    var t := [c] + x;
    assert t[1..] == x;
    if x != "" { assert t[..2][0] == t[0] && t[..2][1] == t[1]; }
  }

  lemma {:induction false} WordsAreRead(s: string, rest: string, depth: nat)
    requires IsWords(s) && depth > 0
    ensures BlockTail(s + rest, depth) == |s| + BlockTail(rest, depth)
  {
    hide BlockTail;
    if s == "" {
      assert s + rest == rest;
    } else {
      var x := s[1..] + rest;
      assert s + rest == [s[0]] + x;
      if |s| > 1 { assert !MarkAt(s, 0); }
      OneIsRead(s[0], x, depth);
      forall i: nat | i + 1 < |s[1..]| ensures !MarkAt(s[1..], i) { assert !MarkAt(s, i + 1); }
      WordsAreRead(s[1..], rest, depth);
    }
  }

  lemma {:induction false} RemarkIsRead(r: Remark, rest: string, depth: nat)
    requires IsRemark(r) && depth > 0
    ensures BlockTail(Inset(r) + rest, depth) == |Inset(r)| + BlockTail(rest, depth)
    decreases r
  {
    hide BlockTail, IsWords;
    match r
    case Nothing =>
      assert "" + rest == rest;
    case Words(text, more) =>
      assert Inset(r) + rest == text + (Inset(more) + rest);
      WordsAreRead(text, Inset(more) + rest, depth);
      RemarkIsRead(more, rest, depth);
    case Inner(inner, more) =>
      var close := "*/" + (Inset(more) + rest);
      assert Inset(r) + rest == "/*" + (Inset(inner) + close);
      MarksAreRead(Inset(inner) + close, depth);
      RemarkIsRead(inner, close, depth + 1);
      MarksAreRead(Inset(more) + rest, depth + 1);
      RemarkIsRead(more, rest, depth);
  }

  /** A block comment is read to the mark that closes it, with every comment inside it; one that
      is not closed is the rest of the text. */
  lemma CommentIsRead(r: Remark, rest: string)
    requires IsRemark(r)
    ensures CommentLen("/*" + Inset(r) + "*/" + rest) == Some(2 + |Inset(r)| + 2)
    ensures CommentLen("/*" + Inset(r)) == Some(2 + |Inset(r)|)
  {
    hide CommentLen, BlockTail, IsRemark, Inset;
    Regroup("/*", Inset(r), "*/", rest);
    CommentAfterMark(Inset(r) + ("*/" + rest));
    CommentAfterMark(Inset(r));
    RemarkIsRead(r, "*/" + rest, 1);
    MarksAreRead(rest, 1);
    RemarkIsRead(r, "", 1);
    assert Inset(r) + "" == Inset(r);
    NoDepth(rest);
  }

  lemma Regroup(a: string, b: string, c: string, d: string)
    ensures a + b + c + d == a + (b + (c + d))
  {
  }

  lemma CommentAfterMark(x: string)
    ensures CommentLen("/*" + x) == Some(2 + BlockTail(x, 1))
  {
    hide BlockTail;
    assert ("/*" + x)[..2] == "/*" && ("/*" + x)[2..] == x;
  }

  lemma NoDepth(rest: string)
    ensures BlockTail(rest, 0) == 0 && BlockTail("", 1) == 0
  {
  }

  // ----- words and literal prefixes -----

  /** The characters of identifiers. */
  lemma IdentifierCharacters(c: char)
    ensures IsWordStart(c) <==> c in "ABCDEFGHIJKLM" + "NOPQRSTUVWXYZ" + "abcdefghijklm" + "nopqrstuvwxyz" + "_"
    ensures IsWordChar(c) <==> IsWordStart(c) || c in "0123456789"
  {
    var a, n, a', n' := "ABCDEFGHIJKLM", "NOPQRSTUVWXYZ", "abcdefghijklm", "nopqrstuvwxyz";
    assert c in a <==> 'A' <= c <= 'M';
    assert c in n <==> 'N' <= c <= 'Z';
    assert c in a' <==> 'a' <= c <= 'm';
    assert c in n' <==> 'n' <= c <= 'z';
  }

  /** The characters of whitespace, those of Python's `str.isspace`. */
  lemma SpaceCharacters(c: char)
    ensures IsSpace(c) <==>
            c in "\t\n\U{0B}\U{0C}\r\U{1C}\U{1D}\U{1E}\U{1F} \U{85}\U{A0}\U{1680}"
            || c in "\U{2000}\U{2001}\U{2002}\U{2003}\U{2004}\U{2005}\U{2006}\U{2007}\U{2008}\U{2009}\U{200A}"
            || c in "\U{2028}\U{2029}\U{202F}\U{205F}\U{3000}"
  {
  }

  predicate IsWord(w: string) {
    w != "" && IsWordStart(w[0]) && forall i :: 0 <= i < |w| ==> IsWordChar(w[i])
  }

  /** What follows does not go on with an identifier. */
  predicate Parts(rest: string) {
    rest == "" || !IsWordChar(rest[0])
  }

  lemma {:induction false} AllAreRun(s: string, rest: string, p: char -> bool)
    requires forall i :: 0 <= i < |s| ==> p(s[i])
    requires rest == "" || !p(rest[0])
    ensures Run(s + rest, p) == |s|
  {
    if s == "" {
      assert s + rest == rest;
    } else {
      assert (s + rest)[1..] == s[1..] + rest;
      AllAreRun(s[1..], rest, p);
    }
  }

  lemma WordIsRead(w: string, rest: string)
    requires IsWord(w) && Parts(rest)
    ensures WordLen(w + rest) == |w| && (w + rest)[..|w|] == w && (w + rest)[|w|..] == rest
  {
    AllAreRun(w, rest, IsWordChar);
  }

  /** Without a prefix a quote opens a string and a tick a character. */
  lemma BareLiterals(rest: string)
    ensures LiteralLen("\"" + rest) == Some(1 + StringTail(rest))
    ensures LiteralLen("'" + rest) == CharLen("'" + rest)
  {
    assert ("\"" + rest)[1..] == rest;
  }

  /** The raw prefixes. */
  lemma RawPrefix(w: string, rest: string)
    requires w == "r" || w == "br" || w == "cr"
    requires Parts(rest)
    ensures LiteralLen(w + rest) ==
            match RawLen(rest)
            case None => None
            case Some(n) => Some(|w| + n)
  {
    hide RawLen, StringTail, CharLen;
    WordIsRead(w, rest);
    hide WordLen;
  }

  /** The prefixes of escaped strings and of a byte. */
  lemma StringPrefix(w: string, rest: string)
    requires w == "b" || w == "c"
    ensures LiteralLen(w + ("\"" + rest)) == Some(|w| + 1 + StringTail(rest))
    ensures LiteralLen(w + ("'" + rest)) ==
            if w == "c" || CharLen("'" + rest) == None then None else Some(1 + CharLen("'" + rest).value)
  {
    hide RawLen, StringTail, CharLen;
    WordIsRead(w, "\"" + rest);
    WordIsRead(w, "'" + rest);
    hide WordLen;
    assert ("\"" + rest)[1..] == rest;
  }

  /** No other word, and none of these before anything else, starts a literal. */
  lemma NoPrefix(w: string, rest: string)
    requires IsWord(w) && Parts(rest)
    requires w != "r" && w != "br" && w != "cr"
    requires (w == "b" || w == "c") && rest != "" ==> rest[0] != '"' && rest[0] != '\''
    ensures LiteralLen(w + rest) == None
  {
    hide RawLen, StringTail, CharLen;
    WordIsRead(w, rest);
    hide WordLen;
  }

  lemma NoWord(t: string)
    requires t != "" && !IsWordStart(t[0]) && t[0] != '"' && t[0] != '\''
    ensures LiteralLen(t) == None
  {
    assert t[..0] == "";
  }
}
