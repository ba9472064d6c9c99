/** The token scanners of the moved-body checker, as functions of the text that is still
    to be read: each one answers how many characters it consumes. A scanner never looks
    back, so this is all that an index into a text can mean to it. */
module RustScan {
  import opened Options
  import opened Text

  predicate IsWordStart(c: char) {
    'A' <= c <= 'Z' || 'a' <= c <= 'z' || c == '_'
  }

  predicate IsWordChar(c: char) {
    IsWordStart(c) || '0' <= c <= '9'
  }

  predicate IsHash(c: char) {
    c == '#'
  }

  /** Length of the longest prefix whose characters all satisfy `p`. */
  function Run(t: string, p: char -> bool): (n: nat)
    ensures n <= |t|
    ensures forall i :: 0 <= i < n ==> p(t[i])
    ensures n < |t| ==> !p(t[n])
  {
    if |t| > 0 && p(t[0]) then 1 + Run(t[1..], p) else 0
  }

  /** Length of the identifier at the front, 0 when there is none. */
  function WordLen(t: string): (n: nat)
    ensures n <= |t|
  {
    if |t| > 0 && IsWordStart(t[0]) then Run(t, IsWordChar) else 0
  }

  /** Index of the first occurrence of `needle`. */
  function Find(t: string, needle: string): (k: Option<nat>)
    ensures k.Some? ==> k.value + |needle| <= |t|
  {
    if StartsWith(t, needle) then Some(0)
    else if |t| == 0 then None
    else match Find(t[1..], needle)
      case None => None
      case Some(k) => Some(k + 1)
  }

  function Repeat(c: char, n: nat): (s: string)
    ensures |s| == n
  {
    if n == 0 then "" else [c] + Repeat(c, n - 1)
  }

  // ----- literals and comments -----

  /** The rest of an escaped string, its closing quote included. */
  function StringTail(t: string): (n: nat)
    ensures n <= |t|
  {
    if |t| == 0 then 0
    else if t[0] == '"' then 1
    else if t[0] == '\\' then (if |t| == 1 then 1 else 2 + StringTail(t[2..]))
    else 1 + StringTail(t[1..])
  }

  /** A raw string from its `#`s or its quote on. */
  function RawLen(t: string): (n: Option<nat>)
    ensures n.Some? ==> 1 <= n.value <= |t|
  {
    var h := Run(t, IsHash);
    if h < |t| && t[h] == '"' then
      match Find(t[h + 1..], "\"" + Repeat('#', h))
      case None => Some(|t|)
      case Some(k) => Some(h + 1 + k + 1 + h)
    else None
  }

  /** A character literal; `None` for a lifetime. */
  function CharLen(t: string): (n: Option<nat>)
    requires |t| > 0
    ensures n.Some? ==> 1 <= n.value <= |t|
  {
    if |t| > 1 && t[1] == '\\' then
      if |t| < 3 then Some(|t|)
      else match Find(t[3..], "'")
        case None => Some(|t|)
        case Some(k) => Some(3 + k + 1)
    else if |t| > 2 && t[2] == '\'' then Some(3)
    else None
  }

  /** The rest of a block comment nested `depth` deep. */
  function BlockTail(t: string, depth: nat): (n: nat)
    ensures n <= |t|
    decreases |t|
  {
    if |t| == 0 || depth == 0 then 0
    else if StartsWith(t, "/*") then 2 + BlockTail(t[2..], depth + 1)
    else if StartsWith(t, "*/") then 2 + BlockTail(t[2..], depth - 1)
    else 1 + BlockTail(t[1..], depth)
  }

  function CommentLen(t: string): (n: Option<nat>)
    ensures n.Some? ==> 2 <= n.value <= |t|
  {
    if StartsWith(t, "//") then
      match Find(t, "\n")
      case None => Some(|t|)
      case Some(k) => NewlineAfterSlashes(t); Some(k)
    else if StartsWith(t, "/*") then Some(2 + BlockTail(t[2..], 1))
    else None
  }

  lemma NewlineAfterSlashes(t: string)
    requires StartsWith(t, "//") && Find(t, "\n").Some?
    ensures Find(t, "\n").value >= 2
  {
    assert t[0] == t[..2][0] && t[1] == t[..2][1];
    FindNotBefore(t, "\n", 2);
  }

  lemma {:induction false} FindNotBefore(t: string, needle: string, n: nat)
    requires |needle| > 0 && n <= |t| && forall i :: 0 <= i < n ==> t[i] != needle[0]
    ensures Find(t, needle).Some? ==> Find(t, needle).value >= n
  {
    if n > 0 {
      if |needle| <= |t| { assert t[..|needle|][0] == t[0]; }
      FindNotBefore(t[1..], needle, n - 1);
    }
  }

  const PREFIXES: set<string> := {"r", "b", "br", "c", "cr"}

  function LiteralLen(t: string): (n: Option<nat>)
    requires |t| > 0
    ensures n.Some? ==> 1 <= n.value <= |t|
  {
    if t[0] == '"' then Some(1 + StringTail(t[1..]))
    else if t[0] == '\'' then CharLen(t)
    else
      var w := WordLen(t);
      var word, rest := t[..w], t[w..];
      if word !in PREFIXES then None
      else if word[|word| - 1] == 'r' then Beyond(w, RawLen(rest))
      else if |rest| > 0 && rest[0] == '"' then Some(w + 1 + StringTail(rest[1..]))
      else if word == "b" && |rest| > 0 && rest[0] == '\'' then Beyond(w, CharLen(rest))
      else None
  }

  function Beyond(w: nat, n: Option<nat>): (r: Option<nat>)
  {
    if n.None? then None else Some(w + n.value)
  }

  /** Length of the literal or comment at the front, 0 when there is none. */
  function SkipLen(t: string): (n: nat)
    requires |t| > 0
    ensures n <= |t|
  {
    match CommentLen(t)
    case Some(n) => n
    case None => match LiteralLen(t)
      case Some(n) => n
      case None => 0
  }

  // ----- brackets and bodies -----

  function MatchingLen(t: string, open: char, close: char, depth: int): (n: nat)
    ensures n <= |t|
    decreases |t|
  {
    if |t| == 0 then 0
    else
      var k := SkipLen(t);
      if k > 0 then k + MatchingLen(t[k..], open, close, depth)
      else if t[0] == open then 1 + MatchingLen(t[1..], open, close, depth + 1)
      else if t[0] == close then
        (if depth == 1 then 1 else 1 + MatchingLen(t[1..], open, close, depth - 1))
      else 1 + MatchingLen(t[1..], open, close, depth)
  }

  datatype Nesting = Nesting(braces: int, others: int, inBody: bool)

  /** What one ordinary character does to the nesting of a function body. */
  function Enter(n: Nesting, c: char): Nesting {
    if c == '{' then n.(braces := n.braces + 1, inBody := true)
    else if c == '}' then n.(braces := n.braces - 1)
    else if !n.inBody && (c == '(' || c == '[') then n.(others := n.others + 1)
    else if !n.inBody && (c == ')' || c == ']') then n.(others := n.others - 1)
    else n
  }

  predicate EndsDeclaration(n: Nesting, c: char) {
    c == ';' && !n.inBody && n.others == 0
  }

  /** From the end of a function's name to the end of its body or declaration. */
  function BodyLen(t: string, n: Nesting): (len: nat)
    ensures len <= |t|
    decreases |t|
  {
    if |t| == 0 then 0
    else
      var k := SkipLen(t);
      if k > 0 then k + BodyLen(t[k..], n)
      else if EndsDeclaration(n, t[0]) then 0
      else
        var n' := Enter(n, t[0]);
        if n'.inBody && n'.braces == 0 then 1 else 1 + BodyLen(t[1..], n')
  }

  const NO_NESTING := Nesting(0, 0, false)

  // ----- a longer text read up to a cut behaves like the text before the cut -----

  lemma {:induction false} RunCut(x: string, y: string, p: char -> bool)
    ensures Run(x, p) == if Run(x + y, p) <= |x| then Run(x + y, p) else |x|
  {
    if |x| > 0 {
      assert (x + y)[1..] == x[1..] + y;
      RunCut(x[1..], y, p);
    } else {
      assert x + y == y;
    }
  }

  lemma WordCut(x: string, y: string)
    requires |x| > 0
    ensures WordLen(x) == if WordLen(x + y) <= |x| then WordLen(x + y) else |x|
  {
    RunCut(x, y, IsWordChar);
  }

  lemma StartsCut(x: string, y: string, p: string)
    ensures StartsWith(x, p) <==> StartsWith(x + y, p) && |p| <= |x|
  {
    if |p| <= |x| {
      assert (x + y)[..|p|] == x[..|p|];
    }
  }

  lemma {:induction false} FindCut(x: string, y: string, needle: string)
    ensures var k := Find(x + y, needle);
            Find(x, needle) == if k.Some? && k.value + |needle| <= |x| then k else None
  {
    StartsCut(x, y, needle);
    if |x| > 0 {
      assert (x + y)[1..] == x[1..] + y;
      FindCut(x[1..], y, needle);
    }
  }

  lemma {:induction false} StringCut(x: string, y: string)
    requires StringTail(x + y) <= |x|
    ensures StringTail(x) == StringTail(x + y)
  {
    if |x| > 1 && x[0] == '\\' {
      assert (x + y)[2..] == x[2..] + y;
      StringCut(x[2..], y);
    } else if |x| > 0 && x[0] != '"' && x[0] != '\\' {
      assert (x + y)[1..] == x[1..] + y;
      StringCut(x[1..], y);
    } else if |x| == 1 {
      if y == "" { assert x + y == x; }
    }
  }

  lemma RawCut(x: string, y: string)
    requires RawLen(x + y).Some? ==> RawLen(x + y).value <= |x|
    ensures RawLen(x) == RawLen(x + y)
  {
    RunCut(x, y, IsHash);
    var h := Run(x + y, IsHash);
    if h < |x| {
      assert (x + y)[h + 1..] == x[h + 1..] + y;
      FindCut(x[h + 1..], y, "\"" + Repeat('#', h));
    }
  }

  lemma CharCut(x: string, y: string)
    requires |x| > 0
    requires CharLen(x + y).Some? ==> CharLen(x + y).value <= |x|
    ensures CharLen(x) == CharLen(x + y)
  {
    if |x| >= 3 {
      assert (x + y)[3..] == x[3..] + y;
      FindCut(x[3..], y, "'");
    } else if y == "" {
      assert x + y == x;
    }
  }

  lemma {:induction false} BlockCut(x: string, y: string, depth: nat)
    requires BlockTail(x + y, depth) <= |x|
    ensures BlockTail(x, depth) == BlockTail(x + y, depth)
    decreases |x|
  {
    StartsCut(x, y, "/*");
    StartsCut(x, y, "*/");
    if |x| == 0 || depth == 0 {
    } else if StartsWith(x + y, "/*") {
      assert (x + y)[2..] == x[2..] + y;
      BlockCut(x[2..], y, depth + 1);
    } else if StartsWith(x + y, "*/") {
      assert (x + y)[2..] == x[2..] + y;
      BlockCut(x[2..], y, depth - 1);
    } else {
      assert (x + y)[1..] == x[1..] + y;
      BlockCut(x[1..], y, depth);
    }
  }

  lemma CommentCut(x: string, y: string)
    requires CommentLen(x + y).Some? ==> CommentLen(x + y).value <= |x|
    ensures CommentLen(x) == CommentLen(x + y)
  {
    hide Find, BlockTail;
    StartsCut(x, y, "//");
    StartsCut(x, y, "/*");
    if StartsWith(x + y, "//") {
      FindCut(x, y, "\n");
    } else if StartsWith(x + y, "/*") {
      assert (x + y)[2..] == x[2..] + y;
      BlockCut(x[2..], y, 1);
    }
  }

  lemma LiteralCut(x: string, y: string)
    requires |x| > 0
    requires LiteralLen(x + y).Some? ==> LiteralLen(x + y).value <= |x|
    ensures LiteralLen(x) == LiteralLen(x + y)
  {
    hide StringTail, CharLen, RawLen, PREFIXES, WordLen, Run;
    if x[0] == '"' {
      assert (x + y)[1..] == x[1..] + y;
      StringCut(x[1..], y);
    } else if x[0] == '\'' {
      CharCut(x, y);
    } else {
      WordCut(x, y);
      var w := WordLen(x + y);
      if w <= |x| {
        assert (x + y)[..w] == x[..w] && (x + y)[w..] == x[w..] + y;
        PrefixedCut(x, y, w);
      }
    }
  }

  lemma PrefixedCut(x: string, y: string, w: nat)
    requires |x| > 0 && x[0] != '"' && x[0] != '\'' && w == WordLen(x) == WordLen(x + y)
    requires (x + y)[..w] == x[..w] && (x + y)[w..] == x[w..] + y
    requires LiteralLen(x + y).Some? ==> LiteralLen(x + y).value <= |x|
    ensures LiteralLen(x) == LiteralLen(x + y)
  {
    hide StringTail, CharLen, RawLen, WordLen, Run;
    var rest := x[w..];
    if x[..w] in PREFIXES {
      if x[w - 1] == 'r' {
        RawCut(rest, y);
      } else if |rest| > 0 && rest[0] == '"' {
        assert (rest + y)[1..] == rest[1..] + y;
        StringCut(rest[1..], y);
      } else if |rest| > 0 && rest[0] == '\'' && x[..w] == "b" {
        CharCut(rest, y);
      }
    }
  }

  lemma SkipCut(x: string, y: string)
    requires |x| > 0 && SkipLen(x + y) <= |x|
    ensures SkipLen(x) == SkipLen(x + y)
  {
    CommentCut(x, y);
    if CommentLen(x + y).None? {
      LiteralCut(x, y);
    }
  }

  lemma {:induction false} MatchingCut(x: string, y: string, open: char, close: char, depth: int)
    requires MatchingLen(x + y, open, close, depth) <= |x|
    ensures MatchingLen(x, open, close, depth) == MatchingLen(x + y, open, close, depth)
    decreases |x|
  {
    hide SkipLen;
    if |x| > 0 {
      SkipCut(x, y);
      var k := SkipLen(x + y);
      var step := if k > 0 then k else 1;
      assert (x + y)[step..] == x[step..] + y;
      if k > 0 {
        MatchingCut(x[k..], y, open, close, depth);
      } else if x[0] == open {
        MatchingCut(x[1..], y, open, close, depth + 1);
      } else if x[0] == close {
        if depth != 1 { MatchingCut(x[1..], y, open, close, depth - 1); }
      } else {
        MatchingCut(x[1..], y, open, close, depth);
      }
    }
  }

  lemma {:induction false} BodyCut(x: string, y: string, n: Nesting)
    requires BodyLen(x + y, n) <= |x|
    ensures BodyLen(x, n) == BodyLen(x + y, n)
    decreases |x|
  {
    hide SkipLen;
    if |x| > 0 {
      SkipCut(x, y);
      var k := SkipLen(x + y);
      var step := if k > 0 then k else 1;
      assert (x + y)[step..] == x[step..] + y;
      if k > 0 {
        BodyCut(x[k..], y, n);
      } else if !EndsDeclaration(n, x[0]) {
        var n' := Enter(n, x[0]);
        if !(n'.inBody && n'.braces == 0) { BodyCut(x[1..], y, n'); }
      }
    }
  }

  // ----- a text that ends in a closing brace is read the same way whatever follows it -----

  /** Ends in `}`, and that brace could not become part of a literal `'}'`. */
  predicate EndsInBrace(x: string) {
    |x| > 0 && x[|x| - 1] == '}' && (|x| >= 2 ==> x[|x| - 2] != '\'')
  }

  lemma SuffixEndsInBrace(x: string, k: nat)
    requires EndsInBrace(x) && k < |x|
    ensures EndsInBrace(x[k..])
  {
    assert x[k..][|x| - k - 1] == x[|x| - 1];
  }

  lemma RunMore(x: string, y: string, p: char -> bool)
    requires |x| > 0 && !p(x[|x| - 1])
    ensures Run(x + y, p) == Run(x, p) < |x|
  {
    RunCut(x, y, p);
    assert (x + y)[|x| - 1] == x[|x| - 1];
  }

  lemma {:induction false} StringMore(x: string, y: string)
    requires StringTail(x) < |x|
    ensures StringTail(x + y) == StringTail(x)
  {
    if x[0] == '\\' {
      assert (x + y)[2..] == x[2..] + y;
      StringMore(x[2..], y);
    } else if x[0] != '"' {
      assert (x + y)[1..] == x[1..] + y;
      StringMore(x[1..], y);
    }
  }

  lemma RawMore(x: string, y: string)
    requires EndsInBrace(x) && (RawLen(x).Some? ==> RawLen(x).value < |x|)
    ensures RawLen(x + y) == RawLen(x)
  {
    RunMore(x, y, IsHash);
    var h := Run(x, IsHash);
    assert (x + y)[h + 1..] == x[h + 1..] + y;
    FindCut(x[h + 1..], y, "\"" + Repeat('#', h));
  }

  lemma CharMore(x: string, y: string)
    requires EndsInBrace(x) && x[0] == '\'' && (CharLen(x).Some? ==> CharLen(x).value < |x|)
    ensures CharLen(x + y) == CharLen(x)
  {
    if |x| >= 3 {
      assert (x + y)[3..] == x[3..] + y;
      FindCut(x[3..], y, "'");
    }
  }

  lemma StartsMore(x: string, y: string, p: string)
    requires EndsInBrace(x) && |p| == 2 && p[0] != '}'
    ensures StartsWith(x + y, p) <==> StartsWith(x, p)
  {
    StartsCut(x, y, p);
    if |x + y| >= 2 {
      assert (x + y)[..2][0] == x[0];
    }
  }

  lemma {:induction false} BlockMore(x: string, y: string, depth: nat)
    requires EndsInBrace(x) && BlockTail(x, depth) < |x|
    ensures BlockTail(x + y, depth) == BlockTail(x, depth)
    decreases |x|
  {
    StartsMore(x, y, "/*");
    StartsMore(x, y, "*/");
    if depth == 0 {
    } else if StartsWith(x, "/*") {
      assert (x + y)[2..] == x[2..] + y;
      BlockMore(x[2..], y, depth + 1);
    } else if StartsWith(x, "*/") {
      assert (x + y)[2..] == x[2..] + y;
      BlockMore(x[2..], y, depth - 1);
    } else {
      assert (x + y)[1..] == x[1..] + y;
      BlockMore(x[1..], y, depth);
    }
  }

  lemma CommentMore(x: string, y: string)
    requires EndsInBrace(x) && (CommentLen(x).Some? ==> CommentLen(x).value < |x|)
    ensures CommentLen(x + y) == CommentLen(x)
  {
    hide Find, BlockTail;
    StartsMore(x, y, "//");
    StartsMore(x, y, "/*");
    FindCut(x, y, "\n");
    if StartsWith(x, "/*") {
      assert (x + y)[2..] == x[2..] + y;
      BlockMore(x[2..], y, 1);
    }
  }

  lemma WordMore(x: string, y: string)
    requires EndsInBrace(x)
    ensures WordLen(x + y) == WordLen(x) < |x|
  {
    RunMore(x, y, IsWordChar);
  }

  lemma LiteralMore(x: string, y: string)
    requires EndsInBrace(x) && (LiteralLen(x).Some? ==> LiteralLen(x).value < |x|)
    ensures LiteralLen(x + y) == LiteralLen(x)
  {
    hide StringTail, CharLen, RawLen, PREFIXES, WordLen, Run;
    if x[0] == '"' {
      assert (x + y)[1..] == x[1..] + y;
      StringMore(x[1..], y);
    } else if x[0] == '\'' {
      CharMore(x, y);
    } else {
      WordMore(x, y);
      var w := WordLen(x);
      SuffixEndsInBrace(x, w);
      assert (x + y)[..w] == x[..w] && (x + y)[w..] == x[w..] + y;
      PrefixedMore(x, y, w);
    }
  }

  lemma PrefixedMore(x: string, y: string, w: nat)
    requires |x| > 0 && x[0] != '"' && x[0] != '\'' && w == WordLen(x) == WordLen(x + y) < |x|
    requires (x + y)[..w] == x[..w] && (x + y)[w..] == x[w..] + y && EndsInBrace(x[w..])
    requires LiteralLen(x).Some? ==> LiteralLen(x).value < |x|
    ensures LiteralLen(x + y) == LiteralLen(x)
  {
    hide StringTail, CharLen, RawLen, WordLen, Run;
    var rest := x[w..];
    if x[..w] in PREFIXES {
      if x[w - 1] == 'r' {
        RawMore(rest, y);
      } else if rest[0] == '"' {
        assert (rest + y)[1..] == rest[1..] + y;
        StringMore(rest[1..], y);
      } else if rest[0] == '\'' && x[..w] == "b" {
        CharMore(rest, y);
      }
    }
  }

  lemma SkipMore(x: string, y: string)
    requires EndsInBrace(x) && SkipLen(x) < |x|
    ensures SkipLen(x + y) == SkipLen(x)
  {
    CommentMore(x, y);
    if CommentLen(x).None? {
      LiteralMore(x, y);
    }
  }

  lemma {:induction false} MatchingMore(x: string, y: string, open: char, close: char, depth: int)
    requires EndsInBrace(x) && MatchingLen(x, open, close, depth) < |x|
    ensures MatchingLen(x + y, open, close, depth) == MatchingLen(x, open, close, depth)
    decreases |x|
  {
    hide SkipLen, EndsInBrace;
    SkipMore(x, y);
    var k := SkipLen(x);
    var step := if k > 0 then k else 1;
    assert (x + y)[step..] == x[step..] + y;
    if step < |x| { SuffixEndsInBrace(x, step); }
    if k > 0 {
      MatchingMore(x[k..], y, open, close, depth);
    } else if x[0] == open {
      MatchingMore(x[1..], y, open, close, depth + 1);
    } else if x[0] == close {
      if depth != 1 { MatchingMore(x[1..], y, open, close, depth - 1); }
    } else {
      MatchingMore(x[1..], y, open, close, depth);
    }
  }

  /** The body or declaration ends inside the text, not where the text runs out. */
  predicate BodyCloses(t: string, n: Nesting)
    decreases |t|
  {
    |t| > 0 &&
    var k := SkipLen(t);
    if k > 0 then BodyCloses(t[k..], n)
    else EndsDeclaration(n, t[0]) ||
         var n' := Enter(n, t[0]);
         (n'.inBody && n'.braces == 0) || BodyCloses(t[1..], n')
  }

  lemma {:induction false} BodyMore(x: string, y: string, n: Nesting)
    requires EndsInBrace(x) && BodyCloses(x, n)
    ensures BodyLen(x + y, n) == BodyLen(x, n)
    decreases |x|
  {
    hide SkipLen, EndsInBrace;
    var k := SkipLen(x);
    assert k < |x|;
    SkipMore(x, y);
    var step := if k > 0 then k else 1;
    assert (x + y)[step..] == x[step..] + y;
    if step < |x| { SuffixEndsInBrace(x, step); }
    if k > 0 {
      BodyMore(x[k..], y, n);
    } else if !EndsDeclaration(n, x[0]) {
      var n' := Enter(n, x[0]);
      if !(n'.inBody && n'.braces == 0) { BodyMore(x[1..], y, n'); }
    }
  }

  lemma {:induction false} ShortBodyCloses(t: string, n: Nesting)
    requires BodyLen(t, n) < |t|
    ensures BodyCloses(t, n)
    decreases |t|
  {
    hide SkipLen;
    var k := SkipLen(t);
    if k > 0 {
      ShortBodyCloses(t[k..], n);
    } else if !EndsDeclaration(n, t[0]) {
      var n' := Enter(n, t[0]);
      if !(n'.inBody && n'.braces == 0) { ShortBodyCloses(t[1..], n'); }
    }
  }
}
