/** The index loops of the moved-body checker. Each moves an index through one text and is
    proved to stop exactly where the scanner of the same name says, on every text. */
module ScanLoops {
  import opened Options
  import opened Text
  import opened RustScan
  import opened Normaliser
  import opened MovedBodies

  /** `_string_end`: index after the escaped string whose opening quote is at `i`. */
  method StringEnd(text: string, i: nat) returns (end: nat)
    requires i < |text|
    ensures i < end <= |text|
    ensures end == i + 1 + StringTail(text[i + 1..])
  {
    var j := i + 1;
    while j < |text| && text[j] != '"'
      invariant i < j <= |text| + 1
      invariant i + 1 + StringTail(text[i + 1..]) == if j <= |text| then j + StringTail(text[j..]) else |text|
    {
      if j + 2 <= |text| { assert text[j..][2..] == text[j + 2..]; }
      assert text[j..][1..] == text[j + 1..];
      j := j + (if text[j] == '\\' then 2 else 1);
    }
    end := if j + 1 <= |text| then j + 1 else |text|;
  }

  /** `_raw_end`: index after the raw string whose `#`s or quote start at `i`. */
  method RawEnd(text: string, i: nat) returns (end: Option<nat>)
    requires i <= |text|
    ensures end.Some? ==> i < end.value <= |text|
    ensures end == Beyond(i, RawLen(text[i..]))
  {
    hide Find, Repeat;
    var rest := text[i..];
    var hashes := 0;
    while i + hashes < |text| && text[i + hashes] == '#'
      invariant i + hashes <= |text|
      invariant hashes + Run(rest[hashes..], IsHash) == Run(rest, IsHash)
    {
      assert rest[hashes..][1..] == rest[hashes + 1..];
      hashes := hashes + 1;
    }
    if i + hashes >= |text| || text[i + hashes] != '"' {
      return None;
    }
    var close := "\"" + Repeat('#', hashes);
    assert rest[hashes + 1..] == text[i + hashes + 1..];
    match Find(text[i + hashes + 1..], close) {
      case None => end := Some(|text|);
      case Some(k) => end := Some(i + hashes + 1 + k + |close|);
    }
  }

  /** `_comment_end`: index after the comment starting at `i`. */
  method CommentEnd(text: string, i: nat) returns (end: Option<nat>)
    requires i < |text|
    ensures end.Some? ==> i < end.value <= |text|
    ensures end == Beyond(i, CommentLen(text[i..]))
  {
    hide Find, BlockTail;
    var rest := text[i..];
    if StartsWith(rest, "//") {
      match Find(rest, "\n") {
        case None => return Some(|text|);
        case Some(k) =>
          NewlineAfterSlashes(rest);
          return Some(i + k);
      }
    }
    if !StartsWith(rest, "/*") {
      return None;
    }
    assert rest[2..] == text[i + 2..];
    var j := BlockEnd(text, i + 2);
    end := Some(j);
  }

  /** The loop of `_comment_end` over a block comment whose opening ends at `start`. */
  method BlockEnd(text: string, start: nat) returns (end: nat)
    requires start <= |text|
    ensures start <= end <= |text|
    ensures end == start + BlockTail(text[start..], 1)
  {
    hide BlockTail, StartsWith;
    var depth, j := 1, start;
    while j < |text| && depth > 0
      invariant start <= j <= |text|
      invariant start + BlockTail(text[start..], 1) == j + BlockTail(text[j..], depth)
      decreases |text| - j
    {
      BlockUnfolds(text, j, depth);
      if StartsWith(text[j..], "/*") {
        depth, j := depth + 1, j + 2;
      } else if StartsWith(text[j..], "*/") {
        depth, j := depth - 1, j + 2;
      } else {
        j := j + 1;
      }
    }
    BlockUnfolds(text, j, depth);
    end := j;
  }

  lemma BlockUnfolds(text: string, j: nat, depth: nat)
    requires j <= |text|
    ensures j == |text| || depth == 0 ==> BlockTail(text[j..], depth) == 0
    ensures StartsWith(text[j..], "/*") || StartsWith(text[j..], "*/") ==> j + 2 <= |text|
    ensures j < |text| && depth > 0 ==>
              BlockTail(text[j..], depth) ==
              if StartsWith(text[j..], "/*") then 2 + BlockTail(text[j + 2..], depth + 1)
              else if StartsWith(text[j..], "*/") then 2 + BlockTail(text[j + 2..], depth - 1)
              else 1 + BlockTail(text[j + 1..], depth)
  {
    if j < |text| {
      assert text[j..][1..] == text[j + 1..];
      if j + 2 <= |text| { assert text[j..][2..] == text[j + 2..]; }
    }
  }

  /** `_matching`: index after the bracket that closes the one at `start`. */
  method Matching(text: string, start: nat, open: char, close: char) returns (end: nat)
    requires start <= |text|
    ensures start <= end <= |text|
    ensures end == start + MatchingLen(text[start..], open, close, 0)
  {
    hide SkipLen;
    var depth, i := 0, start;
    while i < |text|
      invariant start <= i <= |text|
      invariant start + MatchingLen(text[start..], open, close, 0) == i + MatchingLen(text[i..], open, close, depth)
      decreases |text| - i
    {
      var skipped := i + SkipLen(text[i..]);
      assert text[i..][skipped - i..] == text[skipped..];
      if skipped != i {
        i := skipped;
        continue;
      }
      assert text[i..][1..] == text[i + 1..];
      if text[i] == open {
        depth := depth + 1;
      } else if text[i] == close {
        depth := depth - 1;
        if depth == 0 {
          return i + 1;
        }
      }
      i := i + 1;
    }
    end := i;
  }

  /** `_body_end`: index after the body of the function whose name ends at `start`. */
  method BodyEnd(text: string, start: nat) returns (end: nat)
    requires start <= |text|
    ensures start <= end <= |text|
    ensures end == start + BodyLen(text[start..], NO_NESTING)
  {
    hide SkipLen, BodyLen;
    var depth, nest, i, isOpen := 0, 0, start, false;
    while i < |text|
      invariant start <= i <= |text|
      invariant start + BodyLen(text[start..], NO_NESTING) == i + BodyLen(text[i..], Nesting(depth, nest, isOpen))
      decreases |text| - i
    {
      var skipped := i + SkipLen(text[i..]);
      BodyUnfolds(text, i, Nesting(depth, nest, isOpen));
      if skipped != i {
        i := skipped;
        continue;
      }
      var c := text[i];
      if c == '{' {
        depth, isOpen := depth + 1, true;
      } else if c == '}' {
        depth := depth - 1;
      } else if !isOpen && (c == '(' || c == '[') {
        nest := nest + 1;
      } else if !isOpen && (c == ')' || c == ']') {
        nest := nest - 1;
      } else if c == ';' && !isOpen && nest == 0 {
        return i;
      }
      i := i + 1;
      if isOpen && depth == 0 {
        return i;
      }
    }
    BodyUnfolds(text, i, Nesting(depth, nest, isOpen));
    end := i;
  }

  lemma BodyUnfolds(text: string, i: nat, n: Nesting)
    requires i <= |text|
    ensures i == |text| ==> BodyLen(text[i..], n) == 0
    ensures i < |text| ==>
              var k, n' := SkipLen(text[i..]), Enter(n, text[i]);
              BodyLen(text[i..], n) ==
              if k > 0 then k + BodyLen(text[i + k..], n)
              else if EndsDeclaration(n, text[i]) then 0
              else if n'.inBody && n'.braces == 0 then 1
              else 1 + BodyLen(text[i + 1..], n')
  {
    hide SkipLen;
    if i < |text| {
      var k := SkipLen(text[i..]);
      assert text[i..][k..] == text[i + k..] && text[i..][1..] == text[i + 1..];
    }
  }

  /** `normalise`, piece by piece into an output buffer. */
  method NormaliseLoop(text: string) returns (out: string)
    ensures out == Normalise(text)
  {
    hide NormaliseFrom, FirstPiece, Collapse;
    out := "";
    var started, pending, i := false, false, 0;
    assert text[0..] == text;
    while i < |text|
      invariant i <= |text|
      invariant Normalise(text) == out + NormaliseFrom(text[i..], started, pending)
      decreases |text| - i
    {
      var (piece, n) := FirstPiece(text[i..]);
      NormaliseUnfolds(text, i, started, pending);
      if piece.Space? {
        pending, i := true, i + 1;
        continue;
      }
      var put := if piece.Comment? then Collapse(piece.text, false, false) else piece.text;
      AppendAssociates(out, Gap(started, pending) + put, NormaliseFrom(text[i + n..], true, false));
      out := out + (Gap(started, pending) + put);
      started, pending, i := true, false, i + n;
    }
    NormaliseUnfolds(text, i, started, pending);
  }

  lemma AppendAssociates(a: string, b: string, c: string)
    ensures a + (b + c) == (a + b) + c
  {
  }

  lemma NormaliseUnfolds(text: string, i: nat, started: bool, pending: bool)
    requires i <= |text|
    ensures i == |text| ==> NormaliseFrom(text[i..], started, pending) == ""
    ensures i < |text| ==>
              var (piece, n) := FirstPiece(text[i..]);
              NormaliseFrom(text[i..], started, pending) ==
              match piece
              case Space => NormaliseFrom(text[i + n..], started, true)
              case Comment(c) =>
                Gap(started, pending) + Collapse(c, false, false) + NormaliseFrom(text[i + n..], true, false)
              case _ => Gap(started, pending) + piece.text + NormaliseFrom(text[i + n..], true, false)
  {
    hide FirstPiece, Collapse;
    if i < |text| {
      var (piece, n) := FirstPiece(text[i..]);
      assert text[i..][n..] == text[i + n..];
    }
  }

  // ----- fn_bodies -----

  function PendingText(text: string, prefix: Option<nat>, i: nat): Option<string>
    requires i <= |text| && (prefix.Some? ==> prefix.value <= i)
  {
    if prefix.Some? then Some(text[prefix.value..i]) else None
  }

  function First(prefix: Option<nat>, i: nat): nat {
    if prefix.Some? then prefix.value else i
  }

  lemma Extend(text: string, prefix: Option<nat>, i: nat, n: nat)
    requires i + n <= |text| && (prefix.Some? ==> prefix.value <= i)
    ensures TextOf(PendingText(text, prefix, i)) + text[i..][..n] == text[First(prefix, i)..i + n]
  {
  }

  lemma HeadAt(text: string, i: nat)
    requires i + 2 <= |text|
    ensures var at := i + 2 + Run(text[i..][2..], IsSpace);
            var n := WordLen(text[at..]);
            FnHead(text[i..]) == if n == 0 then None else Some((text[at..][..n], at + n - i))
  {
    hide IsSpace, Run, WordLen;
    var at := i + 2 + Run(text[i..][2..], IsSpace);
    assert text[i..][2..][at - i - 2..] == text[at..];
  }

  /** The function that starts at the `fn` at `i`, when a name follows. */
  method FnAt(text: string, prefix: Option<nat>, i: nat) returns (stop: nat, found: Option<Body>)
    requires i + 2 <= |text| && (prefix.Some? ==> prefix.value <= i)
    ensures found.Some? == FnHead(text[i..]).Some?
    ensures found.Some? ==> i < stop <= |text|
    ensures found.Some? ==> Token(stop - i, None, found) == FnStep(text[i..], PendingText(text, prefix, i))
  {
    hide BodyLen, Normalise, FnHead, TextOf, PendingText, IsSpace, Run, WordLen;
    var rest := text[i..];
    HeadAt(text, i);
    var afterFn := i + 2 + Run(rest[2..], IsSpace);
    var n := WordLen(text[afterFn..]);
    if n == 0 {
      return i, None;
    }
    var name, at := text[afterFn..][..n], afterFn + n;
    assert rest[at - i..] == text[at..];
    stop := BodyEnd(text, at);
    Extend(text, prefix, i, stop - i);
    var body := NormaliseLoop(text[First(prefix, i)..stop]);
    found := Some((name, body));
  }

  method QualifierEnd(text: string, i: nat, w: nat) returns (end: nat)
    requires i + w <= |text|
    ensures i + w <= end <= |text| && end == i + QualifierLen(text[i..], w)
  {
    hide MatchingLen, IsSpace, Run;
    end := i + w;
    assert text[i..][w..] == text[end..];
    if text[i..][..w] == "pub" {
      var s := Run(text[end..], IsSpace);
      if end + s < |text| && text[end + s] == '(' {
        assert text[end..][s..] == text[end + s..];
        end := Matching(text, end + s, '(', ')');
      }
    }
  }

  /** One iteration of `fn_bodies` at an identifier or a character that starts nothing. */
  method AdvanceWord(text: string, prefix: Option<nat>, i: nat)
    returns (prefix': Option<nat>, i': nat, found: Option<Body>)
    requires i < |text| && (prefix.Some? ==> prefix.value <= i)
    ensures i < i' <= |text| && (prefix'.Some? ==> prefix'.value <= i')
    ensures Token(i' - i, PendingText(text, prefix', i'), found) ==
            WordStep(text[i..], PendingText(text, prefix, i))
  {
    hide FnHead, FnStep, QualifierLen, QUALIFIERS, Run, WordLen, TextOf;
    var rest := text[i..];
    var w := WordLen(rest);
    if rest[..w] == "fn" {
      var stop, body := FnAt(text, prefix, i);
      if body.Some? {
        return None, stop, body;
      }
    }
    if rest[..w] in QUALIFIERS {
      QualifierIsWord(rest[..w]);
      i' := QualifierEnd(text, i, w);
      Extend(text, prefix, i, i' - i);
      return Some(First(prefix, i)), i', None;
    }
    return None, i + (if w > 0 then w else 1), None;
  }

  /** One iteration of `fn_bodies`. */
  method Advance(text: string, prefix: Option<nat>, i: nat)
    returns (prefix': Option<nat>, i': nat, found: Option<Body>)
    requires i < |text| && (prefix.Some? ==> prefix.value <= i)
    ensures i < i' <= |text| && (prefix'.Some? ==> prefix'.value <= i')
    ensures Token(i' - i, PendingText(text, prefix', i'), found) == Step(text[i..], PendingText(text, prefix, i))
  {
    hide MatchingLen, WordStep, SkipLen, MarkLen, StartsWith, IsSpace;
    var rest := text[i..];
    if IsSpace(text[i]) {
      Extend(text, prefix, i, 1);
      return prefix, i + 1, None;
    }
    if StartsWith(rest, "#[") || StartsWith(rest, "///") || StartsWith(rest, "/**") {
      i' := MarkEnd(text, i);
      Extend(text, prefix, i, i' - i);
      return Some(First(prefix, i)), i', None;
    }
    NoMark(rest);
    if StartsWith(rest, "#![") {
      assert rest[2..] == text[i + 2..];
      i' := Matching(text, i + 2, '[', ']');
      return None, i', None;
    }
    var end := i + SkipLen(rest);
    if end != i {
      Extend(text, prefix, i, end - i);
      if text[i] != '/' && !(prefix.Some? && text[i] == '"') {
        return None, end, None;
      }
      return prefix, end, None;
    }
    prefix', i', found := AdvanceWord(text, prefix, i);
  }

  lemma NoMark(t: string)
    requires !StartsWith(t, "#[") && !StartsWith(t, "///") && !StartsWith(t, "/**")
    ensures MarkLen(t) == 0 && (StartsWith(t, "#![") ==> |t| >= 3)
  {
  }

  lemma QualifierIsWord(word: string)
    ensures word in QUALIFIERS ==> word != ""
  {
  }

  method MarkEnd(text: string, i: nat) returns (end: nat)
    requires i < |text|
    requires StartsWith(text[i..], "#[") || StartsWith(text[i..], "///") || StartsWith(text[i..], "/**")
    ensures i < end <= |text| && end == i + MarkLen(text[i..])
  {
    var rest := text[i..];
    FirstChar(rest, "#[");
    FirstChar(rest, "///");
    FirstChar(rest, "/**");
    if text[i] == '#' {
      assert rest[1..] == text[i + 1..];
      end := Matching(text, i + 1, '[', ']');
    } else {
      DocComment(rest);
      var e := CommentEnd(text, i);
      end := e.value;
    }
  }

  lemma ScanStarts(text: string)
    ensures FnBodies(text) == Scan(text[0..], PendingText(text, None, 0))
    ensures forall pending :: Scan(text[|text|..], pending) == multiset{}
  {
    hide Step;
    assert text[0..] == text;
  }

  /** The scan from `i` is one step and the scan from where it stops. */
  lemma ScanStep(text: string, pending: Option<string>, i: nat, tok: Token)
    requires i < |text| && tok == Step(text[i..], pending)
    ensures i + tok.len <= |text|
    ensures Scan(text[i..], pending) == Count(tok.found) + Scan(text[i + tok.len..], tok.pending)
  {
    hide Step, Scan, Count;
    ScanUnfolds(text[i..], pending);
    assert text[i..][tok.len..] == text[i + tok.len..];
  }

  /** `fn_bodies`: the multiset of functions of a text; terminates on every text. */
  method FindFnBodies(text: string) returns (found: multiset<Body>)
    ensures found == FnBodies(text)
  {
    hide Step, Scan, Count, FnBodies, PendingText;
    found := multiset{};
    var prefix: Option<nat>, i := None, 0;
    ScanStarts(text);
    while i < |text|
      invariant i <= |text| && (prefix.Some? ==> prefix.value <= i)
      invariant FnBodies(text) == found + Scan(text[i..], PendingText(text, prefix, i))
      decreases |text| - i
    {
      var prefix', i', body := Advance(text, prefix, i);
      ScanStep(text, PendingText(text, prefix, i), i, Token(i' - i, PendingText(text, prefix', i'), body));
      found := found + Count(body);
      prefix, i := prefix', i';
    }
  }

  /** `side`: the functions of all listed files. */
  method SideLoop(texts: seq<string>) returns (total: multiset<Body>)
    ensures total == Side(texts)
  {
    hide FnBodies;
    total := multiset{};
    for k := 0 to |texts|
      invariant Side(texts) == total + Side(texts[k..])
    {
      var bodies := FindFnBodies(texts[k]);
      assert texts[k..][1..] == texts[k + 1..];
      total := total + bodies;
    }
  }
}
