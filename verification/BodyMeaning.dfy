/** What brackets mean to the moved-body checker, said by counting: a bracket counts when it stands
    outside every literal and comment, and a body or a bracket pair ends where the counts meet. */
module BodyMeaning {
  import opened Text
  import opened RustScan

  /** The text with each literal and comment blanked out, character by character. */
  function Code(t: string): (c: string)
    ensures |c| == |t|
    decreases |t|
  {
    if t == "" then ""
    else
      var k := SkipLen(t);
      if k > 0 then Repeat(' ', k) + Code(t[k..]) else t[..1] + Code(t[1..])
  }

  function Times(x: char, s: string): nat {
    multiset(s)[x]
  }

  /** A brace was opened and every opened brace is closed. */
  predicate BracesMeet(s: string) {
    Times('{', s) > 0 && Times('{', s) == Times('}', s)
  }

  /** No brace was opened yet, and the parentheses and square brackets meet. */
  predicate SignatureIsWhole(s: string) {
    Times('{', s) == 0 && Times('(', s) + Times('[', s) == Times(')', s) + Times(']', s)
  }

  /** The function stops at index `i` of its code: the body has closed there, or a declaration
      without a body ends before the semicolon there. */
  predicate StopsAt(code: string, i: nat)
    requires i < |code|
  {
    BracesMeet(code[..i + 1]) || (code[i] == ';' && SignatureIsWhole(code[..i]))
  }

  // The same from a nesting on.
  predicate ClosesFrom(n: Nesting, s: string) {
    (n.inBody || Times('{', s) > 0) && n.braces + Times('{', s) == Times('}', s)
  }

  predicate WholeFrom(n: Nesting, s: string) {
    !n.inBody && Times('{', s) == 0 && n.others + Times('(', s) + Times('[', s) == Times(')', s) + Times(']', s)
  }

  predicate StopsFrom(n: Nesting, code: string, i: nat)
    requires i < |code|
  {
    ClosesFrom(n, code[..i + 1]) || (code[i] == ';' && WholeFrom(n, code[..i]))
  }

  lemma TimesOfConcat(x: char, a: string, b: string)
    ensures Times(x, a + b) == Times(x, a) + Times(x, b)
  {
  }

  lemma {:induction false} NoneInBlanks(x: char, n: nat)
    requires x != ' '
    ensures Times(x, Repeat(' ', n)) == 0
  {
    if n > 0 {
      NoneInBlanks(x, n - 1);
      TimesOfConcat(x, " ", Repeat(' ', n - 1));
    }
  }

  lemma BlanksCountNothing(n: Nesting, k: nat, s: string)
    ensures ClosesFrom(n, Repeat(' ', k) + s) == ClosesFrom(n, s)
    ensures WholeFrom(n, Repeat(' ', k) + s) == WholeFrom(n, s)
  {
    hide Times;
    forall x | x != ' ' ensures Times(x, Repeat(' ', k) + s) == Times(x, s) {
      NoneInBlanks(x, k);
      TimesOfConcat(x, Repeat(' ', k), s);
    }
  }

  lemma OneCharacterCounts(n: Nesting, c: char, s: string)
    requires !ClosesFrom(n, [c])
    ensures ClosesFrom(n, [c] + s) == ClosesFrom(Enter(n, c), s)
    ensures WholeFrom(n, [c] + s) == WholeFrom(Enter(n, c), s)
  {
    forall x ensures Times(x, [c] + s) == (if x == c then 1 else 0) + Times(x, s) {
      TimesOfConcat(x, [c], s);
    }
    hide Times;
  }

  lemma {:induction false} BlankAt(n: nat, i: nat)
    requires i < n
    ensures Repeat(' ', n)[i] == ' '
  {
    if i > 0 { BlankAt(n - 1, i - 1); }
  }

  lemma NothingCounts(n: Nesting)
    ensures ClosesFrom(n, "") <==> n.inBody && n.braces == 0
  {
  }

  /** Inside a literal or comment nothing stops. */
  lemma BlanksDoNotStop(n: Nesting, k: nat, rest: string, i: nat)
    requires !(n.inBody && n.braces == 0) && i < k
    ensures !StopsFrom(n, Repeat(' ', k) + rest, i)
  {
    hide ClosesFrom, WholeFrom;
    var code := Repeat(' ', k) + rest;
    BlankAt(k, i);
    RepeatFront(k, i + 1);
    assert code[..i + 1] == Repeat(' ', i + 1) == Repeat(' ', i + 1) + "";
    BlanksCountNothing(n, i + 1, "");
    NothingCounts(n);
  }

  lemma {:induction false} RepeatFront(n: nat, i: nat)
    requires i <= n
    ensures Repeat(' ', n)[..i] == Repeat(' ', i)
  {
    if i > 0 { RepeatFront(n - 1, i - 1); }
  }

  lemma BlanksShift(n: Nesting, k: nat, rest: string, i: nat)
    requires i < |rest|
    ensures StopsFrom(n, Repeat(' ', k) + rest, k + i) == StopsFrom(n, rest, i)
  {
    hide ClosesFrom, WholeFrom;
    var code := Repeat(' ', k) + rest;
    assert code[..k + i + 1] == Repeat(' ', k) + rest[..i + 1];
    assert code[..k + i] == Repeat(' ', k) + rest[..i];
    BlanksCountNothing(n, k, rest[..i + 1]);
    BlanksCountNothing(n, k, rest[..i]);
  }

  lemma CharacterShifts(n: Nesting, c: char, rest: string, i: nat)
    requires i < |rest| && !ClosesFrom(n, [c])
    ensures StopsFrom(n, [c] + rest, i + 1) == StopsFrom(Enter(n, c), rest, i)
  {
    hide ClosesFrom, WholeFrom, Enter;
    var code := [c] + rest;
    assert code[..i + 2] == [c] + rest[..i + 1];
    assert code[..i + 1] == [c] + rest[..i];
    OneCharacterCounts(n, c, rest[..i + 1]);
    OneCharacterCounts(n, c, rest[..i]);
  }

  lemma FirstCharacter(n: Nesting, c: char, rest: string)
    requires !(n.inBody && n.braces == 0)
    ensures var n' := Enter(n, c); ClosesFrom(n, [c]) <==> n'.inBody && n'.braces == 0
    ensures WholeFrom(n, "") <==> !n.inBody && n.others == 0
    ensures EndsDeclaration(n, c) <==> c == ';' && WholeFrom(n, "")
    ensures EndsDeclaration(n, c) ==> !ClosesFrom(n, [c])
    ensures StopsFrom(n, [c] + rest, 0) <==> ClosesFrom(n, [c]) || EndsDeclaration(n, c)
  {
    assert ([c] + rest)[..1] == [c] && ([c] + rest)[..0] == "";
  }

  /** Where the function stops, from a nesting on. */
  lemma {:induction false} BodyStops(t: string, n: Nesting, i: nat)
    requires !(n.inBody && n.braces == 0)
    requires i <= |t| && forall j :: 0 <= j < i ==> !StopsFrom(n, Code(t), j)
    ensures i == |t| ==> BodyLen(t, n) == |t|
    ensures i < |t| && ClosesFrom(n, Code(t)[..i + 1]) ==> BodyLen(t, n) == i + 1
    ensures i < |t| && Code(t)[i] == ';' && WholeFrom(n, Code(t)[..i]) ==> BodyLen(t, n) == i
    decreases |t|
  {
    hide SkipLen, ClosesFrom, WholeFrom, Enter, EndsDeclaration;
    if t == "" { return; }
    var code, k := Code(t), SkipLen(t);
    if k > 0 {
      if i < k { BlanksDoNotStop(n, k, Code(t[k..]), i); } else { AfterBlanks(t, n, i); }
    } else {
      hide StopsFrom;
      FirstCharacter(n, t[0], Code(t[1..]));
      if i == 0 {
        assert code == [t[0]] + Code(t[1..]) && code[..1] == [t[0]] && code[..0] == "";
      } else {
        AfterCharacter(t, n, i);
      }
    }
  }

  lemma {:induction false} AfterBlanks(t: string, n: Nesting, i: nat)
    requires t != "" && !(n.inBody && n.braces == 0)
    requires 0 < SkipLen(t) <= i <= |t| && forall j :: 0 <= j < i ==> !StopsFrom(n, Code(t), j)
    ensures i == |t| ==> BodyLen(t, n) == |t|
    ensures i < |t| && ClosesFrom(n, Code(t)[..i + 1]) ==> BodyLen(t, n) == i + 1
    ensures i < |t| && Code(t)[i] == ';' && WholeFrom(n, Code(t)[..i]) ==> BodyLen(t, n) == i
    decreases |t|, 0
  {
    hide SkipLen, ClosesFrom, WholeFrom, Enter, EndsDeclaration, StopsFrom;
    var k := SkipLen(t);
    var rest := Code(t[k..]);
    forall j | 0 <= j < i - k ensures !StopsFrom(n, rest, j) {
      assert !StopsFrom(n, Code(t), k + j);
      BlanksShift(n, k, rest, j);
    }
    BodyStops(t[k..], n, i - k);
    if i < |t| {
      BlanksCountNothing(n, k, rest[..i - k + 1]);
      BlanksCountNothing(n, k, rest[..i - k]);
      assert Code(t)[..i + 1] == Repeat(' ', k) + rest[..i - k + 1];
      assert Code(t)[..i] == Repeat(' ', k) + rest[..i - k];
    }
  }

  lemma {:induction false} AfterCharacter(t: string, n: Nesting, i: nat)
    requires t != "" && !(n.inBody && n.braces == 0)
    requires 0 == SkipLen(t) < i <= |t| && forall j :: 0 <= j < i ==> !StopsFrom(n, Code(t), j)
    ensures i == |t| ==> BodyLen(t, n) == |t|
    ensures i < |t| && ClosesFrom(n, Code(t)[..i + 1]) ==> BodyLen(t, n) == i + 1
    ensures i < |t| && Code(t)[i] == ';' && WholeFrom(n, Code(t)[..i]) ==> BodyLen(t, n) == i
    decreases |t|, 0
  {
    hide SkipLen, ClosesFrom, WholeFrom, Enter, EndsDeclaration, StopsFrom;
    var rest, n' := Code(t[1..]), Enter(n, t[0]);
    assert Code(t) == [t[0]] + rest;
    FirstCharacter(n, t[0], rest);
    forall j | 0 <= j < i - 1 ensures !StopsFrom(n', rest, j) {
      assert !StopsFrom(n, Code(t), j + 1);
      CharacterShifts(n, t[0], rest, j);
    }
    BodyStops(t[1..], n', i - 1);
    if i < |t| {
      OneCharacterCounts(n, t[0], rest[..i]);
      OneCharacterCounts(n, t[0], rest[..i - 1]);
      assert Code(t)[..i + 1] == [t[0]] + rest[..i];
      assert Code(t)[..i] == [t[0]] + rest[..i - 1];
    }
  }

  /** The main result: for every text, the function whose name has just been read ends with the
      first brace of its code at which a brace was opened and all are closed, or before the first
      semicolon outside parentheses and brackets before any brace, whichever comes first, and
      with the text when there is neither. */
  lemma BodyEndsWhereBracesMeet(t: string, i: nat)
    requires i <= |t| && forall j :: 0 <= j < i ==> !StopsAt(Code(t), j)
    ensures i == |t| ==> BodyLen(t, Nesting(0, 0, false)) == |t|
    ensures i < |t| && BracesMeet(Code(t)[..i + 1]) ==> BodyLen(t, Nesting(0, 0, false)) == i + 1
    ensures i < |t| && Code(t)[i] == ';' && SignatureIsWhole(Code(t)[..i]) ==>
              BodyLen(t, Nesting(0, 0, false)) == i
  {
    hide Times, Code;
    forall j | 0 <= j < i ensures !StopsFrom(NO_NESTING, Code(t), j) { assert !StopsAt(Code(t), j); }
    BodyStops(t, NO_NESTING, i);
  }

  // ----- brackets that enclose an attribute or a restriction -----

  /** The closing bracket at index `i` of the code is matched by an opening one. */
  predicate PairMeets(code: string, open: char, close: char, depth: int, i: nat)
    requires i < |code|
  {
    code[i] == close && depth + Times(open, code[..i + 1]) == Times(close, code[..i + 1])
  }

  lemma PairAfterBlanks(k: nat, rest: string, open: char, close: char, depth: int, i: nat)
    requires open != ' ' && close != ' ' && i < |rest|
    ensures PairMeets(Repeat(' ', k) + rest, open, close, depth, k + i) == PairMeets(rest, open, close, depth, i)
  {
    hide Times;
    var code := Repeat(' ', k) + rest;
    assert code[..k + i + 1] == Repeat(' ', k) + rest[..i + 1];
    var all, part := code[..k + i + 1], rest[..i + 1];
    forall x | x != ' ' ensures Times(x, all) == Times(x, part) {
      NoneInBlanks(x, k);
      TimesOfConcat(x, Repeat(' ', k), rest[..i + 1]);
    }
  }

  function Deeper(depth: int, open: char, close: char, c: char): int {
    if c == open then depth + 1 else if c == close then depth - 1 else depth
  }

  lemma PairAfterCharacter(c: char, rest: string, open: char, close: char, depth: int, i: nat)
    requires open != close && i < |rest|
    ensures PairMeets([c] + rest, open, close, depth, i + 1) ==
            PairMeets(rest, open, close, Deeper(depth, open, close, c), i)
  {
    var code := [c] + rest;
    assert code[..i + 2] == [c] + rest[..i + 1];
    var all, part := code[..i + 2], rest[..i + 1];
    forall x ensures Times(x, all) == (if x == c then 1 else 0) + Times(x, part) {
      TimesOfConcat(x, [c], rest[..i + 1]);
    }
    hide Times;
  }

  lemma {:induction false} PairEnds(t: string, open: char, close: char, depth: int, i: nat)
    requires open != close && open != ' ' && close != ' ' && i <= |t|
    requires forall j :: 0 <= j < i ==> !PairMeets(Code(t), open, close, depth, j)
    ensures i == |t| ==> MatchingLen(t, open, close, depth) == |t|
    ensures i < |t| && PairMeets(Code(t), open, close, depth, i) ==> MatchingLen(t, open, close, depth) == i + 1
    decreases |t|
  {
    hide SkipLen, PairMeets;
    if t == "" { return; }
    var code, k := Code(t), SkipLen(t);
    var step := if k > 0 then k else 1;
    var rest := Code(t[step..]);
    if k > 0 && i < k {
      assert code[i] == Repeat(' ', k)[i];
      BlankAt(k, i);
      NoPairAt(code, open, close, depth, i);
    } else if k > 0 {
      forall j | 0 <= j < i - k ensures !PairMeets(rest, open, close, depth, j) {
        assert !PairMeets(code, open, close, depth, k + j);
        PairAfterBlanks(k, rest, open, close, depth, j);
      }
      PairEnds(t[k..], open, close, depth, i - k);
      if i < |t| { PairAfterBlanks(k, rest, open, close, depth, i - k); }
    } else {
      assert code == [t[0]] + rest;
      FirstPair(t[0], rest, open, close, depth);
      if i > 0 {
        var depth' := Deeper(depth, open, close, t[0]);
        forall j | 0 <= j < i - 1 ensures !PairMeets(rest, open, close, depth', j) {
          assert !PairMeets(code, open, close, depth, j + 1);
          PairAfterCharacter(t[0], rest, open, close, depth, j);
        }
        PairEnds(t[1..], open, close, depth', i - 1);
        if i < |t| { PairAfterCharacter(t[0], rest, open, close, depth, i - 1); }
      }
    }
  }

  lemma NoPairAt(code: string, open: char, close: char, depth: int, i: nat)
    requires i < |code| && code[i] != close
    ensures !PairMeets(code, open, close, depth, i)
  {
  }

  lemma FirstPair(c: char, rest: string, open: char, close: char, depth: int)
    requires open != close
    ensures PairMeets([c] + rest, open, close, depth, 0) <==> c == close && depth == 1
  {
    assert ([c] + rest)[..1] == [c];
  }

  /** The index after the bracket that closes the first one: the first closing bracket of the code
      with as many opening ones before it as closing ones up to it. */
  lemma BracketEndsWhereCountsMeet(t: string, open: char, close: char, i: nat)
    requires open != close && open != ' ' && close != ' ' && i <= |t|
    requires forall j :: 0 <= j < i && Code(t)[j] == close ==>
                           Times(open, Code(t)[..j + 1]) != Times(close, Code(t)[..j + 1])
    ensures i == |t| ==> MatchingLen(t, open, close, 0) == |t|
    ensures i < |t| && Code(t)[i] == close && Times(open, Code(t)[..i + 1]) == Times(close, Code(t)[..i + 1]) ==>
              MatchingLen(t, open, close, 0) == i + 1
  {
    hide Times, Code;
    PairEnds(t, open, close, 0, i);
  }
}
