/** Facts about strings shared by the other modules: prefixes, decimal numbers and the
    order in which Rust and Python compare strings. */
module Text {

  predicate StartsWith(s: string, prefix: string) {
    |prefix| <= |s| && s[..|prefix|] == prefix
  }

  predicate EndsWith(s: string, suffix: string) {
    |suffix| <= |s| && s[|s| - |suffix|..] == suffix
  }

  lemma FirstChar(x: string, p: string)
    requires |p| > 0
    ensures StartsWith(x, p) ==> x[0] == p[0]
  {
    if StartsWith(x, p) { assert x[..|p|][0] == x[0]; }
  }

  /** Python's `str.isspace` for one character. */
  predicate IsSpace(c: char) {
    '\t' <= c <= '\r' || '\U{1C}' <= c <= ' ' || c == '\U{85}' || c == '\U{A0}' || c == '\U{1680}'
    || '\U{2000}' <= c <= '\U{200A}' || c == '\U{2028}' || c == '\U{2029}' || c == '\U{202F}'
    || c == '\U{205F}' || c == '\U{3000}'
  }

  // ----- parts between separators -----

  function Split(s: string, sep: char): (parts: seq<string>)
    ensures |parts| >= 1
  {
    if s == "" then [""]
    else if s[0] == sep then [""] + Split(s[1..], sep)
    else
      var rest := Split(s[1..], sep);
      [[s[0]] + rest[0]] + rest[1..]
  }

  function Join(parts: seq<string>, sep: char): string {
    if parts == [] then ""
    else if |parts| == 1 then parts[0]
    else parts[0] + [sep] + Join(parts[1..], sep)
  }

  lemma {:induction false} SplitAt(a: string, sep: char, b: string)
    requires sep !in a
    ensures Split(a + [sep] + b, sep) == [a] + Split(b, sep)
    ensures Split(a, sep) == [a]
  {
    if a == "" {
      assert (a + [sep] + b)[1..] == b;
    } else {
      assert (a + [sep] + b)[1..] == a[1..] + [sep] + b;
      SplitAt(a[1..], sep, b);
      assert a == [a[0]] + a[1..];
    }
  }

  lemma {:induction false} JoinOfSplit(s: string, sep: char)
    ensures Join(Split(s, sep), sep) == s
  {
    if s != "" {
      JoinOfSplit(s[1..], sep);
      var rest := Split(s[1..], sep);
      if s[0] == sep {
        assert ([""] + rest)[1..] == rest;
      } else {
        assert Split(s, sep)[1..] == rest[1..];
      }
    }
  }

  lemma {:induction false} JoinConcat(a: seq<string>, b: seq<string>, sep: char)
    requires a != [] && b != []
    ensures Join(a + b, sep) == Join(a, sep) + [sep] + Join(b, sep)
  {
    if |a| == 1 {
      assert (a + b)[1..] == b;
    } else {
      assert (a + b)[1..] == a[1..] + b;
      JoinConcat(a[1..], b, sep);
    }
  }

  lemma {:induction false} SplitConcat(a: string, sep: char, b: string)
    ensures Split(a + [sep] + b, sep) == Split(a, sep) + Split(b, sep)
  {
    var s := a + [sep] + b;
    if a == "" {
      assert s[1..] == b;
    } else {
      assert s[1..] == a[1..] + [sep] + b;
      SplitConcat(a[1..], sep, b);
      var p, q := Split(a[1..], sep), Split(b, sep);
      if a[0] != sep { assert (p + q)[1..] == p[1..] + q; }
    }
  }

  /** The last parts of `a` are the parts of `b`. */
  predicate EndsWithParts(a: string, b: string, sep: char) {
    var p, q := Split(a, sep), Split(b, sep);
    |q| <= |p| && p[|p| - |q|..] == q
  }

  /** That is a suffix of the text which starts where a part does. */
  lemma EndsWithPartsIff(a: string, b: string, sep: char)
    ensures EndsWithParts(a, b, sep) <==> EndsWith(a, b) && (|a| == |b| || a[|a| - |b| - 1] == sep)
  {
    var p, q := Split(a, sep), Split(b, sep);
    JoinOfSplit(a, sep);
    JoinOfSplit(b, sep);
    if EndsWithParts(a, b, sep) {
      var front := p[..|p| - |q|];
      assert p == front + q;
      if front == [] {
        assert p == q;
      } else {
        JoinConcat(front, q, sep);
        assert a == Join(front, sep) + [sep] + b;
      }
    }
    if EndsWith(a, b) && |a| != |b| && a[|a| - |b| - 1] == sep {
      var head := a[..|a| - |b| - 1];
      assert a == head + [sep] + b;
      SplitConcat(head, sep, b);
      assert p[|p| - |q|..] == q;
    }
    if EndsWith(a, b) && |a| == |b| {
      assert a == b && p[0..] == q;
    }
  }

  // ----- machine words -----

  newtype u64 = x: int | 0 <= x < 0x1_0000_0000_0000_0000

  const U64_MAX: nat := 0xFFFF_FFFF_FFFF_FFFF

  // ----- decimal numbers -----

  function Digit(n: int): (c: char)
    requires 0 <= n < 10
  {
    '0' + n as char
  }

  predicate IsDigit(c: char) {
    '0' <= c <= '9'
  }

  /** The shortest decimal rendering, what `{}` prints for an unsigned integer. */
  function Decimal(n: nat): (s: string)
    ensures |s| >= 1
    ensures forall i :: 0 <= i < |s| ==> IsDigit(s[i])
  {
    if n < 10 then [Digit(n)] else Decimal(n / 10) + [Digit(n % 10)]
  }

  /** Left padding with zeros to a minimum width, what `{:0w}` does. */
  function ZeroPad(w: nat, s: string): string
    decreases w - |s|
  {
    if |s| >= w then s else ZeroPad(w, "0" + s)
  }

  // ----- the order of strings -----

  /** Strict lexicographic order by code point, the order of `<` on strings. */
  predicate LexLess(a: string, b: string) {
    |b| > 0 && (|a| == 0 || a[0] < b[0] || (a[0] == b[0] && LexLess(a[1..], b[1..])))
  }

  lemma {:induction false} LexTotal(a: string, b: string)
    ensures LexLess(a, b) || a == b || LexLess(b, a)
    ensures !(LexLess(a, b) && LexLess(b, a))
    ensures !LexLess(a, a)
  {
    if |a| > 0 {
      LexTotal(a[1..], a[1..]);
      if |b| > 0 {
        LexTotal(a[1..], b[1..]);
        if a[0] == b[0] && a[1..] == b[1..] {
          assert a == [a[0]] + a[1..] == [b[0]] + b[1..] == b;
        }
      }
    }
  }

  /** Fields of equal width compare left to right. */
  lemma {:induction false} LexConcat(a: string, b: string, c: string, d: string)
    requires |a| == |b|
    ensures LexLess(a + c, b + d) <==> LexLess(a, b) || (a == b && LexLess(c, d))
  {
    if |a| == 0 {
      assert a + c == c && b + d == d;
    } else {
      assert (a + c)[1..] == a[1..] + c && (b + d)[1..] == b[1..] + d;
      LexConcat(a[1..], b[1..], c, d);
      assert a == [a[0]] + a[1..] && b == [b[0]] + b[1..];
    }
  }

  // ----- fixed-width fields -----

  function Pow10(w: nat): (p: nat)
    ensures p >= 1
  {
    if w == 0 then 1 else 10 * Pow10(w - 1)
  }

  /** The last `w` decimal digits of `n`. */
  function Fixed(w: nat, n: nat): (s: string)
    ensures |s| == w
  {
    if w == 0 then "" else Fixed(w - 1, n / 10) + [Digit(n % 10)]
  }

  /** A number that fits its field is printed as exactly `w` digits. */
  lemma {:induction false} PaddedIsFixed(w: nat, n: nat)
    requires w > 0 && n < Pow10(w)
    ensures ZeroPad(w, Decimal(n)) == Fixed(w, n)
  {
    if n < 10 {
      FixedOfZero(w - 1);
      ZeroPadZeros(w, Decimal(n));
      assert Fixed(w, n) == Fixed(w - 1, 0) + [Digit(n)];
    } else {
      PaddedIsFixed(w - 1, n / 10);
      ZeroPadAppend(w - 1, Decimal(n / 10), [Digit(n % 10)]);
    }
  }

  function Zeros(w: nat): (s: string)
    ensures |s| == w
  {
    if w == 0 then "" else Zeros(w - 1) + "0"
  }

  lemma {:induction false} FixedOfZero(w: nat)
    ensures Fixed(w, 0) == Zeros(w)
  {
    if w > 0 {
      FixedOfZero(w - 1);
    }
  }

  lemma {:induction false} ZerosFront(w: nat)
    ensures Zeros(w) + "0" == "0" + Zeros(w)
  {
    if w > 0 {
      ZerosFront(w - 1);
    }
  }

  lemma {:induction false} ZeroPadZeros(w: nat, s: string)
    requires |s| <= w
    ensures ZeroPad(w, s) == Zeros(w - |s|) + s
    decreases w - |s|
  {
    if |s| < w {
      ZeroPadZeros(w, "0" + s);
      ZerosFront(w - |s| - 1);
      assert Zeros(w - |s| - 1) + ("0" + s) == (Zeros(w - |s| - 1) + "0") + s;
    }
  }

  lemma {:induction false} ZeroPadAppend(w: nat, s: string, t: string)
    requires |t| == 1
    ensures ZeroPad(w + 1, s + t) == ZeroPad(w, s) + t
    decreases w - |s|
  {
    if |s| < w {
      ZeroPadAppend(w, "0" + s, t);
      assert "0" + (s + t) == ("0" + s) + t;
    }
  }

  /** In a fixed-width field the smaller number is the smaller string. */
  lemma {:induction false} FixedOrder(w: nat, m: nat, n: nat)
    requires m < n < Pow10(w)
    ensures LexLess(Fixed(w, m), Fixed(w, n))
  {
    var a, b := Fixed(w - 1, m / 10), Fixed(w - 1, n / 10);
    LexConcat(a, b, [Digit(m % 10)], [Digit(n % 10)]);
    if m / 10 < n / 10 {
      FixedOrder(w - 1, m / 10, n / 10);
    } else {
      assert m % 10 < n % 10;
    }
  }
}
