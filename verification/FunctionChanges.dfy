/** The other half of the moved-body checker: a function that changes is reported. */
module FunctionChanges {
  import opened Options
  import opened Text
  import opened RustScan
  import opened Normaliser
  import opened MovedBodies
  import NormalForm

  /** The text holds one function, which is all of it. */
  predicate OneFunction(x: string, name: string) {
    FnBodies(x) == multiset{(name, Normalise(x))}
  }

  lemma StepIsFunction(x: string)
    requires ClosedFunction(x)
    ensures Step(x, None) == FnStep(x, None)
  {
    hide Normalise, BodyLen, FnHead, MarkLen, SkipLen, MatchingLen, BodyCloses, Run, WordLen, IsSpace;
    FunctionFirst(x, None);
  }

  lemma ScanOne(x: string, name: string, text: string)
    requires |x| > 0 && Step(x, None) == Token(|x|, None, Some((name, text)))
    ensures FnBodies(x) == multiset{(name, text)}
  {
    hide Step;
    ScanUnfolds(x, None);
    assert x[|x|..] == "";
  }

  lemma WholeText(x: string)
    requires |x| >= 2 && FnHead(x).Some? && FnStep(x, None).len == |x|
    ensures FnStep(x, None) == Token(|x|, None, Some((FnHead(x).value.0, Normalise(x))))
  {
    hide Normalise, BodyLen, FnHead;
    assert x[..|x|] == x && "" + x == x;
  }

  /** So does a text that is `fn`, a name and a body that closes at its end. */
  lemma ClosedIsOneFunction(x: string)
    requires ClosedFunction(x) && Step(x, None).len == |x|
    ensures OneFunction(x, FnHead(x).value.0)
  {
    hide Normalise, FnBodies, FnStep, Step, FnHead, BodyCloses, WordLen;
    StepIsFunction(x);
    WholeText(x);
    ScanOne(x, FnHead(x).value.0, Normalise(x));
  }

  lemma CancelBodies(a: multiset<Body>, b: multiset<Body>, rest: multiset<Body>)
    ensures a + rest == b + rest <==> a == b
  {
    if a + rest == b + rest {
      assert a == (a + rest) - rest;
      assert b == (b + rest) - rest;
    }
  }

  lemma OneBody(x: Body, y: Body)
    ensures multiset{x} == multiset{y} <==> x == y
  {
    if multiset{x} == multiset{y} { assert x in multiset{y}; }
  }

  /** When all pieces stay but one function, wherever they move, the report is empty exactly when
      the new function has the name and the normal form of the old one. Of a tidy function: it has
      the same name and the same tokens exactly when the report is empty and it is tidy as well. */
  lemma ReplacedFunctionIsReported(before: seq<seq<string>>, after: seq<seq<string>>, rest: multiset<string>,
                                   a: string, b: string, m: string, n: string)
    requires multiset(Flatten(before)) == multiset{a} + rest && multiset(Flatten(after)) == multiset{b} + rest
    requires forall p :: p in Flatten(before) || p in Flatten(after) ==> SelfContained(p)
    requires OneFunction(a, m) && OneFunction(b, n)
    ensures Compare(Side(Texts(before)), Side(Texts(after))) == Report({}, {}, {}) <==>
            m == n && Normalise(a) == Normalise(b)
    ensures NormalForm.Tidy(a) && NormalForm.Tidy(b) ==>
              (Compare(Side(Texts(before)), Side(Texts(after))) == Report({}, {}, {}) <==>
               m == n && NormalForm.TokensOf(a) == NormalForm.TokensOf(b))
    ensures NormalForm.Tidy(a) ==>
              (Compare(Side(Texts(before)), Side(Texts(after))) == Report({}, {}, {}) && NormalForm.Tidy(b) <==>
               m == n && NormalForm.TokensOf(a) == NormalForm.TokensOf(b))
  {
    hide SelfContained, Normalise, FnBodies, PieceBodies, Side, Compare, NormalForm.Tidy, NormalForm.TokensOf;
    var x, y := Flatten(before), Flatten(after);
    SideIsPieceBodies(before);
    SideIsPieceBodies(after);
    assert a in multiset(x) && b in multiset(y);
    var p := TakeOut(x, a);
    var q := TakeOut(y, b);
    CancelOne(a, multiset(p), rest);
    CancelOne(b, multiset(q), rest);
    PieceBodiesIgnoreOrder(p, q);
    EmptyReportMeansEqual(Side(Texts(before)), Side(Texts(after)));
    CancelBodies(FnBodies(a), FnBodies(b), PieceBodies(p));
    OneBody((m, Normalise(a)), (n, Normalise(b)));
    if NormalForm.Tidy(a) { NormalForm.SameTokensIff(a, b); }
  }
}
