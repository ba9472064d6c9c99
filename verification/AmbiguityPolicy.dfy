/** The ambiguity policy of symbol resolution (src/ambiguity_policy.rs): evidence tiers tried
    strongest first, each deciding only when exactly one candidate matches it. */
module AmbiguityPolicy {
  import opened Options
  import opened Text

  datatype Evidence = UniqueGlobal | ImportMatch | SameFileUnique | PackageProximity

  /** Trust of the four tiers `resolve` can produce, in hundredths. */
  function ConfidenceFor(e: Evidence): nat {
    match e
    case UniqueGlobal => 95
    case ImportMatch => 90
    case SameFileUnique => 85
    case PackageProximity => 70
  }

  /** A symbol and the qualified name it is matched under. */
  datatype Candidate<T> = Candidate(target: T, qualifiedName: string)

  datatype Resolution<T> =
    | Resolved(target: T, evidence: Evidence, confidence: nat)
    | Ambiguous(candidates: seq<T>)
    | NotFound

  datatype Context = Context(importsInScope: seq<string>, callerFile: string, callerPackage: Option<string>)

  // ----- exactly one match -----

  function CountIf<T>(s: seq<T>, p: T -> bool): (n: nat)
    ensures n <= |s|
  {
    if s == [] then 0 else (if p(s[0]) then 1 else 0) + CountIf(s[1..], p)
  }

  lemma {:induction false} CountConcat<T>(a: seq<T>, b: seq<T>, p: T -> bool)
    ensures CountIf(a + b, p) == CountIf(a, p) + CountIf(b, p)
  {
    if a == [] {
      assert a + b == b;
    } else {
      assert (a + b)[1..] == a[1..] + b;
      CountConcat(a[1..], b, p);
    }
  }

  lemma {:induction false} CountPositive<T>(s: seq<T>, p: T -> bool)
    ensures CountIf(s, p) > 0 <==> exists i :: 0 <= i < |s| && p(s[i])
  {
    if s != [] {
      CountPositive(s[1..], p);
      assert forall i :: 0 < i < |s| ==> s[i] == s[1..][i - 1];
      if i :| 0 <= i < |s| && p(s[i]) {
        if i > 0 { assert p(s[1..][i - 1]); }
      }
      if i :| 0 <= i < |s[1..]| && p(s[1..][i]) { assert p(s[i + 1]); }
    }
  }

  lemma CountRemove<T>(s: seq<T>, i: nat, p: T -> bool)
    requires i < |s|
    ensures CountIf(s, p) == CountIf(s[..i] + s[i + 1..], p) + (if p(s[i]) then 1 else 0)
  {
    RemoveOne(s, i);
    CountConcat(s[..i], [s[i]] + s[i + 1..], p);
    CountConcat(s[..i], s[i + 1..], p);
    assert ([s[i]] + s[i + 1..])[1..] == s[i + 1..];
  }

  lemma {:induction false} CountIgnoresOrder<T>(a: seq<T>, b: seq<T>, p: T -> bool)
    requires multiset(a) == multiset(b)
    ensures CountIf(a, p) == CountIf(b, p)
    decreases |a|
  {
    if a == [] {
      assert |b| == |multiset(b)| == 0;
    } else {
      hide CountIf;
      var x := a[0];
      assert x in multiset(a);
      var i :| 0 <= i < |b| && b[i] == x;
      CountRemove(a, 0, p);
      CountRemove(b, i, p);
      RemoveOne(a, 0);
      RemoveOne(b, i);
      CountIgnoresOrder(a[..0] + a[1..], b[..i] + b[i + 1..], p);
    }
  }

  lemma RemoveOne<T>(b: seq<T>, i: nat)
    requires i < |b|
    ensures b == b[..i] + ([b[i]] + b[i + 1..])
    ensures multiset(b[..i] + b[i + 1..]) == multiset(b) - multiset{b[i]}
  {
    assert b == b[..i] + ([b[i]] + b[i + 1..]);
    assert multiset(b) == multiset(b[..i]) + (multiset{b[i]} + multiset(b[i + 1..]));
  }

  /** The only candidate satisfying `p`, if there is exactly one. */
  function UniqueMatch<T>(s: seq<T>, p: T -> bool): (r: Option<T>)
    ensures r.Some? <==> CountIf(s, p) == 1
    ensures r.Some? ==> r.value in s && p(r.value)
  {
    if s == [] then None
    else if p(s[0]) then (if CountIf(s[1..], p) == 0 then Some(s[0]) else None)
    else UniqueMatch(s[1..], p)
  }

  lemma {:induction false} UniqueIsTheOne<T>(s: seq<T>, p: T -> bool, c: T)
    requires CountIf(s, p) == 1 && c in s && p(c)
    ensures UniqueMatch(s, p) == Some(c)
  {
    CountPositive(s[1..], p);
    if p(s[0]) {
      assert forall j :: 0 < j < |s| ==> s[1..][j - 1] == s[j];
    } else {
      var i :| 0 <= i < |s| && s[i] == c;
      assert s[1..][i - 1] == c;
      UniqueIsTheOne(s[1..], p, c);
    }
  }

  lemma UniqueIgnoresOrder<T>(a: seq<T>, b: seq<T>, p: T -> bool)
    requires multiset(a) == multiset(b)
    ensures UniqueMatch(a, p) == UniqueMatch(b, p)
  {
    CountIgnoresOrder(a, b, p);
    if UniqueMatch(a, p).Some? {
      var c := UniqueMatch(a, p).value;
      assert c in multiset(b);
      UniqueIsTheOne(b, p, c);
    }
  }

  /** `unique_match`, with its early return at a second match. */
  method UniqueMatchLoop<T>(s: seq<T>, p: T -> bool) returns (found: Option<T>)
    ensures found == UniqueMatch(s, p)
  {
    found := None;
    for k := 0 to |s|
      invariant CountIf(s, p) == (if found.Some? then 1 else 0) + CountIf(s[k..], p)
      invariant found.None? ==> UniqueMatch(s, p) == UniqueMatch(s[k..], p)
      invariant found.Some? ==> found.value in s && p(found.value)
      invariant found.Some? && CountIf(s[k..], p) == 0 ==> UniqueMatch(s, p) == found
    {
      assert s[k..][1..] == s[k + 1..];
      if p(s[k]) {
        if found.Some? {
          return None;
        }
        found := Some(s[k]);
      }
    }
  }

  // ----- import matching -----

  /** `str::replace("::", "/")`. */
  function SlashColons(s: string): string
    decreases |s|
  {
    if |s| < 2 then s
    else if s[0] == ':' && s[1] == ':' then "/" + SlashColons(s[2..])
    else [s[0]] + SlashColons(s[1..])
  }

  function SlashDots(s: string): string {
    if s == "" then "" else (if s[0] == '.' then "/" else [s[0]]) + SlashDots(s[1..])
  }

  /** An import path as it is compared. */
  function ImportPath(imp: string): string {
    SlashDots(SlashColons(imp))
  }

  /** One rewritten name ends with the other, as plain text: `renew` matches `new`. */
  predicate ImportMatches(qualifiedName: string, imports: seq<string>) {
    exists i :: 0 <= i < |imports| &&
      var c, imp := SlashColons(qualifiedName), ImportPath(imports[i]);
      EndsWith(c, imp) || EndsWith(imp, c)
  }

  // ----- text suffixes and path segments -----

  /** What the source's comment describes: the segments of one name end with those of the other. */
  predicate SegmentMatches(qualifiedName: string, imports: seq<string>) {
    exists i :: 0 <= i < |imports| &&
      var c, imp := SlashColons(qualifiedName), ImportPath(imports[i]);
      EndsWithParts(c, imp, '/') || EndsWithParts(imp, c, '/')
  }

  /** `b` is a suffix of `a` that starts inside a segment. */
  predicate CutsSegment(a: string, b: string) {
    EndsWith(a, b) && |b| < |a| && a[|a| - |b| - 1] != '/'
  }

  predicate SomeCut(qualifiedName: string, imports: seq<string>) {
    exists i :: 0 <= i < |imports| &&
      var c, imp := SlashColons(qualifiedName), ImportPath(imports[i]);
      CutsSegment(c, imp) || CutsSegment(imp, c)
  }

  /** The text comparison finds what a comparison of segments would, and every pair in which one
      name cuts a segment of the other: the two agree exactly when there is no such pair, or some
      import matches by segments anyway. */
  lemma TextMatchesSegmentsIff(qualifiedName: string, imports: seq<string>)
    ensures ImportMatches(qualifiedName, imports) <==>
            SegmentMatches(qualifiedName, imports) || SomeCut(qualifiedName, imports)
    ensures (ImportMatches(qualifiedName, imports) <==> SegmentMatches(qualifiedName, imports)) <==>
            !SomeCut(qualifiedName, imports) || SegmentMatches(qualifiedName, imports)
  {
    hide SlashColons, ImportPath, EndsWith, EndsWithParts;
    var c := SlashColons(qualifiedName);
    forall i | 0 <= i < |imports|
      ensures EndsWith(c, ImportPath(imports[i])) <==>
              EndsWithParts(c, ImportPath(imports[i]), '/') || CutsSegment(c, ImportPath(imports[i]))
      ensures EndsWith(ImportPath(imports[i]), c) <==>
              EndsWithParts(ImportPath(imports[i]), c, '/') || CutsSegment(ImportPath(imports[i]), c)
    {
      SuffixParts(c, ImportPath(imports[i]));
      SuffixParts(ImportPath(imports[i]), c);
    }
  }

  lemma SuffixParts(a: string, b: string)
    ensures EndsWith(a, b) <==> EndsWithParts(a, b, '/') || CutsSegment(a, b)
  {
    EndsWithPartsIff(a, b, '/');
  }

  // ----- the tiers -----

  function Tier<T>(e: Evidence, ctx: Context): Candidate<T> -> bool {
    match e
    case UniqueGlobal => (c: Candidate<T>) => true
    case ImportMatch => (c: Candidate<T>) => ImportMatches(c.qualifiedName, ctx.importsInScope)
    case SameFileUnique => (c: Candidate<T>) => StartsWith(c.qualifiedName, ctx.callerFile)
    case PackageProximity =>
      (c: Candidate<T>) => ctx.callerPackage.Some? && StartsWith(c.qualifiedName, ctx.callerPackage.value)
  }

  function Won<T>(c: Candidate<T>, e: Evidence): Resolution<Candidate<T>> {
    Resolved(c, e, ConfidenceFor(e))
  }

  /** `resolve`. */
  function Resolve<T>(candidates: seq<Candidate<T>>, ctx: Context): Resolution<Candidate<T>> {
    if candidates == [] then NotFound
    else if |candidates| == 1 then Won(candidates[0], UniqueGlobal)
    else
      var byImport := UniqueMatch(candidates, Tier(ImportMatch, ctx));
      if byImport.Some? then Won(byImport.value, ImportMatch)
      else
        var byFile := UniqueMatch(candidates, Tier(SameFileUnique, ctx));
        if byFile.Some? then Won(byFile.value, SameFileUnique)
        else
          var byPackage :=
            if ctx.callerPackage.Some? then UniqueMatch(candidates, Tier(PackageProximity, ctx)) else None;
          if byPackage.Some? then Won(byPackage.value, PackageProximity) else Ambiguous(candidates)
  }

  /** Two outcomes alike up to the order of an ambiguous list. */
  ghost predicate Same<T>(r: Resolution<T>, q: Resolution<T>) {
    if r.Ambiguous? && q.Ambiguous? then multiset(r.candidates) == multiset(q.candidates) else r == q
  }

  /** The outcome depends on which candidates there are, not on their order. */
  lemma ResolveIgnoresOrder<T>(a: seq<Candidate<T>>, b: seq<Candidate<T>>, ctx: Context)
    requires multiset(a) == multiset(b)
    ensures Same(Resolve(a, ctx), Resolve(b, ctx))
  {
    assert |a| == |multiset(a)| == |multiset(b)| == |b|;
    if |a| == 1 {
      assert a == [a[0]] && b == [b[0]];
      assert a[0] in multiset(b);
    } else {
      UniqueIgnoresOrder(a, b, Tier(ImportMatch, ctx));
      UniqueIgnoresOrder(a, b, Tier(SameFileUnique, ctx));
      UniqueIgnoresOrder(a, b, Tier(PackageProximity, ctx));
    }
  }

  function Strength(e: Evidence): nat {
    match e
    case UniqueGlobal => 3
    case ImportMatch => 2
    case SameFileUnique => 1
    case PackageProximity => 0
  }

  /** A tier decides. */
  predicate Decides<T>(candidates: seq<Candidate<T>>, ctx: Context, e: Evidence) {
    CountIf(candidates, Tier(e, ctx)) == 1
  }

  /** The evidence of a result is the strongest tier that matches exactly one candidate, and
      the target is that candidate; the result is ambiguous exactly when no tier decides. */
  lemma StrongestTierWins<T>(candidates: seq<Candidate<T>>, ctx: Context, e: Evidence)
    ensures var r := Resolve(candidates, ctx);
            && (r.Resolved? && r.evidence == e <==>
                  Decides(candidates, ctx, e) && forall f :: Strength(f) > Strength(e) ==> !Decides(candidates, ctx, f))
            && (r.Resolved? ==>
                  r.target in candidates && Tier(r.evidence, ctx)(r.target)
                  && r.confidence == ConfidenceFor(r.evidence))
            && (r.NotFound? <==> candidates == [])
            && (r.Ambiguous? ==> candidates != [] && r.candidates == candidates && !Decides(candidates, ctx, e))
  {
    CountAll(candidates, Tier(UniqueGlobal, ctx));
    if ctx.callerPackage.None? { CountNone(candidates, Tier(PackageProximity, ctx)); }
    var global, imported := Decides(candidates, ctx, UniqueGlobal), Decides(candidates, ctx, ImportMatch);
    var file, package := Decides(candidates, ctx, SameFileUnique), Decides(candidates, ctx, PackageProximity);
    assert global <==> |candidates| == 1;
  }

  lemma {:induction false} CountAll<T>(s: seq<T>, p: T -> bool)
    requires forall c :: c in s ==> p(c)
    ensures CountIf(s, p) == |s|
  {
    if s != [] {
      CountAll(s[1..], p);
    }
  }

  lemma {:induction false} CountNone<T>(s: seq<T>, p: T -> bool)
    requires forall c :: c in s ==> !p(c)
    ensures CountIf(s, p) == 0
  {
    if s != [] {
      CountNone(s[1..], p);
    }
  }

  /** A consumer that keeps edges above a threshold never keeps weaker evidence over stronger. */
  lemma ConfidenceFollowsStrength(e: Evidence, f: Evidence)
    ensures Strength(e) < Strength(f) <==> ConfidenceFor(e) < ConfidenceFor(f)
  {
  }

  // ----- what a resolution means, spelled out -----

  /** What speaks for a candidate at a tier. */
  predicate Speaks<T>(e: Evidence, c: Candidate<T>, ctx: Context) {
    match e
    case UniqueGlobal => true
    case ImportMatch =>
      exists i :: 0 <= i < |ctx.importsInScope| &&
        var name, imp := SlashColons(c.qualifiedName), ImportPath(ctx.importsInScope[i]);
        EndsWith(name, imp) || EndsWith(imp, name)
    case SameFileUnique => StartsWith(c.qualifiedName, ctx.callerFile)
    case PackageProximity => ctx.callerPackage.Some? && StartsWith(c.qualifiedName, ctx.callerPackage.value)
  }

  /** Candidate `k` is the only one a tier speaks for. */
  ghost predicate OnlyOne<T>(e: Evidence, cs: seq<Candidate<T>>, ctx: Context, k: int) {
    0 <= k < |cs| && Speaks(e, cs[k], ctx) && forall j :: 0 <= j < |cs| && j != k ==> !Speaks(e, cs[j], ctx)
  }

  ghost predicate SomeOnly<T>(e: Evidence, cs: seq<Candidate<T>>, ctx: Context) {
    exists k :: OnlyOne(e, cs, ctx, k)
  }

  /** The tiers before one, and what each is worth. */
  function TiersBefore(e: Evidence): set<Evidence> {
    match e
    case UniqueGlobal => {}
    case ImportMatch => {UniqueGlobal}
    case SameFileUnique => {UniqueGlobal, ImportMatch}
    case PackageProximity => {UniqueGlobal, ImportMatch, SameFileUnique}
  }

  function Worth(e: Evidence): nat {
    match e
    case UniqueGlobal => 95
    case ImportMatch => 90
    case SameFileUnique => 85
    case PackageProximity => 70
  }

  lemma TierSpeaks<T>(e: Evidence, c: Candidate<T>, ctx: Context)
    ensures Tier<T>(e, ctx)(c) == Speaks(e, c, ctx)
  {
  }

  ghost predicate OnlyAt<T>(s: seq<T>, p: T -> bool, k: int) {
    0 <= k < |s| && p(s[k]) && forall j :: 0 <= j < |s| && j != k ==> !p(s[j])
  }

  lemma OnlyFirst<T>(s: seq<T>, p: T -> bool)
    requires s != [] && p(s[0])
    ensures OnlyAt(s, p, 0) <==> CountIf(s[1..], p) == 0
  {
    var rest := s[1..];
    CountPositive(rest, p);
    assert forall j :: 0 < j < |s| ==> s[j] == rest[j - 1];
    assert forall j :: 0 <= j < |rest| ==> rest[j] == s[j + 1];
  }

  lemma OnlyLater<T>(s: seq<T>, p: T -> bool, k: int)
    requires s != [] && k > 0
    ensures OnlyAt(s, p, k) <==> !p(s[0]) && OnlyAt(s[1..], p, k - 1)
  {
    var rest := s[1..];
    assert forall j :: 0 < j < |s| ==> s[j] == rest[j - 1];
    assert forall j :: 0 <= j < |rest| ==> rest[j] == s[j + 1];
  }

  lemma {:induction false} OnlyIsOne<T>(s: seq<T>, p: T -> bool, k: int)
    requires OnlyAt(s, p, k)
    ensures CountIf(s, p) == 1
  {
    if k == 0 {
      OnlyFirst(s, p);
    } else {
      OnlyLater(s, p, k);
      OnlyIsOne(s[1..], p, k - 1);
    }
  }

  lemma {:induction false} OneIsOnly<T>(s: seq<T>, p: T -> bool) returns (k: int)
    requires CountIf(s, p) == 1
    ensures OnlyAt(s, p, k)
  {
    if p(s[0]) {
      k := 0;
      OnlyFirst(s, p);
    } else {
      k := OneIsOnly(s[1..], p);
      OnlyLater(s, p, k + 1);
      k := k + 1;
    }
  }

  lemma DecidesIff<T>(e: Evidence, cs: seq<Candidate<T>>, ctx: Context)
    ensures Decides(cs, ctx, e) <==> SomeOnly(e, cs, ctx)
  {
    hide CountIf, Tier, Speaks;
    var tier := Tier<T>(e, ctx);
    forall c ensures tier(c) == Speaks(e, c, ctx) { TierSpeaks(e, c, ctx); }
    if Decides(cs, ctx, e) {
      var k := OneIsOnly(cs, tier);
      assert OnlyOne(e, cs, ctx, k);
    }
    if k :| OnlyOne(e, cs, ctx, k) {
      OnlyIsOne(cs, tier, k);
    }
  }

  /** A candidate is the answer at a tier exactly when it is the only one that the tier speaks
      for and no earlier tier has such a one. */
  lemma ResolvedIff<T>(cs: seq<Candidate<T>>, ctx: Context, k: nat, e: Evidence)
    requires k < |cs|
    ensures Resolve(cs, ctx) == Resolved(cs[k], e, Worth(e)) <==>
            OnlyOne(e, cs, ctx, k) && forall f :: f in TiersBefore(e) ==> !SomeOnly(f, cs, ctx)
  {
    hide Resolve, Tier, Speaks, CountIf, Decides;
    StrongestTierWins(cs, ctx, e);
    forall f ensures Decides(cs, ctx, f) <==> SomeOnly(f, cs, ctx) { DecidesIff(f, cs, ctx); }
    forall f ensures Strength(f) > Strength(e) <==> f in TiersBefore(e) {}
    var r := Resolve(cs, ctx);
    if r.Resolved? {
      TierSpeaks(r.evidence, r.target, ctx);
      assert Worth(r.evidence) == ConfidenceFor(r.evidence);
      var j :| 0 <= j < |cs| && cs[j] == r.target;
    }
  }

  /** And the answer is open exactly when there are candidates and no tier has one. */
  lemma AmbiguousIff<T>(cs: seq<Candidate<T>>, ctx: Context)
    ensures Resolve(cs, ctx) == Ambiguous(cs) ==> cs != [] && forall e :: !SomeOnly(e, cs, ctx)
    ensures cs != [] && (forall e :: !SomeOnly(e, cs, ctx)) ==> Resolve(cs, ctx) == Ambiguous(cs)
    ensures Resolve(cs, ctx) == NotFound <==> cs == []
  {
    hide Resolve, Tier, OnlyOne, CountIf, Decides;
    var r := Resolve(cs, ctx);
    StrongestTierWins(cs, ctx, UniqueGlobal);
    if r == Ambiguous(cs) {
      forall e ensures !SomeOnly(e, cs, ctx) {
        StrongestTierWins(cs, ctx, e);
        DecidesIff(e, cs, ctx);
      }
    }
    if r.Resolved? {
      StrongestTierWins(cs, ctx, r.evidence);
      DecidesIff(r.evidence, cs, ctx);
      assert SomeOnly(r.evidence, cs, ctx);
    }
  }

  // ----- a longer name ties with the imported one -----

  lemma {:induction false} SlashesAfter(extra: string, q: string)
    requires ':' !in extra
    ensures SlashColons(extra + q) == extra + SlashColons(q)
  {
    hide SlashColons;
    if extra == "" {
      assert extra + q == q;
    } else {
      assert (extra + q)[1..] == extra[1..] + q;
      SlashesAfter(extra[1..], q);
      SlashesUnfold(extra + q);
      assert [extra[0]] + (extra[1..] + SlashColons(q)) == extra + SlashColons(q);
    }
  }

  lemma SlashesUnfold(s: string)
    requires s != "" && s[0] != ':'
    ensures SlashColons(s) == [s[0]] + SlashColons(s[1..])
  {
  }

  lemma {:induction false} NoDots(s: string)
    requires '.' !in s
    ensures SlashDots(s) == s
  {
    if s != "" { NoDots(s[1..]); }
  }

  /** Dots become slashes. */
  lemma {:induction false} DotsAreSlashes(a: string, b: string)
    ensures SlashDots(a + "." + b) == SlashDots(a) + "/" + SlashDots(b)
  {
    var s := a + "." + b;
    if a == "" {
      assert s[1..] == b;
    } else {
      assert s[1..] == a[1..] + "." + b;
      DotsAreSlashes(a[1..], b);
    }
  }

  lemma {:induction false} SlashesAddNoDots(s: string)
    requires '.' !in s
    ensures '.' !in SlashColons(s)
    decreases |s|
  {
    if |s| >= 2 {
      SlashesAddNoDots(s[1..]);
      SlashesAddNoDots(s[2..]);
    }
  }

  lemma OneImport(q: string, imp: string)
    ensures var c, i := SlashColons(q), ImportPath(imp);
            && (ImportMatches(q, [imp]) <==> EndsWith(c, i) || EndsWith(i, c))
            && (SegmentMatches(q, [imp]) <==> EndsWithParts(c, i, '/') || EndsWithParts(i, c, '/'))
  {
    assert [imp][0] == imp;
  }

  lemma TwoCandidates<T>(c: Candidate<T>, d: Candidate<T>, p: Candidate<T> -> bool)
    ensures CountIf([c, d], p) == (if p(c) then 1 else 0) + (if p(d) then 1 else 0)
  {
    assert [c, d][1..] == [d] && [d][1..] == [];
  }

  /** A name inside a file or module. */
  function Under(prefix: Option<string>, name: string): string {
    if prefix.None? then name else prefix.value + "::" + name
  }

  /** The path of a prefix, with the slash that follows it. */
  function PrefixPath(prefix: Option<string>): string {
    if prefix.None? then "" else SlashColons(prefix.value) + "/"
  }

  predicate WholePrefix(prefix: Option<string>) {
    prefix.Some? && prefix.value != "" ==> prefix.value[|prefix.value| - 1] != ':'
  }

  lemma {:induction false} SlashesJoin(p: string, x: string)
    requires p != "" ==> p[|p| - 1] != ':'
    ensures SlashColons(p + "::" + x) == SlashColons(p) + "/" + SlashColons(x)
    decreases |p|
  {
    var s := p + "::" + x;
    if p == "" {
      assert s[2..] == x;
    } else if |p| == 1 {
      assert s[1..] == "::" + x && (("::" + x)[2..]) == x;
      SlashesUnfold(s);
      assert SlashColons("::" + x) == "/" + SlashColons(x);
    } else if p[0] == ':' && p[1] == ':' {
      assert s[2..] == p[2..] + "::" + x;
      SlashesJoin(p[2..], x);
    } else {
      assert s[1..] == p[1..] + "::" + x;
      SlashesJoin(p[1..], x);
    }
  }

  lemma PathUnder(prefix: Option<string>, name: string)
    requires WholePrefix(prefix)
    ensures SlashColons(Under(prefix, name)) == PrefixPath(prefix) + SlashColons(name)
  {
    hide SlashColons;
    if prefix.Some? { SlashesJoin(prefix.value, name); } else { assert "" + SlashColons(name) == SlashColons(name); }
  }

  /** A path behind other segments ends with its own parts; behind text of its own segment only
      as text. */
  lemma BehindSlash(prefix: Option<string>, path: string)
    ensures EndsWithParts(PrefixPath(prefix) + path, path, '/') && EndsWith(PrefixPath(prefix) + path, path)
  {
    hide SlashColons, EndsWithParts;
    var h := PrefixPath(prefix);
    assert (h + path)[|h|..] == path;
    EndsWithPartsIff(h + path, path, '/');
  }

  lemma BehindText(h: string, path: string)
    requires h != "" && h[|h| - 1] != '/'
    ensures EndsWith(h + path, path)
    ensures !EndsWithParts(h + path, path, '/') && !EndsWithParts(path, h + path, '/')
  {
    hide EndsWithParts;
    assert (h + path)[|h|..] == path;
    EndsWithPartsIff(h + path, path, '/');
    EndsWithPartsIff(path, h + path, '/');
  }

  lemma PlainImport(q: string)
    requires '.' !in q
    ensures ImportPath(q) == SlashColons(q)
  {
    SlashesAddNoDots(q);
    NoDots(SlashColons(q));
  }

  /** Two candidates such as `src/a.rs::ab::new` and `src/b.rs::b::new` with `b::new` imported: by
      segments only the second is meant, but as text both match, so the import tier does not
      decide. So it is for every imported name `q`, in any files, and every longer name whose first
      segment has text before it. The import may be spelled with colons or dots. */
  lemma LongerNameTies<T>(longer: T, meant: T, p: Option<string>, r: Option<string>,
                          q: string, extra: string, imp: string, ctx: Context)
    requires WholePrefix(p) && WholePrefix(r) && ':' !in extra && extra != "" && extra[|extra| - 1] != '/'
    requires ctx.importsInScope == [imp] && ImportPath(imp) == SlashColons(q)
    ensures SegmentMatches(Under(r, q), [imp]) && !SegmentMatches(Under(p, extra + q), [imp])
    ensures ImportMatches(Under(r, q), [imp]) && ImportMatches(Under(p, extra + q), [imp])
    ensures !Decides([Candidate(longer, Under(p, extra + q)), Candidate(meant, Under(r, q))], ctx, ImportMatch)
  {
    hide SlashColons, SlashDots, ImportMatches, SegmentMatches, CountIf, EndsWithParts, EndsWith, Under, ImportPath;
    var path, h := SlashColons(q), PrefixPath(p) + extra;
    PathUnder(p, extra + q);
    PathUnder(r, q);
    SlashesAfter(extra, q);
    assert PrefixPath(p) + (extra + path) == h + path && h[|h| - 1] == extra[|extra| - 1];
    OneImport(Under(p, extra + q), imp);
    OneImport(Under(r, q), imp);
    BehindText(h, path);
    BehindSlash(r, path);
    TwoCandidates(Candidate(longer, Under(p, extra + q)), Candidate(meant, Under(r, q)), Tier<T>(ImportMatch, ctx));
  }
}
