/** Evidence gathering for calls (src/call_evidence.rs): the same policy tried against a
    package-keyed and then a file-keyed spelling of each candidate. */
module CallEvidence {
  import opened Options
  import opened Text
  import opened AmbiguityPolicy

  // ----- names -----

  /** Index after the last occurrence of `c`, 0 when there is none. */
  function AfterLast(s: string, c: char): (n: nat)
    ensures n <= |s|
    ensures n > 0 ==> s[n - 1] == c
    ensures forall i :: n <= i < |s| ==> s[i] != c
  {
    if s == "" then 0 else if s[|s| - 1] == c then |s| else AfterLast(s[..|s| - 1], c)
  }

  predicate AllDigits(s: string) {
    forall i :: 0 <= i < |s| ==> IsDigit(s[i])
  }

  /** `strip_seq_suffix`. */
  function StripSeqSuffix(qn: string): string {
    var n := AfterLast(qn, '#');
    if n > 0 && n < |qn| && AllDigits(qn[n..]) then qn[..n - 1] else qn
  }

  /** The suffix goes exactly when the name ends in `#` and one or more digits. */
  lemma StripSeqSuffixIsExact(qn: string, head: string, tail: string)
    requires tail != "" && AllDigits(tail)
    ensures StripSeqSuffix(head + "#" + tail) == head
    ensures StripSeqSuffix(qn) != qn <==> EndsInSeq(qn)
  {
    var s := head + "#" + tail;
    LastAt(s, |head|);
    assert s[|head| + 1..] == tail && s[..|head|] == head;
    if StripSeqSuffix(qn) != qn {
      var n := AfterLast(qn, '#');
      assert qn == qn[..n - 1] + "#" + qn[n..];
      assert SeqOf(qn, n);
    }
    if n :| SeqOf(qn, n) {
      LastAt(qn, n - 1);
    }
  }

  predicate SeqOf(qn: string, n: int) {
    0 < n < |qn| && qn[n - 1] == '#' && AllDigits(qn[n..])
  }

  ghost predicate EndsInSeq(qn: string) {
    exists n :: SeqOf(qn, n)
  }

  lemma LastAt(s: string, i: nat)
    requires i < |s| && s[i] == '#' && forall j :: i < j < |s| ==> IsDigit(s[j])
    ensures AfterLast(s, '#') == i + 1
  {
    assert forall j :: i < j < |s| ==> s[j] != '#';
  }

  /** Index after the last `::`, 0 when there is none. */
  function AfterColons(s: string): (n: nat)
    ensures n <= |s|
  {
    if |s| < 2 then 0
    else if s[|s| - 2] == ':' && s[|s| - 1] == ':' then |s|
    else AfterColons(s[..|s| - 1])
  }

  /** `bare_name`: the last path segment without its disambiguator. */
  function BareName(qn: string): string {
    StripSeqSuffix(qn[AfterColons(qn)..])
  }

  // ----- the two passes -----

  /** A symbol of the index: its qualified name and the file that declares it. */
  datatype Symbol = Symbol(qn: string, file: string)

  /** What a language provider answers for a file: its package, if the language has any. */
  type PackageOf = string -> Option<string>

  function PackageKey(s: Symbol, packageOf: PackageOf): string {
    var name := BareName(s.qn);
    match packageOf(s.file)
    case Some(pkg) => pkg + "::" + name
    case None => name
  }

  function Keyed(symbols: seq<Symbol>, key: Symbol -> string): (r: seq<Candidate<Symbol>>)
    ensures |r| == |symbols|
    ensures forall i :: 0 <= i < |r| ==> r[i] == Candidate(symbols[i], key(symbols[i]))
  {
    if symbols == [] then [] else [Candidate(symbols[0], key(symbols[0]))] + Keyed(symbols[1..], key)
  }

  function PackageKeyed(symbols: seq<Symbol>, packageOf: PackageOf): seq<Candidate<Symbol>> {
    Keyed(symbols, s => PackageKey(s, packageOf))
  }

  function FileKeyed(symbols: seq<Symbol>): seq<Candidate<Symbol>> {
    Keyed(symbols, (s: Symbol) => StripSeqSuffix(s.qn))
  }

  function Targets(cs: seq<Candidate<Symbol>>): (r: seq<Symbol>)
    ensures |r| == |cs|
    ensures forall i :: 0 <= i < |r| ==> r[i] == cs[i].target
  {
    if cs == [] then [] else [cs[0].target] + Targets(cs[1..])
  }

  function Unkey(r: Resolution<Candidate<Symbol>>): Resolution<Symbol> {
    match r
    case Resolved(c, e, conf) => Resolved(c.target, e, conf)
    case Ambiguous(cs) => Ambiguous(Targets(cs))
    case NotFound => NotFound
  }

  /** `try_package_pass`: import evidence only, against package-qualified spellings. */
  function PackagePass(symbols: seq<Symbol>, packageOf: PackageOf, imports: seq<string>): Resolution<Symbol> {
    Unkey(Resolve(PackageKeyed(symbols, packageOf), Context(imports, "", None)))
  }

  /** `file_pass`: all evidence, against the real qualified names. */
  function FilePass(symbols: seq<Symbol>, packageOf: PackageOf, imports: seq<string>, callerFile: string)
    : Resolution<Symbol>
  {
    Unkey(Resolve(FileKeyed(symbols), Context(imports, callerFile, packageOf(callerFile))))
  }

  /** `resolve_two_pass`. */
  function ResolveTwoPass(symbols: seq<Symbol>, packageOf: PackageOf, imports: seq<string>, callerFile: string)
    : Resolution<Symbol>
  {
    var first := PackagePass(symbols, packageOf, imports);
    if first.Resolved? then first else FilePass(symbols, packageOf, imports, callerFile)
  }

  // ----- the main results -----

  lemma {:induction false} SameForAll(cs: seq<Candidate<Symbol>>, p: Candidate<Symbol> -> bool)
    requires forall c, d :: c in cs && d in cs ==> p(c) == p(d)
    ensures CountIf(cs, p) == 0 || CountIf(cs, p) == |cs|
  {
    if cs != [] {
      if p(cs[0]) {
        assert forall c :: c in cs ==> p(c) == p(cs[0]);
        CountAll(cs, p);
      } else {
        assert forall c :: c in cs ==> p(c) == p(cs[0]);
        CountNone(cs, p);
      }
    }
  }

  /** When no candidate has a package the first pass decides nothing: for candidates that share a
      bare name the two passes are the file pass, whatever their number. */
  lemma TwoPassIsFilePass(symbols: seq<Symbol>, packageOf: PackageOf, imports: seq<string>, callerFile: string)
    requires forall s :: s in symbols ==> packageOf(s.file) == None
    requires forall s, t :: s in symbols && t in symbols ==> BareName(s.qn) == BareName(t.qn)
    ensures ResolveTwoPass(symbols, packageOf, imports, callerFile) == FilePass(symbols, packageOf, imports, callerFile)
  {
    var keyed := PackageKeyed(symbols, packageOf);
    var ctx := Context(imports, "", None);
    if |symbols| >= 2 {
      forall c, d | c in keyed && d in keyed ensures c.qualifiedName == d.qualifiedName {
        assert c.target in symbols && d.target in symbols;
      }
      SameForAll(keyed, Tier(ImportMatch, ctx));
      SameForAll(keyed, Tier(SameFileUnique, ctx));
    }
  }

  lemma {:induction false} CountKeyed(symbols: seq<Symbol>, key: Symbol -> string,
                                      p: Candidate<Symbol> -> bool, q: Symbol -> bool)
    requires forall s :: s in symbols ==> p(Candidate(s, key(s))) == q(s)
    ensures CountIf(Keyed(symbols, key), p) == CountIf(symbols, q)
  {
    if symbols != [] {
      CountKeyed(symbols[1..], key, p, q);
      assert Keyed(symbols, key)[1..] == Keyed(symbols[1..], key);
    }
  }

  predicate BareMatches(s: Symbol, imports: seq<string>) {
    ImportMatches(BareName(s.qn), imports)
  }

  lemma BareCount(symbols: seq<Symbol>, packageOf: PackageOf, imports: seq<string>)
    requires forall s :: s in symbols ==> packageOf(s.file) == None
    ensures CountIf(PackageKeyed(symbols, packageOf), Tier(ImportMatch, Context(imports, "", None))) ==
            CountIf(symbols, (s: Symbol) => BareMatches(s, imports))
  {
    hide BareName, ImportMatches, CountIf;
    var tier := Tier<Symbol>(ImportMatch, Context(imports, "", None));
    CountKeyed(symbols, s => PackageKey(s, packageOf), tier, (s: Symbol) => BareMatches(s, imports));
  }

  lemma PassDecidesIff(keyed: seq<Candidate<Symbol>>, imports: seq<string>)
    requires |keyed| >= 2
    ensures var ctx := Context(imports, "", None);
            Resolve(keyed, ctx).Resolved? <==> CountIf(keyed, Tier(ImportMatch, ctx)) == 1
  {
    hide ImportMatches, StartsWith, CountIf;
    var ctx := Context(imports, "", None);
    forall c | c in keyed ensures StartsWith(c.qualifiedName, "") { EmptyPrefix(c.qualifiedName); }
    CountAll(keyed, Tier<Symbol>(SameFileUnique, ctx));
  }

  /** When no candidate has a package, the first pass decides among two or more exactly when the
      bare name of exactly one of them matches an import. */
  lemma PackagePassDecidesIff(symbols: seq<Symbol>, packageOf: PackageOf, imports: seq<string>)
    requires |symbols| >= 2 && forall s :: s in symbols ==> packageOf(s.file) == None
    ensures PackagePass(symbols, packageOf, imports).Resolved? <==>
            CountIf(symbols, (s: Symbol) => BareMatches(s, imports)) == 1
  {
    hide BareMatches, ImportMatches, CountIf, Resolve, Tier;
    BareCount(symbols, packageOf, imports);
    PassDecidesIff(PackageKeyed(symbols, packageOf), imports);
  }

  /** The shared bare name is part of that: on candidates with different names, which a lookup by
      name does not produce, the first pass can decide where the file pass does not. */
  lemma SharedNameIsNeeded(packageOf: PackageOf)
    requires forall f :: packageOf(f) == None
    ensures var symbols := [Symbol("x::n", "x"), Symbol("y::m", "y")];
            && PackagePass(symbols, packageOf, ["kn"]) == Resolved(symbols[0], ImportMatch, 90)
            && FilePass(symbols, packageOf, ["kn"], "main") == Ambiguous(symbols)
  {
    var a, b := Symbol("x::n", "x"), Symbol("y::m", "y");
    NamesOfExample();
    ImportsOfExample();
    hide BareName, StripSeqSuffix, ImportMatches, Resolve, StartsWith, PackageKeyed, FileKeyed;
    assert StartsWith("n", "") == StartsWith("m", "") by { EmptyPrefix("n"); EmptyPrefix("m"); }
    PairDecides(Candidate(a, "n"), Candidate(b, "m"), Context(["kn"], "", None));
    PairDecides(Candidate(a, "x::n"), Candidate(b, "y::m"), Context(["kn"], "main", None));
    ExampleKeys(a, b, packageOf);
    assert Targets([Candidate(a, "x::n"), Candidate(b, "y::m")]) == [a, b];
  }

  lemma EmptyPrefix(s: string)
    ensures StartsWith(s, "")
  {
  }

  lemma ExampleKeys(a: Symbol, b: Symbol, packageOf: PackageOf)
    requires forall f :: packageOf(f) == None
    ensures PackageKeyed([a, b], packageOf) == [Candidate(a, BareName(a.qn)), Candidate(b, BareName(b.qn))]
    ensures FileKeyed([a, b]) == [Candidate(a, StripSeqSuffix(a.qn)), Candidate(b, StripSeqSuffix(b.qn))]
  {
    hide BareName, StripSeqSuffix;
    KeyedTwo(a, b, s => PackageKey(s, packageOf));
    KeyedTwo(a, b, (s: Symbol) => StripSeqSuffix(s.qn));
  }

  lemma KeyedTwo(a: Symbol, b: Symbol, key: Symbol -> string)
    ensures Keyed([a, b], key) == [Candidate(a, key(a)), Candidate(b, key(b))]
  {
    assert [a, b][1..] == [b];
  }

  /** Two candidates, of which at most the first matches an import and neither the file. */
  lemma PairDecides(c: Candidate<Symbol>, d: Candidate<Symbol>, ctx: Context)
    requires ctx.callerPackage == None && !ImportMatches(d.qualifiedName, ctx.importsInScope)
    requires StartsWith(c.qualifiedName, ctx.callerFile) == StartsWith(d.qualifiedName, ctx.callerFile)
    ensures Resolve([c, d], ctx) ==
            if ImportMatches(c.qualifiedName, ctx.importsInScope) then Resolved(c, ImportMatch, 90)
            else Ambiguous([c, d])
  {
    hide ImportMatches, StartsWith;
    var cs := [c, d];
    assert cs[1..] == [d] && [d][1..] == [];
    TwoCandidates(c, d, Tier(ImportMatch, ctx));
    TwoCandidates(c, d, Tier(SameFileUnique, ctx));
    if ImportMatches(c.qualifiedName, ctx.importsInScope) {
      UniqueIsTheOne(cs, Tier(ImportMatch, ctx), c);
    }
  }

  lemma NamesOfExample()
    ensures BareName("x::n") == "n" && BareName("y::m") == "m"
    ensures StripSeqSuffix("x::n") == "x::n" && StripSeqSuffix("y::m") == "y::m"
    ensures !StartsWith("x::n", "main") && !StartsWith("y::m", "main")
  {
    hide BareName, StripSeqSuffix, StartsWith;
    LastSegment("x", "n");
    LastSegment("y", "m");
    assert "x" + "::" + "n" == "x::n" && "y" + "::" + "m" == "y::m";
    NoSeqSuffix("x::n");
    NoSeqSuffix("y::m");
  }

  lemma NoSeqSuffix(qn: string)
    requires |qn| == 4 && qn[0] != 'm' && forall i :: 0 <= i < 4 ==> qn[i] != '#'
    ensures StripSeqSuffix(qn) == qn && !StartsWith(qn, "main")
  {
    assert qn[..4] == qn;
  }

  lemma LastSegment(head: string, name: string)
    requires |head| == |name| == 1 && head[0] !in ":#" && name[0] !in ":#"
    ensures BareName(head + "::" + name) == name
  {
    var qn := head + "::" + name;
    assert qn[..3] == head + "::";
    assert AfterColons(qn[..3]) == 3;
    assert qn[3..] == name;
  }

  lemma ImportsOfExample()
    ensures ImportMatches("n", ["kn"]) && !ImportMatches("m", ["kn"])
    ensures !ImportMatches("x::n", ["kn"]) && !ImportMatches("y::m", ["kn"])
  {
    hide ImportMatches, SegmentMatches, EndsWithParts, SlashColons, SlashDots;
    assert "x" + "::" + "n" == "x::n" && "y" + "::" + "m" == "y::m";
    NoColons("kn");
    NoColons("n");
    NoColons("m");
    NoDots("kn");
    OneColon('x', "n");
    OneColon('y', "m");
    OneImport("n", "kn");
    OneImport("m", "kn");
    OneImport("x::n", "kn");
    OneImport("y::m", "kn");
    assert "kn"[1..] == "n" && "kn"[1..][0] != "m"[0];
    assert "x/n"[1..][0] == '/' && "y/m"[1..][0] == '/' && "kn"[0] == 'k';
  }

  lemma {:induction false} NoColons(s: string)
    requires ':' !in s
    ensures SlashColons(s) == s
  {
    if |s| >= 2 {
      NoColons(s[1..]);
    }
  }

  lemma OneColon(c: char, name: string)
    requires c != ':' && ':' !in name && name != ""
    ensures SlashColons([c] + "::" + name) == [c] + "/" + name
  {
    var s := [c] + "::" + name;
    assert s[1..] == "::" + name && s[1..][2..] == name;
    NoColons(name);
    assert SlashColons(s[1..]) == "/" + name;
  }

  lemma NoHashIsKept(qn: string)
    requires '#' !in qn
    ensures StripSeqSuffix(qn) == qn
  {
    assert forall i :: 0 <= i < |qn| ==> qn[i] in qn;
  }

  lemma {:induction false} LastColons(h: string, name: string)
    requires ':' !in name
    ensures AfterColons(h + "::" + name) == |h| + 2
    decreases |name|
  {
    var s := h + "::" + name;
    if name == "" {
      assert s[|s| - 1] == ':' && s[|s| - 2] == ':';
    } else {
      var front := name[..|name| - 1];
      assert s[..|s| - 1] == h + "::" + front && s[|s| - 1] == name[|name| - 1];
      LastColons(h, front);
    }
  }

  /** The bare name is what stands after the last `::`. */
  lemma BareNameOf(h: string, name: string)
    requires ':' !in name && '#' !in name
    ensures BareName(h + "::" + name) == name
  {
    LastColons(h, name);
    assert (h + "::" + name)[|h| + 2..] == name;
    NoHashIsKept(name);
  }

  lemma BareNameUnder(prefix: Option<string>, h: string, name: string)
    requires ':' !in name && '#' !in name
    ensures BareName(Under(prefix, h + "::" + name)) == name
  {
    hide BareName;
    BareNameOf(h, name);
    if prefix.Some? {
      BareNameOf(prefix.value + "::" + h, name);
      assert prefix.value + "::" + (h + "::" + name) == (prefix.value + "::" + h) + "::" + name;
    }
  }

  /** A call of an imported name `m::name` stays ambiguous in both passes when another candidate
      has that name with text before it, as `src/a.rs::ab::new` has `b::new`. */
  lemma LongerNameLeavesCallAmbiguous(p: Option<string>, r: Option<string>, m: string, name: string, extra: string,
                                      imp: string, f: string, g: string, packageOf: PackageOf, callerFile: string)
    requires WholePrefix(p) && WholePrefix(r) && ':' !in extra && extra != "" && extra[|extra| - 1] != '/'
    requires ':' !in name && ImportPath(imp) == SlashColons(m + "::" + name)
    requires packageOf(f) == None && packageOf(g) == None && packageOf(callerFile) == None
    requires var a, b := Under(p, extra + (m + "::" + name)), Under(r, m + "::" + name);
             && '#' !in a && '#' !in b && '#' !in name
             && !StartsWith(a, callerFile) && !StartsWith(b, callerFile)
    ensures var symbols := [Symbol(Under(p, extra + (m + "::" + name)), f), Symbol(Under(r, m + "::" + name), g)];
            ResolveTwoPass(symbols, packageOf, [imp], callerFile) == Ambiguous(symbols)
  {
    hide BareName, StripSeqSuffix, ImportMatches, SegmentMatches, StartsWith, CountIf, Under, ImportPath, SlashColons;
    var q := m + "::" + name;
    var a, b := Symbol(Under(p, extra + q), f), Symbol(Under(r, q), g);
    var ctx := Context([imp], callerFile, None);
    assert extra + q == (extra + m) + "::" + name;
    BareNameUnder(p, extra + m, name);
    BareNameUnder(r, m, name);
    TwoPassIsFilePass([a, b], packageOf, [imp], callerFile);
    NoHashIsKept(a.qn);
    NoHashIsKept(b.qn);
    KeyedTwo(a, b, (s: Symbol) => StripSeqSuffix(s.qn));
    var c, d := Candidate(a, a.qn), Candidate(b, b.qn);
    assert FileKeyed([a, b]) == [c, d];
    LongerNameTies(a, b, p, r, q, extra, imp, ctx);
    TwoCandidates(c, d, Tier<Symbol>(SameFileUnique, ctx));
    assert Resolve([c, d], ctx) == Ambiguous([c, d]);
    assert Targets([c, d]) == [a, b];
  }

  lemma ImportedNewStaysAmbiguous(packageOf: PackageOf)
    requires packageOf("src/a.rs") == None && packageOf("src/b.rs") == None && packageOf("src/main.rs") == None
    ensures var symbols := [Symbol("src/a.rs::ab::new", "src/a.rs"), Symbol("src/b.rs::b::new", "src/b.rs")];
            ResolveTwoPass(symbols, packageOf, ["b::new"], "src/main.rs") == Ambiguous(symbols)
  {
    hide ResolveTwoPass, SlashColons, ImportPath;
    var p, r := Some("src/a.rs"), Some("src/b.rs");
    assert "b" + "::" + "new" == "b::new";
    PlainImport("b::new");
    var a, b := "src/a.rs::ab::new", "src/b.rs::b::new";
    assert Under(p, "a" + "b::new") == a && Under(r, "b::new") == b;
    assert |a| > 4 && a[4] == 'a' && b[4] == 'b' && "src/main.rs"[4] == 'm';
    OtherFile(a, "src/main.rs");
    OtherFile(b, "src/main.rs");
    LongerNameLeavesCallAmbiguous(p, r, "b", "new", "a", "b::new", "src/a.rs", "src/b.rs", packageOf, "src/main.rs");
  }

  lemma OtherFile(qn: string, file: string)
    requires |qn| > 4 && |file| > 4 && qn[4] != file[4]
    ensures !StartsWith(qn, file)
  {
    if |file| <= |qn| { assert qn[..|file|][4] == qn[4]; }
  }

  // ----- what the two passes decide, spelled out -----

  /** The name of a symbol inside its package, if its file has one. */
  function PackageName(s: Symbol, packageOf: PackageOf): string {
    if packageOf(s.file).Some? then packageOf(s.file).value + "::" + BareName(s.qn) else BareName(s.qn)
  }

  predicate NameMatches(name: string, imports: seq<string>) {
    exists i :: 0 <= i < |imports| &&
      (EndsWith(SlashColons(name), ImportPath(imports[i])) || EndsWith(ImportPath(imports[i]), SlashColons(name)))
  }

  /** Symbol `k` is the only one whose name inside its package matches an import. */
  ghost predicate OnlyImported(symbols: seq<Symbol>, packageOf: PackageOf, imports: seq<string>, k: int) {
    && 0 <= k < |symbols| && NameMatches(PackageName(symbols[k], packageOf), imports)
    && forall j :: 0 <= j < |symbols| && j != k ==> !NameMatches(PackageName(symbols[j], packageOf), imports)
  }

  ghost predicate SomeImported(symbols: seq<Symbol>, packageOf: PackageOf, imports: seq<string>) {
    exists k :: OnlyImported(symbols, packageOf, imports, k)
  }

  /** The candidates under the names they are stored under, without their disambiguators. */
  ghost predicate Stored(cs: seq<Candidate<Symbol>>, symbols: seq<Symbol>) {
    |cs| == |symbols| && forall i :: 0 <= i < |cs| ==> cs[i] == Candidate(symbols[i], StripSeqSuffix(symbols[i].qn))
  }

  lemma PackagedIff(symbols: seq<Symbol>, packageOf: PackageOf, imports: seq<string>, k: int)
    ensures OnlyOne(ImportMatch, PackageKeyed(symbols, packageOf), Context(imports, "", None), k) <==>
            OnlyImported(symbols, packageOf, imports, k)
  {
    hide BareName, SlashColons, ImportPath, EndsWith;
    var keyed, ctx := PackageKeyed(symbols, packageOf), Context(imports, "", None);
    forall j | 0 <= j < |symbols|
      ensures Speaks(ImportMatch, keyed[j], ctx) <==> NameMatches(PackageName(symbols[j], packageOf), imports)
    {
    }
  }

  /** No file and no package speak in the first pass. */
  lemma NothingElseSpeaks(cs: seq<Candidate<Symbol>>, imports: seq<string>, k: int)
    requires |cs| >= 2
    ensures var ctx := Context(imports, "", None);
            !OnlyOne(UniqueGlobal, cs, ctx, k) && !OnlyOne(SameFileUnique, cs, ctx, k)
            && !OnlyOne(PackageProximity, cs, ctx, k)
  {
    var ctx := Context(imports, "", None);
    var j := if k == 0 then 1 else 0;
    EmptyPrefix(cs[j].qualifiedName);
    assert Speaks(UniqueGlobal, cs[j], ctx) && Speaks(SameFileUnique, cs[j], ctx);
  }

  /** Among two or more, the first pass resolves to a symbol exactly when it is the only one whose
      name inside its package matches an import. */
  lemma PackagePassIff(symbols: seq<Symbol>, packageOf: PackageOf, imports: seq<string>, k: nat)
    requires |symbols| >= 2 && k < |symbols|
    ensures PackagePass(symbols, packageOf, imports).Resolved? <==> SomeImported(symbols, packageOf, imports)
    ensures OnlyImported(symbols, packageOf, imports, k) ==>
              PackagePass(symbols, packageOf, imports) == Resolved(symbols[k], ImportMatch, 90)
  {
    hide Resolve, Speaks, OnlyOne, OnlyImported, PackageKeyed, TiersBefore;
    var keyed, ctx := PackageKeyed(symbols, packageOf), Context(imports, "", None);
    KeyedTargets(symbols, packageOf);
    forall j ensures !OnlyOne(UniqueGlobal, keyed, ctx, j) && !OnlyOne(SameFileUnique, keyed, ctx, j)
                     && !OnlyOne(PackageProximity, keyed, ctx, j)
    {
      NothingElseSpeaks(keyed, imports, j);
    }
    forall j ensures OnlyOne(ImportMatch, keyed, ctx, j) <==> OnlyImported(symbols, packageOf, imports, j) {
      PackagedIff(symbols, packageOf, imports, j);
    }
    OnlyBefore();
    if SomeImported(symbols, packageOf, imports) {
      var j :| OnlyImported(symbols, packageOf, imports, j);
      ImportedIsIndex(symbols, packageOf, imports, j);
      ResolvedIff(keyed, ctx, j, ImportMatch);
      if OnlyImported(symbols, packageOf, imports, k) { ResolvedIff(keyed, ctx, k, ImportMatch); }
    } else {
      forall e: Evidence ensures !SomeOnly(e, keyed, ctx) {
        match e case ImportMatch => case UniqueGlobal => case SameFileUnique => case PackageProximity =>
      }
      AmbiguousIff(keyed, ctx);
    }
  }

  lemma OnlyBefore()
    ensures TiersBefore(ImportMatch) == {UniqueGlobal}
  {
  }

  lemma ImportedIsIndex(symbols: seq<Symbol>, packageOf: PackageOf, imports: seq<string>, k: int)
    requires OnlyImported(symbols, packageOf, imports, k)
    ensures 0 <= k < |symbols|
  {
  }

  lemma KeyedTargets(symbols: seq<Symbol>, packageOf: PackageOf)
    ensures |PackageKeyed(symbols, packageOf)| == |symbols|
    ensures forall i :: 0 <= i < |symbols| ==> PackageKeyed(symbols, packageOf)[i].target == symbols[i]
  {
  }

  /** The two passes together: the only symbol whose name inside its package matches an import; if
      there is none, whatever the policy says of the stored names with all the evidence. */
  lemma TwoPassIff(symbols: seq<Symbol>, packageOf: PackageOf, imports: seq<string>, callerFile: string,
                   cs: seq<Candidate<Symbol>>, k: nat, e: Evidence)
    requires |symbols| >= 2 && k < |symbols| && Stored(cs, symbols)
    ensures var r := ResolveTwoPass(symbols, packageOf, imports, callerFile);
            && (OnlyImported(symbols, packageOf, imports, k) ==> r == Resolved(symbols[k], ImportMatch, 90))
            && (!SomeImported(symbols, packageOf, imports) ==>
                  var ctx := Context(imports, callerFile, packageOf(callerFile));
                  && (OnlyOne(e, cs, ctx, k) && (forall f :: f in TiersBefore(e) ==> !SomeOnly(f, cs, ctx)) ==>
                        r == Resolved(symbols[k], e, Worth(e)))
                  && ((forall f :: !SomeOnly(f, cs, ctx)) ==> r == Ambiguous(symbols)))
  {
    hide Resolve, Speaks, OnlyOne, SomeOnly, OnlyImported, SomeImported, PackagePass, TiersBefore, StripSeqSuffix;
    PackagePassIff(symbols, packageOf, imports, k);
    var ctx := Context(imports, callerFile, packageOf(callerFile));
    assert cs == FileKeyed(symbols);
    ResolvedIff(cs, ctx, k, e);
    AmbiguousIff(cs, ctx);
    assert Targets(cs) == symbols;
    if OnlyImported(symbols, packageOf, imports, k) { IsSome(symbols, packageOf, imports, k); }
  }

  lemma IsSome(symbols: seq<Symbol>, packageOf: PackageOf, imports: seq<string>, k: int)
    requires OnlyImported(symbols, packageOf, imports, k)
    ensures SomeImported(symbols, packageOf, imports)
  {
  }

  /** A single candidate is the answer whatever it is called. */
  lemma OneCandidateIsIt(s: Symbol, packageOf: PackageOf, imports: seq<string>, callerFile: string)
    ensures ResolveTwoPass([s], packageOf, imports, callerFile) == Resolved(s, UniqueGlobal, 95)
    ensures ResolveTwoPass([], packageOf, imports, callerFile) == NotFound
  {
  }

  /** One name in two packages, one of them imported: the call is that package's. */
  lemma ImportOfOnePackageResolves(a: Symbol, b: Symbol, p: string, q: string, name: string, imp: string,
                                   packageOf: PackageOf, callerFile: string)
    requires packageOf(a.file) == Some(p) && packageOf(b.file) == Some(q)
    requires BareName(a.qn) == name && BareName(b.qn) == name && WholePrefix(Some(p)) && WholePrefix(Some(q))
    requires var x, y := SlashColons(p) + "/" + SlashColons(name), SlashColons(q) + "/" + SlashColons(name);
             ImportPath(imp) == y && !EndsWith(x, y) && !EndsWith(y, x)
    ensures ResolveTwoPass([a, b], packageOf, [imp], callerFile) == Resolved(b, ImportMatch, 90)
  {
    hide BareName, SlashColons, ImportPath, EndsWith, ResolveTwoPass;
    var symbols := [a, b];
    SlashesJoin(p, name);
    SlashesJoin(q, name);
    var y := SlashColons(q) + "/" + SlashColons(name);
    assert EndsWith(y, y) by { Whole(y); }
    assert [imp][0] == imp;
    assert NameMatches(PackageName(b, packageOf), [imp]) && !NameMatches(PackageName(a, packageOf), [imp]);
    assert OnlyImported(symbols, packageOf, [imp], 1);
    var cs := FileKeyed(symbols);
    TwoPassIff(symbols, packageOf, [imp], callerFile, cs, 1, ImportMatch);
  }

  lemma Whole(s: string)
    ensures EndsWith(s, s)
  {
    assert s[0..] == s;
  }

  lemma SeqBareName(h: string, name: string, digits: string)
    requires ':' !in name && ':' !in digits && digits != "" && AllDigits(digits)
    ensures BareName(h + "::" + (name + "#" + digits)) == name
  {
    var last := name + "#" + digits;
    assert ':' !in last;
    LastColons(h, last);
    assert (h + "::" + last)[|h| + 2..] == last;
    StripSeqSuffixIsExact(last, name, digits);
  }

  /** Kotlin's `package_of`: the directory of a file. */
  function KotlinPackage(file: string): Option<string> {
    var n := AfterLast(file, '/');
    if n <= 1 then None else Some(file[..n - 1])
  }

  lemma DirectoryIsPackage(dir: string, name: string)
    requires dir != "" && '/' !in name
    ensures KotlinPackage(dir + "/" + name) == Some(dir)
  {
    var file := dir + "/" + name;
    assert file[|dir|] == '/' && forall i :: |dir| < i < |file| ==> file[i] == name[i - |dir| - 1];
    assert AfterLast(file, '/') == |dir| + 1;
    assert file[..|dir|] == dir;
  }

  lemma DottedPath(a: string, b: string, c: string)
    requires '.' !in a && '.' !in b && '.' !in c && ':' !in a && ':' !in b && ':' !in c
    ensures ImportPath(a + "." + (b + "." + c)) == a + "/" + (b + "/" + c)
  {
    hide SlashDots, SlashColons;
    NoColonsHere(a + "." + (b + "." + c));
    DotsAreSlashes(a, b + "." + c);
    DotsAreSlashes(b, c);
    NoDots(a);
    NoDots(b);
    NoDots(c);
  }

  lemma DottedImport()
    ensures ImportPath("pkg.b.process") == "pkg/b/process"
  {
    hide ImportPath;
    DottedPath("pkg", "b", "process");
    assert "pkg" + "." + ("b" + "." + "process") == "pkg.b.process";
    assert "pkg" + "/" + ("b" + "/" + "process") == "pkg/b/process";
  }

  lemma NoColonsHere(s: string)
    requires ':' !in s
    ensures SlashColons(s) == s
  {
    NoColons(s);
  }

  /** Two functions `process` in two directories, one named by a dotted import. */
  lemma KotlinImportResolves()
    ensures var a := Symbol("pkg/a/File.kt::process#1", "pkg/a/File.kt");
            var b := Symbol("pkg/b/File.kt::process#2", "pkg/b/File.kt");
            ResolveTwoPass([a, b], KotlinPackage, ["pkg.b.process"], "pkg/c/Caller.kt") == Resolved(b, ImportMatch, 90)
  {
    hide BareName, SlashColons, ImportPath, EndsWith, ResolveTwoPass, KotlinPackage, AllDigits;
    var a := Symbol("pkg/a/File.kt::process#1", "pkg/a/File.kt");
    var b := Symbol("pkg/b/File.kt::process#2", "pkg/b/File.kt");
    Digits();
    SeqBareName("pkg/a/File.kt", "process", "1");
    SeqBareName("pkg/b/File.kt", "process", "2");
    assert "pkg/a/File.kt" + "::" + ("process" + "#" + "1") == a.qn;
    assert "pkg/b/File.kt" + "::" + ("process" + "#" + "2") == b.qn;
    DirectoryIsPackage("pkg/a", "File.kt");
    DirectoryIsPackage("pkg/b", "File.kt");
    assert "pkg/a" + "/" + "File.kt" == a.file && "pkg/b" + "/" + "File.kt" == b.file;
    NoColonsHere("pkg/a");
    NoColonsHere("pkg/b");
    NoColonsHere("process");
    DottedImport();
    var x, y := "pkg/a" + "/" + "process", "pkg/b" + "/" + "process";
    assert y == "pkg/b/process" && x[4] == 'a' && y[4] == 'b' && |x| == |y|;
    SameLength(x, y);
    ImportOfOnePackageResolves(a, b, "pkg/a", "pkg/b", "process", "pkg.b.process", KotlinPackage, "pkg/c/Caller.kt");
  }

  lemma Digits()
    ensures AllDigits("1") && AllDigits("2")
  {
  }

  lemma SameLength(x: string, y: string)
    requires |x| == |y| && x != y
    ensures !EndsWith(x, y) && !EndsWith(y, x)
  {
    assert x[0..] == x && y[0..] == y;
  }

  /** Whatever the language, a resolved target is one of the candidates. */
  lemma TargetIsACandidate(symbols: seq<Symbol>, packageOf: PackageOf, imports: seq<string>, callerFile: string)
    ensures var r := ResolveTwoPass(symbols, packageOf, imports, callerFile);
            && (r.Resolved? ==> r.target in symbols)
            && (r.Ambiguous? ==> r.candidates == symbols && |symbols| >= 2)
            && (r.NotFound? <==> symbols == [])
  {
    var keyed := PackageKeyed(symbols, packageOf);
    var named := FileKeyed(symbols);
    var e := UniqueGlobal;
    StrongestTierWins(keyed, Context(imports, "", None), e);
    StrongestTierWins(named, Context(imports, callerFile, packageOf(callerFile)), e);
    assert forall c :: c in keyed ==> c.target in symbols;
    assert forall c :: c in named ==> c.target in symbols;
    assert Targets(named) == symbols;
  }

  lemma {:induction false} KeyedIgnoresOrder(a: seq<Symbol>, b: seq<Symbol>, key: Symbol -> string)
    requires multiset(a) == multiset(b)
    ensures multiset(Keyed(a, key)) == multiset(Keyed(b, key))
  {
    KeyedMultiset(a, key);
    KeyedMultiset(b, key);
    forall c ensures multiset(Keyed(a, key))[c] == multiset(Keyed(b, key))[c] {
    }
  }

  lemma {:induction false} KeyedMultiset(a: seq<Symbol>, key: Symbol -> string)
    ensures forall c :: multiset(Keyed(a, key))[c] ==
                        if c.qualifiedName == key(c.target) then multiset(a)[c.target] else 0
  {
    if a != [] {
      KeyedMultiset(a[1..], key);
      assert a == [a[0]] + a[1..];
    }
  }

  /** The outcome does not depend on the order of the candidates. */
  lemma TwoPassIgnoresOrder(a: seq<Symbol>, b: seq<Symbol>,
                            packageOf: PackageOf, imports: seq<string>, callerFile: string)
    requires multiset(a) == multiset(b)
    ensures Same(ResolveTwoPass(a, packageOf, imports, callerFile), ResolveTwoPass(b, packageOf, imports, callerFile))
  {
    KeyedIgnoresOrder(a, b, s => PackageKey(s, packageOf));
    KeyedIgnoresOrder(a, b, (s: Symbol) => StripSeqSuffix(s.qn));
    ResolveIgnoresOrder(PackageKeyed(a, packageOf), PackageKeyed(b, packageOf), Context(imports, "", None));
    ResolveIgnoresOrder(FileKeyed(a), FileKeyed(b), Context(imports, callerFile, packageOf(callerFile)));
    TargetIsACandidate(a, packageOf, imports, callerFile);
    TargetIsACandidate(b, packageOf, imports, callerFile);
  }
}
