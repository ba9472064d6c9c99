/** Temporal-coupling mining (src/cochange.rs): commits are folded into per-file and per-pair
    aggregates, from which the thresholded edges are derived again each time. */
module Cochange {
  import opened Options
  import opened Text

  type File = string

  datatype Commit = Commit(files: seq<File>, ts: int)

  datatype PairAgg = PairAgg(count: int, lastTs: int)

  datatype Aggregates = Aggregates(fileChanges: map<File, int>, pairs: map<string, PairAgg>)

  const EMPTY := Aggregates(map[], map[])

  const MAX_FILES_PER_COMMIT: nat := 20
  const MIN_COCHANGE: int := 3

  // ----- pair keys -----

  const SEPARATOR: char := '\U{1F}'

  predicate Clean(f: File) {
    SEPARATOR !in f
  }

  function Order(a: File, b: File): (File, File) {
    if LexLess(b, a) then (b, a) else (a, b)
  }

  function PairKey(a: File, b: File): string {
    a + [SEPARATOR] + b
  }

  function KeyOf(a: File, b: File): string {
    var (x, y) := Order(a, b);
    PairKey(x, y)
  }

  /** The text up to the first separator, and the rest after it. */
  function Cut(s: string): Option<(string, string)> {
    if s == "" then None
    else if s[0] == SEPARATOR then Some(("", s[1..]))
    else match Cut(s[1..])
      case None => None
      case Some((head, rest)) => Some(([s[0]] + head, rest))
  }

  /** `split_key`: the first two fields. */
  function SplitKey(key: string): Option<(File, File)> {
    match Cut(key)
    case None => None
    case Some((a, rest)) =>
      match Cut(rest)
      case None => Some((a, rest))
      case Some((b, _)) => Some((a, b))
  }

  lemma {:induction false} CutAtSeparator(a: string, rest: string)
    requires Clean(a)
    ensures Cut(a + [SEPARATOR] + rest) == Some((a, rest))
    ensures Cut(a) == None
  {
    var s := a + [SEPARATOR] + rest;
    if a == "" {
      assert s[1..] == rest;
    } else {
      assert s[1..] == a[1..] + [SEPARATOR] + rest;
      assert a == [a[0]] + a[1..];
      CutAtSeparator(a[1..], rest);
    }
  }

  /** Splitting a key gives back the two paths it was made of. */
  lemma KeyRoundTrip(a: File, b: File)
    requires Clean(a) && Clean(b)
    ensures SplitKey(PairKey(a, b)) == Some((a, b))
  {
    CutAtSeparator(a, b);
    CutAtSeparator(b, "");
  }

  lemma OrderIsSymmetric(a: File, b: File)
    ensures KeyOf(a, b) == KeyOf(b, a)
    ensures var (x, y) := Order(a, b); (x == a && y == b) || (x == b && y == a)
  {
    LexTotal(a, b);
  }

  /** Two unordered pairs of paths share a key only if they are the same pair. */
  lemma KeyIsInjective(a: File, b: File, c: File, d: File)
    requires Clean(a) && Clean(b) && Clean(c) && Clean(d)
    requires KeyOf(a, b) == KeyOf(c, d)
    ensures (a == c && b == d) || (a == d && b == c)
  {
    OrderIsSymmetric(a, b);
    OrderIsSymmetric(c, d);
    KeyRoundTrip(Order(a, b).0, Order(a, b).1);
    KeyRoundTrip(Order(c, d).0, Order(c, d).1);
  }

  // ----- one commit -----

  ghost predicate Distinct(files: seq<File>) {
    forall i, j :: 0 <= i < j < |files| ==> files[i] != files[j]
  }

  predicate CountsFiles(c: Commit) {
    1 <= |c.files| <= MAX_FILES_PER_COMMIT
  }

  predicate CountsPairs(c: Commit) {
    2 <= |c.files| <= MAX_FILES_PER_COMMIT
  }

  function Changes(m: map<File, int>, f: File): int {
    if f in m then m[f] else 0
  }

  function Agg(m: map<string, PairAgg>, k: string): PairAgg {
    if k in m then m[k] else PairAgg(0, 0)
  }

  function Bump(agg: PairAgg, ts: int): PairAgg {
    PairAgg(agg.count + 1, if ts > agg.lastTs then ts else agg.lastTs)
  }

  function BumpFiles(m: map<File, int>, fs: set<File>): map<File, int> {
    map f | f in m.Keys + fs :: Changes(m, f) + (if f in fs then 1 else 0)
  }

  function BumpPairs(m: map<string, PairAgg>, ks: set<string>, ts: int): map<string, PairAgg> {
    map k | k in m.Keys + ks :: if k in ks then Bump(Agg(m, k), ts) else m[k]
  }

  function FileSet(files: seq<File>): set<File> {
    set f | f in files
  }

  function PairKeys(files: seq<File>): set<string> {
    set i, j | 0 <= i < |files| && i < j < |files| :: KeyOf(files[i], files[j])
  }

  /** What one commit adds to the aggregates. */
  function AddCommit(s: Aggregates, c: Commit): Aggregates {
    Aggregates(
      if CountsFiles(c) then BumpFiles(s.fileChanges, FileSet(c.files)) else s.fileChanges,
      if CountsPairs(c) then BumpPairs(s.pairs, PairKeys(c.files), c.ts) else s.pairs)
  }

  function Fold(s: Aggregates, commits: seq<Commit>): Aggregates
    decreases |commits|
  {
    if commits == [] then s else Fold(AddCommit(s, commits[0]), commits[1..])
  }

  // ----- the loops -----

  class CochangeState {
    var fileChanges: map<File, int>
    var pairs: map<string, PairAgg>

    ghost function View(): Aggregates
      reads this
    {
      Aggregates(fileChanges, pairs)
    }

    constructor ()
      ensures View() == EMPTY
    {
      fileChanges, pairs := map[], map[];
    }

    method AddFiles(files: seq<File>)
      requires Distinct(files)
      modifies this`fileChanges
      ensures fileChanges == BumpFiles(old(fileChanges), FileSet(files))
    {
      for n := 0 to |files|
        invariant fileChanges == BumpFiles(old(fileChanges), FileSet(files[..n]))
      {
        var f := files[n];
        assert FileSet(files[..n + 1]) == FileSet(files[..n]) + {f};
        assert f !in FileSet(files[..n]);
        fileChanges := fileChanges[f := Changes(fileChanges, f) + 1];
      }
      assert files[..|files|] == files;
    }

    method AddPairs(files: seq<File>, ts: int)
      requires Distinct(files) && forall f :: f in files ==> Clean(f)
      modifies this`pairs
      ensures pairs == BumpPairs(old(pairs), PairKeys(files), ts)
    {
      ghost var seen: set<string> := {};
      for i := 0 to |files|
        invariant seen == KeysBefore(files, i, 0)
        invariant pairs == BumpPairs(old(pairs), seen, ts)
      {
        for j := i + 1 to |files|
          invariant seen == KeysBefore(files, i, j)
          invariant pairs == BumpPairs(old(pairs), seen, ts)
        {
          var key := KeyOf(files[i], files[j]);
          NewKey(files, i, j);
          BumpOneMore(old(pairs), seen, key, ts);
          pairs := pairs[key := Bump(Agg(pairs, key), ts)];
          seen := seen + {key};
        }
        assert KeysBefore(files, i, |files|) == KeysBefore(files, i + 1, 0);
      }
      assert seen == PairKeys(files);
    }

    /** `accumulate`. */
    method Accumulate(commits: seq<Commit>)
      requires forall c :: c in commits ==> Distinct(c.files) && forall f :: f in c.files ==> Clean(f)
      modifies this
      ensures View() == Fold(old(View()), commits)
    {
      for n := 0 to |commits|
        invariant Fold(old(View()), commits) == Fold(View(), commits[n..])
      {
        var c := commits[n];
        assert commits[n..][1..] == commits[n + 1..];
        ghost var before := View();
        if |c.files| > MAX_FILES_PER_COMMIT || |c.files| < 2 {
          if |c.files| == 1 {
            fileChanges := fileChanges[c.files[0] := Changes(fileChanges, c.files[0]) + 1];
            assert FileSet(c.files) == {c.files[0]};
          }
          assert View() == AddCommit(before, c);
          continue;
        }
        AddFiles(c.files);
        AddPairs(c.files, c.ts);
        assert View() == AddCommit(before, c);
      }
    }
  }

  /** The keys of the pairs visited before index pair `(i, j)`. */
  ghost function KeysBefore(files: seq<File>, i: int, j: int): set<string> {
    set x, y | 0 <= x < |files| && x < y < |files| && (x < i || (x == i && y < j)) :: KeyOf(files[x], files[y])
  }

  lemma NewKey(files: seq<File>, i: int, j: int)
    requires 0 <= i < j < |files| && Distinct(files) && forall f :: f in files ==> Clean(f)
    ensures KeyOf(files[i], files[j]) !in KeysBefore(files, i, j)
    ensures KeysBefore(files, i, j + 1) == KeysBefore(files, i, j) + {KeyOf(files[i], files[j])}
  {
    forall x, y | 0 <= x < y < |files| && (x < i || (x == i && y < j))
      ensures KeyOf(files[x], files[y]) != KeyOf(files[i], files[j])
    {
      if KeyOf(files[x], files[y]) == KeyOf(files[i], files[j]) {
        KeyIsInjective(files[x], files[y], files[i], files[j]);
      }
    }
  }

  lemma BumpOneMore(m: map<string, PairAgg>, ks: set<string>, k: string, ts: int)
    requires k !in ks
    ensures var b := BumpPairs(m, ks, ts);
            BumpPairs(m, ks + {k}, ts) == b[k := Bump(Agg(b, k), ts)]
  {
  }

  // ----- chunks and order of commits -----

  /** Mining in chunks is mining the concatenation, so an incremental pass that extends the
      aggregates of a prior run agrees with a full pass over the whole history. */
  lemma {:induction false} FoldConcat(s: Aggregates, x: seq<Commit>, y: seq<Commit>)
    ensures Fold(s, x + y) == Fold(Fold(s, x), y)
    decreases |x|
  {
    hide AddCommit;
    if x == [] {
      assert x + y == y;
    } else {
      assert (x + y)[1..] == x[1..] + y;
      FoldConcat(AddCommit(s, x[0]), x[1..], y);
    }
  }

  lemma CommitsCommute(s: Aggregates, c: Commit, d: Commit)
    ensures AddCommit(AddCommit(s, c), d) == AddCommit(AddCommit(s, d), c)
  {
    var f, g := FileSet(c.files), FileSet(d.files);
    assert BumpFiles(BumpFiles(s.fileChanges, f), g) == BumpFiles(BumpFiles(s.fileChanges, g), f);
    var p, q := PairKeys(c.files), PairKeys(d.files);
    PairBumpsCommute(s.pairs, p, q, c.ts, d.ts);
  }

  lemma PairBumpsCommute(m: map<string, PairAgg>, p: set<string>, q: set<string>, t: int, u: int)
    ensures BumpPairs(BumpPairs(m, p, t), q, u) == BumpPairs(BumpPairs(m, q, u), p, t)
  {
    var a, b := BumpPairs(BumpPairs(m, p, t), q, u), BumpPairs(BumpPairs(m, q, u), p, t);
    assert a.Keys == b.Keys;
    forall k | k in a ensures a[k] == b[k] {
    }
  }

  lemma {:induction false} MoveToFront(s: Aggregates, x: seq<Commit>, c: Commit, y: seq<Commit>)
    ensures Fold(s, x + [c] + y) == Fold(s, [c] + (x + y))
    decreases |x|
  {
    hide AddCommit;
    if x == [] {
      assert x + [c] + y == [c] + (x + y);
    } else {
      var d := x[0];
      assert (x + [c] + y)[1..] == x[1..] + [c] + y;
      MoveToFront(AddCommit(s, d), x[1..], c, y);
      assert ([c] + (x[1..] + y))[1..] == x[1..] + y;
      assert ([c] + (x + y))[1..] == x + y && (x + y)[1..] == x[1..] + y;
      CommitsCommute(s, d, c);
    }
  }

  lemma TakeCommit(commits: seq<Commit>, c: Commit) returns (rest: seq<Commit>)
    requires c in multiset(commits)
    ensures forall s :: Fold(s, commits) == Fold(AddCommit(s, c), rest)
    ensures multiset(commits) == multiset{c} + multiset(rest)
    ensures |rest| < |commits|
  {
    hide AddCommit;
    var i :| 0 <= i < |commits| && commits[i] == c;
    var x, y := commits[..i], commits[i + 1..];
    assert commits == x + [c] + y;
    rest := x + y;
    forall s ensures Fold(s, commits) == Fold(AddCommit(s, c), rest) {
      MoveToFront(s, x, c, y);
      assert ([c] + rest)[1..] == rest;
    }
  }

  /** The order of the commits does not matter. */
  lemma {:induction false} FoldIgnoresOrder(s: Aggregates, a: seq<Commit>, b: seq<Commit>)
    requires multiset(a) == multiset(b)
    ensures Fold(s, a) == Fold(s, b)
    decreases |a|
  {
    hide AddCommit;
    if a == [] {
      assert |b| == |multiset(b)| == 0;
    } else {
      var c := a[0];
      assert c in multiset(a);
      var tail := TakeCommit(a, c);
      var rest := TakeCommit(b, c);
      assert multiset(tail) == (multiset{c} + multiset(tail)) - multiset{c};
      assert multiset(rest) == (multiset{c} + multiset(rest)) - multiset{c};
      FoldIgnoresOrder(AddCommit(s, c), tail, rest);
    }
  }

  // ----- the closed form -----

  /** Commits of 1 to 20 files that contain `f`. */
  function FileCount(commits: seq<Commit>, f: File): nat {
    if commits == [] then 0
    else (if 1 <= |commits[0].files| <= 20 && f in commits[0].files then 1 else 0) + FileCount(commits[1..], f)
  }

  predicate Together(c: Commit, a: File, b: File) {
    2 <= |c.files| <= 20 && a in c.files && b in c.files
  }

  /** Commits of 2 to 20 files that contain both. */
  function PairCount(commits: seq<Commit>, a: File, b: File): nat {
    if commits == [] then 0
    else (if Together(commits[0], a, b) then 1 else 0) + PairCount(commits[1..], a, b)
  }

  /** The latest time of those commits, at least `floor`. */
  function Latest(commits: seq<Commit>, a: File, b: File, floor: int): int {
    if commits == [] then floor
    else
      var later := Together(commits[0], a, b) && commits[0].ts > floor;
      Latest(commits[1..], a, b, if later then commits[0].ts else floor)
  }

  ghost predicate CleanCommits(commits: seq<Commit>) {
    forall c :: c in commits ==> forall f :: f in c.files ==> Clean(f)
  }

  lemma KeyOfCommit(c: Commit, a: File, b: File)
    requires a != b && Clean(a) && Clean(b) && forall f :: f in c.files ==> Clean(f)
    ensures KeyOf(a, b) in PairKeys(c.files) <==> a in c.files && b in c.files
  {
    if a in c.files && b in c.files {
      var i :| 0 <= i < |c.files| && c.files[i] == a;
      var j :| 0 <= j < |c.files| && c.files[j] == b;
      OrderIsSymmetric(a, b);
      if i < j {
        assert KeyOf(c.files[i], c.files[j]) in PairKeys(c.files);
      } else {
        assert KeyOf(c.files[j], c.files[i]) in PairKeys(c.files);
      }
    }
    if KeyOf(a, b) in PairKeys(c.files) {
      var i, j :| 0 <= i < |c.files| && i < j < |c.files| && KeyOf(c.files[i], c.files[j]) == KeyOf(a, b);
      KeyIsInjective(c.files[i], c.files[j], a, b);
    }
  }

  lemma {:induction false} FilesInClosedForm(s: Aggregates, commits: seq<Commit>, f: File)
    ensures var m := Fold(s, commits).fileChanges;
            && Changes(m, f) == Changes(s.fileChanges, f) + FileCount(commits, f)
            && (f in m <==> f in s.fileChanges || FileCount(commits, f) > 0)
    decreases |commits|
  {
    if commits != [] {
      FilesInClosedForm(AddCommit(s, commits[0]), commits[1..], f);
    }
  }

  lemma {:induction false} PairsInClosedForm(s: Aggregates, commits: seq<Commit>, a: File, b: File)
    requires a != b && Clean(a) && Clean(b) && CleanCommits(commits)
    ensures var m, k := Fold(s, commits).pairs, KeyOf(a, b);
            && Agg(m, k).count == Agg(s.pairs, k).count + PairCount(commits, a, b)
            && Agg(m, k).lastTs == Latest(commits, a, b, Agg(s.pairs, k).lastTs)
            && (k in m <==> k in s.pairs || PairCount(commits, a, b) > 0)
    decreases |commits|
  {
    if commits != [] {
      var c := commits[0];
      assert c in commits && forall d :: d in commits[1..] ==> d in commits;
      KeyOfCommit(c, a, b);
      PairsInClosedForm(AddCommit(s, c), commits[1..], a, b);
    }
  }

  /** Every key of a mined state belongs to a pair of distinct clean paths. */
  ghost predicate WellKeyed(pairs: map<string, PairAgg>) {
    forall k :: k in pairs ==> exists a, b :: IsKeyOf(k, a, b)
  }

  ghost predicate IsKeyOf(k: string, a: File, b: File) {
    Clean(a) && Clean(b) && LexLess(a, b) && k == PairKey(a, b)
  }

  lemma {:induction false} MinedKeys(s: Aggregates, commits: seq<Commit>)
    requires WellKeyed(s.pairs) && CleanCommits(commits)
    requires forall c :: c in commits ==> Distinct(c.files)
    ensures WellKeyed(Fold(s, commits).pairs)
    decreases |commits|
  {
    if commits != [] {
      var c := commits[0];
      assert c in commits && forall d :: d in commits[1..] ==> d in commits;
      var s' := AddCommit(s, c);
      forall k | k in s'.pairs ensures exists a, b :: IsKeyOf(k, a, b) {
        if k !in s.pairs {
          assert k in PairKeys(c.files);
          var i, j :| 0 <= i < |c.files| && i < j < |c.files| && KeyOf(c.files[i], c.files[j]) == k;
          var (a, b) := Order(c.files[i], c.files[j]);
          OrderIsSymmetric(c.files[i], c.files[j]);
          LexTotal(c.files[i], c.files[j]);
          assert IsKeyOf(k, a, b);
        }
      }
      MinedKeys(s', commits[1..]);
    }
  }

  // ----- ratios -----

  /** A pair's commits are among those of either file. */
  lemma {:induction false} PairCountAtMostFileCount(commits: seq<Commit>, a: File, b: File)
    ensures PairCount(commits, a, b) <= FileCount(commits, a)
    ensures PairCount(commits, a, b) <= FileCount(commits, b)
  {
    if commits != [] {
      PairCountAtMostFileCount(commits[1..], a, b);
    }
  }

  // ----- the edges -----

  /** Ratios are kept as a numerator over a denominator. */
  datatype Props = Props(cochangeCount: int, support: int, coupling: (int, int), jaccard: (int, int), lastCoChange: int)

  datatype Edge = Edge(a: File, b: File, props: Props)

  function Min(x: int, y: int): int {
    if x <= y then x else y
  }

  /** The edge `rewrite_edges` would insert for one pair, when it clears the thresholds:
      at least 3 co-changes, and a coupling of at least 0.30, compared as 10 count >= 3 min. */
  function EdgeFor(s: Aggregates, key: string): Option<Edge>
    requires key in s.pairs
  {
    var agg := s.pairs[key];
    if agg.count < MIN_COCHANGE then None
    else match SplitKey(key)
      case None => None
      case Some((a, b)) =>
        var ca, cb := Changes(s.fileChanges, a), Changes(s.fileChanges, b);
        var min := Min(ca, cb);
        if min <= 0 || 10 * agg.count < 3 * min then None
        else
          var union := ca + cb - agg.count;
          var jaccard := if union > 0 then (agg.count, union) else (0, 1);
          Some(Edge(a, b, Props(agg.count, min, (agg.count, min), jaccard, agg.lastTs)))
  }

  /** The edges a store with these File nodes, refusing these insertions, ends up with. */
  ghost function ExpectedEdges(s: Aggregates, keys: set<string>, files: set<File>, rejected: set<(File, File)>)
    : set<Edge>
    requires keys <= s.pairs.Keys
  {
    set k | k in keys && EdgeFor(s, k).Some? && Lands(EdgeFor(s, k).value, files, rejected) :: EdgeFor(s, k).value
  }

  predicate Lands(e: Edge, files: set<File>, rejected: set<(File, File)>) {
    e.a in files && e.b in files && (e.a, e.b) !in rejected
  }

  /** The part of the graph store the miner writes to. */
  class EdgeStore {
    const files: set<File>
    const rejected: set<(File, File)>
    var edges: multiset<Edge>

    constructor (files: set<File>, rejected: set<(File, File)>, edges: multiset<Edge>)
      ensures this.files == files && this.rejected == rejected && this.edges == edges
    {
      this.files, this.rejected, this.edges := files, rejected, edges;
    }

    method DeleteAll()
      modifies this
      ensures edges == multiset{}
    {
      edges := multiset{};
    }

    /** A silent no-op when either endpoint is absent; always appends, even a duplicate. */
    method InsertEdge(e: Edge) returns (ok: bool)
      modifies this
      ensures ok <==> (e.a, e.b) !in rejected
      ensures edges == if Lands(e, files, rejected) then old(edges) + multiset{e} else old(edges)
    {
      if (e.a, e.b) in rejected {
        return false;
      }
      if e.a in files && e.b in files {
        edges := edges + multiset{e};
      }
      ok := true;
    }

    predicate EdgeExists(a: File, b: File)
      reads this
    {
      exists e :: e in edges && e.a == a && e.b == b
    }
  }

  /** Insert an edge between two files that have none, and look whether it landed. */
  method PutEdge(store: EdgeStore, e: Edge) returns (landed: bool)
    requires !exists d :: d in store.edges && d.a == e.a && d.b == e.b
    modifies store
    ensures landed <==> Lands(e, store.files, store.rejected)
    ensures store.edges == if landed then old(store.edges) + multiset{e} else old(store.edges)
  {
    var ok := store.InsertEdge(e);
    if Lands(e, store.files, store.rejected) { assert e in store.edges; }
    landed := ok && store.EdgeExists(e.a, e.b);
  }

  /** `rewrite_edges`: drop every edge, derive them again, and count those that landed. */
  method RewriteEdges(store: EdgeStore, s: Aggregates) returns (written: nat)
    requires WellKeyed(s.pairs)
    modifies store
    ensures store.edges == multiset(ExpectedEdges(s, s.pairs.Keys, store.files, store.rejected))
    ensures written == |ExpectedEdges(s, s.pairs.Keys, store.files, store.rejected)|
  {
    hide ExpectedEdges, WellKeyed, EdgeFor, Lands;
    store.DeleteAll();
    written := 0;
    var rest := s.pairs.Keys;
    ghost var found: set<Edge> := {};
    NothingExpected(s, store.files, store.rejected);
    while rest != {}
      invariant rest <= s.pairs.Keys
      invariant found == ExpectedEdges(s, s.pairs.Keys - rest, store.files, store.rejected)
      invariant store.edges == multiset(found) && written == |found|
      decreases |rest|
    {
      var key :| key in rest;
      ghost var done := s.pairs.Keys - rest;
      rest := rest - {key};
      assert s.pairs.Keys - rest == done + {key};
      ExpectedOneMore(s, done, key, store.files, store.rejected);
      match EdgeFor(s, key) {
        case None =>
        case Some(e) =>
          var landed := PutEdge(store, e);
          if landed {
            assert e !in found;
            written := written + 1;
          }
          found := if Lands(e, store.files, store.rejected) then found + {e} else found;
      }
    }
    assert s.pairs.Keys - rest == s.pairs.Keys;
  }

  lemma NothingExpected(s: Aggregates, files: set<File>, rejected: set<(File, File)>)
    ensures ExpectedEdges(s, s.pairs.Keys - s.pairs.Keys, files, rejected) == {}
  {
  }

  lemma ExpectedOneMore(s: Aggregates, keys: set<string>, key: string, files: set<File>, rejected: set<(File, File)>)
    requires keys <= s.pairs.Keys && key in s.pairs && key !in keys && WellKeyed(s.pairs)
    ensures var e := EdgeFor(s, key);
            var before := ExpectedEdges(s, keys, files, rejected);
            && ExpectedEdges(s, keys + {key}, files, rejected) ==
                 (if e.Some? && Lands(e.value, files, rejected) then before + {e.value} else before)
            && (e.Some? ==> !exists d :: d in before && d.a == e.value.a && d.b == e.value.b)
  {
    var e := EdgeFor(s, key);
    if e.Some? {
      forall d | d in ExpectedEdges(s, keys, files, rejected) ensures !(d.a == e.value.a && d.b == e.value.b) {
        var k :| k in keys && EdgeFor(s, k) == Some(d);
        DistinctEnds(s, k, key);
      }
    }
  }

  /** The edge of a key joins the two paths of that key. */
  lemma EdgeEnds(s: Aggregates, key: string) returns (a: File, b: File)
    requires key in s.pairs && WellKeyed(s.pairs)
    ensures IsKeyOf(key, a, b)
    ensures EdgeFor(s, key).Some? ==> EdgeFor(s, key).value.a == a && EdgeFor(s, key).value.b == b
  {
    a, b :| IsKeyOf(key, a, b);
    KeyRoundTrip(a, b);
  }

  lemma DistinctEnds(s: Aggregates, k: string, l: string)
    requires k in s.pairs && l in s.pairs && k != l && WellKeyed(s.pairs)
    requires EdgeFor(s, k).Some? && EdgeFor(s, l).Some?
    ensures EdgeFor(s, k).value.a != EdgeFor(s, l).value.a || EdgeFor(s, k).value.b != EdgeFor(s, l).value.b
  {
    var a, b := EdgeEnds(s, k);
    var c, d := EdgeEnds(s, l);
  }

  /** Over every mined history the edge of a pair exists exactly when the pair changed
      together at least three times, in at least 30% of the rarer file's commits; it then
      carries the counts of the history, and both its ratios lie in (0, 1]. */
  lemma MinedEdges(commits: seq<Commit>, a: File, b: File)
    requires CleanCommits(commits) && Clean(a) && Clean(b) && LexLess(a, b)
    ensures var s, k := Fold(EMPTY, commits), PairKey(a, b);
            var n, ca, cb := PairCount(commits, a, b), FileCount(commits, a), FileCount(commits, b);
            && (k in s.pairs && EdgeFor(s, k).Some? <==> n >= 3 && 10 * n >= 3 * Min(ca, cb))
            && (k in s.pairs && EdgeFor(s, k).Some? ==>
                  EdgeFor(s, k).value ==
                  Edge(a, b, Props(n, Min(ca, cb), (n, Min(ca, cb)), (n, ca + cb - n), Latest(commits, a, b, 0))))
            && (n > 0 ==> 0 < n <= Min(ca, cb) && 0 < n <= ca + cb - n)
  {
    hide EdgeFor, Fold, SplitKey, KeyOf, PairKey, LexLess, FileCount, PairCount, Latest, Clean, CleanCommits;
    KeyOfOrdered(a, b);
    PairsInClosedForm(EMPTY, commits, a, b);
    FilesInClosedForm(EMPTY, commits, a);
    FilesInClosedForm(EMPTY, commits, b);
    PairCountAtMostFileCount(commits, a, b);
    KeyRoundTrip(a, b);
    var s, k := Fold(EMPTY, commits), PairKey(a, b);
    if k in s.pairs { EdgeOfCounts(s, k, a, b); }
  }

  lemma KeyOfOrdered(a: File, b: File)
    requires LexLess(a, b)
    ensures a != b && KeyOf(a, b) == PairKey(a, b)
  {
    LexTotal(a, b);
  }

  /** The edge of a pair whose count is positive and at most either file's count. */
  lemma EdgeOfCounts(s: Aggregates, key: string, a: File, b: File)
    requires key in s.pairs && SplitKey(key) == Some((a, b))
    requires 0 < s.pairs[key].count <= Min(Changes(s.fileChanges, a), Changes(s.fileChanges, b))
    ensures var n, ca, cb := s.pairs[key].count, Changes(s.fileChanges, a), Changes(s.fileChanges, b);
            && (EdgeFor(s, key).Some? <==> n >= 3 && 10 * n >= 3 * Min(ca, cb))
            && (EdgeFor(s, key).Some? ==>
                  EdgeFor(s, key).value ==
                  Edge(a, b, Props(n, Min(ca, cb), (n, Min(ca, cb)), (n, ca + cb - n), s.pairs[key].lastTs)))
  {
    hide SplitKey, Changes;
  }

  // ----- what a mined store holds -----

  ghost predicate MinableCommits(commits: seq<Commit>) {
    CleanCommits(commits) && forall c :: c in commits ==> Distinct(c.files)
  }

  /** The edge that a history gives a pair. */
  function HistoryEdge(commits: seq<Commit>, a: File, b: File): Edge {
    var n, ca, cb := PairCount(commits, a, b), FileCount(commits, a), FileCount(commits, b);
    Edge(a, b, Props(n, Min(ca, cb), (n, Min(ca, cb)), (n, ca + cb - n), Latest(commits, a, b, 0)))
  }

  /** The pair changed together at least three times, in at least 30% of the rarer file's commits. */
  predicate Clears(commits: seq<Commit>, a: File, b: File) {
    var n := PairCount(commits, a, b);
    n >= 3 && 10 * n >= 3 * Min(FileCount(commits, a), FileCount(commits, b))
  }

  /** The edges a store should hold after a history: one for each ordered pair of paths that
      clears the thresholds, has both files in the graph and is not refused. */
  predicate Due(commits: seq<Commit>, e: Edge, files: set<File>, rejected: set<(File, File)>) {
    && Clean(e.a) && Clean(e.b) && LexLess(e.a, e.b)
    && Clears(commits, e.a, e.b) && e == HistoryEdge(commits, e.a, e.b)
    && e.a in files && e.b in files && (e.a, e.b) !in rejected
  }

  lemma ExpectedIffDue(commits: seq<Commit>, e: Edge, files: set<File>, rejected: set<(File, File)>)
    requires MinableCommits(commits)
    ensures var s := Fold(EMPTY, commits);
            e in ExpectedEdges(s, s.pairs.Keys, files, rejected) <==> Due(commits, e, files, rejected)
  {
    hide EdgeFor, Fold, LexLess, FileCount, PairCount, Latest, Clean, CleanCommits;
    MinedKeys(EMPTY, commits);
    var s := Fold(EMPTY, commits);
    if e in ExpectedEdges(s, s.pairs.Keys, files, rejected) {
      var k :| k in s.pairs && EdgeFor(s, k) == Some(e) && Lands(e, files, rejected);
      var a, b := EdgeEnds(s, k);
      MinedEdges(commits, a, b);
    }
    if Due(commits, e, files, rejected) {
      MinedEdges(commits, e.a, e.b);
      assert EdgeFor(s, PairKey(e.a, e.b)) == Some(e);
    }
  }

  /** The aggregate part of `mine`: extend the aggregates of `past` by new commits and derive the
      edges again. The store then holds exactly the edges due after the whole history. */
  method Mine(state: CochangeState, store: EdgeStore, commits: seq<Commit>, ghost past: seq<Commit>)
    returns (written: nat)
    requires MinableCommits(past + commits) && state.View() == Fold(EMPTY, past)
    modifies state, store
    ensures state.View() == Fold(EMPTY, past + commits)
    ensures forall e :: store.edges[e] == if Due(past + commits, e, store.files, store.rejected) then 1 else 0
    ensures written == |store.edges|
  {
    hide Fold, ExpectedEdges, WellKeyed, CleanCommits, Distinct, Due;
    assert forall c :: c in commits ==> c in past + commits;
    CleanParts(past, commits);
    state.Accumulate(commits);
    FoldConcat(EMPTY, past, commits);
    MinedKeys(EMPTY, past + commits);
    written := RewriteEdges(store, Aggregates(state.fileChanges, state.pairs));
    forall e ensures store.edges[e] == if Due(past + commits, e, store.files, store.rejected) then 1 else 0 {
      ExpectedIffDue(past + commits, e, store.files, store.rejected);
    }
  }

  lemma CleanParts(past: seq<Commit>, commits: seq<Commit>)
    requires MinableCommits(past + commits)
    ensures forall c :: c in commits ==> Distinct(c.files) && forall f :: f in c.files ==> Clean(f)
    ensures WellKeyed(EMPTY.pairs)
  {
    assert forall c :: c in commits ==> c in past + commits;
  }
}
