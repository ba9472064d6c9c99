/** Why the cache must release a graph before it is written: every close of a handle puts
    the view the handle was opened on back over what is on disk. The steps of one
    single-threaded process, each atomic, with the worst-case close. */
module HandleProtocol {
  import opened Options
  import opened GraphCache

  type Rows = seq<string>

  datatype Open = Open(path: Path, view: Rows)

  datatype Disk = Disk(rows: Rows, fingerprint: Fingerprint)

  /** `live`: stores that are open; `held`: the clones the running request still owns. */
  datatype World = World(
    disk: map<Path, Disk>,
    cache: Cache,
    live: map<Handle, Open>,
    held: multiset<Handle>,
    nextHandle: Handle)

  ghost predicate Cached(w: World, h: Handle) {
    exists p :: p in w.cache.entries && w.cache.entries[p].store == h
  }

  /** `Rc::strong_count`: the cache's own reference, if any, and the request's clones. */
  ghost function StrongCount(w: World, h: Handle): nat {
    (if Cached(w, h) then 1 else 0) + w.held[h]
  }

  // ----- the steps -----

  /** Closing writes the handle's own view back and may leave any fingerprint behind. */
  function Close(w: World, h: Handle, fp: Fingerprint): World
    requires h in w.live
  {
    w.(disk := w.disk[w.live[h].path := Disk(w.live[h].view, fp)], live := w.live - {h})
  }

  /** A store is closed when its last reference is dropped. */
  ghost function CloseIfUnused(w: World, h: Handle, fp: Fingerprint): World {
    if h in w.live && StrongCount(w, h) == 0 then Close(w, h, fp) else w
  }

  /** The cache drops its reference to the graph at `p`. */
  ghost function DropEntry(w: World, p: Path, fp: Fingerprint): World {
    if p in w.cache.entries then
      CloseIfUnused(w.(cache := Remove(w.cache, p)), w.cache.entries[p].store, fp)
    else w
  }

  lemma DropEntryCache(w: World, p: Path, fp: Fingerprint)
    ensures DropEntry(w, p, fp).cache == Remove(w.cache, p)
  {
    if p !in w.cache.entries { assert w.cache.entries - {p} == w.cache.entries; }
  }

  ghost function Evict(w: World, fp: Fingerprint): World
    decreases |w.cache.entries|
  {
    if |w.cache.entries| <= MAX_CACHED_GRAPHS then w
    else
      var v := Victim(w.cache.entries);
      RemoveShrinks(w.cache, v);
      DropEntryCache(w, v, fp);
      Evict(DropEntry(w, v, fp), fp)
  }

  function Current(w: World, p: Path): Option<Fingerprint> {
    if p in w.disk then Some(w.disk[p].fingerprint) else None
  }

  /** A new handle on `p`, cached and handed to the request. */
  function OpenFresh(w: World, p: Path, opening: Fingerprint): World {
    var h, rows := w.nextHandle, if p in w.disk then w.disk[p].rows else [];
    World(w.disk[p := Disk(rows, opening)],
          Insert(w.cache, p, h, Some(opening)),
          w.live[h := Open(p, rows)],
          w.held + multiset{h},
          h + 1)
  }

  /** A read request opens the graph at `p` through the cache; `opens` says whether the open
      succeeds, and a graph that does not exist is created empty. */
  ghost function Get(w: World, p: Path, opens: bool,
                     opening: Fingerprint, replaced: Fingerprint, evicted: Fingerprint): World {
    if Hit(w.cache, p, Current(w, p)) then w.(held := w.held + multiset{w.cache.entries[p].store})
    else if !opens then w
    else
      var w1 := OpenFresh(w, p, opening);
      var w2 := if p in w.cache.entries then CloseIfUnused(w1, w.cache.entries[p].store, replaced) else w1;
      Evict(w2, evicted)
  }

  /** The request drops one clone. */
  ghost function Drop(w: World, h: Handle, fp: Fingerprint): World {
    CloseIfUnused(w.(held := w.held - multiset{h}), h, fp)
  }

  /** `release` refuses: a request still holds the cached handle. */
  ghost predicate Busy(w: World, p: Path) {
    p in w.cache.entries && StrongCount(w, w.cache.entries[p].store) > 1
  }

  /** A write tool releases the graph, then commits `rows` through a handle of its own. */
  ghost function Write(w: World, p: Path, rows: Rows, released: Fingerprint, fp: Fingerprint): World {
    if Busy(w, p) then w
    else
      var w1 := DropEntry(w, p, released);
      w1.(disk := w1.disk[p := Disk(rows, fp)])
  }

  /** A stale graph is released, then removed. */
  ghost function RemoveGraph(w: World, p: Path, released: Fingerprint): World {
    if Busy(w, p) then w
    else
      var w1 := DropEntry(w, p, released);
      w1.(disk := w1.disk - {p})
  }

  datatype Step =
    | GetStep(path: Path, opens: bool, opening: Fingerprint, replaced: Fingerprint, evicted: Fingerprint)
    | DropStep(handle: Handle, fp: Fingerprint)
    | WriteStep(path: Path, rows: Rows, released: Fingerprint, fp: Fingerprint)
    | RemoveStep(path: Path, released: Fingerprint)

  ghost function Next(w: World, s: Step): World {
    match s
    case GetStep(p, opens, opening, replaced, evicted) => Get(w, p, opens, opening, replaced, evicted)
    case DropStep(h, fp) => Drop(w, h, fp)
    case WriteStep(p, rows, released, fp) => Write(w, p, rows, released, fp)
    case RemoveStep(p, released) => RemoveGraph(w, p, released)
  }

  /** What a request can check before it asks for the graph at `p`: opening it would not push a
      graph out of a full cache whose handle the request still holds. */
  ghost predicate EvictsNothingHeld(w: World, p: Path) {
    p !in w.cache.entries && |w.cache.entries| >= MAX_CACHED_GRAPHS ==>
      w.cache.entries[Victim(w.cache.entries)].store !in w.held
  }

  /** A request drops only what it holds, and no open evicts what it holds. */
  ghost predicate Allowed(w: World, s: Step) {
    match s
    case GetStep(p, opens, _, _, _) => opens ==> EvictsNothingHeld(w, p)
    case DropStep(h, _) => h in w.held
    case _ => true
  }

  // ----- what was committed -----

  function RowsOf(disk: map<Path, Disk>): map<Path, Rows> {
    map p | p in disk :: disk[p].rows
  }

  /** The rows a step commits: accepted writes, removals and creations, and nothing else. */
  ghost function Commit(ledger: map<Path, Rows>, w: World, s: Step): map<Path, Rows> {
    match s
    case GetStep(p, opens, _, _, _) => if opens && p !in ledger then ledger[p := []] else ledger
    case DropStep(_, _) => ledger
    case WriteStep(p, rows, _, _) => if Busy(w, p) then ledger else ledger[p := rows]
    case RemoveStep(p, _) => if Busy(w, p) then ledger else ledger - {p}
  }

  /** What a `get` does to the cache is what the class proves of `get_with_opener`. */
  lemma GetUpdatesCache(w: World, p: Path, opens: bool,
                        opening: Fingerprint, replaced: Fingerprint, evicted: Fingerprint)
    ensures Get(w, p, opens, opening, replaced, evicted).cache ==
            AfterGet(w.cache, p, Current(w, p), if opens then Ok(w.nextHandle) else Err("open failed"), Some(opening))
  {
    hide EvictOver, Evict;
    if !Hit(w.cache, p, Current(w, p)) && opens {
      var w1 := OpenFresh(w, p, opening);
      var w2 := if p in w.cache.entries then CloseIfUnused(w1, w.cache.entries[p].store, replaced) else w1;
      EvictUpdatesCache(w2, evicted);
    }
  }

  lemma {:induction false} EvictUpdatesCache(w: World, fp: Fingerprint)
    ensures Evict(w, fp).cache == EvictOver(w.cache)
    decreases |w.cache.entries|
  {
    if |w.cache.entries| > MAX_CACHED_GRAPHS {
      var v := Victim(w.cache.entries);
      RemoveShrinks(w.cache, v);
      DropEntryCache(w, v, fp);
      EvictUpdatesCache(DropEntry(w, v, fp), fp);
    }
  }

  // ----- the invariant -----

  /** The cached handle of `p` is open on `p`, sees the rows on disk and carries the
      fingerprint of the disk. */
  predicate EntryOk(w: World, p: Path) {
    p in w.cache.entries &&
    var e := w.cache.entries[p];
    && e.store in w.live && p in w.disk
    && w.live[e.store] == Open(p, w.disk[p].rows)
    && w.disk[p].fingerprint == e.fingerprint
  }

  /** A live handle is the cached one of its graph. */
  predicate LiveOk(w: World, h: Handle) {
    h in w.live && h < w.nextHandle &&
    var p := w.live[h].path;
    p in w.cache.entries && w.cache.entries[p].store == h
  }

  ghost predicate Linked(w: World) {
    && Sequenced(w.cache)
    && (forall p :: p in w.cache.entries ==> EntryOk(w, p))
    && (forall h :: h in w.live ==> LiveOk(w, h))
    && (forall h :: h in w.held ==> h in w.live)
  }

  ghost predicate Coherent(w: World) {
    Linked(w) && |w.cache.entries| <= MAX_CACHED_GRAPHS
  }

  /** Dropping an entry nobody holds closes its handle and changes no rows. */
  lemma DropEntryIsSafe(w: World, p: Path, fp: Fingerprint)
    requires Linked(w) && (p in w.cache.entries ==> w.cache.entries[p].store !in w.held)
    ensures var w' := DropEntry(w, p, fp);
            && Linked(w') && w'.cache == Remove(w.cache, p) && w'.held == w.held
            && RowsOf(w'.disk) == RowsOf(w.disk)
            && p !in w'.cache.entries
  {
    hide DropEntry, Sequenced, Cached;
    DropEntryCache(w, p, fp);
    if p in w.cache.entries {
      assert EntryOk(w, p);
      var h := w.cache.entries[p].store;
      var w1 := w.(cache := Remove(w.cache, p));
      EntryCloses(w, p, fp);
      var w' := Close(w1, h, fp);
      RemoveSequenced(w.cache, p);
      forall r | r in w'.cache.entries ensures EntryOk(w', r) {
        assert EntryOk(w, r) && r != p;
      }
      forall g | g in w'.live ensures LiveOk(w', g) {
        assert LiveOk(w, g) && g != h;
      }
    } else {
      NoEntryToDrop(w, p, fp);
    }
  }

  lemma EntryCloses(w: World, p: Path, fp: Fingerprint)
    requires Linked(w) && p in w.cache.entries && w.cache.entries[p].store !in w.held
    ensures w.cache.entries[p].store in w.live
    ensures DropEntry(w, p, fp) == Close(w.(cache := Remove(w.cache, p)), w.cache.entries[p].store, fp)
  {
    assert EntryOk(w, p);
    OnlyEntry(w, p);
  }

  lemma NoEntryToDrop(w: World, p: Path, fp: Fingerprint)
    requires p !in w.cache.entries
    ensures DropEntry(w, p, fp) == w && Remove(w.cache, p) == w.cache
  {
    assert w.cache.entries - {p} == w.cache.entries;
  }

  lemma RemoveSequenced(c: Cache, p: Path)
    requires Sequenced(c)
    ensures Sequenced(Remove(c, p))
  {
  }

  /** A store is cached under its own path only. */
  lemma OnlyEntry(w: World, p: Path)
    requires Linked(w) && p in w.cache.entries
    ensures !Cached(w.(cache := Remove(w.cache, p)), w.cache.entries[p].store)
    ensures Cached(w, w.cache.entries[p].store)
  {
    var h := w.cache.entries[p].store;
    assert EntryOk(w, p);
    forall r | r in Remove(w.cache, p).entries ensures Remove(w.cache, p).entries[r].store != h {
      assert EntryOk(w, r);
    }
  }

  /** A write is refused exactly when the running request holds the graph's handle. */
  lemma BusyMeansHeld(w: World, p: Path)
    requires Linked(w)
    ensures Busy(w, p) <==> exists h :: h in w.held && w.live[h].path == p
  {
    assert forall h :: h in w.held ==> LiveOk(w, h);
    if p in w.cache.entries {
      var h := w.cache.entries[p].store;
      assert EntryOk(w, p);
      OnlyEntry(w, p);
      assert StrongCount(w, h) == 1 + w.held[h];
    }
  }

  // ----- every step keeps the invariant and commits exactly what it accepts -----

  /** A cached graph is always current: within the process a `get` of it is a hit. */
  lemma CachedGraphIsFresh(w: World, p: Path)
    requires Linked(w) && p in w.cache.entries
    ensures Hit(w.cache, p, Current(w, p))
  {
    assert EntryOk(w, p);
  }

  /** Evicting one entry that nobody holds. */
  lemma EvictIsSafe(w: World, fp: Fingerprint)
    requires Linked(w) && |w.cache.entries| <= MAX_CACHED_GRAPHS + 1
    requires |w.cache.entries| > MAX_CACHED_GRAPHS ==> w.cache.entries[Victim(w.cache.entries)].store !in w.held
    ensures Coherent(Evict(w, fp)) && RowsOf(Evict(w, fp).disk) == RowsOf(w.disk)
  {
    hide Linked, DropEntry;
    if |w.cache.entries| > MAX_CACHED_GRAPHS {
      var v := Victim(w.cache.entries);
      RemoveShrinks(w.cache, v);
      DropEntryIsSafe(w, v, fp);
      NothingToEvictHere(DropEntry(w, v, fp), fp);
    } else {
      NothingToEvictHere(w, fp);
    }
  }

  lemma OpenFreshIsLinked(w: World, p: Path, opening: Fingerprint)
    requires Coherent(w) && p !in w.cache.entries
    ensures Linked(OpenFresh(w, p, opening))
  {
    var w1, h := OpenFresh(w, p, opening), w.nextHandle;
    InsertCount(w.cache, p, h, Some(opening));
    forall r | r in w1.cache.entries ensures EntryOk(w1, r) {
      if r != p { assert EntryOk(w, r) && LiveOk(w, w.cache.entries[r].store); }
    }
    forall g | g in w1.live ensures LiveOk(w1, g) {
      if g != h { assert LiveOk(w, g); }
    }
  }

  lemma OpenIsSafe(w: World, p: Path, opening: Fingerprint, replaced: Fingerprint, evicted: Fingerprint)
    requires Coherent(w) && p !in w.cache.entries && EvictsNothingHeld(w, p)
    ensures var w' := Get(w, p, true, opening, replaced, evicted);
            Coherent(w') && RowsOf(w'.disk) == if p in w.disk then RowsOf(w.disk) else RowsOf(w.disk)[p := []]
  {
    hide Evict, Linked;
    OpenFreshIsLinked(w, p, opening);
    var w1 := OpenFresh(w, p, opening);
    VictimAfterOpen(w, p, opening);
    EvictIsSafe(w1, evicted);
    assert RowsOf(w1.disk) == if p in w.disk then RowsOf(w.disk) else RowsOf(w.disk)[p := []];
  }

  /** One more open makes the victim of a full cache the victim, and it was held before or not at all. */
  lemma VictimAfterOpen(w: World, p: Path, opening: Fingerprint)
    requires Coherent(w) && p !in w.cache.entries && EvictsNothingHeld(w, p)
    ensures var w1 := OpenFresh(w, p, opening);
            && |w1.cache.entries| <= MAX_CACHED_GRAPHS + 1
            && (|w1.cache.entries| > MAX_CACHED_GRAPHS ==> w1.cache.entries[Victim(w1.cache.entries)].store !in w1.held)
  {
    InsertCount(w.cache, p, w.nextHandle, Some(opening));
    if |w.cache.entries| == MAX_CACHED_GRAPHS {
      var a := Victim(w.cache.entries);
      InsertIsYoungest(w.cache, a, p, w.nextHandle, opening);
      assert EntryOk(w, a) && LiveOk(w, w.cache.entries[a].store);
    }
  }

  lemma DropIsSafe(w: World, h: Handle, fp: Fingerprint)
    requires Coherent(w) && h in w.held
    ensures var w' := Drop(w, h, fp);
            Coherent(w') && w'.disk == w.disk
  {
    assert LiveOk(w, h);
    var p := w.live[h].path;
    OnlyEntry(w, p);
    var w1 := w.(held := w.held - multiset{h});
    assert Cached(w1, h) by { assert w1.cache.entries[p].store == h; }
    forall r | r in w1.cache.entries ensures EntryOk(w1, r) { assert EntryOk(w, r); }
    forall g | g in w1.live ensures LiveOk(w1, g) { assert LiveOk(w, g); }
  }

  /** After an accepted release of `p` no handle of `p` is live. */
  lemma ReleaseIsSafe(w: World, p: Path, fp: Fingerprint)
    requires Coherent(w) && !Busy(w, p)
    ensures var w' := DropEntry(w, p, fp);
            && Coherent(w') && RowsOf(w'.disk) == RowsOf(w.disk) && p !in w'.cache.entries
            && forall h :: h in w'.live ==> w'.live[h].path != p
  {
    BusyMeansHeld(w, p);
    if p in w.cache.entries {
      assert EntryOk(w, p);
      RemoveShrinks(w.cache, p);
    }
    DropEntryIsSafe(w, p, fp);
    var w' := DropEntry(w, p, fp);
    assert w'.cache.entries.Keys <= w.cache.entries.Keys;
    assert forall h :: h in w'.live ==> LiveOk(w', h);
  }

  /** Rewriting or removing a graph no handle is open on keeps the others linked. */
  lemma RewriteIsSafe(w: World, p: Path, disk: map<Path, Disk>)
    requires Coherent(w) && p !in w.cache.entries
    requires forall r :: r != p ==> (r in disk <==> r in w.disk) && (r in disk ==> disk[r] == w.disk[r])
    ensures Coherent(w.(disk := disk))
  {
    var w' := w.(disk := disk);
    forall r | r in w'.cache.entries ensures EntryOk(w', r) { assert EntryOk(w, r); }
    forall g | g in w'.live ensures LiveOk(w', g) { assert LiveOk(w, g); }
  }

  lemma HitIsSafe(w: World, p: Path)
    requires Coherent(w) && p in w.cache.entries
    ensures Coherent(w.(held := w.held + multiset{w.cache.entries[p].store}))
  {
    var w' := w.(held := w.held + multiset{w.cache.entries[p].store});
    assert EntryOk(w, p);
    forall r | r in w'.cache.entries ensures EntryOk(w', r) { assert EntryOk(w, r); }
    forall g | g in w'.live ensures LiveOk(w', g) { assert LiveOk(w, g); }
  }

  lemma GetIsSafe(w: World, s: Step)
    requires Coherent(w) && s.GetStep? && Allowed(w, s)
    ensures Coherent(Next(w, s))
    ensures RowsOf(Next(w, s).disk) == Commit(RowsOf(w.disk), w, s)
  {
    hide Linked, Evict, OpenFresh;
    var p := s.path;
    if p in w.cache.entries {
      CachedGraphIsFresh(w, p);
      HitIsSafe(w, p);
    } else if s.opens {
      OpenIsSafe(w, p, s.opening, s.replaced, s.evicted);
    }
  }

  lemma WriteIsSafe(w: World, p: Path, rows: Rows, released: Fingerprint, fp: Fingerprint)
    requires Coherent(w) && !Busy(w, p)
    ensures Coherent(Write(w, p, rows, released, fp))
    ensures RowsOf(Write(w, p, rows, released, fp).disk) == RowsOf(w.disk)[p := rows]
  {
    hide Linked, DropEntry;
    ReleaseIsSafe(w, p, released);
    var w1 := DropEntry(w, p, released);
    RewriteIsSafe(w1, p, w1.disk[p := Disk(rows, fp)]);
    assert RowsOf(w1.disk[p := Disk(rows, fp)]) == RowsOf(w1.disk)[p := rows];
  }

  lemma RemoveIsSafe(w: World, p: Path, released: Fingerprint)
    requires Coherent(w) && !Busy(w, p)
    ensures Coherent(RemoveGraph(w, p, released))
    ensures RowsOf(RemoveGraph(w, p, released).disk) == RowsOf(w.disk) - {p}
  {
    hide Linked, DropEntry, Coherent, Busy;
    ReleaseIsSafe(w, p, released);
    var w1 := DropEntry(w, p, released);
    RewriteIsSafe(w1, p, w1.disk - {p});
    RowsWithout(w1.disk, p);
  }

  lemma RowsWithout(disk: map<Path, Disk>, p: Path)
    ensures RowsOf(disk - {p}) == RowsOf(disk) - {p}
  {
  }

  /** One allowed step keeps every handle current, and the disk holds exactly what was
      committed. */
  lemma StepIsSafe(w: World, s: Step)
    requires Coherent(w) && Allowed(w, s)
    ensures Coherent(Next(w, s))
    ensures RowsOf(Next(w, s).disk) == Commit(RowsOf(w.disk), w, s)
  {
    hide Coherent, Get, Drop, Busy;
    match s
    case GetStep(_, _, _, _, _) => GetIsSafe(w, s);
    case DropStep(h, fp) => DropIsSafe(w, h, fp);
    case WriteStep(p, rows, released, fp) =>
      if !Busy(w, p) { WriteIsSafe(w, p, rows, released, fp); }
    case RemoveStep(p, released) =>
      if !Busy(w, p) { RemoveIsSafe(w, p, released); }
  }

  // ----- whole runs -----

  ghost predicate AllowedRun(w: World, run: seq<Step>)
    decreases |run|
  {
    run == [] || (Allowed(w, run[0]) && AllowedRun(Next(w, run[0]), run[1..]))
  }

  ghost function After(w: World, run: seq<Step>): World
    decreases |run|
  {
    if run == [] then w else After(Next(w, run[0]), run[1..])
  }

  ghost function Ledger(ledger: map<Path, Rows>, w: World, run: seq<Step>): map<Path, Rows>
    decreases |run|
  {
    if run == [] then ledger else Ledger(Commit(ledger, w, run[0]), Next(w, run[0]), run[1..])
  }

  function Start(disk: map<Path, Disk>): World {
    World(disk, Cache(map[], 0), map[], multiset{}, 0)
  }

  /** The process ends: the handles still open are closed, in some order. */
  ghost function Exit(w: World, order: seq<Handle>, fp: Fingerprint): World
    decreases |order|
  {
    if order == [] then w
    else Exit(if order[0] in w.live then Close(w, order[0], fp) else w, order[1..], fp)
  }

  lemma {:induction false} RunIsSafe(w: World, run: seq<Step>)
    requires Coherent(w) && AllowedRun(w, run)
    ensures Coherent(After(w, run))
    ensures RowsOf(After(w, run).disk) == Ledger(RowsOf(w.disk), w, run)
    decreases |run|
  {
    hide Coherent, Next, Commit, Allowed;
    if run != [] {
      StepIsSafe(w, run[0]);
      RunIsSafe(Next(w, run[0]), run[1..]);
    }
  }

  predicate ViewsCurrent(w: World) {
    forall h :: h in w.live ==> w.live[h].path in w.disk && w.live[h].view == w.disk[w.live[h].path].rows
  }

  lemma CoherentViews(w: World)
    requires Linked(w)
    ensures ViewsCurrent(w)
  {
    forall h | h in w.live
      ensures w.live[h].path in w.disk && w.live[h].view == w.disk[w.live[h].path].rows
    {
      assert LiveOk(w, h) && EntryOk(w, w.live[h].path);
    }
  }

  lemma {:induction false} ExitIsSafe(w: World, order: seq<Handle>, fp: Fingerprint)
    requires ViewsCurrent(w)
    ensures RowsOf(Exit(w, order, fp).disk) == RowsOf(w.disk)
    decreases |order|
  {
    if order != [] {
      if order[0] in w.live {
        assert RowsOf(Close(w, order[0], fp).disk) == RowsOf(w.disk);
        ExitIsSafe(Close(w, order[0], fp), order[1..], fp);
      } else {
        ExitIsSafe(w, order[1..], fp);
      }
    }
  }

  /** No run of the process loses a committed write: after any allowed run, and after the
      handles left open are closed in any order, the disk holds exactly the ledger of
      accepted writes, removals and creations; until then every live handle sees it. */
  lemma NoCommittedWriteIsLost(disk: map<Path, Disk>, run: seq<Step>, order: seq<Handle>, fp: Fingerprint)
    requires AllowedRun(Start(disk), run)
    ensures var w := After(Start(disk), run);
            var ledger := Ledger(RowsOf(disk), Start(disk), run);
            && ViewsCurrent(w)
            && RowsOf(w.disk) == ledger
            && RowsOf(Exit(w, order, fp).disk) == ledger
  {
    RunIsSafe(Start(disk), run);
    var w := After(Start(disk), run);
    CoherentViews(w);
    ExitIsSafe(w, order, fp);
  }

  // ----- the rule is exact: when a held handle is evicted, a write can be lost -----

  /** Opening a ninth graph evicts the oldest entry and leaves its handle to the request. */
  lemma OpenEvictsHeld(w: World, a: Path, b: Path, fp: Fingerprint, replaced: Fingerprint, evicted: Fingerprint)
    requires Coherent(w) && |w.cache.entries| == MAX_CACHED_GRAPHS
    requires Oldest(w.cache.entries, a) && b !in w.cache.entries
    requires w.cache.entries[a].store in w.held
    ensures var w1 := OpenFresh(w, b, fp);
            Get(w, b, true, fp, replaced, evicted) == w1.(cache := Remove(w1.cache, a))
  {
    hide CloseIfUnused, EntryOk, LiveOk, Insert;
    var h, w1 := w.cache.entries[a].store, OpenFresh(w, b, fp);
    InsertIsYoungest(w.cache, a, b, w.nextHandle, fp);
    RemoveShrinks(w1.cache, a);
    var w2 := w1.(cache := Remove(w1.cache, a));
    StillHeld(w2, h, evicted);
    assert DropEntry(w1, a, evicted) == w2;
    NothingToEvictHere(w2, evicted);
    assert Evict(w1, evicted) == Evict(w2, evicted);
  }

  lemma InsertIsYoungest(c: Cache, a: Path, b: Path, store: Handle, fp: Fingerprint)
    requires Sequenced(c) && Oldest(c.entries, a) && b !in c.entries
    ensures var c' := Insert(c, b, store, Some(fp));
            && |c'.entries| == |c.entries| + 1 && a in c'.entries && Victim(c'.entries) == a
            && c'.entries[a] == c.entries[a]
  {
    InsertCount(c, b, store, Some(fp));
    var e' := Insert(c, b, store, Some(fp)).entries;
    var v := Victim(e');
    assert e'[v].openedSeq <= e'[a].openedSeq;
  }

  lemma StillHeld(w: World, h: Handle, fp: Fingerprint)
    requires h in w.held
    ensures CloseIfUnused(w, h, fp) == w
  {
  }

  /** After that the handle is still open on its old rows and held, and no longer cached. */
  lemma OpenKeepsRest(w: World, a: Path, b: Path, fp: Fingerprint)
    requires Coherent(w) && a in w.cache.entries && b !in w.cache.entries
    ensures var w1, h := OpenFresh(w, b, fp), w.cache.entries[a].store;
            var w2 := w1.(cache := Remove(w1.cache, a));
            && a in w.disk && h in w2.live && w2.live[h] == Open(a, w.disk[a].rows) && w2.held[h] == w.held[h]
            && !Cached(w2, h) && a !in w2.cache.entries
  {
    var h := w.cache.entries[a].store;
    assert EntryOk(w, a) && LiveOk(w, h);
    forall r | r in w.cache.entries && r != a ensures w.cache.entries[r].store != h {
      assert EntryOk(w, r);
    }
  }

  function Drops(h: Handle, fp: Fingerprint, n: nat): seq<Step> {
    if n == 0 then [] else [DropStep(h, fp)] + Drops(h, fp, n - 1)
  }

  lemma OneDrop(w: World, h: Handle, fp: Fingerprint)
    requires h in w.live && h in w.held && !Cached(w, h)
    ensures var w' := Next(w, DropStep(h, fp));
            if w.held[h] == 1 then w'.disk == w.disk[w.live[h].path := Disk(w.live[h].view, fp)]
            else w' == w.(held := w.held - multiset{h}) && !Cached(w', h) && w'.held[h] == w.held[h] - 1
  {
    var w1 := w.(held := w.held - multiset{h});
    SameCached(w, w1, h);
  }

  /** Dropping the last clone of a handle that is no longer cached puts its rows back. */
  lemma {:induction false} LastDropRestores(w: World, a: Path, h: Handle, view: Rows, fp: Fingerprint, n: nat)
    requires h in w.live && w.live[h] == Open(a, view) && w.held[h] == n > 0 && !Cached(w, h)
    ensures AllowedRun(w, Drops(h, fp, n))
    ensures var w' := After(w, Drops(h, fp, n)); a in w'.disk && w'.disk[a].rows == view
    ensures forall ledger :: Ledger(ledger, w, Drops(h, fp, n)) == ledger
    decreases n
  {
    hide Next, Cached;
    var run := Drops(h, fp, n);
    var w1 := Next(w, run[0]);
    OneDrop(w, h, fp);
    assert run[1..] == Drops(h, fp, n - 1);
    if n > 1 {
      LastDropRestores(w1, a, h, view, fp, n - 1);
    } else {
      assert run[1..] == [];
    }
  }

  /** A write to a graph that is not cached is accepted at once. */
  lemma WriteIsAccepted(w: World, a: Path, rows: Rows, fp: Fingerprint)
    requires a !in w.cache.entries
    ensures !Busy(w, a) && Write(w, a, rows, fp, fp) == w.(disk := w.disk[a := Disk(rows, fp)])
  {
  }

  /** A request that holds handles of one graph at a time keeps the rule. */
  lemma OneGraphKeepsRule(w: World, p: Path)
    requires Coherent(w) && forall h :: h in w.held ==> w.live[h].path == p
    ensures EvictsNothingHeld(w, p)
  {
    assert forall h :: h in w.held ==> LiveOk(w, h);
  }

  /** An open that evicts a held handle leaves a state in which an accepted write is lost. */
  lemma EvictedHeldHandleLosesAWrite(w: World, s: Step) returns (run: seq<Step>)
    requires Coherent(w) && s.GetStep? && !Allowed(w, s)
    ensures var w' := Next(w, s);
            AllowedRun(w', run) && RowsOf(After(w', run).disk) != Ledger(RowsOf(w'.disk), w', run)
  {
    hide Get, Drop, OpenFresh, Coherent, CloseIfUnused;
    var a, b, fp := Victim(w.cache.entries), s.path, s.opening;
    var h := w.cache.entries[a].store;
    NotHit(w, b);
    FullCache(w);
    OpenEvictsHeld(w, a, b, fp, s.replaced, s.evicted);
    OpenKeepsRest(w, a, b, fp);
    var view := w.disk[a].rows;
    var rows := view + [""];
    var w' := Next(w, s);
    var drops := Drops(h, fp, w'.held[h]);
    run := [WriteStep(a, rows, fp, fp)] + drops;
    assert run[1..] == drops;
    WriteIsAccepted(w', a, rows, fp);
    var w1 := Next(w', run[0]);
    SameCached(w', w1, h);
    LastDropRestores(w1, a, h, view, fp, w'.held[h]);
    RowsAt(After(w1, drops).disk, a);
    assert Ledger(RowsOf(w'.disk), w', run) == RowsOf(w'.disk)[a := rows];
  }

  lemma RowsAt(disk: map<Path, Disk>, a: Path)
    ensures a in disk ==> a in RowsOf(disk) && RowsOf(disk)[a] == disk[a].rows
  {
  }

  lemma SameCached(w: World, w1: World, h: Handle)
    requires w.cache == w1.cache
    ensures Cached(w, h) <==> Cached(w1, h)
  {
  }

  lemma NotHit(w: World, p: Path)
    requires p !in w.cache.entries
    ensures !Hit(w.cache, p, Current(w, p))
  {
  }

  lemma FullCache(w: World)
    requires Coherent(w) && |w.cache.entries| >= MAX_CACHED_GRAPHS
    ensures |w.cache.entries| == MAX_CACHED_GRAPHS && w.cache.entries != map[]
  {
  }

  /** The rule is exact: an open that a request asks for in a coherent state is allowed exactly
      when no continuation from it can lose a committed write. */
  lemma RuleIsExact(w: World, s: Step)
    requires Coherent(w) && s.GetStep?
    ensures Allowed(w, s) <==>
            forall run :: AllowedRun(Next(w, s), run) ==>
              RowsOf(After(Next(w, s), run).disk) == Ledger(RowsOf(Next(w, s).disk), Next(w, s), run)
  {
    hide Coherent, Next, Allowed, AllowedRun, After, Ledger;
    if Allowed(w, s) {
      StepIsSafe(w, s);
      forall run | AllowedRun(Next(w, s), run)
        ensures RowsOf(After(Next(w, s), run).disk) == Ledger(RowsOf(Next(w, s).disk), Next(w, s), run)
      {
        RunIsSafe(Next(w, s), run);
      }
    } else {
      var run := EvictedHeldHandleLosesAWrite(w, s);
    }
  }

  lemma NothingToEvictHere(w: World, fp: Fingerprint)
    requires |w.cache.entries| <= MAX_CACHED_GRAPHS
    ensures Evict(w, fp) == w
  {
  }
}
