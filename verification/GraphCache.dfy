/** The process-local cache of opened graph handles (src/graph_cache.rs): at most eight
    entries, revalidated by fingerprint, evicted by age of opening. */
module GraphCache {
  import opened Options

  type Path = string

  /** Identity of an opened store, what two clones of one `Rc` share. */
  type Handle = nat

  datatype Fingerprint = Fingerprint(newestMtimeNanos: nat, totalSizeBytes: nat)

  const ZERO := Fingerprint(0, 0)
  const MAX_CACHED_GRAPHS: nat := 8

  datatype Entry = Entry(store: Handle, fingerprint: Fingerprint, openedSeq: nat)

  datatype Cache = Cache(entries: map<Path, Entry>, nextSeq: nat)

  /** Sequence numbers are distinct and already handed out. */
  ghost predicate Sequenced(c: Cache) {
    && (forall p :: p in c.entries ==> c.entries[p].openedSeq < c.nextSeq)
    && (forall p, r :: p in c.entries && r in c.entries && c.entries[p].openedSeq == c.entries[r].openedSeq ==> p == r)
  }

  ghost predicate Valid(c: Cache) {
    Sequenced(c) && |c.entries| <= MAX_CACHED_GRAPHS
  }

  // ----- what the operations do to the cache -----

  predicate Hit(c: Cache, key: Path, current: Option<Fingerprint>) {
    current.Some? && key in c.entries && c.entries[key].fingerprint == current.value
  }

  function Insert(c: Cache, key: Path, store: Handle, after: Option<Fingerprint>): Cache {
    var fingerprint := if after.Some? then after.value else ZERO;
    Cache(c.entries[key := Entry(store, fingerprint, c.nextSeq)], c.nextSeq + 1)
  }

  function Remove(c: Cache, key: Path): Cache {
    c.(entries := c.entries - {key})
  }

  ghost predicate Oldest(entries: map<Path, Entry>, p: Path) {
    p in entries && forall r :: r in entries ==> entries[p].openedSeq <= entries[r].openedSeq
  }

  /** The entry that was opened first. */
  ghost function Victim(entries: map<Path, Entry>): (p: Path)
    requires entries != map[]
    ensures Oldest(entries, p)
  {
    OldestExists(entries);
    var p :| Oldest(entries, p);
    p
  }

  lemma {:induction false} OldestExists(entries: map<Path, Entry>)
    requires entries != map[]
    ensures exists p :: Oldest(entries, p)
    decreases |entries|
  {
    var p :| p in entries;
    var rest := entries - {p};
    assert entries.Keys == rest.Keys + {p};
    if rest == map[] {
      assert Oldest(entries, p);
    } else {
      OldestExists(rest);
      var q :| Oldest(rest, q);
      assert Oldest(entries, if entries[p].openedSeq <= entries[q].openedSeq then p else q);
    }
  }

  lemma RemoveShrinks(c: Cache, p: Path)
    requires p in c.entries
    ensures |Remove(c, p).entries| == |c.entries| - 1
  {
    assert c.entries.Keys == Remove(c, p).entries.Keys + {p};
  }

  /** Eviction of the oldest entry for as long as the cache is over capacity. */
  ghost function EvictOver(c: Cache): (r: Cache)
    decreases |c.entries|
  {
    if |c.entries| <= MAX_CACHED_GRAPHS then c
    else
      var v := Victim(c.entries);
      RemoveShrinks(c, v);
      EvictOver(Remove(c, v))
  }

  /** `r` keeps exactly the entries of `c` that were opened last, as many as fit. */
  ghost predicate Newest(c: Cache, r: Cache) {
    && r.nextSeq == c.nextSeq
    && (forall p :: p in r.entries ==> p in c.entries && r.entries[p] == c.entries[p])
    && |r.entries| == (if |c.entries| <= MAX_CACHED_GRAPHS then |c.entries| else MAX_CACHED_GRAPHS)
    && (forall p, q :: p in c.entries && p !in r.entries && q in r.entries ==>
          c.entries[p].openedSeq < c.entries[q].openedSeq)
  }

  lemma {:induction false} EvictionKeepsNewest(c: Cache)
    requires Sequenced(c)
    ensures Newest(c, EvictOver(c)) && Valid(EvictOver(c))
    decreases |c.entries|
  {
    if |c.entries| > MAX_CACHED_GRAPHS {
      var v := Victim(c.entries);
      var c' := Remove(c, v);
      RemoveShrinks(c, v);
      EvictionKeepsNewest(c');
      var r := EvictOver(c');
      forall p, q | p in c.entries && p !in r.entries && q in r.entries
        ensures c.entries[p].openedSeq < c.entries[q].openedSeq
      {
        assert q in c'.entries && q != v;
        if p != v { assert p in c'.entries; }
      }
    }
  }

  /** The cache after a `get` that found `current` on disk, would open `opening`, and would
      fingerprint the graph as `after` once it is open. */
  ghost function AfterGet(c: Cache, key: Path, current: Option<Fingerprint>,
                          opening: Result<Handle, string>, after: Option<Fingerprint>): Cache {
    if Hit(c, key, current) || opening.Err? then c else EvictOver(Insert(c, key, opening.value, after))
  }

  lemma EvictStep(c: Cache)
    requires Sequenced(c) && |c.entries| > MAX_CACHED_GRAPHS
    ensures var c' := Remove(c, Victim(c.entries));
            Sequenced(c') && EvictOver(c) == EvictOver(c') && |c'.entries| < |c.entries|
  {
    RemoveShrinks(c, Victim(c.entries));
  }

  lemma NothingToEvict(c: Cache)
    requires |c.entries| <= MAX_CACHED_GRAPHS
    ensures EvictOver(c) == c
  {
  }

  lemma NewestIsKept(c: Cache, key: Path)
    requires key in c.entries && Sequenced(c)
    requires forall p :: p in c.entries && p != key ==> c.entries[p].openedSeq < c.entries[key].openedSeq
    ensures key in EvictOver(c).entries && EvictOver(c).entries[key] == c.entries[key]
  {
    hide EvictOver;
    EvictionKeepsNewest(c);
    var r := EvictOver(c);
    assert |r.entries| > 0;
    var q :| q in r.entries;
    assert q in c.entries;
  }

  lemma InsertCount(c: Cache, p: Path, store: Handle, after: Option<Fingerprint>)
    requires Sequenced(c)
    ensures Sequenced(Insert(c, p, store, after))
    ensures |Insert(c, p, store, after).entries| == |c.entries| + (if p in c.entries then 0 else 1)
  {
    var e' := Insert(c, p, store, after).entries;
    assert e'.Keys == c.entries.Keys + {p};
    if p in c.entries { assert e'.Keys == c.entries.Keys; }
  }

  /** After a successful `get` the path is cached with the handle that was returned. */
  lemma GetCaches(c: Cache, key: Path, current: Option<Fingerprint>,
                  opening: Result<Handle, string>, after: Option<Fingerprint>)
    requires Valid(c)
    ensures var c' := AfterGet(c, key, current, opening, after);
            && Valid(c')
            && (opening.Ok? && !Hit(c, key, current) ==>
                  key in c'.entries && c'.entries[key] == Insert(c, key, opening.value, after).entries[key])
  {
    hide EvictOver;
    if opening.Ok? {
      InsertCount(c, key, opening.value, after);
      var c' := Insert(c, key, opening.value, after);
      EvictionKeepsNewest(c');
      NewestIsKept(c', key);
    }
  }

  /** What a get does, case by case. An entry whose fingerprint is the one on disk is returned
      and nothing changes. Any other get opens: a failed open changes nothing, a successful one
      makes the entry the new handle with the fingerprint read after the open, or zeros, and the
      next sequence number. At most eight entries remain, and while there is room none is lost. */
  lemma GetIsCurrent(c: Cache, key: Path, current: Option<Fingerprint>,
                     opening: Result<Handle, string>, after: Option<Fingerprint>)
    requires Valid(c)
    ensures var c' := AfterGet(c, key, current, opening, after);
            var known := key in c.entries && current == Some(c.entries[key].fingerprint);
            && (Hit(c, key, current) <==> known)
            && (known || opening.Err? ==> c' == c)
            && (!known && opening.Ok? ==>
                  && key in c'.entries && c'.nextSeq == c.nextSeq + 1
                  && c'.entries[key] ==
                     Entry(opening.value, if after.Some? then after.value else Fingerprint(0, 0), c.nextSeq)
                  && |c'.entries| <= 8
                  && (|c.entries| < 8 ==> c'.entries == c.entries[key := c'.entries[key]]))
  {
    hide EvictOver;
    GetCaches(c, key, current, opening, after);
    if opening.Ok? && !Hit(c, key, current) {
      InsertCount(c, key, opening.value, after);
      EvictionKeepsNewest(Insert(c, key, opening.value, after));
      if |c.entries| < 8 { NothingToEvict(Insert(c, key, opening.value, after)); }
    }
  }

  /** `GraphCache`: its operations update the two fields in place. */
  class GraphCache {
    var entries: map<Path, Entry>
    var nextSeq: nat

    ghost function View(): Cache
      reads this
    {
      Cache(entries, nextSeq)
    }

    constructor ()
      ensures View() == Cache(map[], 0) && Valid(View())
    {
      entries, nextSeq := map[], 0;
    }

    /** The key with the smallest `openedSeq`. */
    method MinByOpenedSeq() returns (victim: Path)
      requires entries != map[] && Sequenced(View())
      ensures victim == Victim(entries)
    {
      var rest := entries.Keys;
      victim :| victim in rest;
      rest := rest - {victim};
      while rest != {}
        invariant rest < entries.Keys && victim in entries
        invariant forall p :: p in entries && p !in rest ==> entries[victim].openedSeq <= entries[p].openedSeq
        decreases |rest|
      {
        var p :| p in rest;
        rest := rest - {p};
        if entries[p].openedSeq < entries[victim].openedSeq {
          victim := p;
        }
      }
    }

    method EvictIfOverCapacity()
      requires Sequenced(View())
      modifies this`entries
      ensures View() == EvictOver(old(View()))
      ensures Valid(View())
    {
      hide EvictOver, Sequenced;
      while |entries| > MAX_CACHED_GRAPHS
        invariant Sequenced(View())
        invariant EvictOver(View()) == EvictOver(old(View()))
        decreases |entries|
      {
        var victim := MinByOpenedSeq();
        EvictStep(View());
        entries := entries - {victim};
      }
      NothingToEvict(View());
    }

    /** `get_with_opener`: `current` and `after` are the fingerprints read before and after
        the open, `opening` is what the opener returns if it is called. */
    method GetWithOpener(key: Path, current: Option<Fingerprint>, opening: Result<Handle, string>,
                         after: Option<Fingerprint>) returns (r: Result<Handle, string>)
      requires Valid(View())
      modifies this
      ensures Valid(View()) && View() == AfterGet(old(View()), key, current, opening, after)
      ensures r == if Hit(old(View()), key, current) then Ok(old(entries[key].store)) else opening
      ensures r.Ok? ==> key in entries && entries[key].store == r.value
      ensures var known := key in old(entries) && current == Some(old(entries)[key].fingerprint);
              && r == (if known then Ok(old(entries)[key].store) else opening)
              && (known || opening.Err? ==> View() == old(View()))
              && (!known && opening.Ok? ==>
                    entries[key] ==
                    Entry(opening.value, if after.Some? then after.value else Fingerprint(0, 0), old(nextSeq)))
    {
      hide EvictOver, Sequenced;
      GetIsCurrent(View(), key, current, opening, after);
      if current.Some? && key in entries && entries[key].fingerprint == current.value {
        return Ok(entries[key].store);
      }
      if opening.Err? {
        return opening;
      }
      var fingerprint := if after.Some? then after.value else ZERO;
      GetCaches(View(), key, current, opening, after);
      InsertCount(View(), key, opening.value, after);
      var openedSeq := nextSeq;
      nextSeq := nextSeq + 1;
      entries := entries[key := Entry(opening.value, fingerprint, openedSeq)];
      assert View() == Insert(old(View()), key, opening.value, after);
      EvictIfOverCapacity();
      r := opening;
    }

    /** `release`: refuses while a request holds the handle, else drops the entry. `clones`
        is the strong count of each store. */
    method Release(key: Path, clones: Handle -> nat) returns (r: Result<(), string>)
      requires Valid(View())
      modifies this`entries
      ensures Valid(View())
      ensures r.Err? <==> key in old(entries) && clones(old(entries)[key].store) > 1
      ensures View() == if r.Err? then old(View()) else Remove(old(View()), key)
    {
      if key in entries {
        if clones(entries[key].store) > 1 {
          return Err("graph_handle_in_use");
        }
        RemoveShrinks(View(), key);
      }
      entries := entries - {key};
      r := Ok(());
    }
  }

  // ----- the cache is a queue of the paths opened last -----

  ghost predicate Ascending(q: seq<Path>, entries: map<Path, Entry>) {
    && (forall i :: 0 <= i < |q| ==> q[i] in entries)
    && (forall i, j :: 0 <= i < j < |q| ==> entries[q[i]].openedSeq < entries[q[j]].openedSeq)
  }

  /** `q` lists the cached paths from the oldest open to the newest, each once. */
  ghost predicate Represents(q: seq<Path>, c: Cache) {
    Ascending(q, c.entries) && |q| == |c.entries| && forall p :: p in c.entries ==> p in q
  }

  function Without(q: seq<Path>, p: Path): (r: seq<Path>)
    ensures forall x :: x in r <==> x in q && x != p
  {
    if q == [] then [] else (if q[0] == p then [] else [q[0]]) + Without(q[1..], p)
  }

  /** The queue after an open of `p`: `p` moves to the back, the front falls out when full. */
  function QueueOpen(q: seq<Path>, p: Path): seq<Path> {
    var r := Without(q, p) + [p];
    if |r| > MAX_CACHED_GRAPHS then r[|r| - MAX_CACHED_GRAPHS..] else r
  }

  lemma {:induction false} WithoutAscends(q: seq<Path>, p: Path, entries: map<Path, Entry>)
    requires Ascending(q, entries)
    ensures Ascending(Without(q, p), entries)
    ensures |Without(q, p)| == if p in q then |q| - 1 else |q|
  {
    if q != [] {
      WithoutAscends(q[1..], p, entries);
      var r := Without(q[1..], p);
      assert forall i :: 0 <= i < |r| ==> r[i] in q[1..];
    }
  }

  /** Releasing a graph takes its path out of the queue and moves no other. */
  lemma ReleaseRefinesQueue(q: seq<Path>, c: Cache, p: Path)
    requires Represents(q, c)
    ensures Represents(Without(q, p), Remove(c, p))
  {
    WithoutAscends(q, p, c.entries);
    if p in c.entries { RemoveShrinks(c, p); }
    var r := Without(q, p);
    assert forall i :: 0 <= i < |r| ==> r[i] in r;
  }

  lemma InsertRefinesQueue(q: seq<Path>, c: Cache, p: Path, store: Handle, after: Option<Fingerprint>)
    requires Represents(q, c) && Valid(c)
    ensures Represents(Without(q, p) + [p], Insert(c, p, store, after))
    ensures Sequenced(Insert(c, p, store, after))
  {
    WithoutAscends(q, p, c.entries);
    var r, e' := Without(q, p), Insert(c, p, store, after).entries;
    assert forall i :: 0 <= i < |r| ==> r[i] in r && r[i] != p;
    assert Ascending(r + [p], e');
    InsertCount(c, p, store, after);
  }

  /** An open that misses refines the queue: the requested path is last, the others keep
      their order, and what falls out is what was opened longest ago. */
  lemma OpenRefinesQueue(q: seq<Path>, c: Cache, p: Path, store: Handle, after: Option<Fingerprint>)
    requires Represents(q, c) && Valid(c)
    ensures Represents(QueueOpen(q, p), EvictOver(Insert(c, p, store, after)))
  {
    InsertRefinesQueue(q, c, p, store, after);
    InsertCount(c, p, store, after);
    FrontFallsOut(Without(q, p) + [p], Insert(c, p, store, after));
  }

  lemma EvictOne(c: Cache)
    requires |c.entries| == MAX_CACHED_GRAPHS + 1
    ensures EvictOver(c) == Remove(c, Victim(c.entries))
  {
    RemoveShrinks(c, Victim(c.entries));
  }

  lemma FrontFallsOut(r: seq<Path>, c: Cache)
    requires Represents(r, c) && |r| <= MAX_CACHED_GRAPHS + 1
    ensures Represents(if |r| > MAX_CACHED_GRAPHS then r[1..] else r, EvictOver(c))
  {
    hide EvictOver;
    if |r| > MAX_CACHED_GRAPHS {
      EvictOne(c);
      OldestIsFront(r, c, Victim(c.entries));
      TailRepresents(r, c);
    } else {
      NothingToEvict(c);
    }
  }

  lemma OldestIsFront(r: seq<Path>, c: Cache, v: Path)
    requires Represents(r, c) && Oldest(c.entries, v)
    ensures |r| > 0 && v == r[0]
  {
    var k :| 0 <= k < |r| && r[k] == v;
    assert c.entries[v].openedSeq <= c.entries[r[0]].openedSeq;
  }

  lemma TailAscends(r: seq<Path>, entries: map<Path, Entry>)
    requires Ascending(r, entries) && |r| > 0
    ensures Ascending(r[1..], entries - {r[0]})
  {
    var tail := r[1..];
    forall i | 0 <= i < |tail| ensures tail[i] in entries - {r[0]} {
      assert tail[i] == r[i + 1] && entries[r[0]].openedSeq < entries[r[i + 1]].openedSeq;
    }
  }

  lemma TailRepresents(r: seq<Path>, c: Cache)
    requires Represents(r, c) && |r| > 0
    ensures Represents(r[1..], Remove(c, r[0]))
  {
    var tail, rest := r[1..], Remove(c, r[0]);
    assert r[0] in c.entries;
    TailAscends(r, c.entries);
    hide Ascending;
    RemoveShrinks(c, r[0]);
    forall p | p in rest.entries ensures p in tail {
      var k :| 0 <= k < |r| && r[k] == p;
      assert tail[k - 1] == p;
    }
  }

  // ----- whole runs of the cache -----

  datatype Op =
    | GetOp(key: Path, current: Option<Fingerprint>, opening: Result<Handle, string>, after: Option<Fingerprint>)
    | ReleaseOp(key: Path, refused: bool)

  ghost function StepCache(c: Cache, op: Op): Cache {
    match op
    case GetOp(key, current, opening, after) => AfterGet(c, key, current, opening, after)
    case ReleaseOp(key, refused) => if refused then c else Remove(c, key)
  }

  /** Only a real open moves the queue. */
  function StepQueue(q: seq<Path>, c: Cache, op: Op): seq<Path> {
    match op
    case GetOp(key, current, opening, after) =>
      if Hit(c, key, current) || opening.Err? then q else QueueOpen(q, key)
    case ReleaseOp(key, refused) => if refused then q else Without(q, key)
  }

  ghost function RunCache(c: Cache, ops: seq<Op>): Cache
    decreases |ops|
  {
    if ops == [] then c else RunCache(StepCache(c, ops[0]), ops[1..])
  }

  ghost function RunQueue(q: seq<Path>, c: Cache, ops: seq<Op>): seq<Path>
    decreases |ops|
  {
    if ops == [] then q else RunQueue(StepQueue(q, c, ops[0]), StepCache(c, ops[0]), ops[1..])
  }

  lemma StepRefinesQueue(q: seq<Path>, c: Cache, op: Op)
    requires Represents(q, c) && Valid(c)
    ensures Represents(StepQueue(q, c, op), StepCache(c, op)) && Valid(StepCache(c, op))
  {
    hide Represents, Valid, EvictOver, QueueOpen, Without;
    match op
    case GetOp(key, current, opening, after) =>
      GetCaches(c, key, current, opening, after);
      if opening.Ok? { OpenRefinesQueue(q, c, key, opening.value, after); }
    case ReleaseOp(key, refused) =>
      ReleaseRefinesQueue(q, c, key);
      RemoveValid(c, key);
  }

  /** In every run the cache holds the paths of the queue, oldest open first. */
  lemma {:induction false} RunRefinesQueue(q: seq<Path>, c: Cache, ops: seq<Op>)
    requires Represents(q, c) && Valid(c)
    ensures Represents(RunQueue(q, c, ops), RunCache(c, ops)) && Valid(RunCache(c, ops))
    decreases |ops|
  {
    hide Represents, Valid, StepCache, StepQueue;
    if ops != [] {
      StepRefinesQueue(q, c, ops[0]);
      RunRefinesQueue(StepQueue(q, c, ops[0]), StepCache(c, ops[0]), ops[1..]);
    }
  }

  /** Over these operations the entry of `key` is neither released nor evicted, and no get of
      `key` finds a changed fingerprint and opens it again. */
  ghost predicate Undisturbed(c: Cache, key: Path, ops: seq<Op>)
    decreases |ops|
  {
    ops == [] ||
      (var c' := StepCache(c, ops[0]);
       && key in c'.entries
       && (ops[0].GetOp? && ops[0].key == key ==> Hit(c, key, ops[0].current) || ops[0].opening.Err?)
       && Undisturbed(c', key, ops[1..]))
  }

  lemma StepKeepsEntry(c: Cache, key: Path, op: Op)
    requires Valid(c) && key in c.entries && key in StepCache(c, op).entries
    requires op.GetOp? && op.key == key ==> Hit(c, key, op.current) || op.opening.Err?
    ensures StepCache(c, op).entries[key] == c.entries[key] && Valid(StepCache(c, op))
  {
    hide EvictOver, Valid;
    match op
    case GetOp(p, current, opening, after) =>
      GetCaches(c, p, current, opening, after);
      if opening.Ok? && !Hit(c, p, current) {
        InsertKeepsOthers(c, p, opening.value, after);
      }
    case ReleaseOp(p, refused) => RemoveValid(c, p);
  }

  lemma InsertKeepsOthers(c: Cache, p: Path, store: Handle, after: Option<Fingerprint>)
    requires Valid(c)
    ensures var r := EvictOver(Insert(c, p, store, after));
            forall k :: k in r.entries && k != p ==> k in c.entries && r.entries[k] == c.entries[k]
  {
    hide EvictOver;
    InsertCount(c, p, store, after);
    EvictionKeepsNewest(Insert(c, p, store, after));
  }

  /** A cached graph is opened once: however many operations on other graphs lie in between,
      a get that still finds the fingerprint of the entry is a hit on the same handle. */
  lemma {:induction false} SameHandleUntilDropped(c: Cache, key: Path, ops: seq<Op>)
    requires Valid(c) && key in c.entries && Undisturbed(c, key, ops)
    ensures var c' := RunCache(c, ops);
            && key in c'.entries && c'.entries[key] == c.entries[key]
            && Hit(c', key, Some(c.entries[key].fingerprint))
    decreases |ops|
  {
    hide Valid, StepCache;
    if ops != [] {
      StepKeepsEntry(c, key, ops[0]);
      SameHandleUntilDropped(StepCache(c, ops[0]), key, ops[1..]);
    }
  }

  lemma RemoveValid(c: Cache, key: Path)
    requires Valid(c)
    ensures Valid(Remove(c, key))
  {
    if key in c.entries {
      RemoveShrinks(c, key);
    } else {
      assert Remove(c, key) == c;
    }
  }

  /** A hit opens nothing and does not refresh the entry's age. */
  lemma HitChangesNothing(c: Cache, key: Path, current: Option<Fingerprint>,
                          o1: Result<Handle, string>, o2: Result<Handle, string>, after: Option<Fingerprint>)
    requires Valid(c) && o1.Ok? && after.Some?
    ensures var once := AfterGet(c, key, current, o1, after);
            && key in once.entries
            && (!Hit(c, key, current) ==> once.entries[key].store == o1.value)
            && (Hit(c, key, current) ==> once == c)
            && (!Hit(c, key, current) ==> AfterGet(once, key, after, o2, after) == once)
  {
    hide EvictOver;
    GetCaches(c, key, current, o1, after);
  }
}
