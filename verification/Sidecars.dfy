/** The two sidecars of an index and the pairing check of a reader (src/graph_freshness.rs):
    the manifest is published before `meta.json`, each by a temporary file and a rename. */
module Sidecars {
  import opened Options
  import opened AtomicFile

  const MANIFEST: string := "file_manifest.json"
  const META: string := "meta.json"

  // ----- the two documents -----

  /** Size and modification time of a manifest file, all that a pairing compares. */
  datatype Identity = Identity(size: nat, mtimeNs: int)

  /** `generation` numbers the index runs. */
  datatype Meta = Meta(generation: nat, manifestSize: Option<nat>, manifestMtimeNs: Option<int>)

  /** How the documents are written and read, and when each run's manifest is stamped. */
  datatype Format = Format(
    manifest: nat -> Bytes,
    meta: Meta -> Bytes,
    readManifest: Bytes -> Option<nat>,
    readMeta: Bytes -> Option<Meta>,
    stamp: nat -> int)

  ghost predicate ReadsBack(f: Format) {
    && (forall g: nat :: f.readManifest(f.manifest(g)) == Some(g))
    && (forall m :: f.readMeta(f.meta(m)) == Some(m))
  }

  function IdentityOf(file: File): Identity {
    Identity(|file.bytes|, file.mtimeNs)
  }

  function ManifestFile(f: Format, g: nat): File {
    File(f.manifest(g), f.stamp(g))
  }

  /** Different index runs give their manifests different identities. */
  ghost predicate Separate(f: Format) {
    forall g: nat, h: nat :: IdentityOf(ManifestFile(f, g)) == IdentityOf(ManifestFile(f, h)) ==> g == h
  }

  /** `describes_manifest`: the manifest is the one this `meta.json` was written for. */
  predicate DescribesManifest(meta: Meta, id: Identity) {
    meta.manifestSize.Some? && meta.manifestMtimeNs.Some?
    && meta.manifestSize.value == id.size && meta.manifestMtimeNs.value == id.mtimeNs
  }

  /** `write_graph_meta` records whatever manifest is on disk; none leaves the fields null. */
  function MetaFor(generation: nat, files: Files): Meta {
    if MANIFEST in files then
      var id := IdentityOf(files[MANIFEST]);
      Meta(generation, Some(id.size), Some(id.mtimeNs))
    else Meta(generation, None, None)
  }

  // ----- the process and its readers -----

  datatype Task = ManifestTask(generation: nat) | MetaTask(meta: Meta)

  /** How far an atomic write has come: nothing yet, a temporary file with part of the
      contents, or the whole contents synced. */
  datatype Stage = Fresh | Open(tmp: string) | Full(tmp: string)

  datatype Writer = Idle | Writing(task: Task, stage: Stage) | Stating(generation: nat)

  /** A reader reads `meta.json` first, then the manifest and its identity from one handle. */
  datatype Reader =
    | Waiting
    | HasMeta(meta: Meta)
    | Finished(meta: Meta, generation: nat, identity: Identity)
    | Unknown

  datatype World = World(files: Files, writer: Writer, reader: Reader, runs: nat)

  datatype Step =
    | Begin
    | Create(tmp: string, mtimeNs: int)
    | Fill(written: nat, mtimeNs: int)
    | Sync(mtimeNs: int)
    | Publish
    | Fail(cleaned: bool)
    | Crash
    | StatManifest
    | ReadMeta
    | ReadManifest

  /** What follows a failed manifest write: stop (`persist_analyze_sidecars` and the incremental
      path) or carry on (`persist_full_index_sidecars`). */
  datatype Policy = StopAtFailure | CarryOn

  function TargetOf(task: Task): string {
    if task.ManifestTask? then MANIFEST else META
  }

  function ContentsOf(f: Format, task: Task): Bytes {
    if task.ManifestTask? then f.manifest(task.generation) else f.meta(task.meta)
  }

  /** The file that is renamed: a run's manifest has the stamp of that run. */
  function Synced(f: Format, task: Task, mtimeNs: int): File {
    File(ContentsOf(f, task), if task.ManifestTask? then f.stamp(task.generation) else mtimeNs)
  }

  predicate Temporary(tmp: string) {
    tmp != MANIFEST && tmp != META
  }

  /** One step of the writer or of a reader. A step that is not enabled changes nothing. */
  function Next(f: Format, policy: Policy, w: World, s: Step): World {
    match s
    case Begin => if w.writer.Idle? then w.(writer := Writing(ManifestTask(w.runs), Fresh), runs := w.runs + 1) else w
    case StatManifest =>
      if w.writer.Stating? then w.(writer := Writing(MetaTask(MetaFor(w.writer.generation, w.files)), Fresh)) else w
    case Crash => w.(writer := Idle)
    case ReadMeta => w.(reader := SeeMeta(f, w.files))
    case ReadManifest => if w.reader.HasMeta? then w.(reader := SeeManifest(f, w.files, w.reader.meta)) else w
    case _ => if w.writer.Writing? then WriteStep(f, policy, w, s) else w
  }

  /** A step of `atomic_write`. An error before the rename leaves the temporary file behind; a
      failed rename tries to remove it. */
  function WriteStep(f: Format, policy: Policy, w: World, s: Step): World
    requires w.writer.Writing?
  {
    var task, stage := w.writer.task, w.writer.stage;
    match s
    case Create(tmp, mtimeNs) =>
      if stage.Fresh? && Temporary(tmp) then
        w.(files := w.files[tmp := File([], mtimeNs)], writer := Writing(task, Open(tmp)))
      else w
    case Fill(n, mtimeNs) =>
      if stage.Open? then w.(files := w.files[stage.tmp := File(Part(ContentsOf(f, task), n), mtimeNs)]) else w
    case Sync(mtimeNs) =>
      if stage.Open? then
        w.(files := w.files[stage.tmp := Synced(f, task, mtimeNs)], writer := Writing(task, Full(stage.tmp)))
      else w
    case Publish =>
      if stage.Full? then
        w.(files := Rename(w.files, stage.tmp, TargetOf(task)),
           writer := if task.ManifestTask? then Stating(task.generation) else Idle)
      else w
    case Fail(cleaned) =>
      w.(files := if stage.Full? && cleaned then w.files - {stage.tmp} else w.files,
         writer := if task.ManifestTask? && policy == CarryOn then Stating(task.generation) else Idle)
    case _ => w
  }

  function SeeMeta(f: Format, files: Files): Reader {
    if META in files && f.readMeta(files[META].bytes).Some? then HasMeta(f.readMeta(files[META].bytes).value)
    else Unknown
  }

  function SeeManifest(f: Format, files: Files, meta: Meta): Reader {
    if MANIFEST in files && f.readManifest(files[MANIFEST].bytes).Some? then
      Finished(meta, f.readManifest(files[MANIFEST].bytes).value, IdentityOf(files[MANIFEST]))
    else Unknown
  }

  function After(f: Format, policy: Policy, w: World, run: seq<Step>): World
    decreases |run|
  {
    if run == [] then w else After(f, policy, Next(f, policy, w, run[0]), run[1..])
  }

  /** The verdict of a reader that has read both files. */
  predicate Accepts(r: Reader) {
    r.Finished? && DescribesManifest(r.meta, r.identity)
  }

  // ----- the writes of a run are those of `AtomicWrite` -----

  /** The steps a write takes until `fault` stops it. */
  function Script(contents: Bytes, tmp: string, mtimeNs: int, fault: Fault): seq<Step> {
    match fault
    case CrashBeforeCreate => [Crash]
    case FailCreate => [Fail(false)]
    case FailWrite(n) => [Create(tmp, mtimeNs), Fill(n, mtimeNs), Fail(false)]
    case CrashWhileWriting(n) => [Create(tmp, mtimeNs), Fill(n, mtimeNs), Crash]
    case FailSync => [Create(tmp, mtimeNs), Fill(|contents|, mtimeNs), Fail(false)]
    case CrashBeforeRename => [Create(tmp, mtimeNs), Sync(mtimeNs), Crash]
    case FailRename(cleaned) => [Create(tmp, mtimeNs), Sync(mtimeNs), Fail(cleaned)]
    case NoFault => [Create(tmp, mtimeNs), Sync(mtimeNs), Publish]
    case CrashAfterRename => [Create(tmp, mtimeNs), Sync(mtimeNs), Publish, Crash]
  }

  lemma RunOne(f: Format, policy: Policy, w: World, a: Step)
    ensures After(f, policy, w, [a]) == Next(f, policy, w, a)
  {
    hide Next;
    assert [a][1..] == [];
  }

  lemma {:induction false} RunConcat(f: Format, policy: Policy, w: World, a: seq<Step>, b: seq<Step>)
    ensures After(f, policy, w, a + b) == After(f, policy, After(f, policy, w, a), b)
    decreases |a|
  {
    hide Next;
    if a == [] {
      assert a + b == b;
    } else {
      assert (a + b)[1..] == a[1..] + b;
      RunConcat(f, policy, Next(f, policy, w, a[0]), a[1..], b);
    }
  }

  lemma RunThree(f: Format, policy: Policy, w: World, a: Step, b: Step, c: Step)
    ensures After(f, policy, w, [a, b, c]) ==
            Next(f, policy, Next(f, policy, Next(f, policy, w, a), b), c)
  {
    hide Next;
    var w1 := Next(f, policy, w, a);
    assert [a, b, c][1..] == [b, c] && [b, c][1..] == [c];
    RunOne(f, policy, Next(f, policy, w1, b), c);
    assert After(f, policy, w1, [b, c]) == After(f, policy, Next(f, policy, w1, b), [c]);
  }

  /** A write may start: a fresh task, a free name and, for a manifest, the stamp of its run. */
  predicate MayWrite(f: Format, w: World, tmp: string, mtimeNs: int) {
    && w.writer.Writing? && w.writer.stage.Fresh? && Temporary(tmp)
    && (w.writer.task.ManifestTask? ==> mtimeNs == f.stamp(w.writer.task.generation))
  }

  /** The run of a write leaves the directory that `AtomicWrite` leaves. */
  predicate Agrees(f: Format, policy: Policy, w: World, tmp: string, mtimeNs: int, fault: Fault)
    requires w.writer.Writing?
  {
    var task := w.writer.task;
    After(f, policy, w, Script(ContentsOf(f, task), tmp, mtimeNs, fault)).files ==
    AfterWrite(w.files, TargetOf(task), tmp, ContentsOf(f, task), mtimeNs, fault)
  }

  lemma BrokenWriteIsRun(f: Format, policy: Policy, w: World, tmp: string, mtimeNs: int, fault: Fault)
    requires MayWrite(f, w, tmp, mtimeNs)
    requires fault.FailWrite? || fault.CrashWhileWriting? || fault.FailSync?
    ensures Agrees(f, policy, w, tmp, mtimeNs, fault)
  {
    hide After, ContentsOf, TargetOf;
    var contents := ContentsOf(f, w.writer.task);
    var create := Create(tmp, mtimeNs);
    match fault
    case FailWrite(n) => RunThree(f, policy, w, create, Fill(n, mtimeNs), Fail(false));
    case CrashWhileWriting(n) => RunThree(f, policy, w, create, Fill(n, mtimeNs), Crash);
    case FailSync =>
      assert contents[..|contents|] == contents;
      RunThree(f, policy, w, create, Fill(|contents|, mtimeNs), Fail(false));
  }

  lemma SyncedWriteIsRun(f: Format, policy: Policy, w: World, tmp: string, mtimeNs: int, fault: Fault)
    requires MayWrite(f, w, tmp, mtimeNs)
    requires fault.CrashBeforeRename? || fault.FailRename? || fault.NoFault?
    ensures Agrees(f, policy, w, tmp, mtimeNs, fault)
  {
    hide After;
    var create := Create(tmp, mtimeNs);
    match fault
    case CrashBeforeRename => RunThree(f, policy, w, create, Sync(mtimeNs), Crash);
    case FailRename(cleaned) => RunThree(f, policy, w, create, Sync(mtimeNs), Fail(cleaned));
    case NoFault => RunThree(f, policy, w, create, Sync(mtimeNs), Publish);
  }

  /** Every atomic write, stopped by any fault, is a run of the writer: the steps between which a
      crash may fall are those of `AtomicWrite`. */
  lemma WriteIsRun(f: Format, policy: Policy, w: World, tmp: string, mtimeNs: int, fault: Fault)
    requires MayWrite(f, w, tmp, mtimeNs)
    ensures Agrees(f, policy, w, tmp, mtimeNs, fault)
  {
    match fault
    case CrashBeforeCreate => RunOne(f, policy, w, Crash);
    case FailCreate => RunOne(f, policy, w, Fail(false));
    case CrashAfterRename =>
      hide After, AfterWrite, ContentsOf, TargetOf, MayWrite;
      SameRename(w.files, TargetOf(w.writer.task), tmp, ContentsOf(f, w.writer.task), mtimeNs);
      SyncedWriteIsRun(f, policy, w, tmp, mtimeNs, NoFault);
      var steps := [Create(tmp, mtimeNs), Sync(mtimeNs), Publish];
      RunConcat(f, policy, w, steps, [Crash]);
      RunOne(f, policy, After(f, policy, w, steps), Crash);
      assert steps + [Crash] == Script(ContentsOf(f, w.writer.task), tmp, mtimeNs, fault);
    case FailWrite(_) => BrokenWriteIsRun(f, policy, w, tmp, mtimeNs, fault);
    case CrashWhileWriting(_) => BrokenWriteIsRun(f, policy, w, tmp, mtimeNs, fault);
    case FailSync => BrokenWriteIsRun(f, policy, w, tmp, mtimeNs, fault);
    case _ => SyncedWriteIsRun(f, policy, w, tmp, mtimeNs, fault);
  }

  lemma SameRename(files: Files, target: string, tmp: string, contents: Bytes, mtimeNs: int)
    ensures AfterWrite(files, target, tmp, contents, mtimeNs, CrashAfterRename) ==
            AfterWrite(files, target, tmp, contents, mtimeNs, NoFault)
  {
  }

  // ----- what every step keeps -----

  /** The manifest on disk is the whole manifest of some run. */
  predicate ManifestWhole(f: Format, files: Files) {
    MANIFEST in files ==>
      var g := f.readManifest(files[MANIFEST].bytes);
      g.Some? && files[MANIFEST] == ManifestFile(f, g.value)
  }

  predicate MetaWhole(f: Format, files: Files) {
    META in files ==> f.readMeta(files[META].bytes).Some?
  }

  /** The manifest on disk is that of run `g`. */
  predicate ManifestOf(f: Format, files: Files, g: nat) {
    MANIFEST in files && files[MANIFEST] == ManifestFile(f, g)
  }

  /** No manifest of another run is on disk. */
  predicate OwnManifest(f: Format, files: Files, g: nat) {
    MANIFEST in files ==> ManifestOf(f, files, g)
  }

  /** Whatever the policy and whatever failed: targets are whole documents, a synced temporary
      file has the whole contents, and the meta being written names the manifest on disk. */
  predicate Sound(f: Format, w: World) {
    && ManifestWhole(f, w.files) && MetaWhole(f, w.files)
    && (w.writer.Writing? ==> StageSound(f, w.files, w.writer.task, w.writer.stage))
    && (w.writer.Writing? && w.writer.task.MetaTask? ==>
          w.writer.task.meta == MetaFor(w.writer.task.meta.generation, w.files))
    && (w.reader.Finished? ==> w.reader.identity == IdentityOf(ManifestFile(f, w.reader.generation)))
  }

  predicate StageSound(f: Format, files: Files, task: Task, stage: Stage) {
    && (stage.Open? ==> Temporary(stage.tmp))
    && (stage.Full? ==>
          Temporary(stage.tmp)
          && stage.tmp in files && files[stage.tmp] == Synced(f, task, files[stage.tmp].mtimeNs))
  }

  /** A meta names the manifest of its own run or none at all. */
  predicate Own(f: Format, meta: Meta) {
    DescribesManifest(meta, IdentityOf(ManifestFile(f, meta.generation)))
    || meta.manifestSize.None? || meta.manifestMtimeNs.None?
  }

  /** While no pair was torn: past its manifest the writer finds its own manifest on disk or none,
      and every meta on disk or in a reader is of one run. */
  predicate Paired(f: Format, w: World) {
    && (w.writer.Stating? ==> OwnManifest(f, w.files, w.writer.generation))
    && (w.writer.Writing? && w.writer.task.MetaTask? ==> OwnManifest(f, w.files, w.writer.task.meta.generation))
    && (META in w.files && f.readMeta(w.files[META].bytes).Some? ==> Own(f, f.readMeta(w.files[META].bytes).value))
    && (w.reader.HasMeta? || w.reader.Finished? ==> Own(f, w.reader.meta))
  }

  /** The step at which a manifest write fails and the writer carries on. */
  predicate CarriesOn(policy: Policy, w: World, s: Step) {
    policy == CarryOn && s.Fail? && w.writer.Writing? && w.writer.task.ManifestTask?
  }

  /** The step that tears the pair: the writer carries on while the manifest of another run is on
      disk. Whether it does can be seen before the step. */
  predicate Tears(f: Format, policy: Policy, w: World, s: Step) {
    CarriesOn(policy, w, s) && !OwnManifest(f, w.files, w.writer.task.generation)
  }

  lemma StepIsSound(f: Format, policy: Policy, w: World, s: Step)
    requires ReadsBack(f) && Sound(f, w)
    ensures Sound(f, Next(f, policy, w, s))
  {
  }

  lemma StepIsPaired(f: Format, policy: Policy, w: World, s: Step)
    requires ReadsBack(f) && Sound(f, w) && Paired(f, w) && !Tears(f, policy, w, s)
    ensures Paired(f, Next(f, policy, w, s))
  {
  }

  predicate NeverTears(f: Format, policy: Policy, w: World, run: seq<Step>)
    decreases |run|
  {
    run == [] || (!Tears(f, policy, w, run[0]) && NeverTears(f, policy, Next(f, policy, w, run[0]), run[1..]))
  }

  lemma {:induction false} RunIsSound(f: Format, policy: Policy, w: World, run: seq<Step>)
    requires ReadsBack(f) && Sound(f, w)
    ensures Sound(f, After(f, policy, w, run))
    ensures Paired(f, w) && NeverTears(f, policy, w, run) ==> Paired(f, After(f, policy, w, run))
    decreases |run|
  {
    hide Next, Sound, Paired, ReadsBack, Tears;
    if run != [] {
      StepIsSound(f, policy, w, run[0]);
      if Paired(f, w) && !Tears(f, policy, w, run[0]) { StepIsPaired(f, policy, w, run[0]); }
      RunIsSound(f, policy, Next(f, policy, w, run[0]), run[1..]);
    }
  }

  lemma {:induction false} StoppingNeverTears(f: Format, w: World, run: seq<Step>)
    ensures NeverTears(f, StopAtFailure, w, run)
    decreases |run|
  {
    hide Next;
    if run != [] { StoppingNeverTears(f, Next(f, StopAtFailure, w, run[0]), run[1..]); }
  }

  // ----- the main results -----

  /** In every run of the stopping writer, and in every run of the other one in which no manifest
      write fails over the manifest of another run, with errors and crashes between any two file
      operations and a reader interleaved anywhere, a reader that accepts the pair has read both
      halves of one index. */
  lemma AcceptedPairIsOneIndex(f: Format, policy: Policy, w: World, run: seq<Step>)
    requires ReadsBack(f) && Separate(f) && Sound(f, w) && Paired(f, w)
    requires policy == StopAtFailure || NeverTears(f, policy, w, run)
    ensures var r := After(f, policy, w, run).reader;
            Accepts(r) ==> r.meta.generation == r.generation
  {
    hide After, NeverTears, ReadsBack;
    if policy == StopAtFailure { StoppingNeverTears(f, w, run); }
    RunIsSound(f, policy, w, run);
    var r := After(f, policy, w, run).reader;
    if Accepts(r) {
      assert IdentityOf(ManifestFile(f, r.meta.generation)) == IdentityOf(ManifestFile(f, r.generation));
    }
  }

  /** A process that starts over a directory without sidecars. */
  lemma StartIsPaired(f: Format, files: Files, runs: nat)
    requires MANIFEST !in files && META !in files
    ensures var w := World(files, Idle, Waiting, runs); Sound(f, w) && Paired(f, w)
  {
  }

  // ----- after a publication -----

  predicate OnlyReads(run: seq<Step>) {
    forall s :: s in run ==> s == ReadMeta || s == ReadManifest
  }

  /** What a reader that starts now can come to. */
  predicate Sees(r: Reader, meta: Meta, generation: nat, identity: Identity) {
    r == HasMeta(meta) || r == Finished(meta, generation, identity)
  }

  lemma {:induction false} ReadersSee(f: Format, policy: Policy, w: World, run: seq<Step>, meta: Meta, g: nat)
    requires ReadsBack(f) && OnlyReads(run)
    requires META in w.files && f.readMeta(w.files[META].bytes) == Some(meta) && ManifestOf(f, w.files, g)
    ensures var w' := After(f, policy, w, run);
            && w'.files == w.files
            && (Sees(w.reader, meta, g, IdentityOf(ManifestFile(f, g))) ==>
                  Sees(w'.reader, meta, g, IdentityOf(ManifestFile(f, g)))
                  && (run != [] && run[|run| - 1] == ReadManifest ==> w'.reader.Finished?))
    decreases |run|
  {
    if run != [] {
      assert run[0] in run;
      var w1 := Next(f, policy, w, run[0]);
      assert w1.files == w.files;
      assert forall s :: s in run[1..] ==> s in run;
      ReadersSee(f, policy, w1, run[1..], meta, g);
      if |run| == 1 { assert run[1..] == []; }
    }
  }

  /** A reader that starts after a publication reads the published pair, however its steps and
      those of an earlier, abandoned reading are arranged, and never fails to finish. */
  lemma StartedReaderSees(f: Format, policy: Policy, w: World, a: seq<Step>, b: seq<Step>, meta: Meta, g: nat)
    requires ReadsBack(f) && OnlyReads(a) && OnlyReads(b)
    requires META in w.files && f.readMeta(w.files[META].bytes) == Some(meta) && ManifestOf(f, w.files, g)
    ensures var r := After(f, policy, w, a + [ReadMeta] + b).reader;
            && Sees(r, meta, g, IdentityOf(ManifestFile(f, g)))
            && (b != [] && b[|b| - 1] == ReadManifest ==> r.Finished?)
  {
    hide After, ManifestOf, ReadsBack, OnlyReads;
    RunConcat(f, policy, w, a + [ReadMeta], b);
    RunConcat(f, policy, w, a, [ReadMeta]);
    ReadersSee(f, policy, w, a, meta, g);
    var w1 := After(f, policy, w, a);
    RunOne(f, policy, w1, ReadMeta);
    ReadersSee(f, policy, Next(f, policy, w1, ReadMeta), b, meta, g);
  }

  /** The step that publishes the meta of run `g`. */
  predicate Publishes(w: World, g: nat) {
    w.writer.Writing? && w.writer.task.MetaTask? && w.writer.stage.Full?
    && w.writer.task.meta.generation == g
  }

  lemma PublishedMeta(f: Format, policy: Policy, w: World, g: nat, h: nat)
    requires ReadsBack(f) && Sound(f, w) && Publishes(w, g) && ManifestOf(f, w.files, h)
    ensures var w' := Next(f, policy, w, Publish);
            var id := IdentityOf(ManifestFile(f, h));
            && META in w'.files
            && f.readMeta(w'.files[META].bytes) == Some(Meta(g, Some(id.size), Some(id.mtimeNs)))
            && ManifestOf(f, w'.files, h)
  {
  }

  /** After any run in which the index of run `g` was completed, with no step of the writer after
      its publication: every reader that starts then reads that index and accepts it. An index
      whose manifest could not be written where there was none is accepted by no reader. */
  lemma CompletedIndexIsAccepted(f: Format, policy: Policy, w: World, run: seq<Step>, g: nat,
                                 a: seq<Step>, b: seq<Step>)
    requires ReadsBack(f) && Sound(f, w) && Paired(f, w) && OnlyReads(a) && OnlyReads(b)
    requires policy == StopAtFailure || NeverTears(f, policy, w, run)
    requires Publishes(After(f, policy, w, run), g)
    ensures var r := After(f, policy, w, run + [Publish] + (a + [ReadMeta] + b)).reader;
            if MANIFEST in After(f, policy, w, run).files then
              && (r.Finished? ==> Accepts(r) && r.meta.generation == r.generation == g)
              && (r.HasMeta? || r.Finished?) && (b != [] && b[|b| - 1] == ReadManifest ==> r.Finished?)
            else !Accepts(r)
  {
    hide After, ReadsBack, OnlyReads, Sound, NeverTears, Next;
    if policy == StopAtFailure { StoppingNeverTears(f, w, run); }
    RunIsSound(f, policy, w, run);
    var w1 := After(f, policy, w, run);
    if MANIFEST in w1.files {
      PublicationIsRead(f, policy, w, run, a, b, g, g);
    } else {
      UnpairedIsUnread(f, policy, w, run, a, b, g);
    }
  }

  lemma {:induction false} NoManifestNoEnd(f: Format, policy: Policy, w: World, run: seq<Step>)
    requires OnlyReads(run) && MANIFEST !in w.files
    ensures var w' := After(f, policy, w, run); w'.files == w.files && (!w.reader.Finished? ==> !w'.reader.Finished?)
    decreases |run|
  {
    if run != [] {
      assert run[0] in run && forall s :: s in run[1..] ==> s in run;
      NoManifestNoEnd(f, policy, Next(f, policy, w, run[0]), run[1..]);
    }
  }

  lemma UnpairedIsUnread(f: Format, policy: Policy, w: World, run: seq<Step>, a: seq<Step>, b: seq<Step>, g: nat)
    requires OnlyReads(a) && OnlyReads(b)
    requires Publishes(After(f, policy, w, run), g) && MANIFEST !in After(f, policy, w, run).files
    ensures !Accepts(After(f, policy, w, run + [Publish] + (a + [ReadMeta] + b)).reader)
  {
    hide After, OnlyReads;
    var w1 := After(f, policy, w, run);
    RunConcat(f, policy, w, run + [Publish], a + [ReadMeta] + b);
    RunConcat(f, policy, w, run, [Publish]);
    RunOne(f, policy, w1, Publish);
    var w2 := Next(f, policy, w1, Publish);
    RunConcat(f, policy, w2, a + [ReadMeta], b);
    RunConcat(f, policy, w2, a, [ReadMeta]);
    NoManifestNoEnd(f, policy, w2, a);
    var w3 := After(f, policy, w2, a);
    RunOne(f, policy, w3, ReadMeta);
    NoManifestNoEnd(f, policy, Next(f, policy, w3, ReadMeta), b);
  }

  /** Past its manifest the writer finds some manifest on disk. */
  predicate HasManifest(w: World) {
    w.writer.Stating? || (w.writer.Writing? && w.writer.task.MetaTask?) ==> MANIFEST in w.files
  }

  /** The stopping writer never publishes a meta without a manifest. */
  lemma {:induction false} StoppingHasManifest(f: Format, w: World, run: seq<Step>)
    requires ReadsBack(f) && Sound(f, w) && HasManifest(w)
    ensures HasManifest(After(f, StopAtFailure, w, run))
    decreases |run|
  {
    hide Next, Sound, HasManifest, ReadsBack;
    if run != [] {
      StepIsSound(f, StopAtFailure, w, run[0]);
      StoppingStepHasManifest(f, w, run[0]);
      StoppingHasManifest(f, Next(f, StopAtFailure, w, run[0]), run[1..]);
    }
  }

  lemma StoppingStepHasManifest(f: Format, w: World, s: Step)
    requires Sound(f, w) && HasManifest(w)
    ensures HasManifest(Next(f, StopAtFailure, w, s))
  {
  }

  lemma PublicationIsRead(f: Format, policy: Policy, w: World, run: seq<Step>,
                          a: seq<Step>, b: seq<Step>, g: nat, h: nat)
    requires ReadsBack(f) && OnlyReads(a) && OnlyReads(b)
    requires Sound(f, After(f, policy, w, run)) && Publishes(After(f, policy, w, run), g)
    requires ManifestOf(f, After(f, policy, w, run).files, h)
    ensures var r := After(f, policy, w, run + [Publish] + (a + [ReadMeta] + b)).reader;
            var id := IdentityOf(ManifestFile(f, h));
            && Sees(r, Meta(g, Some(id.size), Some(id.mtimeNs)), h, id)
            && (b != [] && b[|b| - 1] == ReadManifest ==> r.Finished?)
  {
    hide After, ReadsBack, OnlyReads, Sound, Next, ManifestOf, Publishes;
    var w1 := After(f, policy, w, run);
    var id := IdentityOf(ManifestFile(f, h));
    PublishedMeta(f, policy, w1, g, h);
    RunConcat(f, policy, w, run + [Publish], a + [ReadMeta] + b);
    RunConcat(f, policy, w, run, [Publish]);
    RunOne(f, policy, w1, Publish);
    StartedReaderSees(f, policy, Next(f, policy, w1, Publish), a, b, Meta(g, Some(id.size), Some(id.mtimeNs)), h);
  }

  // ----- carrying on after a failed manifest write -----

  /** Run `g` is past a manifest write that failed over the manifest of run `h`. */
  predicate CarriedOn(f: Format, w: World, g: nat, h: nat) {
    && g < w.runs
    && (w.writer.Stating? && w.writer.generation == g ==> ManifestOf(f, w.files, h))
    && (w.writer.Writing? ==>
          match w.writer.task
          case ManifestTask(k) => k != g
          case MetaTask(m) => m.generation == g ==> ManifestOf(f, w.files, h))
  }

  lemma {:induction false} StaysCarriedOn(f: Format, policy: Policy, w: World, run: seq<Step>, g: nat, h: nat)
    requires ReadsBack(f) && Sound(f, w) && CarriedOn(f, w, g, h)
    ensures Sound(f, After(f, policy, w, run)) && CarriedOn(f, After(f, policy, w, run), g, h)
    decreases |run|
  {
    hide Sound, Next, CarriedOn, ReadsBack;
    if run != [] {
      StepIsSound(f, policy, w, run[0]);
      StepStaysCarriedOn(f, policy, w, run[0], g, h);
      StaysCarriedOn(f, policy, Next(f, policy, w, run[0]), run[1..], g, h);
    }
  }

  lemma StepStaysCarriedOn(f: Format, policy: Policy, w: World, s: Step, g: nat, h: nat)
    requires Sound(f, w) && CarriedOn(f, w, g, h)
    ensures CarriedOn(f, Next(f, policy, w, s), g, h)
  {
  }

  /** The writer that carries on leaves a torn pair: when the manifest write of run `g` fails over
      the manifest of another run `h` and the run still publishes its meta, then, whatever lies in
      between, every reader that starts afterwards accepts the meta of `g` with the manifest of `h`. */
  lemma CarryingOnLeavesTornPair(f: Format, w: World, cleaned: bool, run: seq<Step>, g: nat, h: nat,
                                 a: seq<Step>, b: seq<Step>)
    requires ReadsBack(f) && Sound(f, w) && OnlyReads(a) && OnlyReads(b)
    requires w.writer.Writing? && w.writer.task == ManifestTask(g) && g < w.runs && g != h && ManifestOf(f, w.files, h)
    requires Publishes(After(f, CarryOn, w, [Fail(cleaned)] + run), g)
    ensures var r := After(f, CarryOn, w, [Fail(cleaned)] + run + [Publish] + (a + [ReadMeta] + b)).reader;
            && (r.Finished? ==> Accepts(r) && r.meta.generation == g && r.generation == h)
            && (r.HasMeta? || r.Finished?) && (b != [] && b[|b| - 1] == ReadManifest ==> r.Finished?)
  {
    hide After, ReadsBack, OnlyReads;
    var w1 := Next(f, CarryOn, w, Fail(cleaned));
    RunConcat(f, CarryOn, w, [Fail(cleaned)], run);
    RunOne(f, CarryOn, w, Fail(cleaned));
    StepIsSound(f, CarryOn, w, Fail(cleaned));
    assert CarriedOn(f, w1, g, h);
    StaysCarriedOn(f, CarryOn, w1, run, g, h);
    PublicationIsRead(f, CarryOn, w, [Fail(cleaned)] + run, a, b, g, h);
  }

  // ----- the condition is exact -----

  /** From `w` on, whatever happens short of tearing the pair, a reader that accepts has read one
      index. */
  ghost predicate KeepsOneIndex(f: Format, policy: Policy, w: World) {
    forall run :: NeverTears(f, policy, w, run) ==>
      var r := After(f, policy, w, run).reader; Accepts(r) ==> r.meta.generation == r.generation
  }

  /** What follows a step that tears: the writer goes on, and a reader accepts a torn pair. */
  lemma TornPairIsAccepted(f: Format, policy: Policy, w: World, s: Step) returns (run: seq<Step>)
    requires ReadsBack(f) && Sound(f, w) && Tears(f, policy, w, s)
    ensures var w1 := Next(f, policy, w, s);
            var r := After(f, policy, w1, run).reader;
            NeverTears(f, policy, w1, run) && Accepts(r) && r.meta.generation != r.generation
  {
    var w1 := Next(f, policy, w, s);
    var g, h := w.writer.task.generation, f.readManifest(w.files[MANIFEST].bytes).value;
    var tmp := ".meta.json.tmp";
    var writes := [StatManifest, Create(tmp, 0), Sync(0)];
    StepIsSound(f, policy, w, s);
    RunIsSound(f, policy, w1, writes);
    MetaIsWritten(f, policy, w1, g, tmp);
    hide After, Sound, Next, NeverTears, ManifestFile, Tears, ReadsBack;
    PublicationIsRead(f, policy, w1, writes, [], [ReadManifest], g, h);
    run := writes + [Publish] + ([] + [ReadMeta] + [ReadManifest]);
    assert run == [StatManifest, Create(tmp, 0), Sync(0), Publish, ReadMeta, ReadManifest];
    NoFailureNeverTears(f, policy, w1, run);
  }

  lemma MetaIsWritten(f: Format, policy: Policy, w: World, g: nat, tmp: string)
    requires w.writer == Stating(g) && Temporary(tmp)
    ensures var w' := After(f, policy, w, [StatManifest, Create(tmp, 0), Sync(0)]);
            && Publishes(w', g)
            && (MANIFEST in w.files ==> MANIFEST in w'.files && w'.files[MANIFEST] == w.files[MANIFEST])
  {
    RunThree(f, policy, w, StatManifest, Create(tmp, 0), Sync(0));
  }

  lemma {:induction false} NoFailureNeverTears(f: Format, policy: Policy, w: World, run: seq<Step>)
    requires forall s :: s in run ==> !s.Fail?
    ensures NeverTears(f, policy, w, run)
    decreases |run|
  {
    hide Next;
    if run != [] {
      assert run[0] in run && forall s :: s in run[1..] ==> s in run;
      NoFailureNeverTears(f, policy, Next(f, policy, w, run[0]), run[1..]);
    }
  }

  /** A step tears the pair exactly when, after it, a torn pair can come to be accepted. */
  lemma TearingIsExact(f: Format, policy: Policy, w: World, s: Step)
    requires ReadsBack(f) && Separate(f) && Sound(f, w) && Paired(f, w)
    ensures !Tears(f, policy, w, s) <==> KeepsOneIndex(f, policy, Next(f, policy, w, s))
  {
    hide Sound, Paired, Next, After, NeverTears, Separate, ReadsBack, Tears;
    var w1 := Next(f, policy, w, s);
    if Tears(f, policy, w, s) {
      var run := TornPairIsAccepted(f, policy, w, s);
    } else {
      StepIsSound(f, policy, w, s);
      StepIsPaired(f, policy, w, s);
      forall run | NeverTears(f, policy, w1, run)
        ensures var r := After(f, policy, w1, run).reader; Accepts(r) ==> r.meta.generation == r.generation
      {
        AcceptedPairIsOneIndex(f, policy, w1, run);
      }
    }
  }
}
