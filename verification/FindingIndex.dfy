/** The findings index of a run (src/finding_index.rs): three stages write one entry per finding,
    each re-runnable at any time, and each merge keeps what the other stages own. */
module FindingIndex {
  import opened Options

  datatype Entry = Entry(
    artifactPath: string,
    extractorVersion: string,
    orchestratorVersion: Option<string>,
    refinedAt: Option<string>,
    verifiedAt: Option<string>,
    verified: Option<bool>,
    stage2Path: Option<string>)

  datatype MergeMode = PreserveDownstream | PreserveStage2 | PreserveRefinedOnly | Replace

  type Findings = map<string, Entry>

  datatype Index = Index(runId: string, startedAt: string, lastUpdatedAt: string, findings: Findings)

  // ----- the merge -----

  function MergePreserveDownstream(existing: Entry, entry: Entry): Entry {
    Entry(if existing.refinedAt.Some? then existing.artifactPath else entry.artifactPath,
          entry.extractorVersion,
          existing.orchestratorVersion,
          existing.refinedAt,
          existing.verifiedAt,
          existing.verified,
          existing.stage2Path)
  }

  function MergePreserveStage2(existing: Entry, entry: Entry): Entry {
    Entry(entry.artifactPath,
          entry.extractorVersion,
          entry.orchestratorVersion,
          entry.refinedAt,
          existing.verifiedAt,
          existing.verified,
          existing.stage2Path)
  }

  function MergePreserveRefinedOnly(existing: Entry, entry: Entry): Entry {
    Entry(existing.artifactPath,
          existing.extractorVersion,
          existing.orchestratorVersion,
          existing.refinedAt,
          entry.verifiedAt,
          entry.verified,
          entry.stage2Path)
  }

  function MergeIndexEntry(existing: Option<Entry>, entry: Entry, mode: MergeMode): Entry {
    if existing.None? then entry
    else
      match mode
      case Replace => entry
      case PreserveDownstream => MergePreserveDownstream(existing.value, entry)
      case PreserveStage2 => MergePreserveStage2(existing.value, entry)
      case PreserveRefinedOnly => MergePreserveRefinedOnly(existing.value, entry)
  }

  function Lookup(findings: Findings, id: string): Option<Entry> {
    if id in findings then Some(findings[id]) else None
  }

  /** Without an entry, and in the mode that replaces, the new entry is stored as it is. */
  lemma ReplacedWholesale(existing: Option<Entry>, entry: Entry, mode: MergeMode)
    ensures existing == None || mode == Replace ==> MergeIndexEntry(existing, entry, mode) == entry
  {
  }

  // ----- the three stages -----

  /** What a stage knows when it writes its entry. */
  datatype Stage =
    | Extract(version: string)
    | Refine(version: string, orchestrator: string, at: string)
    | Finalize(version: string, at: string, verdict: bool)

  function ArtifactPath(id: string, file: string): string {
    "findings/" + id + "/" + file
  }

  function ExtractedPath(id: string): string { ArtifactPath(id, "stage-1.extracted.json") }
  function RefinedPath(id: string): string { ArtifactPath(id, "stage-1.refined.json") }
  function VerifiedPath(id: string): string { ArtifactPath(id, "stage-2.verified.json") }

  lemma PathsAre(id: string)
    ensures ExtractedPath(id) == "findings/" + id + "/stage-1.extracted.json"
    ensures RefinedPath(id) == "findings/" + id + "/stage-1.refined.json"
    ensures VerifiedPath(id) == "findings/" + id + "/stage-2.verified.json"
  {
    PathIs(id, "stage-1.extracted.json");
    PathIs(id, "stage-1.refined.json");
    PathIs(id, "stage-2.verified.json");
    assert "/" + "stage-1.extracted.json" == "/stage-1.extracted.json";
    assert "/" + "stage-1.refined.json" == "/stage-1.refined.json";
    assert "/" + "stage-2.verified.json" == "/stage-2.verified.json";
    hide ArtifactPath;
  }

  lemma PathIs(id: string, file: string)
    ensures ArtifactPath(id, file) == "findings/" + id + ("/" + file)
  {
  }

  /** The entry a stage hands over, absent fields included. */
  function StageEntry(id: string, s: Stage): Entry {
    match s
    case Extract(version) => Entry(ExtractedPath(id), version, None, None, None, None, None)
    case Refine(version, orchestrator, at) =>
      Entry(RefinedPath(id), version, Some(orchestrator), Some(at), None, None, None)
    case Finalize(version, at, verdict) =>
      Entry("", version, None, None, Some(at), Some(verdict), Some(VerifiedPath(id)))
  }

  function StageMode(s: Stage): MergeMode {
    match s
    case Extract(_) => PreserveDownstream
    case Refine(_, _, _) => PreserveStage2
    case Finalize(_, _, _) => PreserveRefinedOnly
  }

  datatype Call = Call(id: string, stage: Stage, now: string)

  function Merged(findings: Findings, c: Call): Entry {
    MergeIndexEntry(Lookup(findings, c.id), StageEntry(c.id, c.stage), StageMode(c.stage))
  }

  function Apply(findings: Findings, c: Call): Findings {
    findings[c.id := Merged(findings, c)]
  }

  /** The findings after a history of calls, the last call last. */
  function After(history: seq<Call>): Findings
    decreases |history|
  {
    if history == [] then map[] else Apply(After(Before(history)), Last(history))
  }

  function Last(history: seq<Call>): Call
    requires history != []
  {
    history[|history| - 1]
  }

  function Before(history: seq<Call>): seq<Call>
    requires history != []
  {
    history[..|history| - 1]
  }

  // ----- the index file -----

  datatype Fault = NoFault | ReadFails | WriteFails

  /** One run's index on disk. */
  class IndexFile {
    var stored: Option<Index>

    constructor ()
      ensures stored == None
    {
      stored := None;
    }

    /** `upsert_index_entry`: nothing changes on an error; otherwise one entry, the time of the
        update and, for a new index, its name and start. */
    method Upsert(runId: string, id: string, entry: Entry, mode: MergeMode, now: string, fault: Fault)
      returns (r: Result<(), string>)
      modifies this
      ensures r.Err? <==> fault == WriteFails || (fault == ReadFails && old(stored).Some?)
      ensures r.Err? ==> stored == old(stored)
      ensures r.Ok? && old(stored).None? ==> stored == Some(Index(runId, now, now, map[id := entry]))
      ensures r.Ok? && old(stored).Some? ==>
                var idx := old(stored).value;
                var merged := MergeIndexEntry(Lookup(idx.findings, id), entry, mode);
                stored == Some(idx.(lastUpdatedAt := now, findings := idx.findings[id := merged]))
    {
      var idx: Index;
      if stored.Some? {
        if fault == ReadFails { return Err("read index"); }
        idx := stored.value;
      } else {
        idx := Index(runId, now, now, map[]);
      }
      idx := idx.(lastUpdatedAt := now);
      var merged := MergeIndexEntry(Lookup(idx.findings, id), entry, mode);
      idx := idx.(findings := idx.findings[id := merged]);
      if fault == WriteFails { return Err("write index"); }
      stored := Some(idx);
      return Ok(());
    }

    /** A whole history of upserts, some of which fail: the index is that of the calls that
        succeeded, in order. */
    method Replay(runId: string, tries: seq<Try>)
      requires stored == None
      modifies this
      ensures var done := Done(tries);
              && (done == [] ==> stored == None)
              && (done != [] ==> stored == Some(Index(runId, done[0].now, Last(done).now, After(done))))
    {
      hide After;
      NothingAfter();
      for n := 0 to |tries|
        invariant var done := Done(tries[..n]);
                  && (done == [] ==> stored == None)
                  && (done != [] ==> stored == Some(Index(runId, done[0].now, Last(done).now, After(done))))
      {
        var c, fault := tries[n].call, tries[n].fault;
        ghost var done := Done(tries[..n]);
        assert tries[..n + 1][..n] == tries[..n];
        AfterOneMore(done, c);
        var r := Upsert(runId, c.id, StageEntry(c.id, c.stage), StageMode(c.stage), c.now, fault);
        assert Done(tries[..n + 1]) == if r.Ok? then done + [c] else done;
      }
      assert tries[..|tries|] == tries;
    }
  }

  /** An upsert and the fault it meets. */
  datatype Try = Try(call: Call, fault: Fault)

  /** The calls that succeed: a failing read strikes only once there is an index to read. */
  function Done(tries: seq<Try>): seq<Call>
    decreases |tries|
  {
    if tries == [] then []
    else
      var done, t := Done(tries[..|tries| - 1]), tries[|tries| - 1];
      if t.fault == WriteFails || (t.fault == ReadFails && done != []) then done else done + [t.call]
  }

  lemma AfterOneMore(history: seq<Call>, c: Call)
    ensures After(history + [c]) == Apply(After(history), c)
    ensures Last(history + [c]) == c
  {
    assert Before(history + [c]) == history;
  }

  lemma NothingAfter()
    ensures After([]) == map[]
  {
  }

  // ----- what a history promises -----

  /** The last refinement of a finding. */
  function LastRefine(history: seq<Call>, id: string): (s: Option<Stage>)
    ensures s.Some? ==> s.value.Refine?
  {
    if history == [] then None
    else if Last(history).id == id && Last(history).stage.Refine? then Some(Last(history).stage)
    else LastRefine(Before(history), id)
  }

  function LastFinalize(history: seq<Call>, id: string): (s: Option<Stage>)
    ensures s.Some? ==> s.value.Finalize?
  {
    if history == [] then None
    else if Last(history).id == id && Last(history).stage.Finalize? then Some(Last(history).stage)
    else LastFinalize(Before(history), id)
  }

  /** The stage whose extractor version counts: the last extraction or refinement, or else the
      first finalisation, which found no entry to keep. */
  function VersionOf(history: seq<Call>, id: string): Option<string> {
    if history == [] then None
    else if Last(history).id != id then VersionOf(Before(history), id)
    else if !Last(history).stage.Finalize? then Some(Last(history).stage.version)
    else if VersionOf(Before(history), id).Some? then VersionOf(Before(history), id)
    else Some(Last(history).stage.version)
  }

  predicate Ran(history: seq<Call>, id: string, p: Stage -> bool) {
    exists c :: c in history && c.id == id && p(c.stage)
  }

  predicate AnyStage(s: Stage) { true }
  predicate IsExtract(s: Stage) { s.Extract? }
  predicate IsRefine(s: Stage) { s.Refine? }
  predicate IsFinalize(s: Stage) { s.Finalize? }

  /** Each stage owns its fields: an entry says what the last refinement and the last
      finalisation wrote, and points to the refined file as soon as one exists. */
  ghost predicate OwnsFields(history: seq<Call>, id: string, e: Entry) {
    var refined, finalized := LastRefine(history, id), LastFinalize(history, id);
    && e.orchestratorVersion == (if refined.Some? then Some(refined.value.orchestrator) else None)
    && e.refinedAt == (if refined.Some? then Some(refined.value.at) else None)
    && e.verifiedAt == (if finalized.Some? then Some(finalized.value.at) else None)
    && e.verified == (if finalized.Some? then Some(finalized.value.verdict) else None)
    && e.stage2Path == (if finalized.Some? then Some("findings/" + id + "/stage-2.verified.json") else None)
    && Some(e.extractorVersion) == VersionOf(history, id)
    && e.artifactPath == (if Ran(history, id, IsRefine) then "findings/" + id + "/stage-1.refined.json"
                          else if Ran(history, id, IsExtract) then "findings/" + id + "/stage-1.extracted.json"
                          else "")
  }

  lemma RanUnfolds(history: seq<Call>, id: string, p: Stage -> bool)
    requires history != []
    ensures Ran(history, id, p) <==> (Last(history).id == id && p(Last(history).stage)) || Ran(Before(history), id, p)
  {
    assert history == Before(history) + [Last(history)];
  }

  lemma {:induction false} LastRefineRan(history: seq<Call>, id: string)
    ensures LastRefine(history, id).Some? <==> Ran(history, id, IsRefine)
    ensures LastFinalize(history, id).Some? <==> Ran(history, id, IsFinalize)
    decreases |history|
  {
    hide Ran;
    if history == [] {
      NothingRan(id, IsRefine);
      NothingRan(id, IsFinalize);
    } else {
      RanUnfolds(history, id, IsRefine);
      RanUnfolds(history, id, IsFinalize);
      LastRefineRan(Before(history), id);
    }
  }

  lemma NothingRan(id: string, p: Stage -> bool)
    ensures !Ran([], id, p)
  {
  }

  /** The main result: for every history of extractions, refinements and finalisations of any
      findings, in any order, a finding has an entry exactly when some stage ran for it, and
      the entry is the one the stages own. */
  lemma {:induction false} StagesOwnTheirFields(history: seq<Call>, id: string)
    ensures id in After(history) <==> Ran(history, id, AnyStage)
    ensures id in After(history) ==> OwnsFields(history, id, After(history)[id])
    decreases |history|
  {
    hide Ran, ExtractedPath, RefinedPath, VerifiedPath;
    PathsAre(id);
    if history == [] {
      NothingRan(id, AnyStage);
    } else {
      var past, c := Before(history), Last(history);
      StagesOwnTheirFields(past, id);
      RanUnfolds(history, id, AnyStage);
      RanUnfolds(history, id, IsRefine);
      RanUnfolds(history, id, IsExtract);
      LastRefineRan(past, id);
      if c.id == id && id !in After(past) {
        NeverRan(past, id);
      }
    }
  }

  lemma {:induction false} NeverRan(history: seq<Call>, id: string)
    requires !Ran(history, id, AnyStage)
    ensures LastRefine(history, id) == None && LastFinalize(history, id) == None
    ensures VersionOf(history, id) == None
    ensures !Ran(history, id, IsRefine) && !Ran(history, id, IsExtract)
    decreases |history|
  {
    if history != [] {
      RanUnfolds(history, id, AnyStage);
      NeverRan(Before(history), id);
    }
  }

  // ----- consequences -----

  /** Nothing a stage wrote is lost: a field that is set stays set, whatever runs later. */
  ghost predicate KeepsSet(earlier: Entry, later: Entry) {
    && (earlier.orchestratorVersion.Some? ==> later.orchestratorVersion.Some?)
    && (earlier.refinedAt.Some? ==> later.refinedAt.Some?)
    && (earlier.verifiedAt.Some? ==> later.verifiedAt.Some?)
    && (earlier.verified.Some? ==> later.verified.Some?)
    && (earlier.stage2Path.Some? ==> later.stage2Path.Some?)
    && (earlier.artifactPath != "" ==> later.artifactPath != "")
  }

  lemma SetStaysSet(e: Entry)
    ensures KeepsSet(e, e)
  {
  }

  lemma StageKeepsSet(findings: Findings, c: Call, id: string, first: Entry)
    requires id in findings && KeepsSet(first, findings[id])
    ensures id in Apply(findings, c) && KeepsSet(first, Apply(findings, c)[id])
  {
    assert |ExtractedPath(id)| > 0 && |RefinedPath(id)| > 0;
  }

  lemma {:induction false} SetFieldsStaySet(history: seq<Call>, later: seq<Call>, id: string)
    requires id in After(history)
    ensures id in After(history + later) && KeepsSet(After(history)[id], After(history + later)[id])
    decreases |later|
  {
    hide KeepsSet, Apply;
    if later == [] {
      assert history + later == history;
      SetStaysSet(After(history)[id]);
    } else {
      SetFieldsStaySet(history, Before(later), id);
      StageKeepsSet(After(history + Before(later)), Last(later), id, After(history)[id]);
      assert Before(history + later) == history + Before(later) && Last(history + later) == Last(later);
    }
  }

  function For(history: seq<Call>, id: string): seq<Call> {
    if history == [] then []
    else For(Before(history), id) + (if Last(history).id == id then [Last(history)] else [])
  }

  /** A finding's entry depends on the calls for that finding alone. */
  lemma {:induction false} OtherFindingsAreUntouched(history: seq<Call>, id: string)
    ensures Lookup(After(history), id) == Lookup(After(For(history, id)), id)
    decreases |history|
  {
    hide MergeIndexEntry, StageEntry;
    if history != [] {
      OtherFindingsAreUntouched(Before(history), id);
      var mine := For(Before(history), id);
      if Last(history).id == id {
        var c := Last(history);
        assert Before(mine + [c]) == mine && Last(mine + [c]) == c;
        assert After(mine + [c]) == Apply(After(mine), c);
      } else {
        assert For(history, id) == mine + [] == mine;
      }
    }
  }

  /** The sentinel path of a finalisation survives exactly when no other stage ever ran. */
  lemma SentinelSurvivesIff(history: seq<Call>, id: string)
    requires id in After(history)
    ensures After(history)[id].artifactPath == "" <==>
            !Ran(history, id, IsExtract) && !Ran(history, id, IsRefine)
  {
    StagesOwnTheirFields(history, id);
    assert |ExtractedPath(id)| > 0 && |RefinedPath(id)| > 0;
  }
}
