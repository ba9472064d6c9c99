/** The rerun planner of the review gate: a newest-wins collection of jobs over the attempts of a
    run (scripts/ci_codex_review_event.py) feeds the gate decision
    (scripts/ci_codex_review_resume.py). */
module RerunPlan {
  import opened Options
  import opened Text

  datatype Conclusion = Success | Failure | Skipped | Cancelled | TimedOut | ActionRequired | Other(text: string)

  datatype Step = Step(name: string, conclusion: Option<Conclusion>)

  datatype Job = Job(
    name: string,
    id: int,
    runId: int,
    attempt: int,
    headSha: string,
    completed: bool,
    conclusion: Option<Conclusion>,
    steps: seq<Step>)

  datatype Run = Run(id: int, attempt: nat, headSha: string, completed: bool, conclusion: Option<Conclusion>)

  datatype Proof = Proof(sha: string, reviewsComplete: bool, state: string, reason: string)

  datatype Action = NoAction | Review(jobId: int) | Merge(jobId: int)

  // ----- collecting jobs -----

  predicate HasName(jobs: seq<Job>, name: string) {
    exists j :: j in jobs && j.name == name
  }

  /** The checks on a job that attempt `attempt` reports. */
  predicate Authentic(run: Run, attempt: int, j: Job) {
    j.id > 0 && j.attempt > 0 && j.runId == run.id && j.attempt == attempt && j.headSha == run.headSha
  }

  predicate NamesDiffer(jobs: seq<Job>) {
    forall i, k :: 0 <= i < k < |jobs| ==> jobs[i].name != jobs[k].name
  }

  predicate IdsDiffer(jobs: seq<Job>) {
    forall i, k :: 0 <= i < k < |jobs| ==> jobs[i].id != jobs[k].id
  }

  function IdSet(jobs: seq<Job>): set<int> {
    set j | j in jobs :: j.id
  }

  /** The jobs of a row list whose names the newer attempts do not have. */
  function Unseen(rows: seq<Job>, newer: seq<Job>): seq<Job> {
    if rows == [] then []
    else
      var last := rows[|rows| - 1];
      Unseen(rows[..|rows| - 1], newer) + (if HasName(newer, last.name) then [] else [last])
  }

  /** The newest job of each name, from the attempts of a run, oldest first. */
  function Collected(attempts: seq<seq<Job>>): seq<Job> {
    if attempts == [] then []
    else Collected(attempts[1..]) + Unseen(attempts[0], Collected(attempts[1..]))
  }

  function Without(jobs: seq<Job>, name: string): seq<Job> {
    if jobs == [] then []
    else (if jobs[0].name == name then [] else [jobs[0]]) + Without(jobs[1..], name)
  }

  /** `_superseded_placeholder`. */
  predicate SupersededPlaceholder(effective: seq<Job>, category: string) {
    exists p, j :: p in effective && j in effective && Supersedes(j, p) && p.name == category
  }

  /** A matrix child that ran after the skipped, unexpanded job of its category. */
  predicate Supersedes(j: Job, p: Job) {
    p.conclusion == Some(Skipped) && StartsWith(j.name, p.name + " (") && j.attempt > p.attempt
  }

  const ENVIRONMENT := "environment"
  const INSTALL := "install"

  function DropPlaceholder(effective: seq<Job>, category: string): seq<Job> {
    if SupersededPlaceholder(effective, category) then Without(effective, category) else effective
  }

  function Effective(attempts: seq<seq<Job>>): seq<Job> {
    DropPlaceholder(DropPlaceholder(Collected(attempts), ENVIRONMENT), INSTALL)
  }

  ghost predicate AttemptOk(run: Run, attempts: seq<seq<Job>>, k: nat)
    requires k < |attempts|
  {
    && (forall j :: j in attempts[k] ==> Authentic(run, k + 1, j))
    && NamesDiffer(attempts[k]) && IdsDiffer(attempts[k])
    && IdSet(attempts[k]) !! IdsFrom(attempts, k + 1)
  }

  function IdsFrom(attempts: seq<seq<Job>>, n: nat): set<int>
    requires n <= |attempts|
    decreases |attempts| - n
  {
    if n == |attempts| then {} else IdsFrom(attempts, n + 1) + IdSet(attempts[n])
  }

  /** A history the collector takes: every job belongs to the run and to its attempt, names are
      unique in an attempt and identities in the whole run. */
  ghost predicate Accepted(run: Run, attempts: seq<seq<Job>>) {
    run.attempt == |attempts| > 0 && forall k :: 0 <= k < |attempts| ==> AttemptOk(run, attempts, k)
  }

  const PROTOCOL := "protocol"

  /** `_attempt_jobs` and the inner loop of `_jobs`. */
  method AddAttempt(run: Run, attempt: int, rows: seq<Job>, newer: seq<Job>, seen: set<int>)
    returns (r: Result<(seq<Job>, set<int>), string>)
    ensures r.Ok? <==> (forall j :: j in rows ==> Authentic(run, attempt, j))
                       && NamesDiffer(rows) && IdsDiffer(rows) && IdSet(rows) !! seen
    ensures r.Ok? ==> r.value == (newer + Unseen(rows, newer), seen + IdSet(rows))
    ensures r.Err? ==> r.error == PROTOCOL
  {
    hide Authentic, Unseen, HasName;
    for k := 0 to |rows|
      invariant forall i :: 0 <= i < k ==> Authentic(run, attempt, rows[i])
    {
      if !Authentic(run, attempt, rows[k]) { return Err(PROTOCOL); }
    }
    var effective, identities := newer, seen;
    NothingUnseen(newer);
    var names: set<string> := {};
    for k := 0 to |rows|
      invariant names == set j | j in rows[..k] :: j.name
      invariant identities == seen + IdSet(rows[..k])
      invariant NamesDiffer(rows[..k]) && IdsDiffer(rows[..k]) && IdSet(rows[..k]) !! seen
      invariant effective == newer + Unseen(rows[..k], newer)
    {
      var job := rows[k];
      assert rows[..k + 1] == rows[..k] + [job];
      if job.name in names || job.id in identities {
        Repeats(rows, k, seen);
        return Err(PROTOCOL);
      }
      UnseenNames(rows[..k], newer, job.name);
      UnseenAppend(rows[..k], job, newer);
      names := names + {job.name};
      identities := identities + {job.id};
      if !HasName(effective, job.name) { effective := effective + [job]; }
    }
    assert rows[..|rows|] == rows;
    return Ok((effective, identities));
  }

  lemma Repeats(rows: seq<Job>, k: nat, seen: set<int>)
    requires k < |rows|
    requires (exists j :: j in rows[..k] && j.name == rows[k].name) || rows[k].id in seen + IdSet(rows[..k])
    ensures !(NamesDiffer(rows) && IdsDiffer(rows) && IdSet(rows) !! seen)
  {
    assert rows[k] in rows && rows[k].id in IdSet(rows);
    if j :| j in rows[..k] && (j.name == rows[k].name || j.id == rows[k].id) {
      var i :| 0 <= i < k && rows[..k][i] == j;
      assert rows[i] == j;
    }
  }

  lemma NothingUnseen(newer: seq<Job>)
    ensures Unseen([], newer) == []
  {
  }

  lemma UnseenAppend(rows: seq<Job>, job: Job, newer: seq<Job>)
    ensures Unseen(rows + [job], newer) == Unseen(rows, newer) + (if HasName(newer, job.name) then [] else [job])
  {
    hide HasName;
    assert (rows + [job])[..|rows|] == rows;
  }

  lemma {:induction false} UnseenNames(rows: seq<Job>, newer: seq<Job>, name: string)
    requires forall j :: j in rows ==> j.name != name
    ensures HasName(newer + Unseen(rows, newer), name) <==> HasName(newer, name)
  {
    UnseenIsFilter(rows, newer);
    if j :| j in newer && j.name == name {
      assert j in newer + Unseen(rows, newer);
    }
  }

  lemma {:induction false} UnseenIsFilter(rows: seq<Job>, newer: seq<Job>)
    ensures forall j :: j in Unseen(rows, newer) <==> j in rows && !HasName(newer, j.name)
  {
    hide HasName;
    if rows != [] {
      UnseenIsFilter(rows[..|rows| - 1], newer);
      assert rows == rows[..|rows| - 1] + [rows[|rows| - 1]];
    }
  }

  /** `_jobs`: the attempts are read from the newest back to the first. */
  method Jobs(run: Run, attempts: seq<seq<Job>>) returns (r: Result<seq<Job>, string>)
    requires |attempts| == run.attempt
    ensures r.Ok? <==> Accepted(run, attempts)
    ensures r.Ok? ==> r.value == Effective(attempts)
    ensures r.Err? ==> r.error == PROTOCOL
  {
    hide HasName, Unseen, Without, SupersededPlaceholder, Authentic, NamesDiffer, IdsDiffer;
    if run.attempt == 0 { return Err(PROTOCOL); }
    var effective: seq<Job> := [];
    var identities: set<int> := {};
    assert attempts[|attempts|..] == [];
    for n := |attempts| downto 0
      invariant effective == Collected(attempts[n..])
      invariant identities == IdsFrom(attempts, n)
      invariant forall k :: n <= k < |attempts| ==> AttemptOk(run, attempts, k)
    {
      assert attempts[n..][1..] == attempts[n + 1..] && attempts[n..][0] == attempts[n];
      var added := AddAttempt(run, n + 1, attempts[n], effective, identities);
      if added.Err? {
        assert !AttemptOk(run, attempts, n);
        return Err(PROTOCOL);
      }
      effective, identities := added.value.0, added.value.1;
    }
    assert attempts[0..] == attempts;
    for c := 0 to 2
      invariant c == 0 ==> effective == Collected(attempts)
      invariant c == 1 ==> effective == DropPlaceholder(Collected(attempts), ENVIRONMENT)
      invariant c == 2 ==> effective == Effective(attempts)
    {
      var category := if c == 0 then ENVIRONMENT else INSTALL;
      if SupersededPlaceholder(effective, category) {
        effective := Without(effective, category);
      }
    }
    return Ok(effective);
  }

  // ----- what is collected -----

  /** A job of its attempt whose name no later attempt ran again. */
  ghost predicate IsNewest(attempts: seq<seq<Job>>, j: Job) {
    exists k :: NewestAt(attempts, k, j)
  }

  ghost predicate NewestAt(attempts: seq<seq<Job>>, k: int, j: Job) {
    && 0 <= k < |attempts| && j in attempts[k]
    && forall m :: k < m < |attempts| ==> !HasName(attempts[m], j.name)
  }

  lemma HasNameOfMember(jobs: seq<Job>, j: Job)
    requires j in jobs
    ensures HasName(jobs, j.name)
  {
  }

  lemma {:induction false} CollectedNames(attempts: seq<seq<Job>>, name: string)
    ensures HasName(Collected(attempts), name) <==> exists k :: 0 <= k < |attempts| && HasName(attempts[k], name)
  {
    if attempts != [] {
      var newer, first := Collected(attempts[1..]), attempts[0];
      CollectedNames(attempts[1..], name);
      UnseenIsFilter(first, newer);
      if HasName(Collected(attempts), name) {
        var j :| j in Collected(attempts) && j.name == name;
        if j in first { HasNameOfMember(first, j); } else { HasNameOfMember(newer, j); }
        if k :| 0 <= k < |attempts[1..]| && HasName(attempts[1..][k], name) { assert HasName(attempts[k + 1], name); }
      }
      if k :| 0 <= k < |attempts| && HasName(attempts[k], name) {
        if k > 0 {
          assert HasName(attempts[1..][k - 1], name);
        } else if !HasName(newer, name) {
          var j :| j in first && j.name == name;
          assert j in Unseen(first, newer);
        }
        if HasName(newer, name) {
          var j :| j in newer && j.name == name;
          assert j in Collected(attempts);
        }
      }
    }
  }

  lemma {:induction false} CollectedIsNewest(attempts: seq<seq<Job>>, j: Job)
    ensures j in Collected(attempts) <==> IsNewest(attempts, j)
  {
    hide HasName;
    if attempts != [] {
      var rest := attempts[1..];
      CollectedIsNewest(rest, j);
      CollectedNames(rest, j.name);
      UnseenIsFilter(attempts[0], Collected(rest));
      forall k | 0 < k < |attempts| ensures NewestAt(attempts, k, j) <==> NewestAt(rest, k - 1, j) {
        NewestShifts(attempts, k, j);
      }
      if j in Collected(rest) {
        var k :| NewestAt(rest, k, j);
        assert NewestAt(attempts, k + 1, j);
      }
      assert NewestAt(attempts, 0, j) <==> j in attempts[0] && !HasName(Collected(rest), j.name) by {
        NewestFirst(attempts, j);
      }
    }
  }

  lemma NewestFirst(attempts: seq<seq<Job>>, j: Job)
    requires attempts != []
    ensures NewestAt(attempts, 0, j) <==>
            j in attempts[0] && !exists k :: 0 <= k < |attempts[1..]| && HasName(attempts[1..][k], j.name)
  {
    hide HasName;
    var rest := attempts[1..];
    assert forall m :: 0 < m < |attempts| ==> attempts[m] == rest[m - 1];
    if NewestAt(attempts, 0, j) {
      assert forall k :: 0 <= k < |rest| ==> rest[k] == attempts[k + 1];
    }
  }

  lemma NewestShifts(attempts: seq<seq<Job>>, k: int, j: Job)
    requires 0 < k < |attempts|
    ensures NewestAt(attempts, k, j) <==> NewestAt(attempts[1..], k - 1, j)
  {
    hide HasName;
    var rest := attempts[1..];
    assert forall m :: 0 < m < |attempts| ==> attempts[m] == rest[m - 1];
    assert forall m :: 0 <= m < |rest| ==> rest[m] == attempts[m + 1];
  }

  lemma {:induction false} UnseenDiffer(rows: seq<Job>, newer: seq<Job>)
    requires NamesDiffer(rows)
    ensures NamesDiffer(Unseen(rows, newer))
  {
    if rows != [] {
      var front, last := rows[..|rows| - 1], rows[|rows| - 1];
      UnseenDiffer(front, newer);
      UnseenIsFilter(front, newer);
      forall i | 0 <= i < |Unseen(front, newer)| ensures Unseen(front, newer)[i].name != last.name {
        var j := Unseen(front, newer)[i];
        assert j in Unseen(front, newer);
        assert j in front;
      }
    }
  }

  lemma {:induction false} CollectedDiffer(attempts: seq<seq<Job>>)
    requires forall k :: 0 <= k < |attempts| ==> NamesDiffer(attempts[k])
    ensures NamesDiffer(Collected(attempts))
  {
    if attempts != [] {
      var newer, added := Collected(attempts[1..]), Unseen(attempts[0], Collected(attempts[1..]));
      CollectedDiffer(attempts[1..]);
      UnseenDiffer(attempts[0], newer);
      UnseenIsFilter(attempts[0], newer);
      forall i, k | 0 <= i < |newer| && 0 <= k < |added| ensures newer[i].name != added[k].name {
        assert added[k] in added && newer[i] in newer;
      }
    }
  }

  lemma {:induction false} WithoutIsFilter(jobs: seq<Job>, name: string)
    ensures forall j :: j in Without(jobs, name) <==> j in jobs && j.name != name
    ensures NamesDiffer(jobs) ==> NamesDiffer(Without(jobs, name))
  {
    if jobs != [] {
      WithoutIsFilter(jobs[1..], name);
      var rest := Without(jobs[1..], name);
      if NamesDiffer(jobs) {
        forall i | 0 <= i < |rest| ensures rest[i].name != jobs[0].name {
          assert rest[i] in rest && rest[i] in jobs[1..];
        }
      }
    }
  }

  /** A skipped placeholder that a newer child of its category replaces. */
  ghost predicate Replaced(attempts: seq<seq<Job>>, p: Job) {
    && (p.name == ENVIRONMENT || p.name == INSTALL)
    && exists j :: IsNewest(attempts, j) && Supersedes(j, p)
  }

  lemma CategoriesAreApart()
    ensures ENVIRONMENT != INSTALL
    ensures forall j: Job, p: Job :: p.name == INSTALL && Supersedes(j, p) ==> j.name != ENVIRONMENT
  {
    assert ENVIRONMENT[0] != INSTALL[0];
    forall j: Job, p: Job | p.name == INSTALL && Supersedes(j, p) ensures j.name != ENVIRONMENT {
      assert j.name[..|INSTALL + " ("|][0] == 'i';
    }
  }

  lemma DropIsFilter(jobs: seq<Job>, category: string)
    requires NamesDiffer(jobs)
    ensures NamesDiffer(DropPlaceholder(jobs, category))
    ensures forall p :: p in DropPlaceholder(jobs, category) <==>
              p in jobs && !(p.name == category && exists j :: j in jobs && Supersedes(j, p))
  {
    hide Supersedes;
    WithoutIsFilter(jobs, category);
    if SupersededPlaceholder(jobs, category) {
      var p, j :| p in jobs && j in jobs && Supersedes(j, p) && p.name == category;
      forall q | q in jobs && q.name == category ensures q == p {
        var i :| 0 <= i < |jobs| && jobs[i] == q;
        var k :| 0 <= k < |jobs| && jobs[k] == p;
        assert i == k;
      }
    }
  }

  /** The effective list of an accepted history has one job per name: exactly the newest job of
      each name, except skipped placeholders that newer children replace. */
  lemma EffectiveIsNewest(run: Run, attempts: seq<seq<Job>>)
    requires Accepted(run, attempts)
    ensures NamesDiffer(Effective(attempts))
    ensures forall j :: j in Effective(attempts) <==> IsNewest(attempts, j) && !Replaced(attempts, j)
  {
    hide NamesDiffer, Supersedes, HasName, DropPlaceholder, Collected, IsNewest;
    forall k | 0 <= k < |attempts| ensures NamesDiffer(attempts[k]) {
      assert AttemptOk(run, attempts, k);
    }
    CollectedDiffer(attempts);
    var all := Collected(attempts);
    var some := DropPlaceholder(all, ENVIRONMENT);
    forall j ensures j in all <==> IsNewest(attempts, j) { CollectedIsNewest(attempts, j); }
    DropIsFilter(all, ENVIRONMENT);
    DropIsFilter(some, INSTALL);
    CategoriesAreApart();
    forall p | p in all && p.name == INSTALL
      ensures (exists j :: j in some && Supersedes(j, p)) <==> exists j :: j in all && Supersedes(j, p)
    {
      if j :| j in all && Supersedes(j, p) {
        assert j.name != ENVIRONMENT;
        assert j in some;
      }
    }
  }

  // ----- the gate decision -----

  const BASE_CATEGORIES := ["contract", "unit", "regression", "e2e"]
  const ENVIRONMENTS := ["environment (ubuntu-latest)", "environment (macos-latest)", "environment (windows-latest)"]
  const INSTALLS := ["install (ubuntu-latest)", "install (macos-latest)", "install (windows-latest)"]
  const PREREQUISITES := BASE_CATEGORIES + ENVIRONMENTS + INSTALLS
  const READINESS := "Require completed Codex reviews"
  const MERGE_STEP := "Require complete Codex reviews"
  const REVIEW := "review"
  const MERGE := "merge"
  const PENDING := "merge pending review"

  type Indexed = map<string, Job>

  predicate Succeeded(j: Job) {
    j.completed && j.conclusion == Some(Success)
  }

  /** `_success(indexed.get(name, {}))`. */
  predicate NameSucceeded(indexed: Indexed, name: string) {
    name in indexed && Succeeded(indexed[name])
  }

  function FailedSteps(steps: seq<Step>): seq<string> {
    if steps == [] then []
    else (if steps[0].conclusion == Some(Failure) then [steps[0].name] else []) + FailedSteps(steps[1..])
  }

  predicate Settled(c: Option<Conclusion>) {
    c == Some(Success) || c == Some(Failure) || c == Some(Skipped)
  }

  /** `_waited`: the job failed at the named step and nowhere else. */
  predicate Waited(j: Job, step: string) {
    var failed := FailedSteps(j.steps);
    && j.completed && j.conclusion == Some(Failure)
    && |failed| == 1 && failed[0] == step
    && forall s :: s in j.steps ==> Settled(s.conclusion)
  }

  predicate CategoryRepairable(indexed: Indexed, category: string, expanded: seq<string>) {
    if category in indexed then
      indexed[category].conclusion == Some(Skipped) && forall n :: n in expanded ==> n !in indexed
    else forall n :: n in expanded ==> n in indexed
  }

  /** `_repair_dependencies`. */
  predicate RepairDependencies(indexed: Indexed) {
    && (forall n :: n in BASE_CATEGORIES ==> n in indexed)
    && (forall n :: n in indexed ==> indexed[n].completed && Settled(indexed[n].conclusion))
    && CategoryRepairable(indexed, ENVIRONMENT, ENVIRONMENTS)
    && CategoryRepairable(indexed, INSTALL, INSTALLS)
  }

  /** `_green_wait`. */
  predicate GreenWait(indexed: Indexed) {
    && MERGE !in indexed
    && NameSucceeded(indexed, PENDING)
    && NameSucceeded(indexed, REVIEW)
    && (forall n :: n in PREREQUISITES ==> NameSucceeded(indexed, n))
    && (forall n :: n in indexed ==> Quiet(indexed[n].conclusion))
  }

  predicate Quiet(c: Option<Conclusion>) {
    c == Some(Success) || c == Some(Skipped)
  }

  predicate Failing(c: Option<Conclusion>) {
    c == Some(Failure) || c == Some(Cancelled) || c == Some(TimedOut) || c == Some(ActionRequired)
  }

  /** `_complete_inputs`. */
  predicate CompleteInputs(run: Run, proof: Proof, sha: string) {
    && run.completed && (run.conclusion == Some(Failure) || run.conclusion == Some(Success))
    && run.headSha == sha && proof.sha == sha && proof.reviewsComplete
    && ((proof.state == "success" && proof.reason == "reviews_complete")
        || (proof.state == "blocked" && proof.reason == "review_unresolved"))
  }

  predicate Indexable(jobs: seq<Job>) {
    NamesDiffer(jobs) && IdsDiffer(jobs) && forall j :: j in jobs ==> j.id > 0
  }

  function ByName(jobs: seq<Job>): Indexed {
    if jobs == [] then map[] else ByName(jobs[..|jobs| - 1])[jobs[|jobs| - 1].name := jobs[|jobs| - 1]]
  }

  lemma ByNameAppend(jobs: seq<Job>, job: Job)
    ensures ByName(jobs + [job]) == ByName(jobs)[job.name := job]
    ensures ByName([]) == map[]
  {
    assert (jobs + [job])[..|jobs|] == jobs;
  }

  lemma IndexableAppend(jobs: seq<Job>, job: Job)
    requires Indexable(jobs)
    ensures Indexable(jobs + [job]) <==>
            (forall j :: j in jobs ==> j.name != job.name) && job.id !in IdSet(jobs) && job.id > 0
  {
    var all := jobs + [job];
    if Indexable(all) {
      assert job in all;
      forall j | j in jobs ensures j.name != job.name && j.id != job.id {
        var i :| 0 <= i < |jobs| && jobs[i] == j;
        assert all[i] == j && all[|jobs|] == job;
      }
    }
  }

  lemma IndexablePrefix(jobs: seq<Job>, k: nat)
    requires k <= |jobs| && Indexable(jobs)
    ensures Indexable(jobs[..k])
  {
  }

  /** `_index`. */
  method Index(jobs: seq<Job>) returns (r: Option<Indexed>)
    ensures r.Some? <==> Indexable(jobs)
    ensures r.Some? ==> r.value == ByName(jobs)
  {
    hide Indexable, ByName;
    var indexed: Indexed := map[];
    var identities: set<int> := {};
    NothingIndexed();
    for k := 0 to |jobs|
      invariant Indexable(jobs[..k]) && identities == IdSet(jobs[..k])
      invariant indexed == ByName(jobs[..k]) && indexed.Keys == set j | j in jobs[..k] :: j.name
    {
      var job := jobs[k];
      assert jobs[..k + 1] == jobs[..k] + [job];
      IndexableAppend(jobs[..k], job);
      ByNameAppend(jobs[..k], job);
      if job.name in indexed || job.id <= 0 || job.id in identities {
        if Indexable(jobs) { IndexablePrefix(jobs, k + 1); }
        return None;
      }
      indexed := indexed[job.name := job];
      identities := identities + {job.id};
    }
    assert jobs[..|jobs|] == jobs;
    return Some(indexed);
  }

  lemma NothingIndexed()
    ensures Indexable([]) && ByName([]) == map[]
  {
  }

  /** `resumption_plan`. */
  function ResumptionPlan(run: Run, jobs: seq<Job>, proof: Proof, sha: string): Action {
    if !CompleteInputs(run, proof, sha) || !Indexable(jobs) then NoAction
    else
      var indexed := ByName(jobs);
      if run.conclusion == Some(Success) then
        if GreenWait(indexed) then Review(indexed[REVIEW].id) else NoAction
      else if REVIEW in indexed && Waited(indexed[REVIEW], READINESS) && RepairDependencies(indexed) then
        Review(indexed[REVIEW].id)
      else if exists n :: n in PREREQUISITES && !NameSucceeded(indexed, n) then NoAction
      else if exists n :: n in indexed && n != REVIEW && n != MERGE && Failing(indexed[n].conclusion) then NoAction
      else if NameSucceeded(indexed, REVIEW) && MERGE in indexed && Waited(indexed[MERGE], MERGE_STEP)
              && proof.state == "success" then
        Merge(indexed[MERGE].id)
      else NoAction
  }

  function Selected(jobs: seq<Job>, id: int): seq<Job> {
    if jobs == [] then [] else (if jobs[0].id == id then [jobs[0]] else []) + Selected(jobs[1..], id)
  }

  /** `_plan`: the picked job must be unique and belong to the current attempt. */
  function Plan(run: Run, jobs: seq<Job>, proof: Proof, sha: string): Action {
    var action := ResumptionPlan(run, jobs, proof, sha);
    if action.NoAction? then NoAction
    else
      var selected := Selected(jobs, action.jobId);
      if |selected| != 1 || selected[0].attempt != run.attempt then NoAction else action
  }

  // ----- what a plan means -----

  lemma {:induction false} ByNameFinds(jobs: seq<Job>)
    requires NamesDiffer(jobs)
    ensures forall n :: n in ByName(jobs) ==> ByName(jobs)[n] in jobs && ByName(jobs)[n].name == n
    ensures forall j :: j in jobs ==> j.name in ByName(jobs) && ByName(jobs)[j.name] == j
  {
    if jobs != [] {
      var front, last := jobs[..|jobs| - 1], jobs[|jobs| - 1];
      ByNameFinds(front);
      forall j | j in jobs ensures j.name in ByName(jobs) && ByName(jobs)[j.name] == j {
        var i :| 0 <= i < |jobs| && jobs[i] == j;
        if i < |jobs| - 1 { assert front[i] == j && j.name != last.name; }
      }
    }
  }

  lemma {:induction false} SelectedIsOne(jobs: seq<Job>, j: Job)
    requires IdsDiffer(jobs) && j in jobs
    ensures Selected(jobs, j.id) == [j]
  {
    if jobs[0] == j {
      NothingSelected(jobs[1..], j.id);
    } else {
      var i :| 0 <= i < |jobs| && jobs[i] == j;
      assert jobs[1..][i - 1] == j;
      SelectedIsOne(jobs[1..], j);
    }
  }

  lemma {:induction false} NothingSelected(jobs: seq<Job>, id: int)
    requires forall i :: 0 <= i < |jobs| ==> jobs[i].id != id
    ensures Selected(jobs, id) == []
  {
    if jobs != [] { NothingSelected(jobs[1..], id); }
  }

  lemma {:induction false} FailedStepsCount(steps: seq<Step>, step: string)
    ensures (|FailedSteps(steps)| == 1 && FailedSteps(steps)[0] == step) <==>
            exists i :: 0 <= i < |steps| && FailsOnly(steps, i) && steps[i].name == step
    ensures FailedSteps(steps) == [] <==> forall i :: 0 <= i < |steps| ==> steps[i].conclusion != Some(Failure)
  {
    if steps != [] {
      var rest := steps[1..];
      FailedStepsCount(rest, step);
      assert forall i :: 0 < i < |steps| ==> steps[i] == rest[i - 1];
      assert forall i :: 0 <= i < |rest| ==> rest[i] == steps[i + 1];
      forall i | 0 < i < |steps| && steps[0].conclusion != Some(Failure)
        ensures FailsOnly(steps, i) <==> FailsOnly(rest, i - 1)
      {
      }
      if steps[0].conclusion != Some(Failure) {
        if i :| 0 <= i < |rest| && FailsOnly(rest, i) && rest[i].name == step {
          assert FailsOnly(steps, i + 1);
        }
      } else {
        assert FailedSteps(rest) == [] <==> FailsOnly(steps, 0);
      }
    }
  }

  ghost predicate FailsOnly(steps: seq<Step>, i: int)
    requires 0 <= i < |steps|
  {
    forall k :: 0 <= k < |steps| ==> (steps[k].conclusion == Some(Failure) <==> k == i)
  }

  /** A job waited for a step exactly when it failed, that step is its only failed one and all
      others succeeded or were skipped. */
  lemma WaitedIsExact(j: Job, step: string)
    ensures Waited(j, step) <==>
            && j.completed && j.conclusion == Some(Failure)
            && exists i :: 0 <= i < |j.steps| && j.steps[i].name == step && FailsOnly(j.steps, i)
                           && forall k :: 0 <= k < |j.steps| && k != i ==> Quiet(j.steps[k].conclusion)
  {
    FailedStepsCount(j.steps, step);
    if Waited(j, step) {
      var i :| 0 <= i < |j.steps| && FailsOnly(j.steps, i) && j.steps[i].name == step;
      forall k | 0 <= k < |j.steps| && k != i ensures Quiet(j.steps[k].conclusion) {
        assert j.steps[k] in j.steps;
      }
    }
  }

  lemma {:induction false} NewestIdsDiffer(run: Run, attempts: seq<seq<Job>>)
    requires Accepted(run, attempts)
    ensures forall i, k :: IsNewest(attempts, i) && IsNewest(attempts, k) && i.id == k.id ==> i == k
    ensures forall j :: IsNewest(attempts, j) ==> j.id > 0
  {
    forall i, k | IsNewest(attempts, i) && IsNewest(attempts, k) && i.id == k.id ensures i == k {
      var a :| NewestAt(attempts, a, i);
      var b :| NewestAt(attempts, b, k);
      assert AttemptOk(run, attempts, a) && AttemptOk(run, attempts, b);
      assert i.id in IdSet(attempts[a]) && k.id in IdSet(attempts[b]);
      if a < b { IdsFromHas(attempts, a + 1, b, k); }
      if b < a { IdsFromHas(attempts, b + 1, a, i); }
    }
    forall j | IsNewest(attempts, j) ensures j.id > 0 {
      var a :| NewestAt(attempts, a, j);
      assert AttemptOk(run, attempts, a);
    }
  }

  lemma {:induction false} IdsFromHas(attempts: seq<seq<Job>>, n: nat, k: nat, j: Job)
    requires n <= k < |attempts| && j in attempts[k]
    ensures j.id in IdsFrom(attempts, n)
    decreases k - n
  {
    if n < k { IdsFromHas(attempts, n + 1, k, j); }
  }

  /** What the collector accepts, the planner can index. */
  lemma AcceptedIsIndexable(run: Run, attempts: seq<seq<Job>>)
    requires Accepted(run, attempts)
    ensures Indexable(Effective(attempts))
  {
    hide Accepted, Effective, IsNewest, Replaced;
    EffectiveIsNewest(run, attempts);
    NewestIdsDiffer(run, attempts);
    var jobs := Effective(attempts);
    forall i, k | 0 <= i < k < |jobs| ensures jobs[i].id != jobs[k].id {
      assert jobs[i] in jobs && jobs[k] in jobs;
    }
  }

  /** The newest execution of a job succeeded. */
  ghost predicate NewestSucceeded(attempts: seq<seq<Job>>, name: string) {
    exists j :: IsNewest(attempts, j) && j.name == name && Succeeded(j)
  }

  ghost predicate ProofFor(run: Run, proof: Proof, sha: string) {
    run.completed && run.headSha == sha && proof.sha == sha && proof.reviewsComplete
  }

  /** Outside the two gates themselves the job did not fail. */
  predicate NoOtherFailure(j: Job) {
    j.name != REVIEW && j.name != MERGE ==> !Failing(j.conclusion)
  }

  predicate IsQuiet(j: Job) {
    Quiet(j.conclusion)
  }

  ghost predicate AllIndexed(m: Indexed, ok: Job -> bool) {
    forall n :: n in m ==> ok(m[n])
  }

  ghost predicate AllNewest(attempts: seq<seq<Job>>, ok: Job -> bool) {
    forall j :: IsNewest(attempts, j) ==> ok(j)
  }

  /** A merge is due: the run failed, its proof is a success for the same head, every
      prerequisite and the review last ran green, nothing else last failed, and in the current
      attempt the merge job waited for reviews and for nothing else. */
  ghost predicate MergeDue(run: Run, attempts: seq<seq<Job>>, proof: Proof, sha: string, id: int)
    requires attempts != []
  {
    && ProofFor(run, proof, sha) && run.conclusion == Some(Failure)
    && proof.state == "success" && proof.reason == "reviews_complete"
    && (forall n :: n in PREREQUISITES ==> NewestSucceeded(attempts, n))
    && NewestSucceeded(attempts, REVIEW)
    && AllNewest(attempts, NoOtherFailure)
    && exists g :: g in attempts[|attempts| - 1] && g.name == MERGE && g.id == id && Waited(g, MERGE_STEP)
  }

  lemma NamesAreApart()
    ensures REVIEW != MERGE
    ensures forall n :: n in PREREQUISITES + [REVIEW, MERGE, PENDING] ==> n != ENVIRONMENT && n != INSTALL
  {
  }

  lemma CurrentIsNewest(attempts: seq<seq<Job>>, j: Job)
    requires attempts != [] && j in attempts[|attempts| - 1]
    ensures IsNewest(attempts, j)
  {
    assert NewestAt(attempts, |attempts| - 1, j);
  }

  lemma NewestOfCurrent(run: Run, attempts: seq<seq<Job>>, j: Job)
    requires Accepted(run, attempts) && IsNewest(attempts, j)
    ensures j.attempt == run.attempt <==> j in attempts[|attempts| - 1]
  {
    var k :| NewestAt(attempts, k, j);
    assert AttemptOk(run, attempts, k);
    assert AttemptOk(run, attempts, |attempts| - 1);
  }

  /** Looking a name up in the effective list. */
  lemma LookupIsNewest(run: Run, attempts: seq<seq<Job>>, name: string)
    requires Accepted(run, attempts)
    ensures var m := ByName(Effective(attempts));
            && (name in m ==> IsNewest(attempts, m[name]) && !Replaced(attempts, m[name]) && m[name].name == name)
            && (forall j :: IsNewest(attempts, j) && !Replaced(attempts, j) && j.name == name ==>
                  name in m && m[name] == j)
  {
    hide Accepted, Effective, IsNewest, Replaced, NamesDiffer, ByName;
    EffectiveIsNewest(run, attempts);
    ByNameFinds(Effective(attempts));
  }

  lemma NameSucceededIffNewest(run: Run, attempts: seq<seq<Job>>, name: string)
    requires Accepted(run, attempts) && name != ENVIRONMENT && name != INSTALL
    ensures NameSucceeded(ByName(Effective(attempts)), name) <==> NewestSucceeded(attempts, name)
  {
    hide Accepted, Effective, IsNewest, ByName;
    LookupIsNewest(run, attempts, name);
  }

  /** A plan is what the policy says, provided the picked job is of the current attempt. */
  lemma PlanPicksCurrent(run: Run, attempts: seq<seq<Job>>, proof: Proof, sha: string)
    requires Accepted(run, attempts)
    ensures var jobs := Effective(attempts);
            var action := ResumptionPlan(run, jobs, proof, sha);
            var name := if action.Review? then REVIEW else MERGE;
            Plan(run, jobs, proof, sha) ==
            if action.NoAction? || (name in ByName(jobs) && ByName(jobs)[name] !in attempts[|attempts| - 1])
            then NoAction else action
  {
    hide GreenWait, RepairDependencies, CompleteInputs, NameSucceeded, Waited, Failing, Accepted, Effective,
         IsNewest, Replaced, Selected, ByName;
    var jobs := Effective(attempts);
    var action := ResumptionPlan(run, jobs, proof, sha);
    AcceptedIsIndexable(run, attempts);
    if !action.NoAction? {
      var name := if action.Review? then REVIEW else MERGE;
      ActionNames(run, jobs, proof, sha);
      var j := ByName(jobs)[name];
      ByNameFinds(jobs);
      SelectedIsOne(jobs, j);
      LookupIsNewest(run, attempts, name);
      NewestOfCurrent(run, attempts, j);
    }
  }

  lemma ActionNames(run: Run, jobs: seq<Job>, proof: Proof, sha: string)
    ensures var action := ResumptionPlan(run, jobs, proof, sha);
            && (action.Review? ==> REVIEW in ByName(jobs) && action.jobId == ByName(jobs)[REVIEW].id)
            && (action.Merge? ==> MERGE in ByName(jobs) && action.jobId == ByName(jobs)[MERGE].id)
            && (!action.NoAction? ==> Indexable(jobs))
  {
    hide RepairDependencies, CompleteInputs, Waited, Failing, ByName, Indexable;
  }

  /** The conditions of a merge over the indexed jobs. */
  ghost predicate MergeIndexed(run: Run, m: Indexed, proof: Proof, sha: string, id: int) {
    && ProofFor(run, proof, sha) && run.conclusion == Some(Failure)
    && proof.state == "success" && proof.reason == "reviews_complete"
    && (forall n :: n in PREREQUISITES ==> NameSucceeded(m, n))
    && NameSucceeded(m, REVIEW)
    && AllIndexed(m, NoOtherFailure)
    && MERGE in m && m[MERGE].id == id && Waited(m[MERGE], MERGE_STEP)
  }

  lemma SuccessIsNoWait(j: Job, step: string)
    ensures !(Succeeded(j) && Waited(j, step))
  {
  }

  lemma ProofStates(proof: Proof)
    requires proof.state == "success"
    ensures proof.state != "blocked"
  {
  }

  lemma NoOtherFailureIndexed(jobs: seq<Job>)
    requires Indexable(jobs)
    ensures var m := ByName(jobs);
            AllIndexed(m, NoOtherFailure) <==>
            !exists n :: n in m && n != REVIEW && n != MERGE && Failing(m[n].conclusion)
  {
    hide ByName, Failing;
    ByNameFinds(jobs);
  }

  lemma MergePlanned(run: Run, jobs: seq<Job>, proof: Proof, sha: string, id: int)
    requires Indexable(jobs)
    ensures ResumptionPlan(run, jobs, proof, sha) == Merge(id) <==> MergeIndexed(run, ByName(jobs), proof, sha, id)
  {
    hide RepairDependencies, GreenWait, Waited, Failing, ByName, Indexable, Succeeded, AllIndexed, NoOtherFailure;
    var m := ByName(jobs);
    NoOtherFailureIndexed(jobs);
    if REVIEW in m { SuccessIsNoWait(m[REVIEW], READINESS); }
    if proof.state == "success" { ProofStates(proof); }
  }

  lemma NotReplaced(attempts: seq<seq<Job>>, name: string)
    requires name != ENVIRONMENT && name != INSTALL
    ensures forall j: Job :: j.name == name ==> !Replaced(attempts, j)
  {
  }

  lemma ReplacedIsSkipped(attempts: seq<seq<Job>>, p: Job)
    requires Replaced(attempts, p)
    ensures p.conclusion == Some(Skipped)
  {
  }

  /** A condition that a skipped job meets holds of the effective list when it holds of the
      newest jobs. */
  lemma IndexedIffNewest(run: Run, attempts: seq<seq<Job>>, ok: Job -> bool)
    requires Accepted(run, attempts)
    requires forall j: Job :: j.conclusion == Some(Skipped) ==> ok(j)
    ensures AllIndexed(ByName(Effective(attempts)), ok) ==> AllNewest(attempts, ok)
    ensures AllNewest(attempts, ok) ==> AllIndexed(ByName(Effective(attempts)), ok)
  {
    hide Accepted, Effective, IsNewest, Replaced, ByName;
    var m := ByName(Effective(attempts));
    if AllIndexed(m, ok) {
      forall j | IsNewest(attempts, j) ensures ok(j) {
        if Replaced(attempts, j) { ReplacedIsSkipped(attempts, j); } else { LookupIsNewest(run, attempts, j.name); }
      }
    }
    if AllNewest(attempts, ok) {
      forall n | n in m ensures ok(m[n]) {
        LookupIsNewest(run, attempts, n);
      }
    }
  }

  /** The planner asks for a merge exactly when one is due. */
  lemma MergePlanIffDue(run: Run, attempts: seq<seq<Job>>, proof: Proof, sha: string, id: int)
    requires Accepted(run, attempts)
    ensures Plan(run, Effective(attempts), proof, sha) == Merge(id) <==> MergeDue(run, attempts, proof, sha, id)
  {
    hide Plan, ResumptionPlan, NameSucceeded, NewestSucceeded, Waited, Effective, IsNewest, Replaced, ByName,
         NamesDiffer, PREREQUISITES, ProofFor, AllNewest, AllIndexed;
    var m := ByName(Effective(attempts));
    AcceptedIsIndexable(run, attempts);
    PlanPicksCurrent(run, attempts, proof, sha);
    MergePlanned(run, Effective(attempts), proof, sha, id);
    NamesAreApart();
    forall n | n in PREREQUISITES + [REVIEW, MERGE, PENDING]
      ensures NameSucceeded(m, n) <==> NewestSucceeded(attempts, n)
    {
      NameSucceededIffNewest(run, attempts, n);
    }
    IndexedIffNewest(run, attempts, NoOtherFailure);
    LookupIsNewest(run, attempts, MERGE);
    NotReplaced(attempts, MERGE);
    forall g | g in attempts[|attempts| - 1] ensures IsNewest(attempts, g) { CurrentIsNewest(attempts, g); }
  }

  /** No job of this name counts: none ran, or it is a placeholder that children replace. */
  ghost predicate Absent(attempts: seq<seq<Job>>, name: string) {
    forall j :: IsNewest(attempts, j) && j.name == name ==> Replaced(attempts, j)
  }

  /** A matrix category is ready for repair: only its skipped placeholder counts, or all of its
      children do. */
  ghost predicate CategoryReady(attempts: seq<seq<Job>>, category: string, expanded: seq<string>) {
    if Absent(attempts, category) then forall n :: n in expanded ==> !Absent(attempts, n)
    else
      && (forall p :: IsNewest(attempts, p) && !Replaced(attempts, p) && p.name == category ==>
            p.conclusion == Some(Skipped))
      && forall n :: n in expanded ==> Absent(attempts, n)
  }

  ghost predicate RepairReady(attempts: seq<seq<Job>>) {
    && (forall n :: n in BASE_CATEGORIES ==> !Absent(attempts, n))
    && (forall j :: IsNewest(attempts, j) && !Replaced(attempts, j) ==> j.completed && Settled(j.conclusion))
    && CategoryReady(attempts, ENVIRONMENT, ENVIRONMENTS)
    && CategoryReady(attempts, INSTALL, INSTALLS)
  }

  ghost predicate AllGreen(attempts: seq<seq<Job>>) {
    && Absent(attempts, MERGE)
    && NewestSucceeded(attempts, PENDING) && NewestSucceeded(attempts, REVIEW)
    && (forall n :: n in PREREQUISITES ==> NewestSucceeded(attempts, n))
    && AllNewest(attempts, IsQuiet)
  }

  /** A review is due: either the run is green and waits for a pending review, or it failed, the
      review job waited and the tests it repairs have all finished. */
  ghost predicate ReviewDue(run: Run, attempts: seq<seq<Job>>, proof: Proof, sha: string, id: int)
    requires attempts != []
  {
    && CompleteInputs(run, proof, sha)
    && exists g :: g in attempts[|attempts| - 1] && g.name == REVIEW && g.id == id
                   && if run.conclusion == Some(Success) then AllGreen(attempts)
                      else Waited(g, READINESS) && RepairReady(attempts)
  }

  lemma PresentIffCounts(run: Run, attempts: seq<seq<Job>>, name: string)
    requires Accepted(run, attempts)
    ensures name in ByName(Effective(attempts)) <==> !Absent(attempts, name)
  {
    hide Accepted, Effective, IsNewest, Replaced, ByName;
    LookupIsNewest(run, attempts, name);
  }

  lemma CategoryRepairableIffReady(run: Run, attempts: seq<seq<Job>>, category: string, expanded: seq<string>)
    requires Accepted(run, attempts)
    ensures CategoryRepairable(ByName(Effective(attempts)), category, expanded) <==>
            CategoryReady(attempts, category, expanded)
  {
    hide Accepted, Effective, IsNewest, Replaced, ByName, Absent;
    LookupIsNewest(run, attempts, category);
    PresentIffCounts(run, attempts, category);
    forall n | n in expanded ensures n in ByName(Effective(attempts)) <==> !Absent(attempts, n) {
      PresentIffCounts(run, attempts, n);
    }
  }

  lemma RepairIffReady(run: Run, attempts: seq<seq<Job>>)
    requires Accepted(run, attempts)
    ensures RepairDependencies(ByName(Effective(attempts))) <==> RepairReady(attempts)
  {
    hide Accepted, Effective, IsNewest, Replaced, ByName, Absent, CategoryReady, CategoryRepairable,
         NamesDiffer, BASE_CATEGORIES;
    var m := ByName(Effective(attempts));
    CategoryRepairableIffReady(run, attempts, ENVIRONMENT, ENVIRONMENTS);
    CategoryRepairableIffReady(run, attempts, INSTALL, INSTALLS);
    forall n | n in BASE_CATEGORIES ensures n in m <==> !Absent(attempts, n) {
      PresentIffCounts(run, attempts, n);
    }
    EffectiveIsNewest(run, attempts);
    ByNameFinds(Effective(attempts));
    if forall n :: n in m ==> m[n].completed && Settled(m[n].conclusion) {
      forall j | IsNewest(attempts, j) && !Replaced(attempts, j) ensures j.completed && Settled(j.conclusion) {
        assert m[j.name] == j;
      }
    }
  }

  lemma GreenIff(run: Run, attempts: seq<seq<Job>>)
    requires Accepted(run, attempts)
    ensures GreenWait(ByName(Effective(attempts))) <==> AllGreen(attempts)
  {
    hide Accepted, Effective, IsNewest, Replaced, ByName, Absent, NameSucceeded, NewestSucceeded, PREREQUISITES;
    var m := ByName(Effective(attempts));
    PresentIffCounts(run, attempts, MERGE);
    NamesAreApart();
    forall n | n in PREREQUISITES + [REVIEW, MERGE, PENDING]
      ensures NameSucceeded(m, n) <==> NewestSucceeded(attempts, n)
    {
      NameSucceededIffNewest(run, attempts, n);
    }
    IndexedIffNewest(run, attempts, IsQuiet);
  }

  lemma ReviewPlanned(run: Run, jobs: seq<Job>, proof: Proof, sha: string, id: int)
    requires Indexable(jobs)
    ensures var m := ByName(jobs);
            ResumptionPlan(run, jobs, proof, sha) == Review(id) <==>
            && CompleteInputs(run, proof, sha) && REVIEW in m && m[REVIEW].id == id
            && if run.conclusion == Some(Success) then GreenWait(m)
               else Waited(m[REVIEW], READINESS) && RepairDependencies(m)
  {
    hide RepairDependencies, CompleteInputs, Waited, Failing, ByName, Indexable, PREREQUISITES, Succeeded;
  }

  /** The planner asks for a review exactly when one is due. */
  lemma ReviewPlanIffDue(run: Run, attempts: seq<seq<Job>>, proof: Proof, sha: string, id: int)
    requires Accepted(run, attempts)
    ensures Plan(run, Effective(attempts), proof, sha) == Review(id) <==> ReviewDue(run, attempts, proof, sha, id)
  {
    hide Plan, ResumptionPlan, CompleteInputs, Waited, Effective, IsNewest, Replaced, ByName, NamesDiffer, GreenWait,
         AllGreen, RepairReady, RepairDependencies, AttemptOk;
    var m := ByName(Effective(attempts));
    AcceptedIsIndexable(run, attempts);
    PlanPicksCurrent(run, attempts, proof, sha);
    ReviewPlanned(run, Effective(attempts), proof, sha, id);
    NamesAreApart();
    GreenIff(run, attempts);
    RepairIffReady(run, attempts);
    LookupIsNewest(run, attempts, REVIEW);
    NotReplaced(attempts, REVIEW);
    forall g | g in attempts[|attempts| - 1] ensures IsNewest(attempts, g) { CurrentIsNewest(attempts, g); }
  }
}
