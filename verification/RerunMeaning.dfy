/** What the rerun planner decides, in terms of the jobs of a run alone: every name, conclusion and
    condition is written out here. */
module RerunMeaning {
  import opened Options
  import opened Text
  import opened RerunPlan

  // ----- histories -----

  /** The jobs that an accepted run reports: they are of that run, of the attempt that reports them
      and of its head; no two jobs of an attempt share a name and no two of the run an identity. */
  ghost predicate History(run: Run, attempts: seq<seq<Job>>) {
    && run.attempt == |attempts| > 0
    && (forall k, j :: 0 <= k < |attempts| && j in attempts[k] ==>
          j.id > 0 && j.runId == run.id && j.attempt == k + 1 && j.headSha == run.headSha)
    && (forall k, a, b :: 0 <= k < |attempts| && 0 <= a < b < |attempts[k]| ==>
          attempts[k][a].name != attempts[k][b].name && attempts[k][a].id != attempts[k][b].id)
    && (forall k, m, i, j :: 0 <= k < m < |attempts| && i in attempts[k] && j in attempts[m] ==> i.id != j.id)
  }

  lemma {:induction false} IdsFromIs(attempts: seq<seq<Job>>, n: nat, id: int)
    requires n <= |attempts|
    ensures id in IdsFrom(attempts, n) <==> exists m, j :: n <= m < |attempts| && j in attempts[m] && j.id == id
    decreases |attempts| - n
  {
    if n < |attempts| {
      IdsFromIs(attempts, n + 1, id);
      if id in IdSet(attempts[n]) {
        var j :| j in attempts[n] && j.id == id;
        assert n <= n < |attempts| && j in attempts[n];
      }
    }
  }

  lemma HistoryIsAccepted(run: Run, attempts: seq<seq<Job>>)
    requires History(run, attempts)
    ensures Accepted(run, attempts)
  {
    forall k | 0 <= k < |attempts| ensures AttemptOk(run, attempts, k) {
      forall id | id in IdSet(attempts[k]) ensures id !in IdsFrom(attempts, k + 1) {
        IdsFromIs(attempts, k + 1, id);
      }
    }
  }

  lemma AcceptedIsHistory(run: Run, attempts: seq<seq<Job>>)
    requires Accepted(run, attempts)
    ensures History(run, attempts)
  {
    hide IdsFrom, IdSet;
    forall k, j | 0 <= k < |attempts| && j in attempts[k]
      ensures j.id > 0 && j.runId == run.id && j.attempt == k + 1 && j.headSha == run.headSha
    {
      assert AttemptOk(run, attempts, k);
    }
    forall k, a, b | 0 <= k < |attempts| && 0 <= a < b < |attempts[k]|
      ensures attempts[k][a].name != attempts[k][b].name && attempts[k][a].id != attempts[k][b].id
    {
      assert AttemptOk(run, attempts, k);
    }
    forall k, m, i, j | 0 <= k < m < |attempts| && i in attempts[k] && j in attempts[m] ensures i.id != j.id {
      assert AttemptOk(run, attempts, k);
      IdsFromIs(attempts, k + 1, j.id);
      HasId(attempts[k], i);
    }
  }

  lemma HasId(jobs: seq<Job>, j: Job)
    requires j in jobs
    ensures j.id in IdSet(jobs)
  {
  }

  /** The collector accepts exactly those. */
  lemma AcceptedIffHistory(run: Run, attempts: seq<seq<Job>>)
    ensures Accepted(run, attempts) <==> History(run, attempts)
  {
    hide Accepted, History;
    if Accepted(run, attempts) { AcceptedIsHistory(run, attempts); }
    if History(run, attempts) { HistoryIsAccepted(run, attempts); }
  }

  // ----- jobs -----

  /** The last run of its name: no later attempt has a job of that name. */
  ghost predicate Latest(attempts: seq<seq<Job>>, j: Job) {
    exists k :: 0 <= k < |attempts| && j in attempts[k] &&
      forall m, i :: k < m < |attempts| && i in attempts[m] ==> i.name != j.name
  }

  /** The unexpanded matrix job, skipped, whose children ran later. */
  ghost predicate Stale(attempts: seq<seq<Job>>, p: Job) {
    && (p.name == "environment" || p.name == "install")
    && p.conclusion == Some(Skipped)
    && exists j :: Latest(attempts, j) && StartsWith(j.name, p.name + " (") && j.attempt > p.attempt
  }

  predicate Green(j: Job) {
    j.completed && j.conclusion == Some(Success)
  }

  predicate Bad(j: Job) {
    j.conclusion in {Some(Failure), Some(Cancelled), Some(TimedOut), Some(ActionRequired)}
  }

  predicate Over(j: Job) {
    j.completed && j.conclusion in {Some(Success), Some(Failure), Some(Skipped)}
  }

  predicate Calm(c: Option<Conclusion>) {
    c == Some(Success) || c == Some(Skipped)
  }

  /** The job failed at this step, and every other step succeeded or was skipped. */
  ghost predicate FailedOnlyAt(j: Job, step: string) {
    && j.completed && j.conclusion == Some(Failure)
    && exists i :: 0 <= i < |j.steps| && j.steps[i].name == step && j.steps[i].conclusion == Some(Failure)
                   && forall k :: 0 <= k < |j.steps| && k != i ==> Calm(j.steps[k].conclusion)
  }

  const TESTS: seq<string> := ["contract", "unit", "regression", "e2e"]
  const ON_SYSTEMS: seq<string> := [" (ubuntu-latest)", " (macos-latest)", " (windows-latest)"]

  predicate Required(name: string) {
    name in TESTS
    || (exists i :: 0 <= i < 3 && (name == "environment" + ON_SYSTEMS[i] || name == "install" + ON_SYSTEMS[i]))
  }

  ghost predicate LastGreen(attempts: seq<seq<Job>>, name: string) {
    exists j :: Latest(attempts, j) && j.name == name && Green(j)
  }

  // ----- the two decisions -----

  ghost predicate MergeCalledFor(run: Run, attempts: seq<seq<Job>>, proof: Proof, sha: string, id: int)
    requires attempts != []
  {
    && run.completed && run.conclusion == Some(Failure) && run.headSha == sha
    && proof.sha == sha && proof.reviewsComplete && proof.state == "success" && proof.reason == "reviews_complete"
    && (forall n :: Required(n) ==> LastGreen(attempts, n))
    && LastGreen(attempts, "review")
    && (forall j :: Latest(attempts, j) && j.name != "review" && j.name != "merge" ==> !Bad(j))
    && exists g :: g in attempts[|attempts| - 1] && g.name == "merge" && g.id == id
                   && FailedOnlyAt(g, "Require complete Codex reviews")
  }

  /** A name is out: no job of it ran last, or only a stale placeholder. */
  ghost predicate Out(attempts: seq<seq<Job>>, name: string) {
    forall j :: Latest(attempts, j) && j.name == name ==> Stale(attempts, j)
  }

  /** Of a matrix, either all children count, or only its skipped placeholder. */
  ghost predicate MatrixOver(attempts: seq<seq<Job>>, category: string) {
    if Out(attempts, category) then forall i :: 0 <= i < 3 ==> !Out(attempts, category + ON_SYSTEMS[i])
    else
      && (forall p :: Latest(attempts, p) && !Stale(attempts, p) && p.name == category ==>
            p.conclusion == Some(Skipped))
      && forall i :: 0 <= i < 3 ==> Out(attempts, category + ON_SYSTEMS[i])
  }

  ghost predicate ReviewCalledFor(run: Run, attempts: seq<seq<Job>>, proof: Proof, sha: string, id: int)
    requires attempts != []
  {
    && run.completed && run.headSha == sha && proof.sha == sha && proof.reviewsComplete
    && ((proof.state == "success" && proof.reason == "reviews_complete")
        || (proof.state == "blocked" && proof.reason == "review_unresolved"))
    && exists g ::
         && g in attempts[|attempts| - 1] && g.name == "review" && g.id == id
         && if run.conclusion == Some(Success) then GreenAndPending(attempts) else FailedAndOver(run, attempts, g)
  }

  ghost predicate GreenAndPending(attempts: seq<seq<Job>>) {
    && Out(attempts, "merge") && LastGreen(attempts, "merge pending review") && LastGreen(attempts, "review")
    && (forall n :: Required(n) ==> LastGreen(attempts, n))
    && forall j :: Latest(attempts, j) ==> Calm(j.conclusion)
  }

  ghost predicate FailedAndOver(run: Run, attempts: seq<seq<Job>>, g: Job) {
    && run.conclusion == Some(Failure) && FailedOnlyAt(g, "Require completed Codex reviews")
    && (forall n :: n in TESTS ==> !Out(attempts, n))
    && (forall j :: Latest(attempts, j) && !Stale(attempts, j) ==> Over(j))
    && MatrixOver(attempts, "environment") && MatrixOver(attempts, "install")
  }

  // ----- the planner's terms are these -----

  lemma LatestIsNewest(attempts: seq<seq<Job>>, j: Job)
    ensures Latest(attempts, j) <==> IsNewest(attempts, j)
  {
    if Latest(attempts, j) {
      var k :| 0 <= k < |attempts| && j in attempts[k]
               && forall m, i :: k < m < |attempts| && i in attempts[m] ==> i.name != j.name;
      assert NewestAt(attempts, k, j);
    }
    if k :| NewestAt(attempts, k, j) {
      forall m, i | k < m < |attempts| && i in attempts[m] ensures i.name != j.name {
        HasNameOfMember(attempts[m], i);
      }
    }
  }

  lemma StaleIsReplaced(attempts: seq<seq<Job>>, p: Job)
    ensures Stale(attempts, p) <==> Replaced(attempts, p)
  {
    hide Latest, IsNewest;
    forall j ensures Latest(attempts, j) <==> IsNewest(attempts, j) { LatestIsNewest(attempts, j); }
  }

  lemma {:induction false} WaitedIsFailedOnlyAt(j: Job, step: string)
    ensures Waited(j, step) <==> FailedOnlyAt(j, step)
  {
    WaitedIsExact(j, step);
    if FailedOnlyAt(j, step) {
      var i :| 0 <= i < |j.steps| && j.steps[i].name == step && j.steps[i].conclusion == Some(Failure)
               && forall k :: 0 <= k < |j.steps| && k != i ==> Calm(j.steps[k].conclusion);
      assert FailsOnly(j.steps, i);
    }
  }

  lemma SystemNames()
    ensures "environment" + ON_SYSTEMS[0] == ENVIRONMENTS[0] && "environment" + ON_SYSTEMS[1] == ENVIRONMENTS[1]
    ensures "environment" + ON_SYSTEMS[2] == ENVIRONMENTS[2]
    ensures "install" + ON_SYSTEMS[0] == INSTALLS[0] && "install" + ON_SYSTEMS[1] == INSTALLS[1]
    ensures "install" + ON_SYSTEMS[2] == INSTALLS[2]
    ensures |ENVIRONMENTS| == |INSTALLS| == 3 && TESTS == BASE_CATEGORIES
  {
  }

  lemma RequiredIsPrerequisite(name: string)
    ensures Required(name) <==> name in PREREQUISITES
  {
    SystemNames();
    hide TESTS, ON_SYSTEMS, ENVIRONMENTS, INSTALLS, BASE_CATEGORIES;
  }

  lemma GreenIsSucceeded(attempts: seq<seq<Job>>, name: string)
    ensures LastGreen(attempts, name) <==> NewestSucceeded(attempts, name)
  {
    hide Latest, IsNewest;
    forall j ensures Latest(attempts, j) <==> IsNewest(attempts, j) { LatestIsNewest(attempts, j); }
  }

  lemma OutIsAbsent(attempts: seq<seq<Job>>, name: string)
    ensures Out(attempts, name) <==> Absent(attempts, name)
  {
    hide Latest, IsNewest, Stale, Replaced;
    forall j ensures Latest(attempts, j) <==> IsNewest(attempts, j) { LatestIsNewest(attempts, j); }
    forall j ensures Stale(attempts, j) <==> Replaced(attempts, j) { StaleIsReplaced(attempts, j); }
  }

  lemma MatrixIsReady(attempts: seq<seq<Job>>)
    ensures MatrixOver(attempts, "environment") <==> CategoryReady(attempts, ENVIRONMENT, ENVIRONMENTS)
    ensures MatrixOver(attempts, "install") <==> CategoryReady(attempts, INSTALL, INSTALLS)
  {
    hide Latest, IsNewest, Stale, Replaced, Out, Absent;
    forall j ensures Latest(attempts, j) <==> IsNewest(attempts, j) { LatestIsNewest(attempts, j); }
    forall j ensures Stale(attempts, j) <==> Replaced(attempts, j) { StaleIsReplaced(attempts, j); }
    forall n ensures Out(attempts, n) <==> Absent(attempts, n) { OutIsAbsent(attempts, n); }
    OnSystems("environment", ENVIRONMENTS);
    OnSystems("install", INSTALLS);
  }

  lemma OnSystems(category: string, expanded: seq<string>)
    requires (category == "environment" && expanded == ENVIRONMENTS) || (category == "install" && expanded == INSTALLS)
    ensures |expanded| == 3 && forall i :: 0 <= i < 3 ==> expanded[i] == category + ON_SYSTEMS[i]
  {
    SystemNames();
    hide TESTS, ON_SYSTEMS, ENVIRONMENTS, INSTALLS, BASE_CATEGORIES;
  }

  // ----- the main results -----

  /** A merge is planned exactly when it is called for. */
  lemma MergeIffCalledFor(run: Run, attempts: seq<seq<Job>>, proof: Proof, sha: string, id: int)
    requires History(run, attempts)
    ensures Plan(run, Effective(attempts), proof, sha) == Merge(id) <==>
            MergeCalledFor(run, attempts, proof, sha, id)
  {
    AcceptedIffHistory(run, attempts);
    hide Plan, Effective, Latest, IsNewest, Required, PREREQUISITES, Waited, FailedOnlyAt, NewestSucceeded, LastGreen,
         History, Accepted;
    MergePlanIffDue(run, attempts, proof, sha, id);
    forall j ensures Latest(attempts, j) <==> IsNewest(attempts, j) { LatestIsNewest(attempts, j); }
    forall n ensures Required(n) <==> n in PREREQUISITES { RequiredIsPrerequisite(n); }
    forall n ensures LastGreen(attempts, n) <==> NewestSucceeded(attempts, n) { GreenIsSucceeded(attempts, n); }
    forall j, step ensures Waited(j, step) <==> FailedOnlyAt(j, step) { WaitedIsFailedOnlyAt(j, step); }
  }

  /** A review is planned exactly when it is called for. */
  lemma ReviewIffCalledFor(run: Run, attempts: seq<seq<Job>>, proof: Proof, sha: string, id: int)
    requires History(run, attempts)
    ensures Plan(run, Effective(attempts), proof, sha) == Review(id) <==>
            ReviewCalledFor(run, attempts, proof, sha, id)
  {
    AcceptedIffHistory(run, attempts);
    hide Plan, Effective, Latest, IsNewest, Required, PREREQUISITES, Waited, FailedOnlyAt, NewestSucceeded, LastGreen,
         History, Accepted, Stale, Replaced, Out, Absent, MatrixOver, CategoryReady;
    ReviewPlanIffDue(run, attempts, proof, sha, id);
    MatrixIsReady(attempts);
    forall j ensures Latest(attempts, j) <==> IsNewest(attempts, j) { LatestIsNewest(attempts, j); }
    forall j ensures Stale(attempts, j) <==> Replaced(attempts, j) { StaleIsReplaced(attempts, j); }
    forall n ensures Required(n) <==> n in PREREQUISITES { RequiredIsPrerequisite(n); }
    forall n ensures LastGreen(attempts, n) <==> NewestSucceeded(attempts, n) { GreenIsSucceeded(attempts, n); }
    forall n ensures Out(attempts, n) <==> Absent(attempts, n) { OutIsAbsent(attempts, n); }
    forall j, step ensures Waited(j, step) <==> FailedOnlyAt(j, step) { WaitedIsFailedOnlyAt(j, step); }
  }

  /** The effective list: the latest job of each name, without stale placeholders. */
  lemma EffectiveIsLatest(run: Run, attempts: seq<seq<Job>>)
    requires History(run, attempts)
    ensures forall j :: j in Effective(attempts) <==> Latest(attempts, j) && !Stale(attempts, j)
    ensures var e := Effective(attempts); forall i, k :: 0 <= i < k < |e| ==> e[i].name != e[k].name
  {
    AcceptedIffHistory(run, attempts);
    hide Effective, Latest, IsNewest, Stale, Replaced;
    EffectiveIsNewest(run, attempts);
    forall j ensures Latest(attempts, j) <==> IsNewest(attempts, j) { LatestIsNewest(attempts, j); }
    forall j ensures Stale(attempts, j) <==> Replaced(attempts, j) { StaleIsReplaced(attempts, j); }
  }
}
