/**
  * Validation runs: along a chain of injections from `validate_lint`, how many fix rounds are spent,
  * and what has been checked when a commit node appears. Outcomes are arbitrary.
  */
module FixRounds {
  import opened Types
  import opened ExecutionGraphs
  import opened Completion
  import opened Growth
  import Text

  // ------------------------------------------------------------------ fix rounds

  /** c[i + 1] is injected when c[i] finishes with rs[i], whatever the results. */
  ghost predicate Run(env: RunEnv, c: seq<AgentNode>, rs: seq<NodeResult>) {
    |c| == |rs| + 1 && forall i | 0 <= i < |rs| :: Injects(env, c[i], rs[i], c[i + 1])
  }

  predicate CommitsSucceed(c: seq<AgentNode>, rs: seq<NodeResult>)
    requires |c| == |rs| + 1
  {
    forall i | 0 <= i < |rs| && IsGitCommit(c[i]) :: rs[i].succeeded
  }

  /** A `validate_lint` node of a static graph. */
  predicate StartsValidation(n: AgentNode) {
    n.role == Validator && n.id == "validate_lint" && (n.instructions == "lint" || n.instructions == "external_lint")
  }

  lemma RunInit(env: RunEnv, c: seq<AgentNode>, rs: seq<NodeResult>)
    requires Run(env, c, rs) && rs != []
    ensures Run(env, c[..|rs|], rs[..|rs| - 1])
    ensures Injects(env, c[|rs| - 1], rs[|rs| - 1], c[|rs|])
    ensures CommitsSucceed(c, rs) ==> CommitsSucceed(c[..|rs|], rs[..|rs| - 1])
  {
    var k := |rs| - 1;
    hide Injects, IsGitCommit;
    assert Injects(env, c[k], rs[k], c[k + 1]);
  }

  lemma RunSnoc(env: RunEnv, c: seq<AgentNode>, rs: seq<NodeResult>, r: NodeResult, m: AgentNode)
    requires Run(env, c, rs) && Injects(env, c[|rs|], r, m)
    ensures Run(env, c + [m], rs + [r])
    ensures CommitsSucceed(c, rs) && (IsGitCommit(c[|rs|]) ==> r.succeeded) ==> CommitsSucceed(c + [m], rs + [r])
    ensures Rounds(c + [m], rs + [r]) == Rounds(c, rs) + if SpendsRound(c[|rs|], r, m) then 1 else 0
  {
    hide Completed, IsGitCommit, SpendsRound;
    assert (c + [m])[..|rs| + 1] == c && (rs + [r])[..|rs|] == rs;
  }

  /** A fix round is spent when a failed validator is followed by its fix or by the revalidation. */
  predicate SpendsRound(n: AgentNode, r: NodeResult, m: AgentNode) {
    n.role == Validator && !r.succeeded && (m.role == Coder || m.role == Validator)
  }

  function Rounds(c: seq<AgentNode>, rs: seq<NodeResult>): (k: nat)
    requires |c| == |rs| + 1
  {
    if rs == [] then 0
    else Rounds(c[..|rs|], rs[..|rs| - 1])
         + if SpendsRound(c[|rs| - 1], rs[|rs| - 1], c[|rs|]) then 1 else 0
  }

  /** A validator of the chain carries the number of rounds spent so far in its id. */
  predicate Carries(n: AgentNode, k: u8) {
    && n.role == Validator
    && match n.instructions
       case "lint" => n.id == Numbered("validate_lint", k) || (n.id == "validate_lint" && k == 0)
       case "test" => n.id == Numbered("validate_test", k) || (n.id == "validate_test" && k == 0)
       case "external_lint" => n.id == "validate_lint" && k == 0
       case "external_test" => n.id == "validate_test" && k == 0
       case _ => false
  }

  /** Nodes that inject nothing: the fix, the summaries, and a commit node that has not failed. */
  predicate EndsChain(n: AgentNode) {
    n.role == Coder || n.role == Summarizer || IsGitCommit(n)
  }

  lemma PlainIdsHaveIterationZero()
    ensures ParseFixIteration("validate_lint") == 0 && ParseFixIteration("validate_test") == 0
  {
    Text.LastSegmentAfter("validate", "lint");
    Text.LastSegmentAfter("validate", "test");
    assert "validate" + "_" + "lint" == "validate_lint" && "validate" + "_" + "test" == "validate_test";
  }

  lemma CarriedIteration(n: AgentNode, k: u8)
    requires Carries(n, k)
    ensures ParseFixIteration(n.id) == k
  {
    PlainIdsHaveIterationZero();
    IterationRoundTrip("validate_lint", k);
    IterationRoundTrip("validate_test", k);
  }

  lemma CarrySuccess(env: RunEnv, n: AgentNode, m: AgentNode, k: u8)
    requires Carries(n, k) && m in ValidatorNext(env, n)
    ensures EndsChain(m) || Carries(m, k)
  {
    CarriedIteration(n, k);
    NextCases(env, n, m);
    match n.instructions {
      case "lint" => LintNode(n); NumberedNotPlain("validate_lint", k);
      case "external_lint" => ExternalLintNode(n);
      case "test" => TestNode(n);
      case "external_test" => ExternalTestNode(n);
    }
    hide ValidatorNext, ParseFixIteration, Numbered, IsLint, IsTest, IsExternal, IsGitCommit;
  }

  lemma CarryFailure(env: RunEnv, n: AgentNode, m: AgentNode, k: u8)
    requires Carries(n, k) && m in ValidatorFixes(env, n)
    ensures m.role != Summarizer ==> k < env.config.maxFixIterations && (EndsChain(m) || Carries(m, k + 1))
    ensures m.role == Summarizer || m.role == Coder || m.role == Validator
  {
    hide ValidatorFixes, ParseFixIteration, Numbered, IsLint, IsTest, IsExternal, IsGitCommit, Phase;
    CarriedIteration(n, k);
    FixesCases(env, n, m);
    PhaseCases(n);
    match n.instructions {
      case "lint" => LintNode(n);
      case "external_lint" => ExternalLintNode(n);
      case "test" => TestNode(n);
      case "external_test" => ExternalTestNode(n);
    }
    assert "validate_" + "lint" == "validate_lint" && "validate_" + "test" == "validate_test";
  }

  lemma CarryStep(env: RunEnv, n: AgentNode, r: NodeResult, m: AgentNode, k: u8)
    requires Carries(n, k) && Injects(env, n, r, m)
    ensures SpendsRound(n, r, m) ==> k < env.config.maxFixIterations && (EndsChain(m) || Carries(m, k + 1))
    ensures !SpendsRound(n, r, m) ==> EndsChain(m) || Carries(m, k)
  {
    assert n.role == Validator;
    CompletedValidator(env, n, r);
    if r.succeeded { CarrySuccess(env, n, m, k); } else { CarryFailure(env, n, m, k); }
    hide Carries, Completed, ValidatorNext, ValidatorFixes, IsGitCommit;
  }

  lemma EndsChainStep(env: RunEnv, n: AgentNode, r: NodeResult)
    requires EndsChain(n) && (IsGitCommit(n) ==> r.succeeded)
    ensures Completed(env, n, r).nodes == []
  {
    if n.role == Validator {
      GitNode(n);
      CompletedValidator(env, n, r);
    } else {
      CompletedOther(env, n, r);
    }
    hide Completed, IsLint, IsTest;
  }

  lemma {:induction false} RoundsAreCarried(env: RunEnv, c: seq<AgentNode>, rs: seq<NodeResult>)
    requires Run(env, c, rs) && CommitsSucceed(c, rs) && Carries(c[0], 0)
    ensures Rounds(c, rs) <= env.config.maxFixIterations
    ensures EndsChain(c[|rs|]) || Carries(c[|rs|], Rounds(c, rs))
    decreases |rs|
  {
    hide Carries, Completed, EndsChain;
    if rs != [] {
      var k := |rs| - 1;
      RunInit(env, c, rs);
      RoundsAreCarried(env, c[..|rs|], rs[..k]);
      hide Run;
      if EndsChain(c[k]) {
        EndsChainStep(env, c[k], rs[k]);
      } else {
        CarryStep(env, c[k], rs[k], c[k + 1], Rounds(c[..|rs|], rs[..k]));
      }
    }
  }

  /**
    * Along every run from `validate_lint` in which no commit node fails, the fix rounds of the lint and
    * test phases together never exceed the configured number.
    */
  lemma FixRoundsBounded(env: RunEnv, c: seq<AgentNode>, rs: seq<NodeResult>)
    requires Run(env, c, rs) && CommitsSucceed(c, rs) && StartsValidation(c[0])
    ensures Rounds(c, rs) <= env.config.maxFixIterations
  {
    RoundsAreCarried(env, c, rs);
  }

  // ------------------------------------------------------------------ arbitrary outcomes

  /** Where a run from `validate_lint` can be. */
  ghost predicate OnTrack(n: AgentNode) {
    EndsChain(n) || exists k :: Carries(n, k)
  }

  /** A failed commit node injects a summary, or a fix with the lint validator of iteration 1. */
  lemma CommitFailure(env: RunEnv, n: AgentNode, m: AgentNode)
    requires IsGitCommit(n) && m in ValidatorFixes(env, n)
    ensures m.role == Summarizer
         || (env.config.maxFixIterations > 0 && (m.role == Coder || (LintCheck(m) && Carries(m, 1))))
  {
    GitNode(n);
    GitCommitIteration();
    hide ValidatorFixes, ParseFixIteration, Numbered, IsLint, IsTest, IsGitCommit, Phase;
    FixesCases(env, n, m);
    PhaseCases(n);
    assert "validate_" + "lint" == "validate_lint";
  }

  /** What a commit node injects, whatever its result. */
  lemma CommitStep(env: RunEnv, n: AgentNode, r: NodeResult, m: AgentNode)
    requires IsGitCommit(n) && Injects(env, n, r, m)
    ensures !r.succeeded && m in ValidatorFixes(env, n)
  {
    CompletedValidator(env, n, r);
    GitNode(n);
    hide Completed, ValidatorFixes, IsLint, IsTest;
  }

  lemma OnTrackStep(env: RunEnv, n: AgentNode, r: NodeResult, m: AgentNode)
    requires OnTrack(n) && Injects(env, n, r, m)
    ensures OnTrack(m)
  {
    hide Carries, Injects, LintCheck, ValidatorFixes;
    if IsGitCommit(n) {
      CommitStep(env, n, r, m);
      CommitFailure(env, n, m);
    } else if k :| Carries(n, k) {
      CarryStep(env, n, r, m, k);
    } else {
      EndsChainStep(env, n, r);
      InjectedByNothing(env, n, r, m);
    }
  }

  lemma InjectedByNothing(env: RunEnv, n: AgentNode, r: NodeResult, m: AgentNode)
    ensures Completed(env, n, r).nodes == [] ==> !Injects(env, n, r, m)
  {
    hide Completed;
  }

  lemma {:induction false} AlwaysOnTrack(env: RunEnv, c: seq<AgentNode>, rs: seq<NodeResult>, i: nat)
    requires Run(env, c, rs) && OnTrack(c[0]) && i < |c|
    ensures OnTrack(c[i])
  {
    hide OnTrack, Injects;
    if i > 0 {
      AlwaysOnTrack(env, c, rs, i - 1);
      assert Injects(env, c[i - 1], rs[i - 1], c[(i - 1) + 1]);
      OnTrackStep(env, c[i - 1], rs[i - 1], c[i]);
    }
  }

  lemma StartIsOnTrack(n: AgentNode)
    requires StartsValidation(n)
    ensures OnTrack(n) && Carries(n, 0) && LintCheck(n)
  {
    assert Carries(n, 0);
  }

  // ------------------------------------------------------------------ when the bound holds

  /** Without fix iterations, no round is ever spent. */
  lemma RoundNeedsIterations(env: RunEnv, n: AgentNode, r: NodeResult, m: AgentNode)
    requires Injects(env, n, r, m) && SpendsRound(n, r, m)
    ensures env.config.maxFixIterations > 0
  {
    CompletedValidator(env, n, r);
    FixesCases(env, n, m);
    hide Completed, ValidatorFixes, ParseFixIteration, Numbered, Phase;
  }

  lemma {:induction false} NoRounds(env: RunEnv, c: seq<AgentNode>, rs: seq<NodeResult>)
    requires Run(env, c, rs) && env.config.maxFixIterations == 0
    ensures Rounds(c, rs) == 0
    decreases |rs|
  {
    hide Injects, SpendsRound;
    if rs != [] {
      var k := |rs| - 1;
      RunInit(env, c, rs);
      NoRounds(env, c[..|rs|], rs[..k]);
      if SpendsRound(c[k], rs[k], c[k + 1]) { RoundNeedsIterations(env, c[k], rs[k], c[k + 1]); }
    }
  }

  /** A commit node on the track is made only where commits are configured. */
  lemma CommitIsConfigured(env: RunEnv, n: AgentNode, r: NodeResult, m: AgentNode)
    requires OnTrack(n) && Injects(env, n, r, m) && IsGitCommit(m)
    ensures env.config.gitAutoCommit
  {
    hide Carries, Injects, ValidatorFixes, LintCheck;
    if IsGitCommit(n) {
      CommitStep(env, n, r, m);
      CommitFailure(env, n, m);
      if LintCheck(m) { LintIsNoCommit(m); }
    } else if k :| Carries(n, k) {
      CommitByCheck(env, n, r, m, k);
    } else {
      EndsChainStep(env, n, r);
      InjectedByNothing(env, n, r, m);
    }
  }

  lemma LintIsNoCommit(m: AgentNode)
    ensures LintCheck(m) ==> !IsGitCommit(m)
  {}

  lemma CommitByCheck(env: RunEnv, n: AgentNode, r: NodeResult, m: AgentNode, k: u8)
    requires Carries(n, k) && Injects(env, n, r, m) && IsGitCommit(m)
    ensures env.config.gitAutoCommit
  {
    CheckStep(env, n, r, m, k);
    CompletedValidator(env, n, r);
    NextCases(env, n, m);
    assert m.instructions == "git" && "git" != "test" && "git" != "external_test";
    hide Completed, ValidatorNext, Carries, LintCheck, TestCheck, NoTests, IsLint, IsTest, IsExternal, Numbered;
  }

  lemma CommitsNeverMade(env: RunEnv, c: seq<AgentNode>, rs: seq<NodeResult>)
    requires Run(env, c, rs) && StartsValidation(c[0]) && !env.config.gitAutoCommit
    ensures CommitsSucceed(c, rs)
  {
    StartIsOnTrack(c[0]);
    hide OnTrack, Injects, Carries, LintCheck;
    forall i | 0 <= i < |rs| ensures !IsGitCommit(c[i]) {
      if i > 0 {
        AlwaysOnTrack(env, c, rs, i - 1);
        assert Injects(env, c[i - 1], rs[i - 1], c[(i - 1) + 1]);
        if IsGitCommit(c[i]) { CommitIsConfigured(env, c[i - 1], rs[i - 1], c[i]); }
      }
    }
  }

  ghost predicate WithinFixBound(env: RunEnv) {
    forall c, rs | Run(env, c, rs) && StartsValidation(c[0]) :: Rounds(c, rs) <= env.config.maxFixIterations
  }

  /** How far a loop node is from the last round spent: a step adds one, a round takes two back. */
  function LoopPhase(n: AgentNode): nat {
    if IsGitCommit(n) then 2 else if n.instructions == "test" then 1 else 0
  }

  lemma LoopAdvances(env: RunEnv, n: AgentNode)
    requires LoopsBack(env) && OnLoop(n)
    ensures var m := LoopNext(env, n);
            LoopPhase(m) + (if SpendsRound(n, LoopResult(n), m) then 3 else 0) > LoopPhase(n)
  {
    hide Numbered, ParseFixIteration;
  }

  /** The endless chain as runs: the rounds spent grow without bound. */
  lemma {:induction false} LoopRun(env: RunEnv, i: nat) returns (c: seq<AgentNode>, rs: seq<NodeResult>)
    requires LoopsBack(env)
    ensures Run(env, c, rs) && StartsValidation(c[0]) && c[|rs|] == LoopNode(env, i)
    ensures 3 * Rounds(c, rs) + LoopPhase(c[|rs|]) >= i
  {
    hide Injects, OnLoop, LoopNext, LoopPhase, SpendsRound;
    if i == 0 {
      c, rs := [LoopNode(env, 0)], [];
    } else {
      var c', rs' := LoopRun(env, i - 1);
      var n := LoopNode(env, i - 1);
      LoopStep(env, n);
      LoopAdvances(env, n);
      hide LoopsBack, StartsValidation, Run, Rounds;
      RunSnoc(env, c', rs', LoopResult(n), LoopNext(env, n));
      c, rs := c' + [LoopNext(env, n)], rs' + [LoopResult(n)];
    }
  }

  lemma LoopExceedsBound(env: RunEnv) returns (c: seq<AgentNode>, rs: seq<NodeResult>)
    requires LoopsBack(env)
    ensures Run(env, c, rs) && StartsValidation(c[0]) && Rounds(c, rs) > env.config.maxFixIterations
  {
    hide Run, StartsValidation, LoopsBack, LoopNode, Rounds;
    c, rs := LoopRun(env, 3 * env.config.maxFixIterations + 5);
  }

  /**
    * With arbitrary outcomes, every run from `validate_lint` stays within the configured number of fix
    * rounds exactly when no failed commit node can loop back.
    */
  lemma FixBoundExactly(env: RunEnv)
    ensures WithinFixBound(env) <==> !LoopsBack(env)
  {
    hide Injects, StartsValidation, Rounds;
    if LoopsBack(env) {
      hide LoopsBack;
      var c, rs := LoopExceedsBound(env);
    } else {
      forall c, rs | Run(env, c, rs) && StartsValidation(c[0]) ensures Rounds(c, rs) <= env.config.maxFixIterations {
        if env.config.gitAutoCommit {
          NoRounds(env, c, rs);
        } else {
          CommitsNeverMade(env, c, rs);
          FixRoundsBounded(env, c, rs);
        }
      }
    }
  }

  // ------------------------------------------------------------------ checks before the commit

  predicate LintCheck(n: AgentNode) {
    n.role == Validator && (n.instructions == "lint" || n.instructions == "external_lint")
  }

  predicate TestCheck(n: AgentNode) {
    n.role == Validator && (n.instructions == "test" || n.instructions == "external_test")
  }

  /** No test phase is configured behind this lint phase. */
  predicate NoTests(env: RunEnv, n: AgentNode) {
    if n.instructions == "external_lint" then !env.repoHasTest else !env.config.hasTest
  }

  lemma CheckStep(env: RunEnv, n: AgentNode, r: NodeResult, m: AgentNode, k: u8)
    requires Carries(n, k) && Injects(env, n, r, m)
    ensures TestCheck(m) ==> (LintCheck(n) && r.succeeded) || (TestCheck(n) && !r.succeeded)
    ensures IsGitCommit(m) ==> r.succeeded && (TestCheck(n) || (LintCheck(n) && NoTests(env, n)))
  {
    CompletedValidator(env, n, r);
    hide Carries, Completed, LintCheck, TestCheck, IsGitCommit, NoTests;
    if r.succeeded { PassedCheck(env, n, m, k); } else { FailedCheck(env, n, m, k); }
  }

  lemma CheckKinds(n: AgentNode, k: u8)
    requires Carries(n, k)
    ensures if IsTest(n) then TestCheck(n) && !IsLint(n)
            else LintCheck(n) && IsLint(n) && (IsExternal(n) <==> n.instructions == "external_lint")
  {
    match n.instructions {
      case "lint" => LintNode(n);
      case "external_lint" => ExternalLintNode(n);
      case "test" => TestNode(n);
      case "external_test" => ExternalTestNode(n);
    }
    hide IsLint, IsTest, IsExternal, Numbered;
  }

  lemma CommitSkipsNoTests(env: RunEnv, n: AgentNode, m: AgentNode)
    requires m in ValidatorNext(env, n) && IsGitCommit(m) && IsLint(n)
    ensures if IsExternal(n) then !env.repoHasTest else !env.config.hasTest
  {
    hide IsLint, IsTest, IsExternal, TestId, GitAndSummary;
  }

  lemma PassedCheck(env: RunEnv, n: AgentNode, m: AgentNode, k: u8)
    requires Carries(n, k) && m in ValidatorNext(env, n)
    ensures TestCheck(m) ==> LintCheck(n)
    ensures IsGitCommit(m) ==> TestCheck(n) || (LintCheck(n) && NoTests(env, n))
  {
    CheckKinds(n, k);
    hide Carries, Numbered, TestId, IsLint, IsTest, IsExternal;
    NextCases(env, n, m);
    hide ValidatorNext, LintCheck;
    if IsGitCommit(m) && IsLint(n) { CommitSkipsNoTests(env, n, m); }
  }

  lemma FailedCheck(env: RunEnv, n: AgentNode, m: AgentNode, k: u8)
    requires Carries(n, k) && m in ValidatorFixes(env, n)
    ensures TestCheck(m) ==> TestCheck(n)
    ensures !IsGitCommit(m)
  {
    CheckKinds(n, k);
    hide Carries, Numbered, ParseFixIteration, IsLint, IsTest, IsExternal, LintCheck;
    FixesCases(env, n, m);
    PhaseCases(n);
    hide ValidatorFixes, Phase;
    if m.role == Validator { FixIsNoCommit(m, Phase(n), ParseFixIteration(n.id) + 1); }
  }

  lemma FixIsNoCommit(m: AgentNode, phase: string, i: u8)
    requires m.id == Numbered("validate_" + phase, i)
    ensures !IsGitCommit(m)
  {
    assert m.id[0] == 'v';
  }

  /** A lint phase has passed, with no commit node between it and the last node of the run. */
  ghost predicate LintPassed(c: seq<AgentNode>, rs: seq<NodeResult>)
    requires |c| == |rs| + 1
  {
    exists i :: 0 <= i < |rs| && LintPassedAt(c, rs, i)
  }

  predicate LintPassedAt(c: seq<AgentNode>, rs: seq<NodeResult>, i: int)
    requires |c| == |rs| + 1 && 0 <= i < |rs|
  {
    LintCheck(c[i]) && rs[i].succeeded && forall j | i < j < |rs| :: !IsGitCommit(c[j])
  }

  lemma LintPassedEarlier(c: seq<AgentNode>, rs: seq<NodeResult>)
    requires |c| == |rs| + 1 && rs != [] && LintPassed(c[..|rs|], rs[..|rs| - 1]) && TestCheck(c[|rs| - 1])
    ensures LintPassed(c, rs)
  {
    var n := |rs| - 1;
    assert !IsGitCommit(c[n]);
    hide LintCheck, IsGitCommit, TestCheck;
    var i :| 0 <= i < n && LintPassedAt(c[..|rs|], rs[..n], i);
    forall j | i < j < |rs| ensures !IsGitCommit(c[j]) {
      if j < n { assert !IsGitCommit(c[..|rs|][j]); }
    }
    assert LintPassedAt(c, rs, i);
  }

  lemma LintPassedLast(c: seq<AgentNode>, rs: seq<NodeResult>)
    requires |c| == |rs| + 1 && rs != [] && LintCheck(c[|rs| - 1]) && rs[|rs| - 1].succeeded
    ensures LintPassed(c, rs)
  {
    hide LintCheck, IsGitCommit;
    assert LintPassedAt(c, rs, |rs| - 1);
  }

  lemma CommitInjectsNoTest(env: RunEnv, n: AgentNode, r: NodeResult, m: AgentNode)
    requires IsGitCommit(n) && Injects(env, n, r, m)
    ensures !TestCheck(m) && !IsGitCommit(m)
  {
    CommitStep(env, n, r, m);
    hide Injects, ValidatorFixes, Carries;
    CommitFailure(env, n, m);
  }

  /** The check in front of a test or commit node of a run. */
  lemma LastCheck(env: RunEnv, c: seq<AgentNode>, rs: seq<NodeResult>)
    requires Run(env, c, rs) && rs != [] && OnTrack(c[0])
    ensures var n, r, m := c[|rs| - 1], rs[|rs| - 1], c[|rs|];
            && (TestCheck(m) ==> (LintCheck(n) && r.succeeded) || (TestCheck(n) && !r.succeeded))
            && (IsGitCommit(m) ==> r.succeeded && (TestCheck(n) || (LintCheck(n) && NoTests(env, n))))
  {
    var k := |rs| - 1;
    RunInit(env, c, rs);
    AlwaysOnTrack(env, c, rs, k);
    hide Run, Injects, Carries, IsGitCommit, LintCheck, TestCheck, NoTests, Completed;
    if IsGitCommit(c[k]) {
      CommitInjectsNoTest(env, c[k], rs[k], c[k + 1]);
    } else if j :| Carries(c[k], j) {
      CheckStep(env, c[k], rs[k], c[k + 1], j);
    } else {
      EndsChainStep(env, c[k], rs[k]);
      InjectedByNothing(env, c[k], rs[k], c[k + 1]);
    }
  }

  lemma LintIsNoTest(n: AgentNode)
    requires LintCheck(n)
    ensures !TestCheck(n)
  {}

  /** A test phase has a lint phase behind it that passed, with no commit node in between. */
  lemma {:induction false} TestAfterLint(env: RunEnv, c: seq<AgentNode>, rs: seq<NodeResult>)
    requires Run(env, c, rs) && StartsValidation(c[0]) && TestCheck(c[|rs|])
    ensures LintPassed(c, rs)
    decreases |rs|
  {
    StartIsOnTrack(c[0]);
    LintIsNoTest(c[0]);
    hide StartsValidation, OnTrack, Carries, LintCheck, TestCheck, LintPassed, IsGitCommit, NoTests;
    if rs != [] {
      LastCheck(env, c, rs);
      RunInit(env, c, rs);
      hide Run, Injects;
      if TestCheck(c[|rs| - 1]) && !rs[|rs| - 1].succeeded {
        TestAfterLint(env, c[..|rs|], rs[..|rs| - 1]);
        LintPassedEarlier(c, rs);
      } else {
        LintPassedLast(c, rs);
      }
    }
  }

  /**
    * No commit before the checks, and no second commit before they have passed anew: in every run from
    * `validate_lint`, with arbitrary outcomes, each commit node follows a check that passed. If it is a
    * test, a lint phase passed before it with no commit node in between; if it is a lint phase, no
    * tests are configured.
    */
  lemma CommitAfterChecks(env: RunEnv, c: seq<AgentNode>, rs: seq<NodeResult>)
    requires Run(env, c, rs) && StartsValidation(c[0]) && IsGitCommit(c[|rs|])
    ensures rs != [] && rs[|rs| - 1].succeeded
    ensures var n := c[|rs| - 1];
            (LintCheck(n) && NoTests(env, n)) || (TestCheck(n) && LintPassed(c, rs))
  {
    assert rs != [];
    StartIsOnTrack(c[0]);
    LastCheck(env, c, rs);
    RunInit(env, c, rs);
    assert c[..|rs|][0] == c[0];
    hide Run, Injects, StartsValidation, OnTrack, Carries, LintCheck, TestCheck, LintPassed, IsGitCommit, NoTests;
    if TestCheck(c[|rs| - 1]) {
      TestAfterLint(env, c[..|rs|], rs[..|rs| - 1]);
      LintPassedEarlier(c, rs);
    }
  }

  // ------------------------------------------------------------------ succeeded results only

  /**
    * The run loop hands succeeded results only to the callback. Then no fix round is ever spent, and
    * growth is bounded for every configuration.
    */
  lemma {:induction false} SucceededRunsAreShort(env: RunEnv, c: seq<AgentNode>, rs: seq<NodeResult>)
    requires Run(env, c, rs) && forall i | 0 <= i < |rs| :: rs[i].succeeded
    ensures Rounds(c, rs) == 0 && |rs| + Rank(env, c[|rs|]) <= Rank(env, c[0]) && |c| <= RANK_BOUND
    decreases |rs|
  {
    RankBelow(env, c[0]);
    if rs != [] {
      var k := |rs| - 1;
      SucceededRunsAreShort(env, c[..|rs|], rs[..k]);
      assert Injects(env, c[k], rs[k], c[k + 1]);
      hide Injects, Rank;
      InjectionLowersRank(env, c[k], rs[k], c[k + 1]);
    }
  }

  // ------------------------------------------------------------------ the bound is met

  /** The k-th revalidation of a lint phase that keeps failing. */
  function FailingLint(k: u8): AgentNode {
    if k == 0 then AgentNode("validate_lint", Validator, "lint", ["code"], 0)
    else AgentNode(Numbered("validate_lint", k), Validator, "lint", [Numbered("fix_lint", k)],
                   AddDepth(FailingLint(k - 1).depth, 2))
  }

  lemma FailingLintStep(env: RunEnv, k: u8)
    requires 0 < k <= env.config.maxFixIterations
    ensures Injects(env, FailingLint(k - 1), NodeResult(false, ""), FailingLint(k))
    ensures SpendsRound(FailingLint(k - 1), NodeResult(false, ""), FailingLint(k))
  {
    hide ParseFixIteration, Numbered, ValidatorFixes, IsLint, IsTest, IsExternal, IsGitCommit, Carries;
    var n, r := FailingLint(k - 1), NodeResult(false, "");
    FailingLintCarries(k - 1);
    CarriedIteration(n, k - 1);
    LintNode(n);
    LintFailure(env, n);
    CompletedValidator(env, n, r);
    hide Completed;
  }

  lemma FailingLintCarries(k: u8)
    ensures Carries(FailingLint(k), k) && FailingLint(k).instructions == "lint"
  {
    hide Numbered;
  }

  /** The bound is met: a lint phase that keeps failing spends every round. */
  lemma {:induction false} FixRoundsAttained(env: RunEnv, k: u8) returns (c: seq<AgentNode>, rs: seq<NodeResult>)
    requires k <= env.config.maxFixIterations
    ensures Run(env, c, rs) && CommitsSucceed(c, rs) && StartsValidation(c[0])
    ensures c[|rs|] == FailingLint(k) && Rounds(c, rs) == k
  {
    hide Completed, SpendsRound, IsGitCommit, Numbered;
    if k == 0 {
      c, rs := [FailingLint(0)], [];
    } else {
      var c', rs' := FixRoundsAttained(env, k - 1);
      var n, m, r := FailingLint(k - 1), FailingLint(k), NodeResult(false, "");
      FailingLintStep(env, k);
      LintNode(n);
      RunSnoc(env, c', rs', r, m);
      c, rs := c' + [m], rs' + [r];
    }
  }
}
