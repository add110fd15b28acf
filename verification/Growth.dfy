/**
  * How the callback makes the running graph grow: when chains of injections are finite, and how large
  * the whole tree of injections can be. Agent outputs and success flags are arbitrary.
  */
module Growth {
  import opened Types
  import opened ExecutionGraphs
  import opened Completion
  import Text

  /** m is injected when n finishes with result r. */
  ghost predicate Injects(env: RunEnv, n: AgentNode, r: NodeResult, m: AgentNode) {
    m in Completed(env, n, r).nodes
  }

  /** The node that `inject_git_and_summarize` makes. */
  predicate IsGitCommit(n: AgentNode) {
    n.role == Validator && n.id == "git_commit" && n.instructions == "git"
  }

  /** One injection step in which a commit node has not failed. */
  ghost predicate Step(env: RunEnv, n: AgentNode, m: AgentNode) {
    exists r :: Injects(env, n, r, m) && (IsGitCommit(n) ==> r.succeeded)
  }

  /** One injection step, whatever the outcome. */
  ghost predicate AnyStep(env: RunEnv, n: AgentNode, m: AgentNode) {
    exists r :: Injects(env, n, r, m)
  }

  // ------------------------------------------------------------------ what instructions say

  lemma LintNode(n: AgentNode)
    requires n.instructions == "lint"
    ensures IsLint(n) && !IsTest(n) && !IsExternal(n) && !IsGitCommit(n)
  {
    hide Text.Contains;
    assert "" + "lint" + "" == "lint";
    Text.PresentAt("", "lint", "");
    Text.AbsentChar("lint", "test", 'e');
    Text.AbsentChar("lint", "external", 'e');
  }

  lemma TestNode(n: AgentNode)
    requires n.instructions == "test"
    ensures !IsLint(n) && IsTest(n) && !IsExternal(n) && !IsGitCommit(n)
  {
    hide Text.Contains;
    assert "" + "test" + "" == "test";
    Text.PresentAt("", "test", "");
    Text.AbsentChar("test", "lint", 'l');
    Text.AbsentChar("test", "external", 'x');
  }

  lemma GitNode(n: AgentNode)
    requires n.instructions == "git"
    ensures !IsLint(n) && !IsTest(n)
  {
    hide Text.Contains;
    assert "" + "git" + "" == "git";
    Text.PresentAt("", "git", "");
    Text.AbsentChar("git", "lint", 'l');
    Text.AbsentChar("git", "test", 'e');
  }

  lemma ExternalLintNode(n: AgentNode)
    requires n.instructions == "external_lint"
    ensures IsLint(n) && !IsTest(n) && IsExternal(n) && !IsGitCommit(n)
  {
    hide Text.Contains;
    assert "external_" + "lint" + "" == "external_lint" && "" + "external" + "_lint" == "external_lint";
    Text.PresentAt("external_", "lint", "");
    Text.PresentAt("", "external", "_lint");
    Text.AbsentChar("external_lint", "test", 's');
  }

  lemma ExternalTestNode(n: AgentNode)
    requires n.instructions == "external_test"
    ensures !IsLint(n) && IsTest(n) && IsExternal(n) && !IsGitCommit(n)
  {
    hide Text.Contains;
    assert "external_" + "test" + "" == "external_test" && "" + "external" + "_test" == "external_test";
    Text.PresentAt("external_", "test", "");
    Text.PresentAt("", "external", "_test");
    Text.AbsentChar("external_test", "lint", 'i');
  }

  // ------------------------------------------------------------------ what a validator injects

  /** After a failure: a fix and a revalidation of the same phase, one iteration on, or a summary. */
  lemma FixesCases(env: RunEnv, n: AgentNode, m: AgentNode)
    requires m in ValidatorFixes(env, n)
    ensures var i := ParseFixIteration(n.id);
            || m.role == Summarizer
            || (m.role == Coder && i < env.config.maxFixIterations)
            || (m.role == Validator && i < env.config.maxFixIterations
                && m.instructions == Phase(n) && m.id == Numbered("validate_" + Phase(n), i + 1))
  {
    hide ParseFixIteration, Numbered, Phase;
  }

  /** After a success: from lint to test, from either to the commit node, or a summary. */
  lemma NextCases(env: RunEnv, n: AgentNode, m: AgentNode)
    requires m in ValidatorNext(env, n)
    ensures IsLint(n) || IsTest(n)
    ensures || m.role == Summarizer
            || (IsGitCommit(m) && env.config.gitAutoCommit)
            || (IsLint(n) && IsExternal(n) && m.role == Validator
                && m.id == "validate_test" && m.instructions == "external_test")
            || (IsLint(n) && !IsExternal(n) && m.role == Validator
                && m.id == TestId(n) && m.instructions == "test")
  {
    hide TestId, IsLint, IsTest, IsExternal;
  }

  lemma PhaseCases(n: AgentNode)
    ensures Phase(n) == if IsTest(n) then "test" else "lint"
  {
    hide Text.Contains;
  }

  // ------------------------------------------------------------------ the measure

  predicate LoopsBack(env: RunEnv) {
    env.config.gitAutoCommit && env.config.maxFixIterations > 0
  }

  /** 1 while a chain of re-reviews can still push the depth past 255 and wrap it round. */
  function Wraps(n: AgentNode): nat {
    var i := ParseFixIteration(n.id);
    if n.role == Reviewer && i < 3 && n.depth + 2 * (3 - i) >= 256 then 1 else 0
  }

  /** What the depth guards of planners and reviewers still allow. */
  function DepthLeft(n: AgentNode): (k: nat)
    ensures k <= 5
  {
    if (n.role == Planner || n.role == Reviewer) && n.depth < 5 then 5 - n.depth else 0
  }

  /** Roles and validator phases, in the order in which they follow one another. */
  function PhaseLeft(env: RunEnv, n: AgentNode): (k: nat)
    ensures k <= 5
  {
    match n.role
    case Planner => 5
    case Reviewer => 5
    case Validator =>
      if IsGitCommit(n) && env.config.gitAutoCommit then 1
      else if IsLint(n) then 3
      else if IsTest(n) then 2
      else 4
    case _ => 0
  }

  /** Iterations that the node id still leaves. */
  function RoundsLeft(env: RunEnv, n: AgentNode): (k: nat)
    ensures k <= 255
  {
    var i := ParseFixIteration(n.id);
    if n.role == Reviewer && i < 3 then 3 - i
    else if n.role == Validator && i < env.config.maxFixIterations then env.config.maxFixIterations - i
    else 0
  }

  /** The lexicographic measure, packed into one number. */
  function Rank(env: RunEnv, n: AgentNode): nat {
    ((Wraps(n) * 6 + DepthLeft(n)) * 6 + PhaseLeft(env, n)) * 256 + RoundsLeft(env, n)
  }

  const RANK_BOUND: nat := 18432

  lemma RankBelow(env: RunEnv, n: AgentNode)
    ensures Rank(env, n) < RANK_BOUND
  {}

  lemma PlannerStep(env: RunEnv, n: AgentNode, r: NodeResult, m: AgentNode)
    requires n.role == Planner && Injects(env, n, r, m)
    ensures Rank(env, m) < Rank(env, n)
  {
    assert PlannerTurn(n, r);
    assert m.depth == n.depth + 1;
    assert Wraps(m) == 0 && DepthLeft(m) < DepthLeft(n);
  }

  /** After a review: a fix and a re-review, one iteration on, or a planner. */
  lemma ReviewCases(env: RunEnv, n: AgentNode, r: NodeResult, m: AgentNode)
    requires n.role == Reviewer && Injects(env, n, r, m)
    ensures var i := ParseFixIteration(n.id);
            || m.role == Coder
            || (m.role == Planner && n.depth < 4 && m.depth == n.depth + 1)
            || (m.role == Reviewer && i < 3 && m.depth == AddDepth(n.depth, 2) && m.id == Numbered("re_review", i + 1))
  {
    hide ParseFixIteration, Numbered, Text.Contains, Text.Trim;
    CompletedReviewer(env, n, r);
    hide Completed;
    assert m in ReviewFixes(n, r) || m in Replan(n, r);
  }

  lemma ReviewerStep(env: RunEnv, n: AgentNode, r: NodeResult, m: AgentNode)
    requires n.role == Reviewer && Injects(env, n, r, m)
    ensures Rank(env, m) < Rank(env, n)
  {
    hide Completed, ParseFixIteration, Numbered, IsLint, IsTest, IsGitCommit;
    ReviewCases(env, n, r, m);
    if m.role == Reviewer {
      IterationRoundTrip("re_review", ParseFixIteration(n.id) + 1);
    }
  }

  lemma ValidatorStep(env: RunEnv, n: AgentNode, r: NodeResult, m: AgentNode)
    requires n.role == Validator && Injects(env, n, r, m)
    requires LoopsBack(env) && IsGitCommit(n) ==> r.succeeded
    ensures Rank(env, m) < Rank(env, n)
  {
    hide ValidatorNext, ValidatorFixes, ParseFixIteration, Numbered, Phase, TestId, IsLint, IsTest, IsExternal;
    CompletedValidator(env, n, r);
    hide Completed;
    if IsGitCommit(n) { GitNode(n); }
    hide IsGitCommit;
    if r.succeeded {
      NextCases(env, n, m);
      if m.instructions == "test" { TestNode(m); }
      if m.instructions == "external_test" { ExternalTestNode(m); }
    } else {
      FixesCases(env, n, m);
      PhaseCases(n);
      if m.role == Validator {
        if IsTest(n) { TestNode(m); } else { LintNode(m); }
        IterationRoundTrip("validate_" + Phase(n), ParseFixIteration(n.id) + 1);
      }
    }
  }

  /** Every injection lowers the measure, unless it comes from a failed commit node that loops back. */
  lemma InjectionLowersRank(env: RunEnv, n: AgentNode, r: NodeResult, m: AgentNode)
    requires Injects(env, n, r, m)
    requires LoopsBack(env) && IsGitCommit(n) ==> r.succeeded
    ensures Rank(env, m) < Rank(env, n)
  {
    match n.role {
      case Planner => PlannerStep(env, n, r, m);
      case Reviewer => ReviewerStep(env, n, r, m);
      case Validator => ValidatorStep(env, n, r, m);
      case _ => CompletedOther(env, n, r);
    }
  }

  // ------------------------------------------------------------------ chains are finite

  ghost predicate Chain(env: RunEnv, c: seq<AgentNode>) {
    forall i | 0 <= i < |c| - 1 :: Step(env, c[i], c[i + 1])
  }

  lemma {:induction false} ChainIsShort(env: RunEnv, c: seq<AgentNode>)
    requires c != [] && Chain(env, c)
    ensures |c| <= Rank(env, c[0]) + 1
  {
    if |c| > 1 {
      assert Step(env, c[0], c[0 + 1]);
      var r :| Injects(env, c[0], r, c[1]) && (IsGitCommit(c[0]) ==> r.succeeded);
      InjectionLowersRank(env, c[0], r, c[1]);
      assert Chain(env, c[1..]) by {
        forall i | 0 <= i < |c[1..]| - 1 ensures Step(env, c[1..][i], c[1..][i + 1]) {
          assert Step(env, c[i + 1], c[(i + 1) + 1]);
        }
      }
      ChainIsShort(env, c[1..]);
    }
  }

  /** A uniform bound on every chain of injections in which no commit node fails. */
  lemma GrowthIsBounded(env: RunEnv, c: seq<AgentNode>)
    requires Chain(env, c)
    ensures |c| <= RANK_BOUND
  {
    if c != [] {
      ChainIsShort(env, c);
      RankBelow(env, c[0]);
    }
  }

  // ------------------------------------------------------------------ when a commit node may fail

  ghost predicate Endless(env: RunEnv, f: nat -> AgentNode) {
    forall i: nat :: AnyStep(env, f(i), f(i + 1))
  }

  /** The validators of the loop: the commit node, and both checks in their first or second round. */
  predicate OnLoop(n: AgentNode) {
    && n.role == Validator
    && (IsGitCommit(n)
        || (n.instructions == "lint" && (n.id == "validate_lint" || n.id == Numbered("validate_lint", 1)))
        || (n.instructions == "test" && (n.id == "validate_test" || n.id == Numbered("validate_test", 1))))
  }

  /** The result each of them finishes with: checks pass, commits fail. */
  function LoopResult(n: AgentNode): NodeResult {
    NodeResult(!IsGitCommit(n), "")
  }

  function LoopNext(env: RunEnv, n: AgentNode): AgentNode {
    if IsGitCommit(n) then
      AgentNode(Numbered("validate_lint", 1), Validator, "lint", [Numbered("fix_lint", 1)], AddDepth(n.depth, 2))
    else if n.instructions == "lint" && env.config.hasTest then
      AgentNode(TestId(n), Validator, "test", [n.id], AddDepth(n.depth, 1))
    else
      AgentNode("git_commit", Validator, "git", [n.id], AddDepth(n.depth, 1))
  }

  lemma LoopNextOnLoop(env: RunEnv, n: AgentNode)
    requires OnLoop(n)
    ensures OnLoop(LoopNext(env, n))
  {
    IterationRoundTrip("validate_lint", 1);
    hide ParseFixIteration, Numbered;
  }

  /** The chain from the `validate_lint` node of a static graph. */
  function LoopNode(env: RunEnv, i: nat): (n: AgentNode)
    ensures OnLoop(n)
  {
    if i == 0 then AgentNode("validate_lint", Validator, "lint", ["code"], 0)
    else
      LoopNextOnLoop(env, LoopNode(env, i - 1));
      LoopNext(env, LoopNode(env, i - 1))
  }

  lemma GitCommitIteration()
    ensures ParseFixIteration("git_commit") == 0
  {
    Text.LastSegmentAfter("git", "commit");
    assert "git" + "_" + "commit" == "git_commit";
  }

  lemma NumberedNotPlain(p: string, n: u8)
    ensures Numbered(p, n) != p
  {
    assert |Numbered(p, n)| > |p|;
  }

  lemma LoopStep(env: RunEnv, n: AgentNode)
    requires LoopsBack(env) && OnLoop(n)
    ensures Injects(env, n, LoopResult(n), LoopNext(env, n))
  {
    CompletedValidator(env, n, LoopResult(n));
    if IsGitCommit(n) { LoopAfterGit(env, n); } else { LoopAfterCheck(env, n); }
    hide Completed, LoopNext, OnLoop, IsGitCommit;
  }

  lemma LintFailure(env: RunEnv, n: AgentNode)
    requires !IsTest(n) && ParseFixIteration(n.id) < env.config.maxFixIterations
    ensures var i := ParseFixIteration(n.id) + 1;
            AgentNode(Numbered("validate_lint", i), Validator, "lint", [Numbered("fix_lint", i)], AddDepth(n.depth, 2))
              in ValidatorFixes(env, n)
  {
    hide ParseFixIteration, Numbered, Phase, IsTest;
    PhaseCases(n);
    assert "validate_" + "lint" == "validate_lint" && "fix_" + "lint" == "fix_lint";
  }

  lemma LoopAfterGit(env: RunEnv, n: AgentNode)
    requires LoopsBack(env) && IsGitCommit(n)
    ensures LoopNext(env, n) in ValidatorFixes(env, n)
  {
    GitNode(n);
    GitCommitIteration();
    LintFailure(env, n);
  }

  lemma LoopAfterCheck(env: RunEnv, n: AgentNode)
    requires LoopsBack(env) && OnLoop(n) && !IsGitCommit(n)
    ensures LoopNext(env, n) in ValidatorNext(env, n)
  {
    hide ParseFixIteration, Numbered, TestId;
    if n.instructions == "lint" { LintNode(n); } else { TestNode(n); }
    hide IsLint, IsTest, IsExternal;
  }

  lemma LoopIsEndless(env: RunEnv, f: nat -> AgentNode)
    requires LoopsBack(env) && forall i: nat :: f(i) == LoopNode(env, i)
    ensures Endless(env, f)
  {
    hide Injects, OnLoop, LoopNext;
    forall i: nat ensures AnyStep(env, f(i), f(i + 1)) {
      LoopStep(env, LoopNode(env, i));
      assert f(i + 1) == LoopNext(env, f(i));
    }
  }

  /**
    * With failing commit nodes allowed, endless growth is possible exactly when commits are made and
    * at least one fix iteration is configured: the failed commit node counts as lint iteration 0.
    */
  lemma EndlessExactly(env: RunEnv)
    ensures (exists f: nat -> AgentNode :: Endless(env, f)) <==> LoopsBack(env)
  {
    hide Endless, LoopsBack, LoopNode, Rank;
    if LoopsBack(env) {
      var f: nat -> AgentNode := (i: nat) => LoopNode(env, i);
      LoopIsEndless(env, f);
    } else if f: nat -> AgentNode :| Endless(env, f) {
      RankFalls(env, f, RANK_BOUND);
      RankBelow(env, f(0));
    }
  }

  lemma {:induction false} RankFalls(env: RunEnv, f: nat -> AgentNode, k: nat)
    requires !LoopsBack(env) && Endless(env, f)
    ensures Rank(env, f(k)) + k <= Rank(env, f(0))
  {
    if k > 0 {
      RankFalls(env, f, k - 1);
      assert AnyStep(env, f(k - 1), f((k - 1) + 1));
      var r :| Injects(env, f(k - 1), r, f(k));
      InjectionLowersRank(env, f(k - 1), r, f(k));
    }
  }

  // ------------------------------------------------------------------ growth inside one graph

  /** A chain of injections with arbitrary outcomes, failing commit nodes included. */
  ghost predicate AnyChain(env: RunEnv, c: seq<AgentNode>) {
    forall i | 0 <= i < |c| - 1 :: AnyStep(env, c[i], c[i + 1])
  }

  /** A graph holds one node under each id. */
  predicate DistinctIds(c: seq<AgentNode>) {
    forall i, j | 0 <= i < j < |c| :: c[i].id != c[j].id
  }

  /** Without commit nodes before its end, a chain is bounded like one in which none fails. */
  lemma CommitFreePart(env: RunEnv, c: seq<AgentNode>, a: nat, b: nat)
    requires AnyChain(env, c) && a <= b <= |c|
    requires forall i | a <= i < b - 1 :: !IsGitCommit(c[i])
    ensures b - a <= RANK_BOUND
  {
    var part := c[a..b];
    forall i | 0 <= i < |part| - 1 ensures Step(env, part[i], part[i + 1]) {
      assert AnyStep(env, c[a + i], c[(a + i) + 1]);
      hide IsGitCommit, Completed;
    }
    GrowthIsBounded(env, part);
  }

  /**
    * In one running graph every chain of injections is bounded, whatever the outcomes: its ids are
    * distinct, so at most one of its nodes is a commit node.
    */
  lemma GrowthInGraphIsBounded(env: RunEnv, c: seq<AgentNode>)
    requires AnyChain(env, c) && DistinctIds(c)
    ensures |c| <= 2 * RANK_BOUND
  {
    if g: nat :| g < |c| && IsGitCommit(c[g]) {
      assert forall i | 0 <= i < |c| && i != g :: !IsGitCommit(c[i]);
      hide AnyChain;
      CommitFreePart(env, c, 0, g + 1);
      CommitFreePart(env, c, g + 1, |c|);
    } else {
      CommitFreePart(env, c, 0, |c|);
    }
  }

  /** So an endless growth of the callback injects an id a second time, which `add_node` refuses. */
  lemma EndlessRepeatsAnId(env: RunEnv, f: nat -> AgentNode)
    requires Endless(env, f)
    ensures exists i: nat, j: nat :: i < j <= 2 * RANK_BOUND && f(i).id == f(j).id
  {
    var n := 2 * RANK_BOUND + 1;
    var c := seq(n, i requires 0 <= i < n => f(i));
    assert AnyChain(env, c) by { hide AnyStep; }
    hide AnyChain, Endless;
    if DistinctIds(c) {
      GrowthInGraphIsBounded(env, c);
    } else {
      var i, j :| 0 <= i < j < |c| && c[i].id == c[j].id;
      assert f(i).id == f(j).id;
    }
  }

  // ------------------------------------------------------------------ the whole tree of injections

  /** A node and what it has led to: it may not have finished yet, or it has injected its list of nodes. */
  datatype InjectionTree =
    | Waiting(node: AgentNode)
    | Finished(node: AgentNode, result: NodeResult, next: seq<InjectionTree>)

  /** Each finished node has injected what the callback returns, and no commit node fails and loops back. */
  ghost predicate IsGrowth(env: RunEnv, t: InjectionTree) {
    t.Finished? ==>
      && (LoopsBack(env) && IsGitCommit(t.node) ==> t.result.succeeded)
      && |t.next| == |Completed(env, t.node, t.result).nodes|
      && forall i | 0 <= i < |t.next| ::
           t.next[i].node == Completed(env, t.node, t.result).nodes[i] && IsGrowth(env, t.next[i])
  }

  function Size(t: InjectionTree): nat {
    1 + if t.Waiting? then 0 else SizeOfAll(t.next)
  }

  function SizeOfAll(ts: seq<InjectionTree>): nat {
    if ts == [] then 0 else Size(ts[0]) + SizeOfAll(ts[1..])
  }

  /** Nodes of a full tree with b branches and the given height. */
  function FullTree(b: nat, height: nat): nat {
    1 + if height == 0 then 0 else b * FullTree(b, height - 1)
  }

  lemma {:induction false} FullTreeGrows(b: nat, h: nat, k: nat)
    requires h <= k
    ensures FullTree(b, h) <= FullTree(b, k)
  {
    if h > 0 {
      FullTreeGrows(b, h - 1, k - 1);
      Scale(b, FullTree(b, h - 1), FullTree(b, k - 1));
    }
  }

  lemma Scale(b: nat, x: nat, y: nat)
    requires x <= y
    ensures b * x <= b * y
  {}

  /** One finish injects at most three nodes by the fixed rules, or a plan of at most the cap. */
  lemma InjectsFew(env: RunEnv, n: AgentNode, r: NodeResult)
    ensures |Completed(env, n, r).nodes| <= if env.cap > 3 then env.cap else 3
  {
    hide PlanOf, ParseFixIteration, Numbered, Phase, IsLint, IsTest, IsExternal, TestId;
    if n.role == Validator {
      CompletedValidator(env, n, r);
    } else if n.role == Reviewer {
      CompletedReviewer(env, n, r);
    } else if n.role != Planner {
      CompletedOther(env, n, r);
    }
  }

  lemma {:induction false} TreeIsSmall(env: RunEnv, t: InjectionTree, b: nat)
    requires IsGrowth(env, t) && b == if env.cap > 3 then env.cap else 3
    ensures Size(t) <= FullTree(b, Rank(env, t.node))
  {
    hide Completed, Rank, LoopsBack, IsGitCommit;
    match t {
      case Waiting(_) => LeafIsSmall(t, b, Rank(env, t.node));
      case Finished(n, r, next) =>
        InjectsFew(env, n, r);
        var h := Rank(env, n);
        hide FullTree, Size;
        forall i | 0 <= i < |next| ensures h > 0 && Size(next[i]) <= FullTree(b, h - 1) {
          InjectionLowersRank(env, n, r, next[i].node);
          TreeIsSmall(env, next[i], b);
          FullTreeGrows(b, Rank(env, next[i].node), h - 1);
        }
        hide IsGrowth;
        if next != [] {
          assert Size(next[0]) <= FullTree(b, h - 1);
          LevelIsSmall(t, b, h);
        } else {
          LeafIsSmall(t, b, h);
        }
    }
  }

  lemma LevelIsSmall(t: InjectionTree, b: nat, h: nat)
    requires t.Finished? && |t.next| <= b && h > 0
    requires forall i | 0 <= i < |t.next| :: Size(t.next[i]) <= FullTree(b, h - 1)
    ensures Size(t) <= FullTree(b, h)
  {
    SumIsSmall(t.next, FullTree(b, h - 1));
    Scale(FullTree(b, h - 1), |t.next|, b);
  }

  lemma LeafIsSmall(t: InjectionTree, b: nat, h: nat)
    requires t.Finished? ==> t.next == []
    ensures Size(t) <= FullTree(b, h)
  {
    FullTreeGrows(b, 0, h);
  }

  lemma {:induction false} SumIsSmall(ts: seq<InjectionTree>, bound: nat)
    requires forall i | 0 <= i < |ts| :: Size(ts[i]) <= bound
    ensures SizeOfAll(ts) <= |ts| * bound
  {
    hide Size;
    if ts != [] {
      SumIsSmall(ts[1..], bound);
      assert |ts| * bound == bound + |ts[1..]| * bound;
    }
  }

  /**
    * All that ever grows out of one node is finite, by one bound for all outputs of all agents: no more
    * than a full tree of height 18432 with the cap, or three, branches. Commit nodes must not fail
    * where they loop back.
    */
  lemma GrowthTreeIsBounded(env: RunEnv, t: InjectionTree)
    requires IsGrowth(env, t)
    ensures Size(t) <= FullTree(if env.cap > 3 then env.cap else 3, RANK_BOUND)
  {
    hide IsGrowth, Size, FullTree, Rank;
    var b := if env.cap > 3 then env.cap else 3;
    TreeIsSmall(env, t, b);
    RankBelow(env, t.node);
    FullTreeGrows(b, Rank(env, t.node), RANK_BOUND);
  }
}
