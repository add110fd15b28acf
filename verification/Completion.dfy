/**
  * The completion callback of src/orchestrator/completion.rs: which nodes a finished node injects
  * into the running graph.
  */
module Completion {
  import opened Wrappers
  import opened Types
  import opened PlanValidation
  import opened ExecutionGraphs
  import JsonExtraction
  import Text

  /** The parts of `ValidationConfig` that decide which nodes are injected. */
  datatype ValidationConfig = ValidationConfig(maxFixIterations: u8, hasTest: bool, gitAutoCommit: bool)

  /** What the callback captures: configuration, run data, and the foreign JSON decoder. */
  datatype RunEnv = RunEnv(
    runId: string,
    taskWords: nat,
    config: ValidationConfig,
    repoHasTest: bool,
    staticIds: seq<string>,
    cap: nat,
    parsePlan: string -> Option<SubtaskPlan>)

  datatype NodeResult = NodeResult(succeeded: bool, output: string)

  /** New nodes, and the ids of pending static nodes to skip. */
  datatype Injection = Injection(nodes: seq<AgentNode>, skips: seq<string>)

  const MAX_REVIEW_ITERATIONS: u8 := 3

  /** u8 addition as a release build does it. */
  function AddDepth(d: u8, k: u8): u8 {
    (d + k) % 256
  }

  function ParseFixIteration(id: string): u8 {
    match Text.ParseU8(Text.LastSegment(id))
    case Some(n) => if n <= 255 then n else 0
    case None => 0
  }

  function Numbered(prefix: string, n: u8): string {
    prefix + "_" + Text.Decimal(n)
  }

  /** The iteration number written into a node id is the one read back from it. */
  lemma IterationRoundTrip(prefix: string, n: u8)
    ensures ParseFixIteration(Numbered(prefix, n)) == n
  {
    var d := Text.Decimal(n);
    assert forall i | 0 <= i < |d| :: d[i] in d;
    Text.LastSegmentAfter(prefix, d);
    Text.ParseU8Decimal(n);
  }

  /**
    * The iteration of any id: what stands behind its last underscore (the whole id if it has none), read
    * as a number of at most 255; 0 if it is none.
    */
  lemma IterationMeaning(prefix: string, tail: string)
    requires forall i | 0 <= i < |tail| :: tail[i] != '_'
    ensures var digits := if tail != [] && tail[0] == '+' then tail[1..] else tail;
            var n := if digits != [] && Text.AllDigits(digits) && Text.Value(digits) <= 255
                     then Text.Value(digits) else 0;
            ParseFixIteration(prefix + "_" + tail) == n && ParseFixIteration(tail) == n
  {
    Text.LastSegmentAfter(prefix, tail);
    Text.LastSegmentWhole(tail);
    Text.ParseU8Meaning(tail);
  }

  // ------------------------------------------------------------------ the branches

  function StaticSet(env: RunEnv): set<string> {
    set x | x in env.staticIds
  }

  function PlanOf(env: RunEnv, output: string): Option<SubtaskPlan> {
    match JsonExtraction.Extracted(output)
    case Some(json) => if env.parsePlan(json).Some? then env.parsePlan(json) else env.parsePlan(output)
    case None => env.parsePlan(output)
  }

  function SubtaskNode(s: SubtaskDefinition, planner: AgentNode): AgentNode {
    AgentNode(s.id, s.agentRole, if s.instructions == [] then s.description else s.instructions,
              NodeDeps(s, planner.id), AddDepth(planner.depth, 1))
  }

  function SubtaskNodes(ts: Subtasks, planner: AgentNode): (ns: seq<AgentNode>)
    ensures |ns| == |ts| && forall i | 0 <= i < |ts| :: ns[i] == SubtaskNode(ts[i], planner)
  {
    seq(|ts|, i requires 0 <= i < |ts| => SubtaskNode(ts[i], planner))
  }

  predicate PlannerTurn(n: AgentNode, r: NodeResult) {
    n.role == Planner && r.succeeded && n.depth < 5
  }

  function Checkpoint(env: RunEnv, n: AgentNode): seq<AgentNode> {
    if env.taskWords > 20 then
      [AgentNode("dynamic_checkpoint_" + env.runId, Summarizer, "", [n.id], AddDepth(n.depth, 1))]
    else []
  }

  function ReviewFixes(n: AgentNode, r: NodeResult): seq<AgentNode> {
    var i := ParseFixIteration(n.id);
    if n.role == Reviewer && r.succeeded && Text.Contains(r.output, "REQUEST_CHANGES")
       && i < MAX_REVIEW_ITERATIONS
    then
      var fixId := Numbered("fix_review", i + 1);
      [AgentNode(fixId, Coder, "", [n.id], AddDepth(n.depth, 1)),
       AgentNode(Numbered("re_review", i + 1), Reviewer, "", [fixId], AddDepth(n.depth, 2))]
    else []
  }

  function Phase(n: AgentNode): string {
    if Text.Contains(n.instructions, "test") then "test" else "lint"
  }

  function ValidatorFixes(env: RunEnv, n: AgentNode): seq<AgentNode> {
    var i := ParseFixIteration(n.id);
    if i < env.config.maxFixIterations then
      var fixId := Numbered("fix_" + Phase(n), i + 1);
      [AgentNode(fixId, Coder, "", [n.id], AddDepth(n.depth, 1)),
       AgentNode(Numbered("validate_" + Phase(n), i + 1), Validator, Phase(n), [fixId], AddDepth(n.depth, 2))]
    else
      [AgentNode("summarize_failed", Summarizer, "", [n.id], AddDepth(n.depth, 1))]
  }

  /** `inject_git_and_summarize`: an optional commit node, then the final summary. */
  function GitAndSummary(env: RunEnv, n: AgentNode): seq<AgentNode> {
    var summaryId := "summarize_final_" + env.runId;
    if env.config.gitAutoCommit then
      [AgentNode("git_commit", Validator, "git", [n.id], AddDepth(n.depth, 1)),
       AgentNode(summaryId, Summarizer, "", ["git_commit"], AddDepth(AddDepth(n.depth, 1), 1))]
    else
      [AgentNode(summaryId, Summarizer, "", [n.id], AddDepth(n.depth, 1))]
  }

  predicate IsLint(n: AgentNode) {
    || Text.Contains(n.instructions, "lint")
    || (!Text.Contains(n.instructions, "test") && !Text.Contains(n.instructions, "git"))
  }

  predicate IsTest(n: AgentNode) {
    Text.Contains(n.instructions, "test")
  }

  predicate IsExternal(n: AgentNode) {
    Text.Contains(n.instructions, "external")
  }

  function TestId(n: AgentNode): string {
    if n.id == "validate_lint" then "validate_test" else Numbered("validate_test", ParseFixIteration(n.id))
  }

  function ValidatorNext(env: RunEnv, n: AgentNode): seq<AgentNode> {
    if IsLint(n) then
      if IsExternal(n) then
        if env.repoHasTest then
          [AgentNode("validate_test", Validator, "external_test", [n.id], AddDepth(n.depth, 1))]
        else GitAndSummary(env, n)
      else if env.config.hasTest then
        [AgentNode(TestId(n), Validator, "test", [n.id], AddDepth(n.depth, 1))]
      else GitAndSummary(env, n)
    else if IsTest(n) then GitAndSummary(env, n)
    else []
  }

  function Replan(n: AgentNode, r: NodeResult): seq<AgentNode> {
    if n.role == Reviewer && r.succeeded && n.depth < 4 && "INCOMPLETE" <= Text.Trim(r.output) then
      [AgentNode("replan_after_" + n.id, Planner, "", [n.id], AddDepth(n.depth, 1))]
    else []
  }

  /** Everything the callback returns for a finished node. */
  ghost function Completed(env: RunEnv, n: AgentNode, r: NodeResult): Injection {
    if PlannerTurn(n, r) && PlanOf(env, r.output).Some? then
      var ts := PlanOf(env, r.output).value.subtasks;
      if Acceptable(ts, StaticSet(env), env.cap)
      then Injection(SubtaskNodes(ts, n), env.staticIds)
      else Injection([], [])
    else
      Injection(
        (if PlannerTurn(n, r) then Checkpoint(env, n) else [])
        + ReviewFixes(n, r)
        + (if n.role == Validator && !r.succeeded then ValidatorFixes(env, n) else [])
        + (if n.role == Validator && r.succeeded then ValidatorNext(env, n) else [])
        + Replan(n, r),
        [])
  }

  lemma CompletedValidator(env: RunEnv, n: AgentNode, r: NodeResult)
    requires n.role == Validator
    ensures Completed(env, n, r) == Injection(if r.succeeded then ValidatorNext(env, n) else ValidatorFixes(env, n), [])
  {
    hide ValidatorNext, ValidatorFixes, PlanOf;
  }

  lemma CompletedReviewer(env: RunEnv, n: AgentNode, r: NodeResult)
    requires n.role == Reviewer
    ensures Completed(env, n, r) == Injection(ReviewFixes(n, r) + Replan(n, r), [])
  {
    hide PlanOf;
  }

  /** Roles other than planner, reviewer and validator inject nothing. */
  lemma CompletedOther(env: RunEnv, n: AgentNode, r: NodeResult)
    requires n.role != Planner && n.role != Reviewer && n.role != Validator
    ensures Completed(env, n, r) == Injection([], [])
  {
    hide PlanOf;
  }

  // ------------------------------------------------------------------ the callback

  method InjectGitAndSummarize(env: RunEnv, n: AgentNode, dynamicNodes: seq<AgentNode>)
    returns (nodes: seq<AgentNode>)
    ensures nodes == dynamicNodes + GitAndSummary(env, n)
  {
    nodes := dynamicNodes;
    var lastDep := n.id;
    var depth := AddDepth(n.depth, 1);
    if env.config.gitAutoCommit {
      nodes := nodes + [AgentNode("git_commit", Validator, "git", [lastDep], depth)];
      lastDep := "git_commit";
      depth := AddDepth(depth, 1);
    }
    nodes := nodes + [AgentNode("summarize_final_" + env.runId, Summarizer, "", [lastDep], depth)];
  }

  method InjectReviewFixes(n: AgentNode, r: NodeResult, dynamicNodes: seq<AgentNode>) returns (nodes: seq<AgentNode>)
    requires n.role == Reviewer && r.succeeded && Text.Contains(r.output, "REQUEST_CHANGES")
    ensures nodes == dynamicNodes + ReviewFixes(n, r)
  {
    nodes := dynamicNodes;
    var iteration := ParseFixIteration(n.id);
    if iteration < MAX_REVIEW_ITERATIONS {
      var fixId := Numbered("fix_review", iteration + 1);
      nodes := nodes + [AgentNode(fixId, Coder, "", [n.id], AddDepth(n.depth, 1))];
      nodes := nodes
        + [AgentNode(Numbered("re_review", iteration + 1), Reviewer, "", [fixId], AddDepth(n.depth, 2))];
    }
  }

  method InjectValidatorFixes(env: RunEnv, n: AgentNode, dynamicNodes: seq<AgentNode>)
    returns (nodes: seq<AgentNode>)
    ensures nodes == dynamicNodes + ValidatorFixes(env, n)
  {
    nodes := dynamicNodes;
    var iteration := ParseFixIteration(n.id);
    var phase := if Text.Contains(n.instructions, "test") then "test" else "lint";
    if iteration < env.config.maxFixIterations {
      var fixId := Numbered("fix_" + phase, iteration + 1);
      nodes := nodes + [AgentNode(fixId, Coder, "", [n.id], AddDepth(n.depth, 1))];
      nodes := nodes
        + [AgentNode(Numbered("validate_" + phase, iteration + 1), Validator, phase, [fixId], AddDepth(n.depth, 2))];
    } else {
      nodes := nodes + [AgentNode("summarize_failed", Summarizer, "", [n.id], AddDepth(n.depth, 1))];
    }
  }

  /**
    * The closure of `build_on_completed_fn`. `keys` is the hash-map order used when a plan is
    * validated.
    */
  method OnCompleted(env: RunEnv, n: AgentNode, r: NodeResult, keys: seq<string>) returns (out: Injection)
    requires PlanOf(env, r.output).Some? ==>
               forall x :: x in keys <==> x in Ids(PlanOf(env, r.output).value.subtasks)
    ensures out == Completed(env, n, r)
  {
    hide PlanOf, Acceptable, ValidatorFixes, TestId, GitAndSummary, Text.Contains, Text.Trim;
    hide ParseFixIteration;
    var dynamicNodes: seq<AgentNode> := [];
    if n.role == Planner && r.succeeded && n.depth < 5 {
      var plan := PlanOf(env, r.output);
      if plan.Some? {
        var verdict := ValidateSubtaskPlan(plan.value, StaticSet(env), env.cap, keys);
        if verdict.Err? {
          return Injection([], []);
        }
        var ts := plan.value.subtasks;
        for i := 0 to |ts|
          invariant dynamicNodes == SubtaskNodes(ts, n)[..i]
        {
          dynamicNodes := dynamicNodes + [SubtaskNode(ts[i], n)];
        }
        return Injection(dynamicNodes, env.staticIds);
      }
      if env.taskWords > 20 {
        dynamicNodes := dynamicNodes
          + [AgentNode("dynamic_checkpoint_" + env.runId, Summarizer, "", [n.id], AddDepth(n.depth, 1))];
      }
    }
    if n.role == Reviewer && r.succeeded && Text.Contains(r.output, "REQUEST_CHANGES") {
      dynamicNodes := InjectReviewFixes(n, r, dynamicNodes);
    }
    if n.role == Validator && !r.succeeded {
      dynamicNodes := InjectValidatorFixes(env, n, dynamicNodes);
    }
    if n.role == Validator && r.succeeded {
      if IsLint(n) {
        if IsExternal(n) {
          if env.repoHasTest {
            dynamicNodes := dynamicNodes
              + [AgentNode("validate_test", Validator, "external_test", [n.id], AddDepth(n.depth, 1))];
          } else {
            dynamicNodes := InjectGitAndSummarize(env, n, dynamicNodes);
          }
          return Injection(dynamicNodes, []);
        }
        if env.config.hasTest {
          dynamicNodes := dynamicNodes
            + [AgentNode(TestId(n), Validator, "test", [n.id], AddDepth(n.depth, 1))];
        } else {
          dynamicNodes := InjectGitAndSummarize(env, n, dynamicNodes);
        }
      } else if IsTest(n) {
        dynamicNodes := InjectGitAndSummarize(env, n, dynamicNodes);
      }
    }
    if n.role == Reviewer && r.succeeded && n.depth < 4 {
      if "INCOMPLETE" <= Text.Trim(r.output) {
        dynamicNodes := dynamicNodes
          + [AgentNode("replan_after_" + n.id, Planner, "", [n.id], AddDepth(n.depth, 1))];
      }
    }
    return Injection(dynamicNodes, []);
  }
}
