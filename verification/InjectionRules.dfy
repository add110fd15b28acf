/**
  * The rules of the completion callback, written out node by node: when each node must appear, with its
  * id, role, text, dependencies and depth.
  */
module InjectionRules {
  import opened Wrappers
  import opened Types
  import opened PlanValidation
  import opened ExecutionGraphs
  import opened Completion
  import JsonExtraction
  import JsonText
  import Text

  // ------------------------------------------------------------------ plans

  /** The plan that a planner's output holds: the decoded JSON object in it, or the decoded output. */
  lemma PlanOfMeaning(env: RunEnv, output: string, plan: SubtaskPlan)
    ensures PlanOf(env, output) == Some(plan)
       <==> (exists json :: JsonExtraction.Extracted(output) == Some(json) && env.parsePlan(json) == Some(plan))
            || (env.parsePlan(output) == Some(plan)
                && forall json :: JsonExtraction.Extracted(output) == Some(json) ==> env.parsePlan(json) == None)
  {
    hide JsonExtraction.Extracted;
  }

  /**
    * A planner's turn: an acceptable plan gives one node for each subtask, in order, and skips the
    * static nodes; any other plan gives nothing and skips nothing.
    */
  lemma PlanInjection(env: RunEnv, n: AgentNode, r: NodeResult, plan: SubtaskPlan)
    requires n.role == Planner && r.succeeded && n.depth < 5 && PlanOf(env, r.output) == Some(plan)
    ensures var ts, out := plan.subtasks, Completed(env, n, r);
            if Acceptable(ts, (set x | x in env.staticIds), env.cap) then
              && out.skips == env.staticIds
              && |out.nodes| == |ts|
              && forall i | 0 <= i < |ts| ::
                   && out.nodes[i].id == ts[i].id
                   && out.nodes[i].role == ts[i].agentRole
                   && out.nodes[i].instructions == (if ts[i].instructions == "" then ts[i].description
                                                    else ts[i].instructions)
                   && out.nodes[i].dependencies == (if ts[i].dependencies == [] then [n.id]
                                                    else ts[i].dependencies)
                   && out.nodes[i].depth == n.depth + 1
            else out.nodes == [] && out.skips == []
  {
    hide PlanOf, Acceptable;
    assert StaticSet(env) == set x | x in env.staticIds;
  }

  /** Prose, a JSON object that decodes to an acceptable plan, any suffix: the plan is what is injected. */
  lemma PlanInProse(env: RunEnv, n: AgentNode, r: NodeResult, prose: string, j: JsonText.Json, suffix: string,
                    plan: SubtaskPlan)
    requires n.role == Planner && r.succeeded && n.depth < 5
    requires r.output == prose + JsonText.TextOf(j) + suffix && !Text.Contains(r.output, "```")
    requires JsonText.ValidJson(j) && j.Object? && '{' !in prose && env.parsePlan(JsonText.TextOf(j)) == Some(plan)
    requires Acceptable(plan.subtasks, (set x | x in env.staticIds), env.cap)
    ensures var out := Completed(env, n, r);
            && out.skips == env.staticIds
            && |out.nodes| == |plan.subtasks|
            && forall i | 0 <= i < |plan.subtasks| :: out.nodes[i].id == plan.subtasks[i].id
  {
    JsonExtraction.ExtractsTheObject(prose, j, suffix);
    hide JsonExtraction.Extracted, JsonText.TextOf, JsonText.ValidJson, Text.Contains, Acceptable;
    PlanOfMeaning(env, r.output, plan);
    hide PlanOf, Completed;
    PlanInjection(env, n, r, plan);
  }

  /** A planner without a plan: one checkpoint exactly for a task of more than twenty words. */
  lemma CheckpointInjection(env: RunEnv, n: AgentNode, r: NodeResult)
    requires n.role == Planner && !(r.succeeded && n.depth < 5 && PlanOf(env, r.output).Some?)
    ensures Completed(env, n, r).skips == []
    ensures Completed(env, n, r).nodes
         == if r.succeeded && n.depth < 5 && env.taskWords > 20
            then [AgentNode("dynamic_checkpoint_" + env.runId, Summarizer, "", [n.id], n.depth + 1)] else []
  {
    hide PlanOf;
  }

  // ------------------------------------------------------------------ reviews

  /** Depths are 8-bit numbers that wrap. */
  function Deeper(d: u8, k: nat): u8 { (d + k) % 256 }

  /**
    * A review: a fix and a re-review exactly when a succeeded review asks for changes in the first three
    * iterations; a new planner exactly when one above depth 4 reports the work as incomplete.
    */
  lemma ReviewInjection(env: RunEnv, n: AgentNode, r: NodeResult)
    requires n.role == Reviewer
    ensures var i := ParseFixIteration(n.id);
            var out := Completed(env, n, r);
            var next := Text.Decimal(i + 1);
            && out.skips == []
            && out.nodes
               == (if r.succeeded && Text.Contains(r.output, "REQUEST_CHANGES") && i < 3
                   then [AgentNode("fix_review_" + next, Coder, "", [n.id], Deeper(n.depth, 1)),
                         AgentNode("re_review_" + next, Reviewer, "", ["fix_review_" + next], Deeper(n.depth, 2))]
                   else [])
                  + (if r.succeeded && n.depth < 4 && "INCOMPLETE" <= Text.Trim(r.output)
                     then [AgentNode("replan_after_" + n.id, Planner, "", [n.id], Deeper(n.depth, 1))] else [])
  {
    CompletedReviewer(env, n, r);
    var next := Text.Decimal(ParseFixIteration(n.id) + 1);
    assert "fix_review" + "_" == "fix_review_" && "re_review" + "_" == "re_review_";
    hide Completed, Text.Contains, Text.Trim, Text.Decimal, ParseFixIteration;
  }

  // ------------------------------------------------------------------ validation

  /** A failed validator: a fix and the same phase again while iterations are left, else a summary. */
  lemma FixInjection(env: RunEnv, n: AgentNode, r: NodeResult)
    requires n.role == Validator && !r.succeeded
    ensures var i := ParseFixIteration(n.id);
            var phase := if Text.Contains(n.instructions, "test") then "test" else "lint";
            var out := Completed(env, n, r);
            && out.skips == []
            && if i < env.config.maxFixIterations then
                 var next := Text.Decimal(i + 1);
                 var fix := "fix_" + phase + "_" + next;
                 out.nodes == [AgentNode(fix, Coder, "", [n.id], Deeper(n.depth, 1)),
                               AgentNode("validate_" + phase + "_" + next, Validator, phase, [fix], Deeper(n.depth, 2))]
               else
                 out.nodes == [AgentNode("summarize_failed", Summarizer, "", [n.id], Deeper(n.depth, 1))]
  {
    CompletedValidator(env, n, r);
    hide Completed, Text.Contains, Text.Decimal, ParseFixIteration;
  }

  /** After the last passed check: the commit node if commits are on, and the summary behind it. */
  function Finish(env: RunEnv, n: AgentNode): seq<AgentNode> {
    if env.config.gitAutoCommit then
      [AgentNode("git_commit", Validator, "git", [n.id], Deeper(n.depth, 1)),
       AgentNode("summarize_final_" + env.runId, Summarizer, "", ["git_commit"], Deeper(n.depth, 2))]
    else [AgentNode("summarize_final_" + env.runId, Summarizer, "", [n.id], Deeper(n.depth, 1))]
  }

  /**
    * A passed validator: lint is followed by tests where they are configured, for an external repository
    * where its analysis has found some; a test, and a lint phase without tests, by the finish; a commit
    * by nothing.
    */
  lemma PhaseInjection(env: RunEnv, n: AgentNode, r: NodeResult)
    requires n.role == Validator && r.succeeded
    ensures var test, git := Text.Contains(n.instructions, "test"), Text.Contains(n.instructions, "git");
            var out := Completed(env, n, r);
            && out.skips == []
            && if Text.Contains(n.instructions, "lint") || (!test && !git) then
                 if Text.Contains(n.instructions, "external") then
                   out.nodes
                   == if env.repoHasTest
                      then [AgentNode("validate_test", Validator, "external_test", [n.id], Deeper(n.depth, 1))]
                      else Finish(env, n)
                 else if env.config.hasTest then
                   var id := if n.id == "validate_lint" then "validate_test"
                             else "validate_test_" + Text.Decimal(ParseFixIteration(n.id));
                   out.nodes == [AgentNode(id, Validator, "test", [n.id], Deeper(n.depth, 1))]
                 else out.nodes == Finish(env, n)
               else out.nodes == if test then Finish(env, n) else []
  {
    CompletedValidator(env, n, r);
    assert "validate_test" + "_" == "validate_test_";
    hide Completed, Text.Contains, Text.Decimal, ParseFixIteration;
  }
}
