/**
  * An accepted plan meets the running graph: `validate_subtask_plan` looks at the plan as a set of
  * subtasks, while the run loop of src/runtime/mod.rs adds its nodes one by one and stops at the
  * first that `add_node` refuses. When do the two agree? The same question for the nodes that the
  * fixed rules of the callback inject.
  */
module PlanRuntime {
  import opened Wrappers
  import opened Types
  import opened Digraph
  import opened PlanValidation
  import opened ExecutionGraphs
  import opened Completion

  /** Every dependency on another subtask points backwards in the list. */
  predicate DepsListedFirst(ts: Subtasks) {
    forall i, d | 0 <= i < |ts| && d in ts[i].dependencies && d in Ids(ts) :: d in Ids(ts[..i])
  }

  /** No id of the plan is taken. */
  predicate IdsAreNew(nodes: NodeMap, ts: Subtasks) {
    Ids(ts) !! nodes.Keys
  }

  lemma EarlierSubtask(ts: Subtasks, planner: AgentNode, i: nat, d: string)
    requires i <= |ts|
    ensures EarlierIn(SubtaskNodes(ts, planner), i, d) <==> d in Ids(ts[..i])
  {
    var ns := SubtaskNodes(ts, planner);
    if d in Ids(ts[..i]) {
      var j :| 0 <= j < i && ts[..i][j].id == d;
      assert ns[j].id == d;
    }
    if EarlierIn(ns, i, d) {
      var j :| 0 <= j < i && ns[j].id == d;
      assert ts[..i][j].id == d;
    }
  }

  lemma IdsDistinct(ts: Subtasks, i: nat)
    requires i < |ts| && IdsOk(ts)
    ensures ts[i].id !in Ids(ts[..i])
  {
    assert forall j | 0 <= j < i :: ts[..i][j].id == ts[j].id;
  }

  /** Nodes of a well-formed plan with fresh ids, at a depth in range, fit when their dependencies do. */
  lemma PlanFits(nodes: NodeMap, maxDepth: u8, ts: Subtasks, planner: AgentNode, statics: set<string>, cap: nat)
    requires WellFormed(ts, statics, cap) && DepsExact(ts, nodes.Keys + Ids(ts)) && DepsListedFirst(ts)
    requires Ids(ts) !! nodes.Keys && planner.id in nodes && statics <= nodes.Keys
    requires AddDepth(planner.depth, 1) <= maxDepth
    ensures AdmitsAll(nodes, maxDepth, SubtaskNodes(ts, planner))
  {
    var ns := SubtaskNodes(ts, planner);
    forall i | 0 <= i < |ns| ensures AdmitsAt(nodes, maxDepth, ns, i) {
      assert ts[i].id in Ids(ts);
      IdsDistinct(ts, i);
      EarlierSubtask(ts, planner, i, ts[i].id);
      forall d | d in ns[i].dependencies ensures d in nodes || EarlierIn(ns, i, d) {
        if ts[i].dependencies != [] {
          ExactDepIsKnown(ts, statics, nodes.Keys + Ids(ts), i, d);
          EarlierSubtask(ts, planner, i, d);
        }
      }
      hide EarlierIn, Ids, IdsOk, DepsExact, DepsOk, IsTrimmed;
    }
  }

  /** A plan that fits names its dependencies exactly and lists them first. */
  lemma FittingPlanIsOrdered(nodes: NodeMap, maxDepth: u8, ts: Subtasks, planner: AgentNode, i: nat, d: string)
    requires AdmitsAll(nodes, maxDepth, SubtaskNodes(ts, planner)) && Ids(ts) !! nodes.Keys
    requires i < |ts| && d in ts[i].dependencies
    ensures AddDepth(planner.depth, 1) <= maxDepth
    ensures d in nodes || d in Ids(ts)
    ensures d in Ids(ts) ==> d in Ids(ts[..i])
  {
    var ns := SubtaskNodes(ts, planner);
    assert AdmitsAt(nodes, maxDepth, ns, i);
    assert ns[i].dependencies == ts[i].dependencies;
    EarlierSubtask(ts, planner, i, d);
    if d in Ids(ts[..i]) {
      var j :| 0 <= j < i && ts[..i][j].id == d;
      assert ts[j].id == d;
    }
  }

  lemma FittingIdsAreNew(nodes: NodeMap, maxDepth: u8, ts: Subtasks, planner: AgentNode)
    requires AdmitsAll(nodes, maxDepth, SubtaskNodes(ts, planner))
    ensures IdsAreNew(nodes, ts)
  {
    var ns := SubtaskNodes(ts, planner);
    forall i | 0 <= i < |ts| ensures ts[i].id !in nodes {
      assert AdmitsAt(nodes, maxDepth, ns, i) && ns[i].id == ts[i].id;
    }
  }

  /**
    * The nodes of an accepted plan can be added in plan order exactly when their ids are not taken, the
    * depth is in range, every dependency is written as the name of a node or without surrounding white
    * space, and every subtask is listed after the subtasks it depends on. Acceptance gives none of these.
    */
  lemma PlanFitsExactly(nodes: NodeMap, maxDepth: u8, ts: Subtasks, planner: AgentNode, statics: set<string>, cap: nat)
    requires Acceptable(ts, statics, cap)
    requires planner.id in nodes && statics <= nodes.Keys
    ensures AdmitsAll(nodes, maxDepth, SubtaskNodes(ts, planner))
       <==> IdsAreNew(nodes, ts) && AddDepth(planner.depth, 1) <= maxDepth
            && DepsExact(ts, nodes.Keys + Ids(ts)) && DepsListedFirst(ts)
  {
    if IdsAreNew(nodes, ts) && AddDepth(planner.depth, 1) <= maxDepth
       && DepsExact(ts, nodes.Keys + Ids(ts)) && DepsListedFirst(ts)
    {
      PlanFits(nodes, maxDepth, ts, planner, statics, cap);
    }
    if AdmitsAll(nodes, maxDepth, SubtaskNodes(ts, planner)) {
      assert AdmitsAt(nodes, maxDepth, SubtaskNodes(ts, planner), 0);
      FittingIdsAreNew(nodes, maxDepth, ts, planner);
      hide AdmitsAll, IsTrimmed, IdsOk, Ids, DepsOk;
      forall i, k | 0 <= i < |ts| && 0 <= k < |ts[i].dependencies|
        ensures ts[i].dependencies[k] in nodes.Keys + Ids(ts)
      {
        FittingPlanIsOrdered(nodes, maxDepth, ts, planner, i, ts[i].dependencies[k]);
      }
      forall i, d | 0 <= i < |ts| && d in ts[i].dependencies && d in Ids(ts) ensures d in Ids(ts[..i]) {
        FittingPlanIsOrdered(nodes, maxDepth, ts, planner, i, d);
      }
    }
  }

  /** An accepted plan that the running graph refuses: the first subtask depends on the second. */
  lemma ForwardPlanIsRefused()
    ensures var a := SubtaskDefinition("a", "d", Coder, ["b"], "i");
            var b := SubtaskDefinition("b", "d", Coder, [], "i");
            var planner := AgentNode("plan", Planner, "", [], 0);
            && Acceptable([a, b], {}, 50)
            && !AdmitsAll(map["plan" := planner], 6, SubtaskNodes([a, b], planner))
  {
    var a := SubtaskDefinition("a", "d", Coder, ["b"], "i");
    var b := SubtaskDefinition("b", "d", Coder, [], "i");
    var planner := AgentNode("plan", Planner, "", [], 0);
    assert WellFormed([a, b], {}, 50) by {
      assert [a, b][1].id in Ids([a, b]);
    }
    ForwardPlanAcyclic(a, b);
    assert !AdmitsAt(map["plan" := planner], 6, SubtaskNodes([a, b], planner), 0) by {
      assert "b" in SubtaskNodes([a, b], planner)[0].dependencies;
    }
  }

  lemma ForwardPlanAcyclic(a: SubtaskDefinition, b: SubtaskDefinition)
    requires a.id != b.id && a.dependencies == [b.id] && b.dependencies == []
    ensures !Cyclic(PlanGraph([a, b]))
  {
    var ts := [a, b];
    var g := PlanGraph(ts);
    assert Ids(ts) == {a.id, b.id} by { assert ts[0].id in Ids(ts) && ts[1].id in Ids(ts); }
    LookupIndex(ts, 0);
    LookupIndex(ts, 1);
    assert forall d | d in g[a.id] :: d == b.id;
    assert forall d :: d !in g[b.id];
    assert TopoOrder(g, [b.id, a.id]) by {
      assert [b.id, a.id][..1] == [b.id];
    }
    TopoExcludesCycles(g, [b.id, a.id]);
  }

  // ------------------------------------------------------------------ reordering repairs a plan

  function Reordered(ts: Subtasks, o: seq<string>): (r: Subtasks)
    requires forall i | 0 <= i < |o| :: o[i] in Ids(ts)
    ensures |r| == |o| && forall i | 0 <= i < |o| :: r[i] == Lookup(ts, o[i]) && r[i].id == o[i]
  {
    seq(|o|, i requires 0 <= i < |o| => Lookup(ts, o[i]))
  }

  lemma ReorderedIds(ts: Subtasks, o: seq<string>, n: nat, d: string)
    requires (forall i | 0 <= i < |o| :: o[i] in Ids(ts)) && n <= |o|
    ensures d in Ids(Reordered(ts, o)[..n]) <==> d in o[..n]
  {
    var r := Reordered(ts, o);
    if d in o[..n] {
      var i :| 0 <= i < n && o[i] == d;
      assert r[..n][i].id == d;
    }
    if d in Ids(r[..n]) {
      var i :| 0 <= i < n && r[..n][i].id == d;
      assert o[..n][i] == d;
    }
  }

  /**
    * Listed along any topological order of its subtasks, and every accepted plan has one, an accepted
    * plan with exact dependency names is admitted by the running graph.
    */
  lemma ReorderedPlanFits(nodes: NodeMap, maxDepth: u8, ts: Subtasks, planner: AgentNode, statics: set<string>,
                          cap: nat, o: seq<string>)
    requires Acceptable(ts, statics, cap) && DepsExact(ts, nodes.Keys + Ids(ts)) && TopoOrder(PlanGraph(ts), o)
    requires Ids(ts) !! nodes.Keys && planner.id in nodes && statics <= nodes.Keys
    requires AddDepth(planner.depth, 1) <= maxDepth
    ensures AdmitsAll(nodes, maxDepth, SubtaskNodes(Reordered(ts, o), planner))
  {
    var r := Reordered(ts, o);
    var ns := SubtaskNodes(r, planner);
    forall i | 0 <= i < |ns| ensures AdmitsAt(nodes, maxDepth, ns, i) {
      ReorderedIds(ts, o, i, o[i]);
      EarlierSubtask(r, planner, i, o[i]);
      var k :| 0 <= k < |ts| && ts[k] == r[i];
      assert DepsBefore(PlanGraph(ts), o, i, o[i]);
      forall d | d in ns[i].dependencies ensures d in nodes || EarlierIn(ns, i, d) {
        if r[i].dependencies != [] {
          ExactDepIsKnown(ts, statics, nodes.Keys + Ids(ts), k, d);
          if d in Ids(ts) {
            assert d in PlanGraph(ts)[o[i]];
            ReorderedIds(ts, o, i, d);
            EarlierSubtask(r, planner, i, d);
          }
        }
      }
      assert forall j | 0 <= j < i :: o[j] != o[i];
      hide EarlierIn, IdsOk, DepsExact, DepsOk, IsTrimmed;
    }
  }

  // ------------------------------------------------------------------ the callback and the graph

  lemma {:induction false} ExtendedAt(nodes: NodeMap, ns: seq<AgentNode>, x: string)
    requires forall i, j | 0 <= i < j < |ns| :: ns[i].id != ns[j].id
    ensures x in Extended(nodes, ns) <==> x in nodes || exists i :: 0 <= i < |ns| && ns[i].id == x
    ensures forall i | 0 <= i < |ns| && ns[i].id == x :: Extended(nodes, ns)[x] == ns[i]
    ensures x in nodes && (forall i | 0 <= i < |ns| :: ns[i].id != x) ==> Extended(nodes, ns)[x] == nodes[x]
  {
    if ns != [] {
      var init := ns[..|ns| - 1];
      ExtendedAt(nodes, init, x);
      assert forall i | 0 <= i < |init| :: init[i] == ns[i];
    }
  }

  /** A subtask's node has the edges that injection gives the subtask. */
  lemma NewEdges(nodes: NodeMap, ts: Subtasks, n: AgentNode, i: nat)
    requires IdsOk(ts) && i < |ts|
    ensures var x, deps := ts[i].id, NodeDeps(ts[i], n.id);
            && x in Extended(nodes, SubtaskNodes(ts, n)) && x in Ids(ts)
            && Extended(nodes, SubtaskNodes(ts, n))[x].dependencies == deps
            && NodeDeps(Lookup(ts, x), n.id) == deps
  {
    var ns := SubtaskNodes(ts, n);
    LookupIndex(ts, i);
    ExtendedAt(nodes, ns, ts[i].id);
    assert ns[i].id == ts[i].id;
    hide Extended, IdsOk, Lookup, Ids;
  }

  /** All other nodes are as before. */
  lemma OldEdges(nodes: NodeMap, ts: Subtasks, n: AgentNode, x: string)
    requires IdsOk(ts) && x !in Ids(ts)
    ensures x in Extended(nodes, SubtaskNodes(ts, n)) <==> x in nodes
    ensures x in nodes ==> Extended(nodes, SubtaskNodes(ts, n))[x] == nodes[x]
  {
    var ns := SubtaskNodes(ts, n);
    assert forall i | 0 <= i < |ns| :: ns[i].id == ts[i].id && ts[i].id in Ids(ts);
    ExtendedAt(nodes, ns, x);
    hide Extended, Ids;
  }

  lemma SameEdges(nodes: NodeMap, ts: Subtasks, n: AgentNode, x: string)
    requires IdsOk(ts)
    ensures var g, h := Edges(Extended(nodes, SubtaskNodes(ts, n))), Injected(Edges(nodes), ts, n.id);
            (x in g <==> x in h) && (x in g ==> g[x] == h[x])
  {
    if x in Ids(ts) {
      var i: nat :| i < |ts| && ts[i].id == x;
      NewEdges(nodes, ts, n, i);
    } else {
      OldEdges(nodes, ts, n, x);
    }
    hide Extended, IdsOk, Lookup, Ids, NodeDeps, SubtaskNodes;
  }

  lemma SameGraph(nodes: NodeMap, ts: Subtasks, n: AgentNode)
    requires IdsOk(ts)
    ensures Edges(Extended(nodes, SubtaskNodes(ts, n))) == Injected(Edges(nodes), ts, n.id)
  {
    hide Edges, Injected, Extended, IdsOk, SubtaskNodes;
    var g, h := Edges(Extended(nodes, SubtaskNodes(ts, n))), Injected(Edges(nodes), ts, n.id);
    forall x ensures (x in g <==> x in h) && (x in g ==> g[x] == h[x]) {
      SameEdges(nodes, ts, n, x);
    }
    assert g.Keys == h.Keys;
  }

  /**
    * What the callback returns for an accepted plan, added to the graph, is the plan
    * injected: the dependency graph that the statements about acyclicity and closure speak of.
    */
  lemma CallbackInjectsPlan(nodes: NodeMap, env: RunEnv, n: AgentNode, r: NodeResult, plan: SubtaskPlan)
    requires n.role == Planner && r.succeeded && n.depth < 5 && PlanOf(env, r.output) == Some(plan)
    requires Acceptable(plan.subtasks, StaticSet(env), env.cap)
    ensures Edges(Extended(nodes, Completed(env, n, r).nodes)) == Injected(Edges(nodes), plan.subtasks, n.id)
  {
    assert Completed(env, n, r).nodes == SubtaskNodes(plan.subtasks, n) by { hide PlanOf, Acceptable, SubtaskNodes; }
    assert IdsOk(plan.subtasks);
    hide Completed, PlanOf, Acceptable, IdsOk;
    SameGraph(nodes, plan.subtasks, n);
  }

  /** So whatever plan a planner returns, the running graph stays free of cycles. */
  lemma CallbackKeepsAcyclic(nodes: NodeMap, env: RunEnv, n: AgentNode, r: NodeResult, plan: SubtaskPlan)
    requires n.role == Planner && r.succeeded && n.depth < 5 && PlanOf(env, r.output) == Some(plan)
    requires n.id in nodes && Closed(Edges(nodes)) && !Cyclic(Edges(nodes)) && Ids(plan.subtasks) !! nodes.Keys
    ensures !Cyclic(Edges(Extended(nodes, Completed(env, n, r).nodes)))
  {
    if Acceptable(plan.subtasks, StaticSet(env), env.cap) {
      hide PlanOf, Completed, Acceptable;
      CallbackInjectsPlan(nodes, env, n, r, plan);
      InjectionKeepsAcyclic(Edges(nodes), plan.subtasks, n.id, StaticSet(env), env.cap);
    } else {
      hide PlanOf, Acceptable;
      assert Completed(env, n, r).nodes == [];
    }
  }

  // ------------------------------------------------------------------ what the fixed rules inject

  /** Each node waits for the finished node or for the one injected just before it. */
  predicate Wired(n: AgentNode, ms: seq<AgentNode>) {
    && (forall i | 0 <= i < |ms| ::
          && |ms[i].dependencies| == 1
          && (ms[i].dependencies[0] == n.id || (i > 0 && ms[i].dependencies[0] == ms[i - 1].id)))
    && (forall i, j | 0 <= i < j < |ms| :: ms[i].id != ms[j].id)
    && (forall i | 0 <= i < |ms| :: ms[i].depth == AddDepth(n.depth, 1) || ms[i].depth == AddDepth(n.depth, 2))
  }

  lemma DifferAt(a: string, b: string, k: nat)
    requires k < |a| && k < |b| && a[k] != b[k]
    ensures a != b
  {}

  lemma ReviewWired(n: AgentNode, r: NodeResult)
    ensures Wired(n, ReviewFixes(n, r) + Replan(n, r))
  {
    var fixes, replan := ReviewFixes(n, r), Replan(n, r);
    hide Text.Contains, Text.Trim, Text.Decimal, ParseFixIteration;
    if fixes != [] {
      DifferAt(fixes[0].id, fixes[1].id, 0);
      if replan != [] {
        DifferAt(fixes[0].id, replan[0].id, 0);
        DifferAt(fixes[1].id, replan[0].id, 2);
      }
    }
  }

  lemma ValidatorWired(env: RunEnv, n: AgentNode)
    ensures Wired(n, ValidatorFixes(env, n)) && Wired(n, ValidatorNext(env, n))
  {
    hide IsLint, IsTest, IsExternal, TestId, Phase, Text.Decimal, ParseFixIteration;
    var fixes := ValidatorFixes(env, n);
    if |fixes| == 2 {
      DifferAt(fixes[0].id, fixes[1].id, 0);
    }
    var commit := GitAndSummary(env, n);
    if |commit| == 2 {
      DifferAt(commit[0].id, commit[1].id, 0);
    }
  }

  lemma RulesWired(env: RunEnv, n: AgentNode, r: NodeResult)
    requires !(PlannerTurn(n, r) && PlanOf(env, r.output).Some?)
    ensures Wired(n, Completed(env, n, r).nodes)
  {
    hide PlanOf;
    if n.role == Planner {
      PlannerInjects(env, n, r);
    } else {
      ReviewWired(n, r);
      ValidatorWired(env, n);
      hide PlannerTurn, ReviewFixes, Replan, ValidatorFixes, ValidatorNext, Wired;
      if n.role == Validator {
        CompletedValidator(env, n, r);
      } else if n.role == Reviewer {
        CompletedReviewer(env, n, r);
      } else {
        CompletedOther(env, n, r);
      }
      hide Completed;
      assert Wired(n, []) by { NothingWired(n); }
    }
  }

  lemma NothingWired(n: AgentNode)
    ensures Wired(n, [])
  {}

  lemma PlannerInjects(env: RunEnv, n: AgentNode, r: NodeResult)
    requires n.role == Planner && !(PlannerTurn(n, r) && PlanOf(env, r.output).Some?)
    ensures Completed(env, n, r).nodes == if PlannerTurn(n, r) then Checkpoint(env, n) else []
  {
    hide PlanOf, Checkpoint;
  }

  /**
    * Whatever the fixed rules inject when a node of the graph finishes can be added in order, except
    * where an id is taken or a depth is out of range: every node waits for the finished node or for
    * its predecessor in the list, so no dependency is ever missing.
    */
  lemma RulesFitExactly(nodes: NodeMap, maxDepth: u8, env: RunEnv, n: AgentNode, r: NodeResult)
    requires n.id in nodes && !(PlannerTurn(n, r) && PlanOf(env, r.output).Some?)
    ensures var ms := Completed(env, n, r).nodes;
            AdmitsAll(nodes, maxDepth, ms)
            <==> forall i | 0 <= i < |ms| :: ms[i].id !in nodes && ms[i].depth <= maxDepth
  {
    var ms := Completed(env, n, r).nodes;
    RulesWired(env, n, r);
    hide Completed, PlannerTurn, PlanOf, Wired, AdmitsAt;
    forall i | 0 <= i < |ms|
      ensures AdmitsAt(nodes, maxDepth, ms, i) <==> ms[i].id !in nodes && ms[i].depth <= maxDepth
    {
      WiredFits(nodes, maxDepth, n, ms, i);
    }
  }

  lemma WiredFits(nodes: NodeMap, maxDepth: u8, n: AgentNode, ms: seq<AgentNode>, i: nat)
    requires n.id in nodes && Wired(n, ms) && i < |ms|
    ensures AdmitsAt(nodes, maxDepth, ms, i) <==> ms[i].id !in nodes && ms[i].depth <= maxDepth
  {
    assert !EarlierIn(ms, i, ms[i].id);
    var only := ms[i].dependencies[0];
    assert only == n.id || (i > 0 && only == ms[i - 1].id);
    forall d | d in ms[i].dependencies ensures d in nodes || EarlierIn(ms, i, d) {
      assert d == only;
      if d != n.id {
        assert ms[i - 1].id == d;
      }
    }
    hide EarlierIn, Wired;
  }
}
