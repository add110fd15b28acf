/**
  * `validate_subtask_plan` of src/orchestrator/completion.rs, and what accepting a plan means for
  * the graph that the plan is injected into.
  */
module PlanValidation {
  import opened Wrappers
  import opened Types
  import opened Digraph
  import Text

  datatype PlanError =
    | NoSubtasks
    | OverCap(count: nat, cap: nat)
    | BlankId
    | NoText(id: string)
    | DuplicateId(id: string)
    | BlankDependency(id: string)
    | UnknownDependency(id: string, dep: string)
    | CycleReaching(id: string)

  type Subtasks = seq<SubtaskDefinition>

  function Ids(ts: Subtasks): set<string> {
    set i | 0 <= i < |ts| :: ts[i].id
  }

  /** Dependencies that name a subtask of the plan, by exact name. */
  function InternalDeps(deps: seq<string>, known: set<string>): (r: seq<string>)
    ensures forall d :: d in r <==> d in deps && d in known
  {
    if deps == [] then []
    else
      var rest := InternalDeps(deps[1..], known);
      assert deps == [deps[0]] + deps[1..];
      if deps[0] in known then [deps[0]] + rest else rest
  }

  /** The subtask that a plan with distinct ids holds under a given id. */
  function Lookup(ts: Subtasks, id: string): (s: SubtaskDefinition)
    requires id in Ids(ts)
    ensures s in ts && s.id == id
  {
    if ts[0].id == id then ts[0]
    else
      assert id in Ids(ts[1..]) by {
        var i :| 0 <= i < |ts| && ts[i].id == id;
        assert ts[1..][i - 1].id == id;
      }
      Lookup(ts[1..], id)
  }

  /** The subtask subgraph: each subtask with its dependencies on other subtasks. */
  function PlanGraph(ts: Subtasks): (g: Adj)
    ensures g.Keys == Ids(ts) && Closed(g)
  {
    map id | id in Ids(ts) :: InternalDeps(Lookup(ts, id).dependencies, Ids(ts))
  }

  // ------------------------------------------------------------------ what is demanded of a plan

  predicate HasText(s: SubtaskDefinition) {
    !Text.Blank(s.instructions) || !Text.Blank(s.description)
  }

  predicate IdsOk(ts: Subtasks) {
    && (forall i | 0 <= i < |ts| :: !Text.Blank(ts[i].id) && HasText(ts[i]))
    && (forall i, j | 0 <= i < j < |ts| :: ts[i].id != ts[j].id)
  }

  predicate DepOk(d: string, known: set<string>) {
    !Text.Blank(d) && Text.Trim(d) in known
  }

  predicate DepsOk(s: SubtaskDefinition, known: set<string>) {
    forall k | 0 <= k < |s.dependencies| :: DepOk(s.dependencies[k], known)
  }

  predicate WellFormed(ts: Subtasks, statics: set<string>, cap: nat) {
    0 < |ts| <= cap && IdsOk(ts) && forall i | 0 <= i < |ts| :: DepsOk(ts[i], statics + Ids(ts))
  }

  ghost predicate Acceptable(ts: Subtasks, statics: set<string>, cap: nat) {
    WellFormed(ts, statics, cap) && !Cyclic(PlanGraph(ts))
  }

  /** A node of the plan graph depends on what its subtask names among the plan's ids. */
  lemma PlanGraphMeaning(ts: Subtasks, i: nat, d: string)
    requires i < |ts| && forall a, b | 0 <= a < b < |ts| :: ts[a].id != ts[b].id
    ensures ts[i].id in PlanGraph(ts)
    ensures d in PlanGraph(ts)[ts[i].id] <==> d in ts[i].dependencies && exists j :: 0 <= j < |ts| && ts[j].id == d
  {
    LookupIndex(ts, i);
  }

  /**
    * Acceptable plans, spelled out: one subtask at least and at most the cap; ids not blank and distinct;
    * a text for each; every dependency not blank and, trimmed, a static node or a subtask; no cycle.
    */
  lemma AcceptableMeaning(ts: Subtasks, statics: set<string>, cap: nat)
    ensures Acceptable(ts, statics, cap)
       <==> && 1 <= |ts| && |ts| <= cap
            && (forall i | 0 <= i < |ts| :: Text.Trim(ts[i].id) != "")
            && (forall i | 0 <= i < |ts| ::
                  Text.Trim(ts[i].instructions) != "" || Text.Trim(ts[i].description) != "")
            && (forall i, j | 0 <= i < j < |ts| :: ts[i].id != ts[j].id)
            && (forall i, d | 0 <= i < |ts| && d in ts[i].dependencies ::
                  && Text.Trim(d) != ""
                  && (Text.Trim(d) in statics || exists j :: 0 <= j < |ts| && ts[j].id == Text.Trim(d)))
            && !Cyclic(PlanGraph(ts))
  {
    hide Text.Trim, PlanGraph, Cyclic;
    forall i | 0 <= i < |ts|
      ensures DepsOk(ts[i], statics + Ids(ts))
         <==> forall d | d in ts[i].dependencies ::
                && Text.Trim(d) != ""
                && (Text.Trim(d) in statics || exists j :: 0 <= j < |ts| && ts[j].id == Text.Trim(d))
    {
      DepsMeaning(ts, statics, i);
    }
    hide DepsOk, Ids;
  }

  lemma DepsMeaning(ts: Subtasks, statics: set<string>, i: nat)
    requires i < |ts|
    ensures DepsOk(ts[i], statics + Ids(ts))
       <==> forall d | d in ts[i].dependencies ::
              && Text.Trim(d) != ""
              && (Text.Trim(d) in statics || exists j :: 0 <= j < |ts| && ts[j].id == Text.Trim(d))
  {
    var deps := ts[i].dependencies;
    forall d ensures DepOk(d, statics + Ids(ts))
                <==> Text.Trim(d) != ""
                     && (Text.Trim(d) in statics || exists j :: 0 <= j < |ts| && ts[j].id == Text.Trim(d)) {}
    hide DepOk, Ids, Text.Trim;
    if forall d | d in deps :: DepOk(d, statics + Ids(ts)) {
      assert forall k | 0 <= k < |deps| :: deps[k] in deps;
    }
  }

  /** The reported error is the first violation in the order in which the checks are made. */
  ghost predicate Justified(e: PlanError, ts: Subtasks, statics: set<string>, cap: nat) {
    match e
    case NoSubtasks => ts == []
    case OverCap(n, c) => n == |ts| && c == cap && n > cap
    case BlankId =>
      0 < |ts| <= cap && exists i | 0 <= i < |ts| :: IdsOk(ts[..i]) && Text.Blank(ts[i].id)
    case NoText(id) =>
      0 < |ts| <= cap && exists i | 0 <= i < |ts| ::
        IdsOk(ts[..i]) && ts[i].id == id && !Text.Blank(id) && !HasText(ts[i])
    case DuplicateId(id) =>
      0 < |ts| <= cap && exists i | 0 <= i < |ts| ::
        IdsOk(ts[..i]) && ts[i].id == id && id in Ids(ts[..i]) && HasText(ts[i])
    case BlankDependency(id) =>
      0 < |ts| <= cap && IdsOk(ts) && exists i, k ::
        FirstBadDep(ts, statics, i, k) && ts[i].id == id && Text.Blank(ts[i].dependencies[k])
    case UnknownDependency(id, dep) =>
      0 < |ts| <= cap && IdsOk(ts) && exists i, k ::
        FirstBadDep(ts, statics, i, k) && ts[i].id == id && dep == Text.Trim(ts[i].dependencies[k]) && dep != []
    case CycleReaching(id) =>
      && WellFormed(ts, statics, cap)
      && exists p :: ClosedPath(PlanGraph(ts), p) && p[0] == id
  }

  ghost predicate FirstBadDep(ts: Subtasks, statics: set<string>, i: int, k: int) {
    && 0 <= i < |ts| && 0 <= k < |ts[i].dependencies|
    && (forall j | 0 <= j < i :: DepsOk(ts[j], statics + Ids(ts)))
    && (forall j | 0 <= j < k :: DepOk(ts[i].dependencies[j], statics + Ids(ts)))
    && !DepOk(ts[i].dependencies[k], statics + Ids(ts))
  }

  /** A justified error excludes acceptance. */
  lemma JustifiedExcludesAcceptable(e: PlanError, ts: Subtasks, statics: set<string>, cap: nat)
    requires Justified(e, ts, statics, cap)
    ensures !Acceptable(ts, statics, cap)
  {
    if e.DuplicateId? {
      var i :| 0 <= i < |ts| && IdsOk(ts[..i]) && ts[i].id == e.id && e.id in Ids(ts[..i]);
      var j :| 0 <= j < i && ts[..i][j].id == e.id;
      assert ts[j].id == ts[i].id;
    }
  }

  /** Subtask i is the first with a blank or repeated id or without text. */
  predicate FirstBadId(ts: Subtasks, i: nat)
    requires i < |ts|
  {
    IdsOk(ts[..i]) && (Text.Blank(ts[i].id) || !HasText(ts[i]) || ts[i].id in Ids(ts[..i]))
  }

  /** No plan prefix that reaches past a bad id is in order. */
  lemma BadIdSpoils(ts: Subtasks, i: nat, n: nat)
    requires i < n <= |ts| && FirstBadId(ts, i)
    ensures !IdsOk(ts[..n])
  {
    hide Text.Blank, HasText;
    assert ts[..n][i] == ts[i];
    if ts[i].id in Ids(ts[..i]) {
      var j :| 0 <= j < i && ts[..i][j].id == ts[i].id;
      assert ts[..n][j] == ts[j];
    }
  }

  lemma FirstBadIdIsOne(ts: Subtasks, i: nat, j: nat)
    requires i < |ts| && j < |ts| && FirstBadId(ts, i) && FirstBadId(ts, j)
    ensures i == j
  {
    hide IdsOk, Ids, HasText, Text.Blank;
    if i < j { BadIdSpoils(ts, i, j); }
    if j < i { BadIdSpoils(ts, j, i); }
  }

  predicate IsIdError(e: PlanError) {
    e.BlankId? || e.NoText? || e.DuplicateId?
  }

  predicate IsDepError(e: PlanError) {
    e.BlankDependency? || e.UnknownDependency?
  }

  /** The error that the id loop reports at a bad subtask, by the order of its three tests. */
  function IdError(s: SubtaskDefinition): PlanError {
    if Text.Blank(s.id) then BlankId else if !HasText(s) then NoText(s.id) else DuplicateId(s.id)
  }

  lemma IdErrorPlace(e: PlanError, ts: Subtasks, statics: set<string>, cap: nat) returns (i: nat)
    requires IsIdError(e) && Justified(e, ts, statics, cap)
    ensures i < |ts| && FirstBadId(ts, i) && e == IdError(ts[i])
  {
    hide Text.Blank, HasText;
    match e {
      case BlankId =>
        i :| i < |ts| && IdsOk(ts[..i]) && Text.Blank(ts[i].id);
      case NoText(id) =>
        i :| i < |ts| && IdsOk(ts[..i]) && ts[i].id == id && !Text.Blank(id) && !HasText(ts[i]);
      case DuplicateId(id) =>
        i :| i < |ts| && IdsOk(ts[..i]) && ts[i].id == id && id in Ids(ts[..i]) && HasText(ts[i]);
        var j :| 0 <= j < i && ts[..i][j].id == id;
        assert !Text.Blank(ts[..i][j].id);
    }
  }

  /** The error that the dependency loop reports at a bad dependency. */
  function DepError(id: string, d: string): PlanError {
    if Text.Blank(d) then BlankDependency(id) else UnknownDependency(id, Text.Trim(d))
  }

  lemma DepErrorPlace(e: PlanError, ts: Subtasks, statics: set<string>, cap: nat) returns (i: nat, k: nat)
    requires IsDepError(e) && Justified(e, ts, statics, cap)
    ensures FirstBadDep(ts, statics, i, k) && e == DepError(ts[i].id, ts[i].dependencies[k])
  {
    hide IdsOk, DepOk, DepsOk, Text.Trim;
    match e {
      case BlankDependency(id) =>
        var a, b :| FirstBadDep(ts, statics, a, b) && ts[a].id == id && Text.Blank(ts[a].dependencies[b]);
        i, k := a, b;
      case UnknownDependency(id, dep) =>
        var a, b :| FirstBadDep(ts, statics, a, b) && ts[a].id == id
                    && dep == Text.Trim(ts[a].dependencies[b]) && dep != [];
        i, k := a, b;
    }
  }

  lemma BadDepIsNotOk(ts: Subtasks, statics: set<string>, i: nat, k: nat)
    requires FirstBadDep(ts, statics, i, k)
    ensures i < |ts| && !DepsOk(ts[i], statics + Ids(ts))
  {
    hide DepOk;
  }

  lemma FirstBadDepIsOne(ts: Subtasks, statics: set<string>, i: nat, k: nat, j: nat, l: nat)
    requires FirstBadDep(ts, statics, i, k) && FirstBadDep(ts, statics, j, l)
    ensures i == j && k == l
  {
    BadDepIsNotOk(ts, statics, i, k);
    BadDepIsNotOk(ts, statics, j, l);
    hide DepOk, DepsOk;
  }

  lemma IdErrorsSpoilAll(e: PlanError, ts: Subtasks, statics: set<string>, cap: nat)
    requires IsIdError(e) && Justified(e, ts, statics, cap)
    ensures !IdsOk(ts)
  {
    var i := IdErrorPlace(e, ts, statics, cap);
    hide IdsOk, FirstBadId;
    BadIdSpoils(ts, i, |ts|);
    assert ts[..|ts|] == ts;
  }

  lemma DepErrorsSpoilAll(e: PlanError, ts: Subtasks, statics: set<string>, cap: nat)
    requires IsDepError(e) && Justified(e, ts, statics, cap)
    ensures IdsOk(ts) && !WellFormed(ts, statics, cap)
  {
    var i, k := DepErrorPlace(e, ts, statics, cap);
    hide IdsOk;
    assert !DepsOk(ts[i], statics + Ids(ts));
  }

  lemma IdErrorsAgree(e: PlanError, f: PlanError, ts: Subtasks, statics: set<string>, cap: nat)
    requires IsIdError(e) && IsIdError(f) && Justified(e, ts, statics, cap) && Justified(f, ts, statics, cap)
    ensures e == f
  {
    var i := IdErrorPlace(e, ts, statics, cap);
    var j := IdErrorPlace(f, ts, statics, cap);
    hide Justified, FirstBadId;
    FirstBadIdIsOne(ts, i, j);
  }

  lemma DepErrorsAgree(e: PlanError, f: PlanError, ts: Subtasks, statics: set<string>, cap: nat)
    requires IsDepError(e) && IsDepError(f) && Justified(e, ts, statics, cap) && Justified(f, ts, statics, cap)
    ensures e == f
  {
    var i, k := DepErrorPlace(e, ts, statics, cap);
    var j, l := DepErrorPlace(f, ts, statics, cap);
    hide Justified;
    FirstBadDepIsOne(ts, statics, i, k, j, l);
  }

  /**
    * A plan has one reason only: two justified errors are the same, but for the node at which a cycle
    * is reported, which depends on the order of the hash map.
    */
  lemma JustifiedErrorIsOne(e: PlanError, f: PlanError, ts: Subtasks, statics: set<string>, cap: nat)
    requires Justified(e, ts, statics, cap) && Justified(f, ts, statics, cap)
    ensures e == f || (e.CycleReaching? && f.CycleReaching?)
  {
    if IsIdError(e) { IdErrorsSpoilAll(e, ts, statics, cap); }
    if IsIdError(f) { IdErrorsSpoilAll(f, ts, statics, cap); }
    if IsDepError(e) { DepErrorsSpoilAll(e, ts, statics, cap); }
    if IsDepError(f) { DepErrorsSpoilAll(f, ts, statics, cap); }
    if IsIdError(e) && IsIdError(f) { IdErrorsAgree(e, f, ts, statics, cap); }
    if IsDepError(e) && IsDepError(f) { DepErrorsAgree(e, f, ts, statics, cap); }
    hide IdsOk, DepsOk, FirstBadDep, Ids, Text.Blank, Text.Trim;
  }

  // ------------------------------------------------------------------ the checks, in source order

  lemma IdsSnoc(ts: Subtasks, s: SubtaskDefinition)
    ensures Ids(ts + [s]) == Ids(ts) + {s.id}
    ensures IdsOk(ts) && !Text.Blank(s.id) && HasText(s) && s.id !in Ids(ts) ==> IdsOk(ts + [s])
  {
    var ts' := ts + [s];
    assert forall j | 0 <= j < |ts| :: ts'[j] == ts[j] && ts[j].id in Ids(ts);
    assert ts'[|ts|] == s;
    assert Ids(ts') <= Ids(ts) + {s.id} <= Ids(ts');
    hide Ids, HasText, Text.Blank;
  }

  method CheckIds(ts: Subtasks) returns (r: Option<PlanError>)
    ensures r.None? ==> IdsOk(ts)
    ensures r.Some? ==> (r.value.BlankId? || r.value.NoText? || r.value.DuplicateId?)
    ensures r.Some? ==> forall statics, cap | 0 < |ts| <= cap :: Justified(r.value, ts, statics, cap)
  {
    hide Text.Blank;
    var seen: set<string> := {};
    for i := 0 to |ts|
      invariant IdsOk(ts[..i]) && seen == Ids(ts[..i])
    {
      var s := ts[i];
      if Text.Blank(s.id) {
        return Some(BlankId);
      }
      if Text.Blank(s.instructions) && Text.Blank(s.description) {
        return Some(NoText(s.id));
      }
      if s.id in seen {
        return Some(DuplicateId(s.id));
      }
      seen := seen + {s.id};
      assert ts[..i + 1] == ts[..i] + [s];
      IdsSnoc(ts[..i], s);
    }
    assert ts[..|ts|] == ts;
    return None;
  }

  method CheckDependencies(ts: Subtasks, statics: set<string>) returns (r: Option<PlanError>)
    requires IdsOk(ts)
    ensures r.None? ==> forall i | 0 <= i < |ts| :: DepsOk(ts[i], statics + Ids(ts))
    ensures r.Some? ==> (r.value.BlankDependency? || r.value.UnknownDependency?)
    ensures r.Some? ==> forall cap | 0 < |ts| <= cap :: Justified(r.value, ts, statics, cap)
  {
    var knownSubtasks := Ids(ts);
    for i := 0 to |ts|
      invariant forall j | 0 <= j < i :: DepsOk(ts[j], statics + Ids(ts))
    {
      for k := 0 to |ts[i].dependencies|
        invariant forall j | 0 <= j < k :: DepOk(ts[i].dependencies[j], statics + Ids(ts))
      {
        var trimmed := Text.Trim(ts[i].dependencies[k]);
        if trimmed == [] {
          assert FirstBadDep(ts, statics, i, k);
          return Some(BlankDependency(ts[i].id));
        }
        if trimmed !in statics && trimmed !in knownSubtasks {
          assert FirstBadDep(ts, statics, i, k);
          return Some(UnknownDependency(ts[i].id, trimmed));
        }
      }
    }
    return None;
  }

  /**
    * `validate_subtask_plan`. It accepts exactly the acceptable plans, and otherwise reports the
    * first violation. `keys` is the iteration order of the adjacency hash map.
    */
  method ValidateSubtaskPlan(plan: SubtaskPlan, statics: set<string>, cap: nat, keys: seq<string>)
    returns (r: Result<(), PlanError>)
    requires forall x :: x in keys <==> x in Ids(plan.subtasks)
    ensures r.Ok? <==> Acceptable(plan.subtasks, statics, cap)
    ensures r.Ok? ==> exists o :: TopoOrder(PlanGraph(plan.subtasks), o)
    ensures r.Err? ==> Justified(r.error, plan.subtasks, statics, cap)
  {
    var ts := plan.subtasks;
    if ts == [] {
      return Err(NoSubtasks);
    }
    if |ts| > cap {
      return Err(OverCap(|ts|, cap));
    }
    var e := CheckIds(ts);
    if e.None? {
      e := CheckDependencies(ts, statics);
    }
    if e.Some? {
      JustifiedExcludesAcceptable(e.value, ts, statics, cap);
      return Err(e.value);
    }
    var cycle := DetectCycle(PlanGraph(ts), keys);
    match cycle {
      case Some(x) => return Err(CycleReaching(x));
      case None => return Ok(());
    }
  }

  // ------------------------------------------------------------------ injecting an accepted plan

  /** The dependency list that a subtask's node receives: the planner when it lists none. */
  function NodeDeps(s: SubtaskDefinition, planner: string): seq<string> {
    if s.dependencies == [] then [planner] else s.dependencies
  }

  /** The graph after the nodes of a plan have been added beside the existing ones. */
  function Injected(g: Adj, ts: Subtasks, planner: string): Adj {
    g + map id | id in Ids(ts) :: NodeDeps(Lookup(ts, id), planner)
  }

  /** A closed path lies wholly among the old nodes or wholly among the new ones. */
  lemma ClosedPathSides(g: Adj, ts: Subtasks, planner: string, p: seq<string>)
    requires Closed(g) && Ids(ts) !! g.Keys && planner in g
    requires ClosedPath(Injected(g, ts, planner), p)
    ensures ClosedPath(g, p) || ClosedPath(PlanGraph(ts), p)
  {
    var g' := Injected(g, ts, planner);
    assert forall x | x in g :: g'[x] == g[x];
    if p[0] in g {
      forall i | 0 <= i < |p| ensures p[i] in g { PathStaysInside(g', g.Keys, p, 0, i); }
      forall i | 0 <= i < |p| - 1 ensures p[i + 1] in g[p[i]] { assert p[i + 1] in g'[p[i]]; }
    } else {
      forall i | 0 <= i < |p| ensures p[i] in Ids(ts) {
        if p[i] in g { PathStaysInside(g', g.Keys, p, i, |p| - 1); }
      }
      forall i | 0 <= i < |p| - 1 ensures p[i + 1] in PlanGraph(ts)[p[i]] {
        assert p[i + 1] in g'[p[i]];
        assert g'[p[i]] == NodeDeps(Lookup(ts, p[i]), planner);
      }
    }
  }

  /** Injecting an accepted plan with fresh ids keeps the running graph free of cycles. */
  lemma InjectionKeepsAcyclic(g: Adj, ts: Subtasks, planner: string, statics: set<string>, cap: nat)
    requires Acceptable(ts, statics, cap)
    requires Closed(g) && !Cyclic(g) && planner in g && Ids(ts) !! g.Keys
    ensures !Cyclic(Injected(g, ts, planner))
  {
    if Cyclic(Injected(g, ts, planner)) {
      var p :| ClosedPath(Injected(g, ts, planner), p);
      ClosedPathSides(g, ts, planner, p);
    }
  }

  predicate IsTrimmed(s: string) {
    Text.Trim(s) == s
  }

  /** Every dependency is written without surrounding white space, or exactly as one of the names. */
  predicate DepsExact(ts: Subtasks, names: set<string>) {
    forall i, k | 0 <= i < |ts| && 0 <= k < |ts[i].dependencies| ::
      IsTrimmed(ts[i].dependencies[k]) || ts[i].dependencies[k] in names
  }

  /** Where no name has surrounding white space, that means that no dependency has. */
  lemma ExactMeansTrimmed(ts: Subtasks, names: set<string>)
    requires forall x | x in names :: IsTrimmed(x)
    ensures DepsExact(ts, names) <==> DepsExact(ts, {})
  {
    hide IsTrimmed;
  }

  lemma ExactDepIsKnown(ts: Subtasks, statics: set<string>, names: set<string>, i: nat, d: string)
    requires i < |ts| && DepsOk(ts[i], statics + Ids(ts)) && DepsExact(ts, names) && statics + Ids(ts) <= names
    requires d in ts[i].dependencies
    ensures d in names
  {
    var k :| 0 <= k < |ts[i].dependencies| && ts[i].dependencies[k] == d;
    assert DepOk(ts[i].dependencies[k], statics + Ids(ts));
  }

  lemma ExactDepsAreNodes(g: Adj, ts: Subtasks, planner: string, statics: set<string>, cap: nat)
    requires WellFormed(ts, statics, cap) && DepsExact(ts, g.Keys + Ids(ts))
    requires Closed(g) && planner in g && statics <= g.Keys
    ensures Closed(Injected(g, ts, planner))
  {
    hide IdsOk, DepsExact, DepsOk;
    var g' := Injected(g, ts, planner);
    forall x, d | x in g' && d in g'[x] ensures d in g' {
      if x in Ids(ts) {
        var s := Lookup(ts, x);
        if s.dependencies != [] {
          var i :| 0 <= i < |ts| && ts[i] == s;
          ExactDepIsKnown(ts, statics, g.Keys + Ids(ts), i, d);
        }
      }
    }
  }

  lemma NodeDepIsNode(g: Adj, ts: Subtasks, planner: string, i: nat, d: string)
    requires forall a, b | 0 <= a < b < |ts| :: ts[a].id != ts[b].id
    requires Closed(Injected(g, ts, planner))
    requires i < |ts| && d in ts[i].dependencies
    ensures d in g || d in Ids(ts)
  {
    var g' := Injected(g, ts, planner);
    LookupIndex(ts, i);
    assert d in g'[ts[i].id];
    assert d in g';
  }

  /**
    * Names are trimmed for the check that a dependency is known, but not when edges are built. So
    * injection keeps the graph closed under dependencies exactly when the plan writes each dependency
    * without surrounding white space, or as the very name of a node.
    */
  lemma InjectionClosedExactly(g: Adj, ts: Subtasks, planner: string, statics: set<string>, cap: nat)
    requires Acceptable(ts, statics, cap)
    requires Closed(g) && planner in g && Ids(ts) !! g.Keys && statics <= g.Keys
    ensures Closed(Injected(g, ts, planner)) <==> DepsExact(ts, g.Keys + Ids(ts))
  {
    if DepsExact(ts, g.Keys + Ids(ts)) { ExactDepsAreNodes(g, ts, planner, statics, cap); }
    if Closed(Injected(g, ts, planner)) {
      forall i, k | 0 <= i < |ts| && 0 <= k < |ts[i].dependencies|
        ensures ts[i].dependencies[k] in g.Keys + Ids(ts)
      {
        NodeDepIsNode(g, ts, planner, i, ts[i].dependencies[k]);
      }
    }
  }

  lemma {:induction false} LookupIndex(ts: Subtasks, i: nat)
    requires i < |ts| && (forall a, b | 0 <= a < b < |ts| :: ts[a].id != ts[b].id)
    ensures ts[i].id in Ids(ts) && Lookup(ts, ts[i].id) == ts[i]
  {
    assert ts[i].id in Ids(ts);
    if i > 0 {
      assert ts[0].id != ts[i].id;
      LookupIndex(ts[1..], i - 1);
    }
  }

  /** A plan of one subtask without dependencies inside the plan has no cycle. */
  lemma LoneSubtaskAcyclic(s: SubtaskDefinition)
    requires s.id !in s.dependencies
    ensures !Cyclic(PlanGraph([s]))
  {
    var g := PlanGraph([s]);
    assert Ids([s]) == {s.id} by { assert [s][0].id in Ids([s]); }
    assert TopoOrder(g, [s.id]);
    TopoExcludesCycles(g, [s.id]);
  }

  /** An accepted plan whose padded dependency on a static node points at no node once it is injected. */
  lemma PaddedDependencyDangles()
    ensures var ts := [SubtaskDefinition("a", "d", Coder, [" extract"], "i")];
            var g: Adj := map["plan" := [], "extract" := []];
            Acceptable(ts, {"extract"}, 50) && !Closed(Injected(g, ts, "plan"))
  {
    var s := SubtaskDefinition("a", "d", Coder, [" extract"], "i");
    var g: Adj := map["plan" := [], "extract" := []];
    Text.TrimStartDrops(" ", "extract");
    assert " " + "extract" == " extract";
    assert DepOk(" extract", {"extract"} + Ids([s]));
    LoneSubtaskAcyclic(s);
    var g' := Injected(g, [s], "plan");
    assert Ids([s]) == {"a"} by { assert [s][0].id in Ids([s]); }
    assert g'["a"] == [" extract"] && " extract" in g'["a"] && " extract" !in g';
  }
}
