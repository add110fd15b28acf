/**
  * Directed graphs given by dependency lists, and the two cycle searches of the repository:
  * the iterative three-colour search of `validate_subtask_plan` and the recursive search of
  * `ExecutionGraph::has_cycle`. Both are proved exact against the same definition of a cycle.
  */
module Digraph {
  import opened Wrappers

  type Id = string
  type Adj = map<Id, seq<Id>>

  /** A walk along dependency edges, staying inside the graph. */
  ghost predicate IsPath(g: Adj, p: seq<Id>) {
    && |p| >= 1
    && (forall i | 0 <= i < |p| :: p[i] in g)
    && (forall i | 0 <= i < |p| - 1 :: p[i + 1] in g[p[i]])
  }

  ghost predicate ClosedPath(g: Adj, p: seq<Id>) {
    IsPath(g, p) && |p| >= 2 && p[0] == p[|p| - 1]
  }

  ghost predicate Cyclic(g: Adj) {
    exists p :: ClosedPath(g, p)
  }

  /** Every dependency inside the graph. */
  predicate Closed(g: Adj) {
    forall x, d | x in g && d in g[x] :: d in g
  }

  ghost predicate NoDup(o: seq<Id>) {
    forall i, j | 0 <= i < j < |o| :: o[i] != o[j]
  }

  /** Dependencies of x that are nodes come before position n of o. */
  ghost predicate DepsBefore(g: Adj, o: seq<Id>, n: nat, x: Id)
    requires x in g && n <= |o|
  {
    forall d | d in g[x] && d in g :: d in o[..n]
  }

  /** `o` lists distinct nodes, each after all of its dependencies. */
  ghost predicate Ordered(g: Adj, o: seq<Id>) {
    && NoDup(o)
    && (forall x | x in o :: x in g)
    && (forall i | 0 <= i < |o| :: DepsBefore(g, o, i, o[i]))
  }

  ghost predicate TopoOrder(g: Adj, o: seq<Id>) {
    Ordered(g, o) && forall x | x in g :: x in o
  }

  /** Along a path inside an ordered list, positions go down. */
  lemma {:induction false} PathDescends(g: Adj, o: seq<Id>, p: seq<Id>, i: nat) returns (j: nat)
    requires Ordered(g, o) && IsPath(g, p) && i < |o| && o[i] == p[0]
    ensures j <= i && o[j] == p[|p| - 1] && (|p| >= 2 ==> j < i)
    decreases |p|
  {
    if |p| == 1 {
      j := i;
    } else {
      assert p[1] in g[p[0]] && DepsBefore(g, o, i, o[i]);
      var k :| 0 <= k < i && o[k] == p[1];
      assert IsPath(g, p[1..]) by {
        forall m | 0 <= m < |p[1..]| - 1 ensures p[1..][m + 1] in g[p[1..][m]] {
          assert p[(m + 1) + 1] in g[p[m + 1]];
        }
      }
      j := PathDescends(g, o, p[1..], k);
    }
  }

  /** A topological order rules out every closed path. */
  lemma TopoExcludesCycles(g: Adj, o: seq<Id>)
    requires TopoOrder(g, o)
    ensures !Cyclic(g)
  {
    if Cyclic(g) {
      var p :| ClosedPath(g, p);
      var i :| 0 <= i < |o| && o[i] == p[0];
      var j := PathDescends(g, o, p, i);
    }
  }

  /** A path that enters a dependency-closed set of nodes never leaves it. */
  lemma {:induction false} PathStaysInside(g: Adj, inside: set<Id>, p: seq<Id>, i: nat, k: nat)
    requires IsPath(g, p) && i <= k < |p| && p[i] in inside
    requires forall x, d | x in inside && x in g && d in g[x] :: d in inside
    ensures p[k] in inside
  {
    if i < k {
      PathStaysInside(g, inside, p, i, k - 1);
      assert p[(k - 1) + 1] in g[p[k - 1]];
    }
  }

  // ---------------------------------------------------------------------------------------
  // Iterative three-colour search
  // ---------------------------------------------------------------------------------------

  datatype Mark = Pending | Visiting | Done

  type Stack = seq<(Id, nat)>

  ghost predicate OnStack(stack: Stack, x: Id) {
    exists k | 0 <= k < |stack| :: stack[k].0 == x
  }

  /** Neighbours before index n of x are Done. */
  ghost predicate DoneUpTo(g: Adj, state: map<Id, Mark>, x: Id, n: nat)
    requires x in g && n <= |g[x]|
  {
    forall k | 0 <= k < n :: g[x][k] in state && state[g[x][k]] == Done
  }

  /** Stack frame k: its node is Visiting, and everything before the neighbour being explored is Done. */
  ghost predicate FrameOk(g: Adj, state: map<Id, Mark>, stack: Stack, k: nat)
    requires k < |stack|
  {
    var (x, n) := stack[k];
    && x in g && n <= |g[x]|
    && x in state && state[x] == Visiting
    && (k == |stack| - 1 ==> DoneUpTo(g, state, x, n))
    && (k < |stack| - 1 ==> 1 <= n && g[x][n - 1] == stack[k + 1].0 && DoneUpTo(g, state, x, n - 1))
  }

  /** Done nodes are exactly the finished ones, and finishing respects dependencies. */
  ghost predicate ColourInv(g: Adj, state: map<Id, Mark>, done: seq<Id>) {
    && state.Keys == g.Keys
    && Ordered(g, done)
    && (forall x | x in g :: state[x] == Done <==> x in done)
  }

  /** Visiting nodes are exactly those on the stack, each once, and frames are in order. */
  ghost predicate StackInv(g: Adj, state: map<Id, Mark>, stack: Stack) {
    && state.Keys == g.Keys
    && (forall k | 0 <= k < |stack| :: FrameOk(g, state, stack, k))
    && (forall i, j | 0 <= i < j < |stack| :: stack[i].0 != stack[j].0)
    && (forall x | x in g && state[x] == Visiting :: OnStack(stack, x))
  }

  /** The invariant of the search. */
  ghost predicate SearchInv(g: Adj, state: map<Id, Mark>, stack: Stack, done: seq<Id>) {
    ColourInv(g, state, done) && StackInv(g, state, stack)
  }

  ghost function PendingNodes(state: map<Id, Mark>): set<Id> {
    set x | x in state && state[x] == Pending
  }

  lemma ExtendOrder(g: Adj, o: seq<Id>, x: Id)
    requires Ordered(g, o) && x in g && x !in o
    requires DepsBefore(g, o, |o|, x)
    ensures Ordered(g, o + [x])
  {
    var o' := o + [x];
    forall i | 0 <= i < |o'| ensures DepsBefore(g, o', i, o'[i]) {
      if i < |o| { assert DepsBefore(g, o, i, o[i]); }
      assert o'[..i] == o[..i];
    }
  }

  /** A finished frame is popped and its node appended to the finishing order. */
  lemma StepPop(g: Adj, state: map<Id, Mark>, stack: Stack, done: seq<Id>, x: Id, n: nat)
    requires Closed(g) && SearchInv(g, state, stack, done)
    requires stack != [] && stack[|stack| - 1] == (x, n) && x in g && n >= |g[x]|
    ensures SearchInv(g, state[x := Done], stack[..|stack| - 1], done + [x])
  {
    assert FrameOk(g, state, stack, |stack| - 1);
    assert DoneUpTo(g, state, x, |g[x]|);
    ExtendOrder(g, done, x);
    PopStack(g, state, stack, x);
  }

  lemma PopStack(g: Adj, state: map<Id, Mark>, stack: Stack, x: Id)
    requires StackInv(g, state, stack) && stack != [] && stack[|stack| - 1].0 == x && x in g
    ensures StackInv(g, state[x := Done], stack[..|stack| - 1])
  {
    var state', stack' := state[x := Done], stack[..|stack| - 1];
    forall k | 0 <= k < |stack'| ensures FrameOk(g, state', stack', k) {
      assert FrameOk(g, state, stack, k);
    }
    forall y | y in g && state'[y] == Visiting ensures OnStack(stack', y) {
      var k :| 0 <= k < |stack| && stack[k].0 == y;
      assert stack'[k].0 == y;
    }
  }

  /** The top frame moves past a neighbour that is already Done. */
  lemma StepSkip(g: Adj, state: map<Id, Mark>, stack: Stack, done: seq<Id>, x: Id, n: nat)
    requires SearchInv(g, state, stack, done)
    requires stack != [] && stack[|stack| - 1] == (x, n) && x in g && n < |g[x]|
    requires g[x][n] in g && state[g[x][n]] == Done
    ensures SearchInv(g, state, stack[|stack| - 1 := (x, n + 1)], done)
  {
    hide ColourInv;
    var stack' := stack[|stack| - 1 := (x, n + 1)];
    forall k | 0 <= k < |stack'| ensures FrameOk(g, state, stack', k) {
      assert FrameOk(g, state, stack, k);
    }
    forall y | y in g && state[y] == Visiting ensures OnStack(stack', y) {
      var k :| 0 <= k < |stack| && stack[k].0 == y;
      assert stack'[k].0 == y;
    }
  }

  /** The top frame opens a Pending neighbour. */
  lemma StepPush(g: Adj, state: map<Id, Mark>, stack: Stack, done: seq<Id>, x: Id, n: nat)
    requires SearchInv(g, state, stack, done)
    requires stack != [] && stack[|stack| - 1] == (x, n) && x in g && n < |g[x]|
    requires g[x][n] in g && state[g[x][n]] == Pending
    ensures var y := g[x][n];
            SearchInv(g, state[y := Visiting], stack[|stack| - 1 := (x, n + 1)] + [(y, 0)], done)
  {
    hide Ordered;
    PushStack(g, state, stack, x, n);
  }

  lemma PushStack(g: Adj, state: map<Id, Mark>, stack: Stack, x: Id, n: nat)
    requires StackInv(g, state, stack)
    requires stack != [] && stack[|stack| - 1] == (x, n) && x in g && n < |g[x]|
    requires g[x][n] in g && state[g[x][n]] == Pending
    ensures var y := g[x][n];
            StackInv(g, state[y := Visiting], stack[|stack| - 1 := (x, n + 1)] + [(y, 0)])
  {
    var y := g[x][n];
    var state', stack' := state[y := Visiting], stack[|stack| - 1 := (x, n + 1)] + [(y, 0)];
    forall k | 0 <= k < |stack'| ensures FrameOk(g, state', stack', k) {
      if k < |stack| { assert FrameOk(g, state, stack, k); }
    }
    forall k | 0 <= k < |stack| ensures stack'[k].0 != y {
      assert FrameOk(g, state, stack, k);
    }
    forall z | z in g && state'[z] == Visiting ensures OnStack(stack', z) {
      if z == y {
        assert stack'[|stack|].0 == y;
      } else {
        var k :| 0 <= k < |stack| && stack[k].0 == z;
        assert stack'[k].0 == z;
      }
    }
  }

  /** A Visiting neighbour closes a path through the stack. */
  lemma StepCycle(g: Adj, state: map<Id, Mark>, stack: Stack, done: seq<Id>, x: Id, n: nat) returns (p: seq<Id>)
    requires SearchInv(g, state, stack, done)
    requires stack != [] && stack[|stack| - 1] == (x, n) && x in g && n < |g[x]|
    requires g[x][n] in g && state[g[x][n]] == Visiting
    ensures ClosedPath(g, p) && p[0] == g[x][n]
  {
    hide ColourInv;
    var top, y := |stack| - 1, g[x][n];
    var k :| 0 <= k < |stack| && stack[k].0 == y;
    p := seq(|stack| - k, i requires 0 <= i < |stack| - k => stack[k + i].0) + [y];
    forall i | 0 <= i < |p| - 1 ensures p[i] in g && p[i + 1] in g[p[i]] {
      assert FrameOk(g, state, stack, k + i);
    }
    IsClosedPath(g, p);
  }

  lemma IsClosedPath(g: Adj, p: seq<Id>)
    requires |p| >= 2 && p[0] == p[|p| - 1]
    requires forall i | 0 <= i < |p| - 1 :: p[i] in g && p[i + 1] in g[p[i]]
    ensures ClosedPath(g, p)
  {}

  lemma PendingShrinks(state: map<Id, Mark>, x: Id, m: Mark)
    requires x in state && m != Pending
    ensures state[x] == Pending ==> |PendingNodes(state[x := m])| < |PendingNodes(state)|
    ensures state[x] != Pending ==> PendingNodes(state[x := m]) == PendingNodes(state)
  {
    if state[x] == Pending {
      assert PendingNodes(state[x := m]) == PendingNodes(state) - {x};
      assert x in PendingNodes(state);
    }
  }

  /** What the search reports: nothing when a topological order exists, else a node on a closed path. */
  ghost predicate CycleReport(g: Adj, r: Option<Id>) {
    match r
    case None => exists o :: TopoOrder(g, o)
    case Some(x) => exists p :: ClosedPath(g, p) && p[0] == x
  }

  /** The search is exact: it reports a node iff the graph has a closed path. */
  lemma CycleReportIsExact(g: Adj, r: Option<Id>)
    requires CycleReport(g, r)
    ensures r.Some? <==> Cyclic(g)
  {
    if r.None? {
      var o :| TopoOrder(g, o);
      TopoExcludesCycles(g, o);
    }
  }

  /**
    * One search from `start`, with an explicit stack of (node, next neighbour index). `done` is the
    * finishing order, kept for the proof.
    */
  method Visit(g: Adj, start: Id, state0: map<Id, Mark>, ghost done0: seq<Id>)
    returns (r: Option<Id>, state: map<Id, Mark>, ghost done: seq<Id>)
    requires Closed(g) && start in g
    requires SearchInv(g, state0, [], done0) && state0[start] == Pending
    ensures r.Some? ==> exists p :: ClosedPath(g, p) && p[0] == r.value
    ensures r.None? ==> SearchInv(g, state, [], done) && done0 <= done && start in done
  {
    hide Ordered;
    done := done0;
    var stack: Stack := [(start, 0)];
    state := state0[start := Visiting];
    assert SearchInv(g, state, stack, done) by {
      assert FrameOk(g, state, stack, 0) && stack[0].0 == start;
    }
    while |stack| > 0
      invariant SearchInv(g, state, stack, done)
      invariant done0 <= done
      invariant start in done || (stack != [] && stack[0].0 == start)
      decreases |PendingNodes(state)|, |stack|,
                if stack == [] || stack[|stack| - 1].0 !in g then 0
                else |g[stack[|stack| - 1].0]| - stack[|stack| - 1].1
    {
      var (node, idx) := stack[|stack| - 1];
      assert FrameOk(g, state, stack, |stack| - 1);
      var neighbours := g[node];
      if idx >= |neighbours| {
        StepPop(g, state, stack, done, node, idx);
        PendingShrinks(state, node, Done);
        state := state[node := Done];
        stack := stack[..|stack| - 1];
        done := done + [node];
        continue;
      }
      var next := neighbours[idx];
      match state[next] {
        case Visiting =>
          ghost var p := StepCycle(g, state, stack, done, node, idx);
          return Some(next), state, done;
        case Done =>
          StepSkip(g, state, stack, done, node, idx);
          stack := stack[|stack| - 1 := (node, idx + 1)];
        case Pending =>
          StepPush(g, state, stack, done, node, idx);
          PendingShrinks(state, next, Visiting);
          stack := stack[|stack| - 1 := (node, idx + 1)];
          state := state[next := Visiting];
          stack := stack + [(next, 0)];
      }
    }
    r := None;
  }

  /**
    * The depth-first search over all start nodes. `keys` is the iteration order of the hash map,
    * which is arbitrary.
    */
  method DetectCycle(g: Adj, keys: seq<Id>) returns (r: Option<Id>)
    requires Closed(g)
    requires forall x :: x in keys <==> x in g
    ensures CycleReport(g, r)
    ensures r.Some? <==> Cyclic(g)
  {
    var state: map<Id, Mark> := map x | x in g :: Pending;
    ghost var done: seq<Id> := [];
    for s := 0 to |keys|
      invariant SearchInv(g, state, [], done)
      invariant forall k | 0 <= k < s :: keys[k] in done
    {
      if state[keys[s]] != Pending {
        continue;
      }
      r, state, done := Visit(g, keys[s], state, done);
      if r.Some? {
        return;
      }
    }
    assert TopoOrder(g, done);
    r := None;
    CycleReportIsExact(g, r);
  }

  // ---------------------------------------------------------------------------------------
  // Recursive search with temporary and permanent marks
  // ---------------------------------------------------------------------------------------

  /** `perm` holds exactly the nodes finished so far, and `done` is their finishing order. */
  ghost predicate PermInv(g: Adj, perm: set<Id>, done: seq<Id>) {
    && Ordered(g, done)
    && (forall y :: y in perm <==> y in done)
  }

  /** `temp` holds exactly the nodes on the recursion path, which leads to x. */
  ghost predicate TempInv(g: Adj, temp: set<Id>, path: seq<Id>, x: Id) {
    && (forall y :: y in temp <==> y in path)
    && IsPath(g, path + [x])
  }

  lemma ClosePath(g: Adj, path: seq<Id>, x: Id)
    requires IsPath(g, path + [x]) && x in path
    ensures Cyclic(g)
  {
    var k :| 0 <= k < |path| && path[k] == x;
    var whole := path + [x];
    var p := whole[k..];
    forall i | 0 <= i < |p| - 1 ensures p[i + 1] in g[p[i]] {
      assert whole[k + i + 1] in g[whole[k + i]];
    }
    assert ClosedPath(g, p);
  }

  method DfsMarks(g: Adj, x: Id, temp0: set<Id>, perm0: set<Id>, ghost path: seq<Id>, ghost done0: seq<Id>)
    returns (found: bool, temp: set<Id>, perm: set<Id>, ghost done: seq<Id>)
    requires Closed(g) && PermInv(g, perm0, done0) && TempInv(g, temp0, path, x)
    requires forall y | y in path :: y !in perm0
    ensures found ==> Cyclic(g)
    ensures !found ==> temp == temp0 && PermInv(g, perm, done) && done0 <= done && x in done
    ensures !found ==> forall y | y in path :: y !in perm
    decreases g.Keys - temp0
  {
    temp, perm, done := temp0, perm0, done0;
    assert x in g by { assert (path + [x])[|path|] == x; }
    if x in perm {
      return false, temp, perm, done;
    }
    if x in temp {
      ClosePath(g, path, x);
      return true, temp, perm, done;
    }
    temp := temp + {x};
    var deps := g[x];
    ghost var path' := path + [x];
    for i := 0 to |deps|
      invariant temp == temp0 + {x} && PermInv(g, perm, done) && done0 <= done
      invariant forall y | y in path' :: y !in perm
      invariant forall k | 0 <= k < i :: deps[k] in done
    {
      assert TempInv(g, temp, path', deps[i]);
      found, temp, perm, done := DfsMarks(g, deps[i], temp, perm, path', done);
      if found {
        return;
      }
    }
    assert DepsBefore(g, done, |done|, x);
    ExtendOrder(g, done, x);
    temp := temp - {x};
    perm := perm + {x};
    done := done + [x];
    found := false;
  }

  /** `ExecutionGraph::has_cycle`; `keys` is the iteration order of the hash map. */
  method HasCycle(g: Adj, keys: seq<Id>) returns (b: bool)
    requires Closed(g)
    requires forall x :: x in keys <==> x in g
    ensures b <==> Cyclic(g)
  {
    var temp: set<Id>, perm: set<Id> := {}, {};
    ghost var done: seq<Id> := [];
    for s := 0 to |keys|
      invariant temp == {} && PermInv(g, perm, done)
      invariant forall k | 0 <= k < s :: keys[k] in done
    {
      assert TempInv(g, temp, [], keys[s]);
      b, temp, perm, done := DfsMarks(g, keys[s], temp, perm, [], done);
      if b {
        return;
      }
    }
    assert TopoOrder(g, done);
    TopoExcludesCycles(g, done);
    b := false;
  }
}
