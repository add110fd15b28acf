/**
  * `ExecutionGraph` of src/runtime/graph.rs: adding nodes to the running graph one at a time, and
  * what happens when a list of dynamic nodes is added.
  */
module ExecutionGraphs {
  import opened Wrappers
  import opened Types
  import opened Digraph

  datatype AgentNode = AgentNode(
    id: string,
    role: AgentRole,
    instructions: string,
    dependencies: seq<string>,
    depth: u8)

  datatype GraphError =
    | DuplicateNode(id: string)
    | TooDeep(id: string, depth: u8)
    | SelfDependency(id: string)
    | MissingDependency(id: string, dep: string)
    | IntroducesCycle(id: string)

  type NodeMap = map<string, AgentNode>

  function Edges(nodes: NodeMap): Adj {
    map x | x in nodes :: nodes[x].dependencies
  }

  /** A node can join: new id, depth within the limit, every dependency already present. */
  predicate Admits(nodes: NodeMap, maxDepth: u8, n: AgentNode) {
    && n.id !in nodes
    && n.depth <= maxDepth
    && forall d | d in n.dependencies :: d in nodes
  }

  /** What each refusal says about the node; it is the first thing wrong with it. */
  ghost predicate Refused(e: GraphError, nodes: NodeMap, maxDepth: u8, n: AgentNode) {
    match e
    case DuplicateNode(id) => id == n.id && id in nodes
    case TooDeep(id, depth) => id == n.id && id !in nodes && depth == n.depth > maxDepth
    case SelfDependency(id) =>
      && id == n.id && id !in nodes && n.depth <= maxDepth
      && exists k | 0 <= k < |n.dependencies| ::
        n.dependencies[k] == id && forall j | 0 <= j < k :: n.dependencies[j] in nodes
    case MissingDependency(id, dep) =>
      && id == n.id && id !in nodes && n.depth <= maxDepth && dep != id && dep !in nodes
      && exists k | 0 <= k < |n.dependencies| ::
        n.dependencies[k] == dep && forall j | 0 <= j < k :: n.dependencies[j] in nodes
    case IntroducesCycle(_) => false
  }

  /** A node whose dependencies are all present cannot close a cycle. */
  lemma AdmittedNodeKeepsAcyclic(g: Adj, x: Id, deps: seq<Id>)
    requires Closed(g) && !Cyclic(g) && x !in g && forall d | d in deps :: d in g
    ensures Closed(g[x := deps]) && !Cyclic(g[x := deps])
  {
    var g' := g[x := deps];
    if Cyclic(g') {
      var p :| ClosedPath(g', p);
      if p[0] == x {
        assert p[0 + 1] in g'[p[0]];
        PathStaysInside(g', g.Keys, p, 1, |p| - 1);
      } else {
        forall i | 0 <= i < |p| ensures p[i] in g { PathStaysInside(g', g.Keys, p, 0, i); }
        forall i | 0 <= i < |p| - 1 ensures p[i + 1] in g[p[i]] { assert p[i + 1] in g'[p[i]]; }
        assert ClosedPath(g, p);
      }
    }
  }

  /** The nodes after adding a list one by one; later ids win, as `insert` does. */
  function Extended(nodes: NodeMap, ns: seq<AgentNode>): NodeMap {
    if ns == [] then nodes
    else Extended(nodes, ns[..|ns| - 1])[ns[|ns| - 1].id := ns[|ns| - 1]]
  }

  predicate EarlierIn(ns: seq<AgentNode>, i: nat, d: string)
    requires i <= |ns|
  {
    exists j | 0 <= j < i :: ns[j].id == d
  }

  /** Node i can join after those listed before it: new id, depth in range, dependencies present by then. */
  predicate AdmitsAt(nodes: NodeMap, maxDepth: u8, ns: seq<AgentNode>, i: nat)
    requires i < |ns|
  {
    && ns[i].id !in nodes && ns[i].depth <= maxDepth && !EarlierIn(ns, i, ns[i].id)
    && forall d | d in ns[i].dependencies :: d in nodes || EarlierIn(ns, i, d)
  }

  /** A list of nodes can join in its own order. */
  predicate AdmitsAll(nodes: NodeMap, maxDepth: u8, ns: seq<AgentNode>) {
    forall i | 0 <= i < |ns| :: AdmitsAt(nodes, maxDepth, ns, i)
  }

  lemma {:induction false} ExtendedKeys(nodes: NodeMap, ns: seq<AgentNode>, d: string)
    ensures d in Extended(nodes, ns) <==> d in nodes || EarlierIn(ns, |ns|, d)
  {
    if ns != [] {
      ExtendedKeys(nodes, ns[..|ns| - 1], d);
      if d == ns[|ns| - 1].id {
        assert EarlierIn(ns, |ns|, d);
      }
    }
  }

  lemma EarlierInPrefix(ns: seq<AgentNode>, k: nat, i: nat, d: string)
    requires i <= k <= |ns|
    ensures EarlierIn(ns[..k], i, d) <==> EarlierIn(ns, i, d)
  {
    if EarlierIn(ns, i, d) {
      var j :| 0 <= j < i && ns[j].id == d;
      assert ns[..k][j].id == d;
    }
  }

  lemma AdmitsAtPrefix(nodes: NodeMap, maxDepth: u8, ns: seq<AgentNode>, k: nat, i: nat)
    requires i < k <= |ns|
    ensures AdmitsAt(nodes, maxDepth, ns[..k], i) <==> AdmitsAt(nodes, maxDepth, ns, i)
  {
    forall d ensures EarlierIn(ns[..k], i, d) <==> EarlierIn(ns, i, d) { EarlierInPrefix(ns, k, i, d); }
  }

  /** Joining a list is joining its prefix and then its last node. */
  lemma AdmitsAllStep(nodes: NodeMap, maxDepth: u8, ns: seq<AgentNode>, k: nat)
    requires k < |ns|
    ensures AdmitsAll(nodes, maxDepth, ns[..k + 1])
       <==> AdmitsAll(nodes, maxDepth, ns[..k]) && Admits(Extended(nodes, ns[..k]), maxDepth, ns[k])
  {
    var a, b := ns[..k], ns[..k + 1];
    forall i | 0 <= i <= k ensures AdmitsAt(nodes, maxDepth, b, i) <==> AdmitsAt(nodes, maxDepth, ns, i) {
      AdmitsAtPrefix(nodes, maxDepth, ns, k + 1, i);
    }
    forall i | 0 <= i < k ensures AdmitsAt(nodes, maxDepth, a, i) <==> AdmitsAt(nodes, maxDepth, ns, i) {
      AdmitsAtPrefix(nodes, maxDepth, ns, k, i);
    }
    assert AdmitsAt(nodes, maxDepth, ns, k) <==> Admits(Extended(nodes, a), maxDepth, ns[k]) by {
      forall d ensures d in Extended(nodes, a) <==> d in nodes || EarlierIn(ns, k, d) {
        ExtendedKeys(nodes, a, d);
        EarlierInPrefix(ns, k, k, d);
      }
      hide EarlierIn, Extended;
    }
    hide EarlierIn, Extended, AdmitsAt, Admits;
  }

  lemma {:induction false} AdmitsAllPrefix(nodes: NodeMap, maxDepth: u8, ns: seq<AgentNode>, k: nat)
    requires k <= |ns| && AdmitsAll(nodes, maxDepth, ns)
    ensures AdmitsAll(nodes, maxDepth, ns[..k])
    decreases |ns| - k
  {
    if k == |ns| {
      assert ns[..k] == ns;
    } else {
      AdmitsAllPrefix(nodes, maxDepth, ns, k + 1);
      AdmitsAllStep(nodes, maxDepth, ns, k);
    }
  }

  class ExecutionGraph {
    var nodes: NodeMap
    const maxDepth: u8

    /** Ids match, depths are within the limit, dependencies exist, and there is no cycle. */
    ghost predicate Valid()
      reads this
    {
      && (forall x | x in nodes :: nodes[x].id == x && nodes[x].depth <= maxDepth)
      && Closed(Edges(nodes))
      && !Cyclic(Edges(nodes))
    }

    constructor (maxDepth: u8)
      ensures Valid() && nodes == map[] && this.maxDepth == maxDepth
    {
      this.maxDepth := maxDepth;
      nodes := map[];
      new;
      assert TopoOrder(Edges(nodes), []);
      TopoExcludesCycles(Edges(nodes), []);
    }

    /**
      * `add_node`. `keys` is the iteration order of the node hash map in the cycle check. The check
      * never refuses: a node that reaches it cannot close a cycle.
      */
    method AddNode(node: AgentNode, keys: seq<string>) returns (r: Result<(), GraphError>)
      requires Valid()
      requires forall x :: x in keys <==> x in nodes || x == node.id
      modifies this
      ensures Valid()
      ensures r.Ok? <==> Admits(old(nodes), maxDepth, node)
      ensures r.Ok? ==> nodes == old(nodes)[node.id := node]
      ensures r.Err? ==> nodes == old(nodes) && Refused(r.error, nodes, maxDepth, node)
    {
      if node.id in nodes {
        return Err(DuplicateNode(node.id));
      }
      if node.depth > maxDepth {
        return Err(TooDeep(node.id, node.depth));
      }
      for k := 0 to |node.dependencies|
        invariant nodes == old(nodes)
        invariant forall j | 0 <= j < k :: node.dependencies[j] in nodes
      {
        var dep := node.dependencies[k];
        if dep == node.id {
          return Err(SelfDependency(node.id));
        }
        if dep !in nodes {
          return Err(MissingDependency(node.id, dep));
        }
      }
      AdmittedNodeKeepsAcyclic(Edges(nodes), node.id, node.dependencies);
      assert Edges(nodes[node.id := node]) == Edges(nodes)[node.id := node.dependencies];
      nodes := nodes[node.id := node];
      var cyclic := HasCycle(Edges(nodes), keys);
      if cyclic {
        // Here the node would be taken out again and IntroducesCycle returned.
        assert false;
      }
      return Ok(());
    }

    /**
      * Adding a list node by node, stopping at the first refusal, as `add_nodes` and the run loop do.
      * Whatever was added before a refusal stays.
      */
    method AddNodes(ns: seq<AgentNode>, keys: seq<seq<string>>) returns (r: Result<(), GraphError>)
      requires Valid() && |keys| == |ns|
      requires forall k, x | 0 <= k < |ns| ::
                 x in keys[k] <==> x in Extended(nodes, ns[..k]) || x == ns[k].id
      modifies this
      ensures Valid()
      ensures r.Ok? <==> AdmitsAll(old(nodes), maxDepth, ns)
      ensures r.Ok? ==> nodes == Extended(old(nodes), ns)
      ensures r.Err? ==> exists k | 0 <= k < |ns| ::
                && AdmitsAll(old(nodes), maxDepth, ns[..k])
                && nodes == Extended(old(nodes), ns[..k])
                && Refused(r.error, nodes, maxDepth, ns[k])
    {
      assert ns[..0] == [];
      for k := 0 to |ns|
        invariant Valid() && nodes == Extended(old(nodes), ns[..k])
        invariant AdmitsAll(old(nodes), maxDepth, ns[..k])
      {
        AdmitsAllStep(old(nodes), maxDepth, ns, k);
        r := AddNode(ns[k], keys[k]);
        if r.Err? {
          if AdmitsAll(old(nodes), maxDepth, ns) {
            AdmitsAllPrefix(old(nodes), maxDepth, ns, k + 1);
          }
          return;
        }
        assert ns[..k + 1][..k] == ns[..k];
      }
      assert ns[..|ns|] == ns;
      return Ok(());
    }
  }
}
