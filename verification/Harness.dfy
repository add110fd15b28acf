/**
  * Agent sessions of src/harness/mod.rs and src/harness/sub_agent.rs: sessions are created under a
  * parent in two map operations, and the tree walks follow the child lists.
  */
module Harness {
  import opened Wrappers
  import opened Types
  import opened Folds

  type SessionId = string

  datatype SessionStatus = Idle | Running | Ready | Failed(error: string) | Terminated

  datatype Session = Session(
    id: SessionId,
    role: AgentRole,
    status: SessionStatus,
    usage: Option<TokenUsage>,
    iterations: u32,
    parent: Option<SessionId>,
    children: seq<SessionId>)

  /** The session map, and the creation number of every session id handed out so far. */
  datatype State = State(sessions: map<SessionId, Session>, rank: map<SessionId, nat>)

  // ------------------------------------------------------------------ the forest invariant

  predicate ChildOf(h: State, a: SessionId, c: SessionId) {
    a in h.sessions && c in h.sessions[a].children
  }

  /** Sessions are stored under their own id; creation numbers are below the number of ids handed out. */
  predicate Numbered(h: State) {
    && (forall x | x in h.sessions :: x in h.rank && h.sessions[x].id == x)
    && (forall x | x in h.rank :: h.rank[x] < |h.rank|)
  }

  /** Child lists hold ids that were handed out after their owner. */
  predicate ParentsFirst(h: State)
    requires Numbered(h)
  {
    forall a, c | a in h.sessions && c in h.sessions[a].children :: c in h.rank && h.rank[a] < h.rank[c]
  }

  /** No id stands twice in child lists. */
  ghost predicate OneParent(h: State) {
    && (forall a, b, c | ChildOf(h, a, c) && ChildOf(h, b, c) :: a == b)
    && (forall a, i, j | a in h.sessions && 0 <= i < j < |h.sessions[a].children| ::
          h.sessions[a].children[i] != h.sessions[a].children[j])
  }

  ghost predicate Forest(h: State) {
    Numbered(h) && ParentsFirst(h) && OneParent(h)
  }

  /** No creation is between its two map operations: every linked child is registered. */
  ghost predicate Settled(h: State) {
    forall a, c | ChildOf(h, a, c) :: c in h.sessions
  }

  const EMPTY := State(map[], map[])

  // ------------------------------------------------------------------ the steps on the map

  /** First operation of a creation: a new id is drawn and pushed onto its parent's child list. */
  function Linked(h: State, id: SessionId, parent: Option<SessionId>): State {
    var sessions :=
      if parent.Some? && parent.value in h.sessions then
        h.sessions[parent.value :=
          h.sessions[parent.value].(children := h.sessions[parent.value].children + [id])]
      else h.sessions;
    State(sessions, h.rank[id := |h.rank|])
  }

  /** Second operation: the new session itself is inserted, without children. */
  function Inserted(h: State, s: Session): State {
    h.(sessions := h.sessions[s.id := s])
  }

  /** Status, usage and iteration updates keep identity and links. */
  predicate SameLinks(s: Session, t: Session) {
    t.id == s.id && t.children == s.children && t.parent == s.parent && t.role == s.role
  }

  lemma FreshRank(m: map<SessionId, nat>, id: SessionId)
    requires id !in m
    ensures |m[id := |m|]| == |m| + 1
  {
    assert m[id := |m|].Keys == m.Keys + {id};
  }

  lemma LinkKeepsForest(h: State, id: SessionId, parent: Option<SessionId>)
    requires Forest(h) && id !in h.rank
    ensures Forest(Linked(h, id, parent))
  {
    var h' := Linked(h, id, parent);
    LinkKeepsNumbered(h, id, parent);
    LinkKeepsOneParent(h, id, parent);
    forall a, c | a in h'.sessions && c in h'.sessions[a].children
      ensures c in h'.rank && h'.rank[a] < h'.rank[c]
    {
      assert ChildOf(h', a, c);
      LinkedChildren(h, id, parent, a, c);
    }
    hide OneParent, Numbered;
  }

  lemma LinkKeepsNumbered(h: State, id: SessionId, parent: Option<SessionId>)
    requires Numbered(h) && id !in h.rank
    ensures Numbered(Linked(h, id, parent))
  {
    FreshRank(h.rank, id);
  }

  lemma LinkKeepsOneParent(h: State, id: SessionId, parent: Option<SessionId>)
    requires Forest(h) && id !in h.rank
    ensures OneParent(Linked(h, id, parent))
  {
    var h' := Linked(h, id, parent);
    forall a, b, c | ChildOf(h', a, c) && ChildOf(h', b, c) ensures a == b {
      LinkedChildren(h, id, parent, a, c);
      LinkedChildren(h, id, parent, b, c);
    }
    forall a, i: nat, j: nat | a in h'.sessions && i < j < |h'.sessions[a].children|
      ensures h'.sessions[a].children[i] != h'.sessions[a].children[j]
    {
      var list := h.sessions[a].children;
      if j < |list| {
        assert list[i] != list[j];
      } else {
        assert list[i] in list;
        assert ChildOf(h, a, list[i]);
      }
    }
  }

  /** A link adds one child to one list, and nothing else. */
  lemma LinkedChildren(h: State, id: SessionId, parent: Option<SessionId>, a: SessionId, c: SessionId)
    requires Forest(h) && id !in h.rank && ChildOf(Linked(h, id, parent), a, c)
    ensures if c == id then parent == Some(a) else ChildOf(h, a, c)
    ensures a in h.rank && h.rank[a] < |h.rank|
    ensures c != id ==> c in h.rank && h.rank[a] < h.rank[c]
  {
    if c != id || parent != Some(a) { assert c in h.sessions[a].children; }
  }

  lemma InsertKeepsForest(h: State, s: Session)
    requires Forest(h) && s.id in h.rank && s.id !in h.sessions && s.children == []
    ensures Forest(Inserted(h, s))
  {
    var h' := Inserted(h, s);
    forall a, c | ChildOf(h', a, c) ensures ChildOf(h, a, c) {}
  }

  lemma UpdateKeepsForest(h: State, s: Session)
    requires Forest(h) && s.id in h.sessions && SameLinks(h.sessions[s.id], s)
    ensures Forest(Inserted(h, s)) && (Settled(h) ==> Settled(Inserted(h, s)))
  {
    var h' := Inserted(h, s);
    forall a, c | ChildOf(h', a, c) ensures ChildOf(h, a, c) {}
  }

  // ------------------------------------------------------------------ runs

  /** One map operation of any thread. */
  ghost predicate Step(h: State, h': State) {
    || (exists id, parent :: id !in h.rank && h' == Linked(h, id, parent))
    || (exists s: Session :: s.id in h.rank && s.id !in h.sessions && s.children == [] && h' == Inserted(h, s))
    || (exists s: Session :: s.id in h.sessions && SameLinks(h.sessions[s.id], s) && h' == Inserted(h, s))
  }

  ghost predicate Run(t: seq<State>) {
    t != [] && t[0] == EMPTY && forall i | 0 <= i < |t| - 1 :: Step(t[i], t[i + 1])
  }

  lemma StepKeepsForest(h: State, h': State)
    requires Forest(h) && Step(h, h')
    ensures Forest(h')
  {
    hide Forest, Linked, SameLinks;
    if id, parent :| id !in h.rank && h' == Linked(h, id, parent) {
      LinkKeepsForest(h, id, parent);
    } else if s: Session :| s.id in h.rank && s.id !in h.sessions && s.children == [] && h' == Inserted(h, s) {
      InsertKeepsForest(h, s);
    } else {
      var s: Session :| s.id in h.sessions && SameLinks(h.sessions[s.id], s) && h' == Inserted(h, s);
      UpdateKeepsForest(h, s);
    }
  }

  /** Every state that any interleaving of creations and updates reaches is a forest. */
  lemma {:induction false} ReachableIsForest(t: seq<State>, i: nat)
    requires Run(t) && i < |t|
    ensures Forest(t[i])
  {
    hide Step, Forest;
    if i == 0 {
      EmptyIsForest();
    } else {
      ReachableIsForest(t, i - 1);
      assert Step(t[i - 1], t[(i - 1) + 1]);
      StepKeepsForest(t[i - 1], t[i]);
    }
  }

  lemma EmptyIsForest()
    ensures Forest(EMPTY)
  {}

  // ------------------------------------------------------------------ the tree walk

  datatype SessionTree = Node(
    id: SessionId,
    role: AgentRole,
    status: SessionStatus,
    usage: Option<TokenUsage>,
    iterations: u32,
    children: seq<SessionTree>)

  function RankOf(h: State, id: SessionId): nat {
    if id in h.rank then h.rank[id] else |h.rank|
  }

  /** How much creation order is left after id: what makes the walks terminate. */
  function Younger(h: State, id: SessionId): (n: int)
    requires Numbered(h)
    ensures n >= 0
  {
    |h.rank| - RankOf(h, id)
  }

  /** Ids that were handed out after `a`. */
  predicate AllAfter(h: State, a: SessionId, cs: seq<SessionId>) {
    a in h.rank && forall i | 0 <= i < |cs| :: cs[i] in h.rank && h.rank[a] < h.rank[cs[i]]
  }

  /** `session_tree`: None for an id that is not registered. */
  function TreeOf(h: State, id: SessionId): (r: Option<SessionTree>)
    requires Forest(h)
    ensures r.Some? <==> id in h.sessions
    ensures r.Some? ==> r.value.id == id
    decreases Younger(h, id), 0
  {
    if id !in h.sessions then None
    else
      var s := h.sessions[id];
      Some(Node(s.id, s.role, s.status, s.usage, s.iterations, TreesOf(h, id, s.children)))
  }

  /** The trees of the registered ids among `cs`, in order. */
  function TreesOf(h: State, a: SessionId, cs: seq<SessionId>): seq<SessionTree>
    requires Forest(h) && AllAfter(h, a, cs)
    decreases Younger(h, a) - 1, |cs| + 1
  {
    if cs == [] then []
    else match TreeOf(h, cs[0])
         case None => TreesOf(h, a, cs[1..])
         case Some(t) => [t] + TreesOf(h, a, cs[1..])
  }

  function IdsOf(t: SessionTree): seq<SessionId> {
    [t.id] + IdsOfAll(t.children)
  }

  function IdsOfAll(ts: seq<SessionTree>): seq<SessionId> {
    if ts == [] then [] else IdsOf(ts[0]) + IdsOfAll(ts[1..])
  }

  /** The registered ids of a list, in order. */
  function Registered(h: State, cs: seq<SessionId>): seq<SessionId> {
    if cs == [] then [] else (if cs[0] in h.sessions then [cs[0]] else []) + Registered(h, cs[1..])
  }

  function RootIds(ts: seq<SessionTree>): seq<SessionId> {
    if ts == [] then [] else [ts[0].id] + RootIds(ts[1..])
  }

  /** Every node of the tree shows its session as it is, with its registered children in order. */
  ghost predicate Mirrors(h: State, t: SessionTree) {
    && t.id in h.sessions
    && t.role == h.sessions[t.id].role
    && t.status == h.sessions[t.id].status
    && t.usage == h.sessions[t.id].usage
    && t.iterations == h.sessions[t.id].iterations
    && RootIds(t.children) == Registered(h, h.sessions[t.id].children)
    && forall i | 0 <= i < |t.children| :: Mirrors(h, t.children[i])
  }

  lemma {:induction false} TreeMirrors(h: State, id: SessionId)
    requires Forest(h) && id in h.sessions
    ensures TreeOf(h, id).value.id == id && Mirrors(h, TreeOf(h, id).value)
    decreases Younger(h, id), 0
  {
    TreesMirror(h, id, h.sessions[id].children);
  }

  lemma {:induction false} TreesMirror(h: State, a: SessionId, cs: seq<SessionId>)
    requires Forest(h) && AllAfter(h, a, cs)
    ensures RootIds(TreesOf(h, a, cs)) == Registered(h, cs)
    ensures forall t | t in TreesOf(h, a, cs) :: Mirrors(h, t)
    decreases Younger(h, a) - 1, |cs| + 1
  {
    hide Mirrors;
    if cs != [] {
      TreesMirror(h, a, cs[1..]);
      if cs[0] in h.sessions {
        TreeMirrors(h, cs[0]);
        var t, rest := TreeOf(h, cs[0]).value, TreesOf(h, a, cs[1..]);
        assert ([t] + rest)[1..] == rest;
      }
    }
  }

  /** x is registered and is reached from a along child lists. */
  ghost predicate Descends(h: State, a: SessionId, x: SessionId)
    requires Forest(h)
    decreases RankOf(h, x)
  {
    && x in h.sessions
    && (x == a || exists q :: ChildOf(h, q, x) && Descends(h, a, q))
  }

  lemma {:induction false} DescendsRank(h: State, a: SessionId, x: SessionId)
    requires Forest(h) && Descends(h, a, x)
    ensures a in h.sessions && h.rank[a] <= h.rank[x] && (a != x ==> h.rank[a] < h.rank[x])
    decreases RankOf(h, x)
  {
    if x != a {
      var q :| ChildOf(h, q, x) && Descends(h, a, q);
      DescendsRank(h, a, q);
    }
  }

  /** Descending from a child is descending from its parent. */
  lemma {:induction false} DescendsUp(h: State, a: SessionId, c: SessionId, x: SessionId)
    requires Forest(h) && ChildOf(h, a, c) && Descends(h, c, x)
    ensures Descends(h, a, x)
    decreases RankOf(h, x)
  {
    if x == c {
      assert Descends(h, a, a);
    } else {
      var q :| ChildOf(h, q, x) && Descends(h, c, q);
      DescendsUp(h, a, c, q);
    }
  }

  /** A proper descendant descends from a registered child. */
  lemma {:induction false} DescendsDown(h: State, a: SessionId, x: SessionId) returns (c: SessionId)
    requires Forest(h) && Descends(h, a, x) && x != a
    ensures ChildOf(h, a, c) && Descends(h, c, x) && c in h.sessions
    decreases RankOf(h, x)
  {
    var q :| ChildOf(h, q, x) && Descends(h, a, q);
    if q == a {
      c := x;
    } else {
      c := DescendsDown(h, a, q);
      DescendsRank(h, c, q);
    }
  }

  /** Two ancestors of one session are in line, since parents are unique. */
  lemma {:induction false} AncestorsInLine(h: State, a: SessionId, b: SessionId, x: SessionId)
    requires Forest(h) && Descends(h, a, x) && Descends(h, b, x)
    ensures Descends(h, a, b) || Descends(h, b, a)
    decreases RankOf(h, x)
  {
    if x != a && x != b {
      var p :| ChildOf(h, p, x) && Descends(h, a, p);
      var q :| ChildOf(h, q, x) && Descends(h, b, q);
      assert p == q;
      AncestorsInLine(h, a, b, p);
    }
  }

  /** Different children of one session have no descendant in common. */
  lemma SiblingsDisjoint(h: State, a: SessionId, c: SessionId, d: SessionId, x: SessionId)
    requires Forest(h) && ChildOf(h, a, c) && ChildOf(h, a, d) && Descends(h, c, x) && Descends(h, d, x)
    ensures c == d
  {
    AncestorsInLine(h, c, d, x);
    if c != d {
      var (u, v) := if Descends(h, c, d) then (c, d) else (d, c);
      var q :| ChildOf(h, q, v) && Descends(h, u, q);
      assert q == a;
      DescendsRank(h, u, a);
    }
  }

  // ------------------------------------------------------------------ the walk lists each descendant once

  predicate NoDup(s: seq<SessionId>) {
    forall i, j | 0 <= i < j < |s| :: s[i] != s[j]
  }

  /** The ids listed are exactly the descendants of some registered id in `cs`. */
  ghost predicate ListsDescendants(h: State, ids: seq<SessionId>, cs: seq<SessionId>)
    requires Forest(h)
  {
    forall x :: x in ids <==> exists i :: 0 <= i < |cs| && Descends(h, cs[i], x)
  }

  lemma {:induction false} TreeLists(h: State, id: SessionId)
    requires Forest(h) && id in h.sessions
    ensures var ids := IdsOf(TreeOf(h, id).value);
            NoDup(ids) && forall x :: x in ids <==> Descends(h, id, x)
    decreases Younger(h, id), 0
  {
    var cs := h.sessions[id].children;
    TreesList(h, id, cs);
    var rest := IdsOfAll(TreesOf(h, id, cs));
    assert IdsOf(TreeOf(h, id).value) == [id] + rest;
    forall x ensures x in [id] + rest <==> Descends(h, id, x) {
      if x != id && Descends(h, id, x) {
        var c := DescendsDown(h, id, x);
        var i :| 0 <= i < |cs| && cs[i] == c;
        assert Descends(h, cs[i], x);
      }
      if x in rest {
        var i :| 0 <= i < |cs| && Descends(h, cs[i], x);
        DescendsUp(h, id, cs[i], x);
      }
    }
    if id in rest {
      var i :| 0 <= i < |cs| && Descends(h, cs[i], id);
      DescendsRank(h, cs[i], id);
    }
  }

  lemma {:induction false} TreesList(h: State, a: SessionId, cs: seq<SessionId>)
    requires Forest(h) && AllAfter(h, a, cs) && NoDup(cs) && forall i | 0 <= i < |cs| :: ChildOf(h, a, cs[i])
    ensures var ids := IdsOfAll(TreesOf(h, a, cs));
            NoDup(ids) && ListsDescendants(h, ids, cs)
    decreases Younger(h, a) - 1, |cs| + 1
  {
    if cs != [] {
      var c, rest := cs[0], cs[1..];
      TreesList(h, a, rest);
      var tail := IdsOfAll(TreesOf(h, a, rest));
      if c in h.sessions {
        TreeLists(h, c);
        var head := IdsOf(TreeOf(h, c).value);
        var t := TreeOf(h, c).value;
        assert ([t] + TreesOf(h, a, rest))[1..] == TreesOf(h, a, rest);
        JoinLists(h, a, cs, head, tail);
      } else {
        SkipList(h, cs, tail);
      }
    }
  }

  lemma NoDupConcat(a: seq<SessionId>, b: seq<SessionId>)
    requires NoDup(a) && NoDup(b) && forall x | x in a :: x !in b
    ensures NoDup(a + b)
  {
    forall i, j | 0 <= i < j < |a + b| ensures (a + b)[i] != (a + b)[j] {
      if i < |a| <= j { assert a[i] in a && b[j - |a|] in b; }
    }
  }

  lemma JoinLists(h: State, a: SessionId, cs: seq<SessionId>, head: seq<SessionId>, tail: seq<SessionId>)
    requires Forest(h) && cs != [] && NoDup(cs) && forall i | 0 <= i < |cs| :: ChildOf(h, a, cs[i])
    requires NoDup(head) && (forall x :: x in head <==> Descends(h, cs[0], x))
    requires NoDup(tail) && ListsDescendants(h, tail, cs[1..])
    ensures NoDup(head + tail) && ListsDescendants(h, head + tail, cs)
  {
    forall x | x in head ensures x !in tail {
      if x in tail {
        var i :| 0 <= i < |cs[1..]| && Descends(h, cs[1..][i], x);
        SiblingsDisjoint(h, a, cs[0], cs[i + 1], x);
      }
    }
    NoDupConcat(head, tail);
    forall x ensures x in head + tail <==> exists i :: 0 <= i < |cs| && Descends(h, cs[i], x) {
      if x in tail {
        var i :| 0 <= i < |cs[1..]| && Descends(h, cs[1..][i], x);
        assert Descends(h, cs[i + 1], x);
      }
      if i :| 0 <= i < |cs| && Descends(h, cs[i], x) {
        if i > 0 { assert Descends(h, cs[1..][i - 1], x); }
      }
    }
  }

  lemma SkipList(h: State, cs: seq<SessionId>, tail: seq<SessionId>)
    requires Forest(h) && cs != [] && cs[0] !in h.sessions && ListsDescendants(h, tail, cs[1..])
    ensures ListsDescendants(h, tail, cs)
  {
    forall x ensures x in tail <==> exists i :: 0 <= i < |cs| && Descends(h, cs[i], x) {
      if x in tail {
        var i :| 0 <= i < |cs[1..]| && Descends(h, cs[1..][i], x);
        assert Descends(h, cs[i + 1], x);
      }
      if i :| 0 <= i < |cs| && Descends(h, cs[i], x) {
        if i == 0 { DescendsRank(h, cs[0], x); } else { assert Descends(h, cs[1..][i - 1], x); }
      }
    }
  }

  // ------------------------------------------------------------------ depth

  function Max(a: nat, b: nat): nat { if a >= b then a else b }

  function Height(t: SessionTree): nat {
    if t.children == [] then 0 else 1 + HeightOfAll(t.children)
  }

  function HeightOfAll(ts: seq<SessionTree>): nat {
    if ts == [] then 0 else Max(Height(ts[0]), HeightOfAll(ts[1..]))
  }

  /** `max_depth` of src/harness/metrics.rs, with the depth handed down. */
  function MaxDepth(h: State, id: SessionId, depth: nat): nat
    requires Forest(h)
    decreases Younger(h, id), 0
  {
    if id !in h.sessions || h.sessions[id].children == [] then depth
    else MaxDepthOfAll(h, id, h.sessions[id].children, depth + 1)
  }

  function MaxDepthOfAll(h: State, a: SessionId, cs: seq<SessionId>, depth: nat): nat
    requires Forest(h) && AllAfter(h, a, cs) && cs != []
    decreases Younger(h, a) - 1, |cs| + 1
  {
    if |cs| == 1 then MaxDepth(h, cs[0], depth)
    else Max(MaxDepth(h, cs[0], depth), MaxDepthOfAll(h, a, cs[1..], depth))
  }

  /** A walk down child lists. Only its last id can be one that is not registered yet. */
  ghost predicate ChildPath(h: State, p: seq<SessionId>) {
    p != [] && forall i | 0 <= i < |p| - 1 :: ChildOf(h, p[i], p[i + 1])
  }

  lemma PathTail(h: State, p: seq<SessionId>)
    requires ChildPath(h, p) && |p| > 1
    ensures ChildOf(h, p[0], p[1]) && ChildPath(h, p[1..])
  {
    assert ChildOf(h, p[0], p[0 + 1]);
    forall i | 0 <= i < |p[1..]| - 1 ensures ChildOf(h, p[1..][i], p[1..][i + 1]) {
      assert ChildOf(h, p[i + 1], p[(i + 1) + 1]);
    }
  }

  lemma PathCons(h: State, a: SessionId, p: seq<SessionId>)
    requires ChildPath(h, p) && ChildOf(h, a, p[0])
    ensures ChildPath(h, [a] + p)
  {
    var q := [a] + p;
    forall i | 0 <= i < |q| - 1 ensures ChildOf(h, q[i], q[i + 1]) {
      if i > 0 { assert ChildOf(h, p[i - 1], p[(i - 1) + 1]); }
    }
  }

  /** The greatest depth over a list is that of one of its ids, and bounds all of them. */
  lemma {:induction false} DepthOfAll(h: State, a: SessionId, cs: seq<SessionId>, depth: nat) returns (k: nat)
    requires Forest(h) && AllAfter(h, a, cs) && cs != []
    ensures k < |cs| && MaxDepthOfAll(h, a, cs, depth) == MaxDepth(h, cs[k], depth)
    ensures forall j | 0 <= j < |cs| :: MaxDepth(h, cs[j], depth) <= MaxDepthOfAll(h, a, cs, depth)
    decreases |cs|
  {
    k := 0;
    if |cs| > 1 {
      var j := DepthOfAll(h, a, cs[1..], depth);
      if MaxDepth(h, cs[0], depth) < MaxDepthOfAll(h, a, cs[1..], depth) { k := j + 1; }
      assert forall i | 1 <= i < |cs| :: cs[i] == cs[1..][i - 1];
    }
  }

  lemma {:induction false} DepthGrows(h: State, id: SessionId, depth: nat)
    requires Forest(h)
    ensures MaxDepth(h, id, depth) >= depth
    decreases Younger(h, id)
  {
    if id in h.sessions && h.sessions[id].children != [] {
      var k := DepthOfAll(h, id, h.sessions[id].children, depth + 1);
      DepthGrows(h, h.sessions[id].children[k], depth + 1);
    }
  }

  /** No walk down from id is longer than `max_depth` says. */
  lemma {:induction false} PathsWithinDepth(h: State, id: SessionId, depth: nat, p: seq<SessionId>)
    requires Forest(h) && ChildPath(h, p) && p[0] == id
    ensures depth + |p| - 1 <= MaxDepth(h, id, depth)
    decreases |p|
  {
    if |p| == 1 {
      DepthGrows(h, id, depth);
    } else {
      PathTail(h, p);
      var cs := h.sessions[id].children;
      var _ := DepthOfAll(h, id, cs, depth + 1);
      var k: nat :| k < |cs| && cs[k] == p[1];
      PathsWithinDepth(h, p[1], depth + 1, p[1..]);
    }
  }

  /** Some walk down from id is as long. */
  lemma {:induction false} DeepestPath(h: State, id: SessionId, depth: nat) returns (p: seq<SessionId>)
    requires Forest(h)
    ensures ChildPath(h, p) && p[0] == id && depth + |p| - 1 == MaxDepth(h, id, depth)
    decreases Younger(h, id)
  {
    if id !in h.sessions || h.sessions[id].children == [] {
      p := [id];
    } else {
      var cs := h.sessions[id].children;
      var k := DepthOfAll(h, id, cs, depth + 1);
      var rest := DeepestPath(h, cs[k], depth + 1);
      PathCons(h, id, rest);
      p := [id] + rest;
    }
  }

  /**
    * In every forest, `max_depth` is the length of the longest walk from id down child lists, whether
    * it ends in a registered session or in one that a creation has only linked yet.
    */
  lemma MaxDepthIsLongestPath(h: State, id: SessionId, depth: nat, n: nat)
    requires Forest(h)
    ensures MaxDepth(h, id, depth) == depth + n
       <==> (exists p :: ChildPath(h, p) && p[0] == id && |p| == n + 1)
            && (forall p | ChildPath(h, p) && p[0] == id :: |p| <= n + 1)
  {
    var longest := DeepestPath(h, id, depth);
    forall p | ChildPath(h, p) && p[0] == id ensures depth + |p| - 1 <= MaxDepth(h, id, depth) {
      PathsWithinDepth(h, id, depth, p);
    }
    hide ChildPath, MaxDepth, Forest;
  }

  // ------------------------------------------------------------------ depth and height

  lemma {:induction false} TreeAmong(h: State, a: SessionId, cs: seq<SessionId>, k: nat)
    requires Forest(h) && AllAfter(h, a, cs) && k < |cs| && cs[k] in h.sessions
    ensures TreesOf(h, a, cs) != [] && Height(TreeOf(h, cs[k]).value) <= HeightOfAll(TreesOf(h, a, cs))
    decreases |cs|
  {
    var tail := TreesOf(h, a, cs[1..]);
    if cs[0] in h.sessions {
      assert ([TreeOf(h, cs[0]).value] + tail)[1..] == tail;
    }
    if k > 0 { TreeAmong(h, a, cs[1..], k - 1); }
  }

  lemma {:induction false} TallestTree(h: State, a: SessionId, cs: seq<SessionId>) returns (k: nat)
    requires Forest(h) && AllAfter(h, a, cs) && TreesOf(h, a, cs) != []
    ensures k < |cs| && cs[k] in h.sessions && Height(TreeOf(h, cs[k]).value) == HeightOfAll(TreesOf(h, a, cs))
    decreases |cs|
  {
    var tail := TreesOf(h, a, cs[1..]);
    if cs[0] in h.sessions {
      var t := TreeOf(h, cs[0]).value;
      assert ([t] + tail)[1..] == tail;
      k := 0;
      if tail != [] && Height(t) < HeightOfAll(tail) {
        var j := TallestTree(h, a, cs[1..]);
        k := j + 1;
      }
    } else {
      var j := TallestTree(h, a, cs[1..]);
      k := j + 1;
    }
  }

  /** A walk that ends in a registered session. */
  ghost predicate SessionPath(h: State, p: seq<SessionId>) {
    ChildPath(h, p) && p[|p| - 1] in h.sessions
  }

  lemma SecondIsRegistered(h: State, p: seq<SessionId>)
    requires SessionPath(h, p) && |p| > 1
    ensures p[1] in h.sessions && SessionPath(h, p[1..])
  {
    PathTail(h, p);
    if |p| > 2 { assert ChildOf(h, p[1], p[1 + 1]); }
  }

  lemma {:induction false} PathsWithinHeight(h: State, id: SessionId, p: seq<SessionId>)
    requires Forest(h) && id in h.sessions && SessionPath(h, p) && p[0] == id
    ensures |p| - 1 <= Height(TreeOf(h, id).value)
    decreases |p|
  {
    if |p| > 1 {
      PathTail(h, p);
      SecondIsRegistered(h, p);
      var cs := h.sessions[id].children;
      var k: nat :| k < |cs| && cs[k] == p[1];
      PathsWithinHeight(h, p[1], p[1..]);
      TreeAmong(h, id, cs, k);
    }
  }

  lemma {:induction false} TallestPath(h: State, id: SessionId) returns (p: seq<SessionId>)
    requires Forest(h) && id in h.sessions
    ensures SessionPath(h, p) && p[0] == id && |p| - 1 == Height(TreeOf(h, id).value)
    decreases Younger(h, id)
  {
    var cs := h.sessions[id].children;
    if TreesOf(h, id, cs) == [] {
      p := [id];
    } else {
      var k := TallestTree(h, id, cs);
      var rest := TallestPath(h, cs[k]);
      PathCons(h, id, rest);
      p := [id] + rest;
    }
  }

  /** The height of the session tree is the length of the longest walk to a registered session. */
  lemma HeightIsLongestSessionPath(h: State, id: SessionId, n: nat)
    requires Forest(h) && id in h.sessions
    ensures Height(TreeOf(h, id).value) == n
       <==> (exists p :: SessionPath(h, p) && p[0] == id && |p| == n + 1)
            && (forall p | SessionPath(h, p) && p[0] == id :: |p| <= n + 1)
  {
    var tallest := TallestPath(h, id);
    forall p | SessionPath(h, p) && p[0] == id ensures |p| - 1 <= Height(TreeOf(h, id).value) {
      PathsWithinHeight(h, id, p);
    }
    hide SessionPath, Height, TreeOf, Forest;
  }

  /** All walks down from id but the last step of an unregistered child are walks to sessions. */
  lemma ButLastIsSessionPath(h: State, p: seq<SessionId>)
    requires ChildPath(h, p) && |p| > 1
    ensures SessionPath(h, p[..|p| - 1])
  {
    var q := p[..|p| - 1];
    forall i | 0 <= i < |q| - 1 ensures ChildOf(h, q[i], q[i + 1]) {
      assert ChildOf(h, p[i], p[i + 1]);
    }
    assert ChildOf(h, p[|p| - 2], p[(|p| - 2) + 1]);
  }

  /** Every walk to an unregistered child is matched by a walk to a session that is at least as long. */
  ghost predicate UnregisteredAreMatched(h: State, id: SessionId) {
    forall p | ChildPath(h, p) && p[0] == id && p[|p| - 1] !in h.sessions ::
      exists q :: SessionPath(h, q) && q[0] == id && |q| >= |p|
  }

  /**
    * `max_depth` and the height of the session tree, in every forest: they agree exactly when every
    * walk to an unregistered child is matched by one to a session, and are never more than one apart.
    */
  lemma MaxDepthIsHeightExactly(h: State, id: SessionId, depth: nat)
    requires Forest(h) && id in h.sessions
    ensures var height := Height(TreeOf(h, id).value);
            && depth + height <= MaxDepth(h, id, depth) <= depth + height + 1
            && (MaxDepth(h, id, depth) == depth + height
                <==> UnregisteredAreMatched(h, id))
  {
    var height := Height(TreeOf(h, id).value);
    var tallest := TallestPath(h, id);
    PathsWithinDepth(h, id, depth, tallest);
    var deepest := DeepestPath(h, id, depth);
    if |deepest| > 1 {
      ButLastIsSessionPath(h, deepest);
      PathsWithinHeight(h, id, deepest[..|deepest| - 1]);
    }
    forall p | SessionPath(h, p) && p[0] == id ensures |p| - 1 <= height {
      PathsWithinHeight(h, id, p);
    }
    forall p | ChildPath(h, p) && p[0] == id ensures depth + |p| - 1 <= MaxDepth(h, id, depth) {
      PathsWithinDepth(h, id, depth, p);
    }
    assert deepest[|deepest| - 1] in h.sessions ==> SessionPath(h, deepest);
    hide SessionPath, ChildPath, Height, TreeOf, MaxDepth, Forest;
  }

  /** With no creation between its two map operations, they agree. */
  lemma MaxDepthIsHeight(h: State, id: SessionId, depth: nat)
    requires Forest(h) && Settled(h) && id in h.sessions
    ensures MaxDepth(h, id, depth) == depth + Height(TreeOf(h, id).value)
  {
    MaxDepthIsHeightExactly(h, id, depth);
    forall p | ChildPath(h, p) && p[0] == id ensures p[|p| - 1] in h.sessions {
      var n := |p|;
      if n > 1 { assert ChildOf(h, p[n - 2], p[(n - 2) + 1]); }
    }
    hide ChildPath, SessionPath, Height, TreeOf, MaxDepth, Forest;
  }

  /** A creation seen between its two map operations. */
  function HalfCreated(root: Session): State {
    State(map[root.id := root.(children := ["c"])], map[root.id := 0, "c" := 1])
  }

  lemma HalfCreatedRun(root: Session) returns (t: seq<State>)
    requires root.id != "c" && root.children == []
    ensures Run(t) && t[|t| - 1] == HalfCreated(root)
  {
    var g := Linked(EMPTY, root.id, None);
    var r := Inserted(g, root);
    var h := Linked(r, "c", Some(root.id));
    assert |r.rank| == 1 by { FreshRank(map[], root.id); }
    assert h.rank == map[root.id := 0, "c" := 1];
    assert root.children + ["c"] == ["c"];
    assert h.sessions == map[root.id := root.(children := ["c"])];
    assert Step(EMPTY, g);
    assert Step(g, r);
    assert Step(r, h);
    hide Step, Linked, Inserted, HalfCreated;
    t := [EMPTY, g, r, h];
  }

  /** There `max_depth` counts the child that `session_tree` does not show: depth 1, height 0. */
  lemma HalfCreatedDiffers(root: Session)
    requires root.id != "c" && root.children == []
    ensures var h := HalfCreated(root);
            Forest(h) && MaxDepth(h, root.id, 0) == 1 && Height(TreeOf(h, root.id).value) == 0
  {
    var h := HalfCreated(root);
    var t := HalfCreatedRun(root);
    ReachableIsForest(t, |t| - 1);
    assert h.sessions[root.id].children == ["c"] && "c" !in h.sessions;
    hide Forest, Run, HalfCreated;
    assert MaxDepth(h, root.id, 0) == MaxDepth(h, "c", 1);
    assert TreesOf(h, root.id, ["c"]) == [];
  }
}
