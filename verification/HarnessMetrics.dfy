/** The metrics snapshot of src/harness/metrics.rs, taken by a loop over the session map. */
module HarnessMetrics {
  import opened Types
  import opened Folds
  import opened Harness

  datatype RoleStats = RoleStats(active: nat, completed: nat, failed: nat, iterations: u32, tokens: TokenUsage)

  const NO_STATS := RoleStats(0, 0, 0, 0, NO_USAGE)

  datatype Metrics = Metrics(
    active: nat,
    idle: nat,
    completed: nat,
    failed: nat,
    terminated: nat,
    iterations: u32,
    tokens: TokenUsage,
    perRole: map<AgentRole, RoleStats>)

  const NO_METRICS := Metrics(0, 0, 0, 0, 0, 0, NO_USAGE, map[])

  // ------------------------------------------------------------------ what one session contributes

  function One(b: bool): int { if b then 1 else 0 }
  function IsRunning(s: Session): int { One(s.status.Running?) }
  function IsIdle(s: Session): int { One(s.status.Idle?) }
  function IsReady(s: Session): int { One(s.status.Ready?) }
  function IsFailed(s: Session): int { One(s.status.Failed?) }
  function IsTerminated(s: Session): int { One(s.status.Terminated?) }
  function Iterations(s: Session): u32 { s.iterations }
  function Tokens(s: Session): TokenUsage { if s.usage.Some? then s.usage.value else NO_USAGE }

  function Listed(sessions: map<SessionId, Session>, order: seq<SessionId>): (ss: seq<Session>)
    requires forall i | 0 <= i < |order| :: order[i] in sessions
    ensures |ss| == |order| && forall i | 0 <= i < |order| :: ss[i] == sessions[order[i]]
  {
    seq(|order|, i requires 0 <= i < |order| => sessions[order[i]])
  }

  function OfRole(ss: seq<Session>, r: AgentRole): seq<Session> {
    if ss == [] then []
    else OfRole(ss[..|ss| - 1], r) + if ss[|ss| - 1].role == r then [ss[|ss| - 1]] else []
  }

  // ------------------------------------------------------------------ the snapshot as folds

  /** Counters and saturating totals of a list of sessions. */
  ghost predicate MeasuresTotals(m: Metrics, ss: seq<Session>) {
    && m.active == Fold(0, Plus, IsRunning, ss)
    && m.idle == Fold(0, Plus, IsIdle, ss)
    && m.completed == Fold(0, Plus, IsReady, ss)
    && m.failed == Fold(0, Plus, IsFailed, ss)
    && m.terminated == Fold(0, Plus, IsTerminated, ss)
    && m.iterations == Fold(0, SatAdd, Iterations, ss)
    && m.tokens == Fold(NO_USAGE, MergeUsage, Tokens, ss)
  }

  function RoleAt(perRole: map<AgentRole, RoleStats>, r: AgentRole): RoleStats {
    if r in perRole then perRole[r] else NO_STATS
  }

  /** The same for each role; exactly the roles present have an entry. */
  ghost predicate MeasuresRoles(perRole: map<AgentRole, RoleStats>, ss: seq<Session>) {
    forall r :: (r in perRole <==> OfRole(ss, r) != []) && MeasuresRole(RoleAt(perRole, r), OfRole(ss, r))
  }

  ghost predicate Measures(m: Metrics, ss: seq<Session>) {
    MeasuresTotals(m, ss) && MeasuresRoles(m.perRole, ss)
  }

  ghost predicate MeasuresRole(s: RoleStats, ss: seq<Session>) {
    && s.active == Fold(0, Plus, IsRunning, ss)
    && s.completed == Fold(0, Plus, IsReady, ss)
    && s.failed == Fold(0, Plus, IsFailed, ss)
    && s.iterations == Fold(0, SatAdd, Iterations, ss)
    && s.tokens == Fold(NO_USAGE, MergeUsage, Tokens, ss)
  }

  /** The loop body for one session's role. */
  function AddToRole(t: RoleStats, s: Session): RoleStats {
    RoleStats(
      t.active + if s.status.Running? then 1 else 0,
      t.completed + if s.status.Ready? then 1 else 0,
      t.failed + if s.status.Failed? then 1 else 0,
      SatAdd(t.iterations, s.iterations),
      if s.usage.Some? then t.tokens.Merge(s.usage.value) else t.tokens)
  }

  lemma AddToRoleMeasures(t: RoleStats, ss: seq<Session>, s: Session)
    requires MeasuresRole(t, ss)
    ensures MeasuresRole(AddToRole(t, s), ss + [s])
  {
    assert (ss + [s])[..|ss|] == ss;
  }

  lemma OfRoleSnoc(ss: seq<Session>, s: Session, r: AgentRole)
    ensures OfRole(ss + [s], r) == if s.role == r then OfRole(ss, r) + [s] else OfRole(ss, r)
  {
    assert (ss + [s])[..|ss|] == ss;
  }

  lemma RolesNext(perRole: map<AgentRole, RoleStats>, ss: seq<Session>, s: Session)
    requires MeasuresRoles(perRole, ss)
    ensures MeasuresRoles(perRole[s.role := AddToRole(RoleAt(perRole, s.role), s)], ss + [s])
  {
    hide MeasuresRole, AddToRole, OfRole;
    AddToRoleMeasures(RoleAt(perRole, s.role), OfRole(ss, s.role), s);
    forall r ensures OfRole(ss + [s], r) == if s.role == r then OfRole(ss, r) + [s] else OfRole(ss, r) {
      OfRoleSnoc(ss, s, r);
    }
  }

  /** The loop body for the counters and totals. */
  function AddToTotals(m: Metrics, s: Session): Metrics {
    m.(active := m.active + if s.status.Running? then 1 else 0,
       idle := m.idle + if s.status.Idle? then 1 else 0,
       completed := m.completed + if s.status.Ready? then 1 else 0,
       failed := m.failed + if s.status.Failed? then 1 else 0,
       terminated := m.terminated + if s.status.Terminated? then 1 else 0,
       iterations := SatAdd(m.iterations, s.iterations),
       tokens := if s.usage.Some? then m.tokens.Merge(s.usage.value) else m.tokens)
  }

  lemma TotalsNext(m: Metrics, ss: seq<Session>, s: Session)
    requires MeasuresTotals(m, ss)
    ensures MeasuresTotals(AddToTotals(m, s), ss + [s])
  {
    assert (ss + [s])[..|ss|] == ss;
  }

  lemma EmptyMeasures()
    ensures Measures(NO_METRICS, [])
  {}

  lemma ListedNext(sessions: map<SessionId, Session>, order: seq<SessionId>, i: nat)
    requires i < |order| && forall k | 0 <= k < |order| :: order[k] in sessions
    ensures Listed(sessions, order[..i + 1]) == Listed(sessions, order[..i]) + [sessions[order[i]]]
  {}

  /** `HarnessMetrics::snapshot` up to the depth; `order` is the iteration order of the session map. */
  method Snapshot(sessions: map<SessionId, Session>, order: seq<SessionId>) returns (m: Metrics)
    requires forall i | 0 <= i < |order| :: order[i] in sessions
    ensures Measures(m, Listed(sessions, order))
  {
    m := NO_METRICS;
    EmptyMeasures();
    assert Listed(sessions, order[..0]) == [];
    hide MeasuresTotals, MeasuresRoles;
    for i := 0 to |order|
      invariant Measures(m, Listed(sessions, order[..i]))
    {
      var s := sessions[order[i]];
      ghost var before, m0 := Listed(sessions, order[..i]), m;
      match s.status {
        case Idle => m := m.(idle := m.idle + 1);
        case Running => m := m.(active := m.active + 1);
        case Ready => m := m.(completed := m.completed + 1);
        case Failed(_) => m := m.(failed := m.failed + 1);
        case Terminated => m := m.(terminated := m.terminated + 1);
      }
      m := m.(iterations := SatAdd(m.iterations, s.iterations));
      if s.usage.Some? {
        m := m.(tokens := m.tokens.Merge(s.usage.value));
      }
      assert m == AddToTotals(m0, s);
      m := m.(perRole := m.perRole[s.role := AddToRole(RoleAt(m.perRole, s.role), s)]);
      TotalsNext(m0, before, s);
      TotalsIgnoreRoles(AddToTotals(m0, s), m, before + [s]);
      RolesNext(m0.perRole, before, s);
      ListedNext(sessions, order, i);
    }
    assert order[..|order|] == order;
  }

  lemma TotalsIgnoreRoles(m: Metrics, n: Metrics, ss: seq<Session>)
    requires MeasuresTotals(m, ss) && n == m.(perRole := n.perRole)
    ensures MeasuresTotals(n, ss)
  {}

  /** The roots of the forest, in walking order: sessions created without a parent. */
  method Roots(sessions: map<SessionId, Session>, order: seq<SessionId>) returns (roots: seq<SessionId>)
    requires forall i | 0 <= i < |order| :: order[i] in sessions && sessions[order[i]].id == order[i]
    ensures forall x :: x in roots <==> x in order && sessions[x].parent.None?
  {
    roots := [];
    for i := 0 to |order|
      invariant forall x :: x in roots <==> x in order[..i] && sessions[x].parent.None?
    {
      assert order[..i + 1] == order[..i] + [order[i]];
      if sessions[order[i]].parent.None? {
        roots := roots + [sessions[order[i]].id];
      }
    }
    assert order[..|order|] == order;
  }

  // ------------------------------------------------------------------ order independence

  lemma {:induction false} OfRoleConcat(a: seq<Session>, b: seq<Session>, r: AgentRole)
    ensures OfRole(a + b, r) == OfRole(a, r) + OfRole(b, r)
  {
    if b == [] {
      assert a + b == a;
    } else {
      hide OfRole;
      var rest, s := b[..|b| - 1], b[|b| - 1];
      OfRoleConcat(a, rest, r);
      OfRoleSnoc(a + rest, s, r);
      OfRoleSnoc(rest, s, r);
      SplitLast(a, b);
    }
  }

  lemma OfRoleWithout(ss: seq<Session>, r: AgentRole, k: nat)
    requires k < |ss|
    ensures multiset(OfRole(ss, r)) == multiset(OfRole(ss[..k] + ss[k + 1..], r)) + multiset(OfRole([ss[k]], r))
  {
    hide OfRole;
    WithoutOne(ss, k);
    OfRoleConcat(ss[..k] + [ss[k]], ss[k + 1..], r);
    OfRoleConcat(ss[..k], [ss[k]], r);
    OfRoleConcat(ss[..k], ss[k + 1..], r);
  }

  lemma {:induction false} OfRolePermutation(a: seq<Session>, b: seq<Session>, r: AgentRole)
    requires multiset(a) == multiset(b)
    ensures multiset(OfRole(a, r)) == multiset(OfRole(b, r))
    decreases |a|
  {
    if a == [] {
      assert |multiset(b)| == 0;
    } else {
      var n := |a| - 1;
      var k := SameElsewhere(a, b);
      OfRolePermutation(a[..n], b[..k] + b[k + 1..], r);
      OfRoleWithout(b, r, k);
      OfRoleConcat(a[..n], [a[n]], r);
      assert a == a[..n] + [a[n]];
      hide OfRole;
    }
  }

  lemma {:induction false} ListedPermutation(sessions: map<SessionId, Session>, a: seq<SessionId>, b: seq<SessionId>)
    requires (forall i | 0 <= i < |a| :: a[i] in sessions) && (forall i | 0 <= i < |b| :: b[i] in sessions)
    requires multiset(a) == multiset(b)
    ensures multiset(Listed(sessions, a)) == multiset(Listed(sessions, b))
    decreases |a|
  {
    if a == [] {
      assert |multiset(b)| == 0;
    } else {
      var n := |a| - 1;
      var k := SameElsewhere(a, b);
      var b' := b[..k] + b[k + 1..];
      ListedPermutation(sessions, a[..n], b');
      var la, lb := Listed(sessions, a), Listed(sessions, b);
      assert la == Listed(sessions, a[..n]) + [la[n]];
      WithoutOne(lb, k);
      assert Listed(sessions, b') == lb[..k] + lb[k + 1..];
    }
  }

  lemma RoleFolds(a: seq<Session>, b: seq<Session>, s: RoleStats, t: RoleStats)
    requires multiset(a) == multiset(b) && MeasuresRole(s, a) && MeasuresRole(t, b)
    ensures s == t
  {
    Monoids();
    FoldPermutation(0, Plus, IsRunning, a, b);
    FoldPermutation(0, Plus, IsReady, a, b);
    FoldPermutation(0, Plus, IsFailed, a, b);
    FoldPermutation(0, SatAdd, Iterations, a, b);
    FoldPermutation(NO_USAGE, MergeUsage, Tokens, a, b);
  }

  lemma TotalsPermutation(a: seq<Session>, b: seq<Session>, m: Metrics, n: Metrics)
    requires multiset(a) == multiset(b) && MeasuresTotals(m, a) && MeasuresTotals(n, b)
    ensures m == n.(perRole := m.perRole)
  {
    hide Fold;
    Monoids();
    FoldPermutation(0, Plus, IsRunning, a, b);
    FoldPermutation(0, Plus, IsIdle, a, b);
    FoldPermutation(0, Plus, IsReady, a, b);
    FoldPermutation(0, Plus, IsFailed, a, b);
    FoldPermutation(0, Plus, IsTerminated, a, b);
    FoldPermutation(0, SatAdd, Iterations, a, b);
    FoldPermutation(NO_USAGE, MergeUsage, Tokens, a, b);
    hide CommutativeMonoid;
  }

  /** The snapshot does not depend on the order in which the session map is walked. */
  lemma SnapshotOrderIndependent(a: seq<Session>, b: seq<Session>, m: Metrics, n: Metrics)
    requires multiset(a) == multiset(b) && Measures(m, a) && Measures(n, b)
    ensures m == n
  {
    TotalsPermutation(a, b, m, n);
    hide MeasuresTotals, MeasuresRole, OfRole;
    forall r
      ensures r in m.perRole <==> r in n.perRole
      ensures RoleAt(m.perRole, r) == RoleAt(n.perRole, r)
    {
      OfRolePermutation(a, b, r);
      SameLength(OfRole(a, r), OfRole(b, r));
      RoleFolds(OfRole(a, r), OfRole(b, r), RoleAt(m.perRole, r), RoleAt(n.perRole, r));
    }
    assert m.perRole == n.perRole;
  }

  lemma SameLength(a: seq<Session>, b: seq<Session>)
    requires multiset(a) == multiset(b)
    ensures |a| == |b|
  {
    assert |multiset(a)| == |a| && |multiset(b)| == |b|;
  }

  /** Any two orders that walk the same session map without repetition give the same snapshot. */
  lemma AnyMapOrder(sessions: map<SessionId, Session>, a: seq<SessionId>, b: seq<SessionId>, m: Metrics, n: Metrics)
    requires NoDup(a) && NoDup(b) && (forall x :: x in a <==> x in sessions) && (forall x :: x in b <==> x in sessions)
    requires Measures(m, Listed(sessions, a)) && Measures(n, Listed(sessions, b))
    ensures m == n
  {
    NoDupMultiset(a);
    NoDupMultiset(b);
    assert multiset(a) == multiset(b);
    ListedPermutation(sessions, a, b);
    SnapshotOrderIndependent(Listed(sessions, a), Listed(sessions, b), m, n);
  }

  lemma {:induction false} NoDupMultiset(s: seq<SessionId>)
    requires NoDup(s)
    ensures forall x :: multiset(s)[x] == if x in s then 1 else 0
  {
    if s != [] {
      var n := |s| - 1;
      NoDupMultiset(s[..n]);
      assert s == s[..n] + [s[n]];
      assert s[n] !in s[..n];
    }
  }

  // ------------------------------------------------------------------ conservation

  /** Each session is counted under exactly one status. */
  lemma {:induction false} StatusesPartition(ss: seq<Session>)
    ensures Fold(0, Plus, IsRunning, ss) + Fold(0, Plus, IsIdle, ss) + Fold(0, Plus, IsReady, ss)
            + Fold(0, Plus, IsFailed, ss) + Fold(0, Plus, IsTerminated, ss) == |ss|
  {
    if ss != [] { StatusesPartition(ss[..|ss| - 1]); }
  }

  lemma CountersSumToSessions(m: Metrics, ss: seq<Session>)
    requires Measures(m, ss)
    ensures m.active + m.idle + m.completed + m.failed + m.terminated == |ss|
  {
    StatusesPartition(ss);
  }

  ghost function Places(f: Session -> int, ss: seq<Session>): set<int> {
    set i | 0 <= i < |ss| && f(ss[i]) == 1
  }

  lemma {:induction false} FoldIsCount(f: Session -> int, ss: seq<Session>)
    requires forall s :: f(s) == 0 || f(s) == 1
    ensures Fold(0, Plus, f, ss) == |Places(f, ss)|
  {
    if ss == [] {
      assert Places(f, ss) == {};
    } else {
      var n := |ss| - 1;
      FoldIsCount(f, ss[..n]);
      assert Places(f, ss) == Places(f, ss[..n]) + (if f(ss[n]) == 1 then {n} else {});
    }
  }

  /** Each counter is the number of sessions with its status. */
  lemma CountersAreNumbers(m: Metrics, ss: seq<Session>)
    requires MeasuresTotals(m, ss)
    ensures m.active == |set i | 0 <= i < |ss| && ss[i].status == Running|
    ensures m.idle == |set i | 0 <= i < |ss| && ss[i].status == Idle|
    ensures m.completed == |set i | 0 <= i < |ss| && ss[i].status == Ready|
    ensures m.failed == |set i | 0 <= i < |ss| && ss[i].status.Failed?|
    ensures m.terminated == |set i | 0 <= i < |ss| && ss[i].status == Terminated|
  {
    FoldIsCount(IsRunning, ss);
    FoldIsCount(IsIdle, ss);
    FoldIsCount(IsReady, ss);
    FoldIsCount(IsFailed, ss);
    FoldIsCount(IsTerminated, ss);
    hide Fold;
    assert Places(IsRunning, ss) == set i | 0 <= i < |ss| && ss[i].status == Running;
    assert Places(IsIdle, ss) == set i | 0 <= i < |ss| && ss[i].status == Idle;
    assert Places(IsReady, ss) == set i | 0 <= i < |ss| && ss[i].status == Ready;
    assert Places(IsFailed, ss) == set i | 0 <= i < |ss| && ss[i].status.Failed?;
    assert Places(IsTerminated, ss) == set i | 0 <= i < |ss| && ss[i].status == Terminated;
  }

  /** The same for the counters of one role, over its sessions. */
  lemma RoleCountersAreNumbers(t: RoleStats, ss: seq<Session>)
    requires MeasuresRole(t, ss)
    ensures t.active == |set i | 0 <= i < |ss| && ss[i].status == Running|
    ensures t.completed == |set i | 0 <= i < |ss| && ss[i].status == Ready|
    ensures t.failed == |set i | 0 <= i < |ss| && ss[i].status.Failed?|
  {
    FoldIsCount(IsRunning, ss);
    FoldIsCount(IsReady, ss);
    FoldIsCount(IsFailed, ss);
    hide Fold;
    assert Places(IsRunning, ss) == set i | 0 <= i < |ss| && ss[i].status == Running;
    assert Places(IsReady, ss) == set i | 0 <= i < |ss| && ss[i].status == Ready;
    assert Places(IsFailed, ss) == set i | 0 <= i < |ss| && ss[i].status.Failed?;
  }

  function Saturated(n: nat): nat { if n > 0xFFFF_FFFF then 0xFFFF_FFFF else n }

  function IterationSum(ss: seq<Session>): nat {
    if ss == [] then 0 else IterationSum(ss[..|ss| - 1]) + ss[|ss| - 1].iterations
  }

  function InputSum(ss: seq<Session>): nat {
    if ss == [] then 0
    else
      var s := ss[|ss| - 1];
      InputSum(ss[..|ss| - 1]) + if s.usage.Some? then s.usage.value.input else 0
  }

  function OutputSum(ss: seq<Session>): nat {
    if ss == [] then 0
    else
      var s := ss[|ss| - 1];
      OutputSum(ss[..|ss| - 1]) + if s.usage.Some? then s.usage.value.output else 0
  }

  /** The totals, of all sessions or of one role's, are the plain sums, each capped once at 32 bits. */
  lemma {:induction false} TotalsAreSums(ss: seq<Session>)
    ensures Fold(0, SatAdd, Iterations, ss) == Saturated(IterationSum(ss))
    ensures Fold(NO_USAGE, MergeUsage, Tokens, ss).input == Saturated(InputSum(ss))
    ensures Fold(NO_USAGE, MergeUsage, Tokens, ss).output == Saturated(OutputSum(ss))
  {
    if ss != [] { TotalsAreSums(ss[..|ss| - 1]); }
  }

  /** The folds of the listed roles, combined. */
  function Combined<R>(zero: R, op: (R, R) -> R, f: Session -> R, ss: seq<Session>, roles: seq<AgentRole>): R {
    if roles == [] then zero
    else op(Combined(zero, op, f, ss, roles[..|roles| - 1]), Fold(zero, op, f, OfRole(ss, roles[|roles| - 1])))
  }

  predicate DistinctRoles(roles: seq<AgentRole>) {
    forall i, j | 0 <= i < j < |roles| :: roles[i] != roles[j]
  }

  lemma {:induction false} CombinedNext<R(!new)>(zero: R, op: (R, R) -> R, f: Session -> R, ss: seq<Session>,
                                                 roles: seq<AgentRole>)
    requires CommutativeMonoid(zero, op) && ss != [] && DistinctRoles(roles)
    ensures var before := Combined(zero, op, f, ss[..|ss| - 1], roles);
            Combined(zero, op, f, ss, roles)
            == if ss[|ss| - 1].role in roles then op(before, f(ss[|ss| - 1])) else before
  {
    if roles != [] {
      var k := |roles| - 1;
      var r, s := roles[k], ss[|ss| - 1];
      CombinedNext(zero, op, f, ss, roles[..k]);
      var old', own := Combined(zero, op, f, ss[..|ss| - 1], roles[..k]), Fold(zero, op, f, OfRole(ss[..|ss| - 1], r));
      FoldSnoc(zero, op, f, OfRole(ss[..|ss| - 1], r), s);
      Associates(zero, op, old', own, f(s));
      Associates(zero, op, old', f(s), own);
      if s.role == r { assert r !in roles[..k]; }
      assert OfRole(ss, r) == if s.role == r then OfRole(ss[..|ss| - 1], r) + [s] else OfRole(ss[..|ss| - 1], r);
    }
  }

  lemma {:induction false} CombinedEmpty<R(!new)>(zero: R, op: (R, R) -> R, f: Session -> R, roles: seq<AgentRole>)
    requires CommutativeMonoid(zero, op)
    ensures Combined(zero, op, f, [], roles) == zero
  {
    if roles != [] { CombinedEmpty(zero, op, f, roles[..|roles| - 1]); }
  }

  /** Splitting a fold by role and combining the parts gives the fold over all sessions. */
  lemma {:induction false} RolesCombine<R(!new)>(zero: R, op: (R, R) -> R, f: Session -> R, ss: seq<Session>,
                                                 roles: seq<AgentRole>)
    requires CommutativeMonoid(zero, op) && DistinctRoles(roles)
    requires forall i | 0 <= i < |ss| :: ss[i].role in roles
    ensures Combined(zero, op, f, ss, roles) == Fold(zero, op, f, ss)
  {
    if ss == [] {
      CombinedEmpty(zero, op, f, roles);
    } else {
      RolesCombine(zero, op, f, ss[..|ss| - 1], roles);
      CombinedNext(zero, op, f, ss, roles);
    }
  }

  /** The per-role iteration and token totals combine, saturating, to the global ones. */
  lemma RoleTotalsCombine(m: Metrics, ss: seq<Session>, roles: seq<AgentRole>)
    requires Measures(m, ss) && DistinctRoles(roles) && forall i | 0 <= i < |ss| :: ss[i].role in roles
    ensures Combined(0, SatAdd, Iterations, ss, roles) == m.iterations
    ensures Combined(NO_USAGE, MergeUsage, Tokens, ss, roles) == m.tokens
    ensures forall r :: RoleAt(m.perRole, r).iterations == Fold(0, SatAdd, Iterations, OfRole(ss, r))
    ensures forall r :: RoleAt(m.perRole, r).tokens == Fold(NO_USAGE, MergeUsage, Tokens, OfRole(ss, r))
  {
    Monoids();
    RolesCombine(0, SatAdd, Iterations, ss, roles);
    RolesCombine(NO_USAGE, MergeUsage, Tokens, ss, roles);
    hide Combined, Fold, OfRole, CommutativeMonoid;
    forall r ensures MeasuresRole(RoleAt(m.perRole, r), OfRole(ss, r)) {}
  }

  // ------------------------------------------------------------------ sub-agent depth

  /**
    * The depth part of the snapshot: the length of the longest walk down child lists from any root, 0
    * without roots.
    */
  method SubAgentDepth(h: State, roots: seq<SessionId>) returns (d: nat)
    requires Forest(h)
    ensures forall p | ChildPath(h, p) && p[0] in roots :: |p| <= d + 1
    ensures d == 0 || exists p :: ChildPath(h, p) && p[0] in roots && |p| == d + 1
  {
    d := 0;
    hide ChildPath, MaxDepth, Forest;
    for k := 0 to |roots|
      invariant forall p | ChildPath(h, p) && p[0] in roots[..k] :: |p| <= d + 1
      invariant d == 0 || exists p :: ChildPath(h, p) && p[0] in roots && |p| == d + 1
    {
      MaxDepthIsLongestPath(h, roots[k], 0, MaxDepth(h, roots[k], 0));
      assert roots[..k + 1] == roots[..k] + [roots[k]];
      d := Max(d, MaxDepth(h, roots[k], 0));
    }
    assert roots[..|roots|] == roots;
  }
}
