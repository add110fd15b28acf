/**
  * The operations on the session map: `AgentHarness` of src/harness/mod.rs and `SubAgentManager` of
  * src/harness/sub_agent.rs.
  */
module AgentHarnesses {
  import opened Wrappers
  import opened Types
  import opened Folds
  import opened Harness

  datatype RecoveryAction = Continue | EscalateToPlanner | AbortParent

  /** `AgentSession::record_output`: one more iteration, ready, and the usage rolled up. */
  function WithOutput(s: Session, usage: Option<TokenUsage>): Session {
    s.(iterations := SatAdd(s.iterations, 1),
       status := Ready,
       usage := if usage.None? then s.usage
                else if s.usage.None? then usage
                else Some(s.usage.value.Merge(usage.value)))
  }

  /** How many of the listed sessions are registered, and how many of those have failed. */
  function CountRegistered(sessions: map<SessionId, Session>, cs: seq<SessionId>): nat {
    if cs == [] then 0
    else CountRegistered(sessions, cs[..|cs| - 1]) + if cs[|cs| - 1] in sessions then 1 else 0
  }

  function CountFailed(sessions: map<SessionId, Session>, cs: seq<SessionId>): nat {
    if cs == [] then 0
    else CountFailed(sessions, cs[..|cs| - 1])
         + if cs[|cs| - 1] in sessions && sessions[cs[|cs| - 1]].status.Failed? then 1 else 0
  }

  lemma {:induction false} AllFailed(sessions: map<SessionId, Session>, cs: seq<SessionId>)
    ensures CountFailed(sessions, cs) <= CountRegistered(sessions, cs)
    ensures CountFailed(sessions, cs) == CountRegistered(sessions, cs)
       <==> forall i | 0 <= i < |cs| && cs[i] in sessions :: sessions[cs[i]].status.Failed?
  {
    if cs != [] {
      var n := |cs| - 1;
      AllFailed(sessions, cs[..n]);
      assert forall i | 0 <= i < n :: cs[..n][i] == cs[i];
    }
  }

  /** The two counts are of places in the list, one for each registered and for each failed session. */
  ghost function RegisteredPlaces(sessions: map<SessionId, Session>, cs: seq<SessionId>): set<int> {
    set i | 0 <= i < |cs| && cs[i] in sessions
  }

  ghost function FailedPlaces(sessions: map<SessionId, Session>, cs: seq<SessionId>): set<int> {
    set i | 0 <= i < |cs| && cs[i] in sessions && sessions[cs[i]].status.Failed?
  }

  lemma {:induction false} RegisteredCount(sessions: map<SessionId, Session>, cs: seq<SessionId>)
    ensures CountRegistered(sessions, cs) == |RegisteredPlaces(sessions, cs)|
  {
    if cs == [] {
      assert RegisteredPlaces(sessions, cs) == {};
    } else {
      var n := |cs| - 1;
      RegisteredCount(sessions, cs[..n]);
      assert RegisteredPlaces(sessions, cs)
          == RegisteredPlaces(sessions, cs[..n]) + (if cs[n] in sessions then {n} else {});
    }
  }

  lemma {:induction false} FailedCount(sessions: map<SessionId, Session>, cs: seq<SessionId>)
    ensures CountFailed(sessions, cs) == |FailedPlaces(sessions, cs)|
  {
    if cs == [] {
      assert FailedPlaces(sessions, cs) == {};
    } else {
      var n := |cs| - 1;
      FailedCount(sessions, cs[..n]);
      assert FailedPlaces(sessions, cs)
          == FailedPlaces(sessions, cs[..n])
             + (if cs[n] in sessions && sessions[cs[n]].status.Failed? then {n} else {});
    }
  }

  // ------------------------------------------------------------------ outputs over time

  function Saturated(n: nat): nat { if n > 0xFFFF_FFFF then 0xFFFF_FFFF else n }

  function AfterOutputs(s: Session, us: seq<Option<TokenUsage>>): Session {
    if us == [] then s else WithOutput(AfterOutputs(s, us[..|us| - 1]), us[|us| - 1])
  }

  function InputsOf(s: Session, us: seq<Option<TokenUsage>>): nat {
    if us == [] then if s.usage.Some? then s.usage.value.input else 0
    else InputsOf(s, us[..|us| - 1]) + if us[|us| - 1].Some? then us[|us| - 1].value.input else 0
  }

  function OutputsOf(s: Session, us: seq<Option<TokenUsage>>): nat {
    if us == [] then if s.usage.Some? then s.usage.value.output else 0
    else OutputsOf(s, us[..|us| - 1]) + if us[|us| - 1].Some? then us[|us| - 1].value.output else 0
  }

  /**
    * A session after any number of outputs: as many more iterations, ready, and the usages summed, each
    * number capped once at 32 bits; all else as before.
    */
  lemma {:induction false} OutputsAccumulate(s: Session, us: seq<Option<TokenUsage>>)
    ensures var r := AfterOutputs(s, us);
            && r.iterations == Saturated(s.iterations + |us|)
            && r.status == (if us == [] then s.status else Ready)
            && (r.usage.None? <==> s.usage.None? && forall i | 0 <= i < |us| :: us[i].None?)
            && (r.usage.Some? ==> r.usage.value.input == Saturated(InputsOf(s, us))
                                  && r.usage.value.output == Saturated(OutputsOf(s, us)))
            && (r.usage.None? ==> InputsOf(s, us) == 0 && OutputsOf(s, us) == 0)
            && r.id == s.id && r.role == s.role && r.parent == s.parent && r.children == s.children
  {
    if us != [] {
      OutputsAccumulate(s, us[..|us| - 1]);
    }
  }

  function Child(ts: seq<SubtaskDefinition>, ids: seq<SessionId>, parent: SessionId, i: nat): Session
    requires i < |ts| == |ids|
  {
    Session(ids[i], ts[i].agentRole, Running, None, 0, Some(parent), [])
  }

  /**
    * The first n subtasks have their session, in order, under a registered parent: its list has grown
    * by exactly their ids, and no other session has changed.
    */
  ghost predicate Spawned(before: map<SessionId, Session>, after: map<SessionId, Session>, parent: SessionId,
                          ts: seq<SubtaskDefinition>, ids: seq<SessionId>, n: nat)
    requires n <= |ts| == |ids|
  {
    && (forall i | 0 <= i < n :: ids[i] in after && after[ids[i]] == Child(ts, ids, parent, i))
    && (forall x | x in before :: x in after
          && after[x] == if x == parent then before[x].(children := before[x].children + ids[..n]) else before[x])
    && (forall x | x in after :: x in before || x in ids[..n])
  }

  lemma NothingSpawned(before: map<SessionId, Session>, parent: SessionId, ts: seq<SubtaskDefinition>,
                       ids: seq<SessionId>)
    requires |ts| == |ids|
    ensures Spawned(before, before, parent, ts, ids, 0)
  {
    assert forall x | x in before :: before[x].children + ids[..0] == before[x].children;
  }

  lemma SpawnedNext(before: map<SessionId, Session>, h: State, parent: SessionId, ts: seq<SubtaskDefinition>,
                    ids: seq<SessionId>, n: nat)
    requires n < |ts| == |ids| && Forest(h) && Spawned(before, h.sessions, parent, ts, ids, n)
    requires ids[n] !in h.rank && NoDup(ids) && forall i | 0 <= i < |ids| :: ids[i] != parent
    ensures Spawned(before, Inserted(Linked(h, ids[n], Some(parent)), Child(ts, ids, parent, n)).sessions,
                    parent, ts, ids, n + 1)
  {
    assert ids[n] !in h.sessions;
    CreationAddsOne(h, ids[n], Some(parent), Child(ts, ids, parent, n));
    hide Forest, Linked, Inserted, Spawned, Child;
    SpawnedAdds(before, h.sessions, Inserted(Linked(h, ids[n], Some(parent)), Child(ts, ids, parent, n)).sessions,
                parent, ts, ids, n);
  }

  lemma SpawnedAdds(before: map<SessionId, Session>, mid: map<SessionId, Session>, after: map<SessionId, Session>,
                    parent: SessionId, ts: seq<SubtaskDefinition>, ids: seq<SessionId>, n: nat)
    requires n < |ts| == |ids| && Spawned(before, mid, parent, ts, ids, n) && ids[n] !in mid
    requires NoDup(ids) && forall i | 0 <= i < |ids| :: ids[i] != parent
    requires after.Keys == mid.Keys + {ids[n]} && after[ids[n]] == Child(ts, ids, parent, n)
    requires forall x | x in mid ::
               after[x] == if x == parent then mid[x].(children := mid[x].children + [ids[n]]) else mid[x]
    ensures Spawned(before, after, parent, ts, ids, n + 1)
  {
    hide NoDup, Child;
    assert ids[..n + 1] == ids[..n] + [ids[n]];
    if parent in before {
      var cs := before[parent].children;
      assert cs + ids[..n + 1] == cs + ids[..n] + [ids[n]];
    }
  }

  method CountSiblings(sessions: map<SessionId, Session>, siblings: seq<SessionId>) returns (total: nat, failed: nat)
    ensures total == CountRegistered(sessions, siblings) && failed == CountFailed(sessions, siblings)
  {
    total, failed := 0, 0;
    for i := 0 to |siblings|
      invariant total == CountRegistered(sessions, siblings[..i])
      invariant failed == CountFailed(sessions, siblings[..i])
    {
      assert siblings[..i + 1][..i] == siblings[..i];
      if siblings[i] in sessions {
        total := total + 1;
        if sessions[siblings[i]].status.Failed? {
          failed := failed + 1;
        }
      }
    }
    assert siblings[..|siblings|] == siblings;
  }

  lemma InsertIntoLinked(h: State, id: SessionId, parent: Option<SessionId>, s: Session)
    requires Forest(h) && id !in h.rank && s.id == id && s.children == [] && Forest(Linked(h, id, parent))
    ensures Forest(Inserted(Linked(h, id, parent), s))
  {
    hide OneParent;
    assert id !in Linked(h, id, parent).sessions;
    hide Linked, Forest;
    InsertKeepsForest(Linked(h, id, parent), s);
  }

  /** A creation adds one session, and the new id to the list of a registered parent; nothing else changes. */
  lemma CreationAddsOne(h: State, id: SessionId, parent: Option<SessionId>, s: Session)
    requires Forest(h) && id !in h.rank && s.id == id
    ensures var after := Inserted(Linked(h, id, parent), s).sessions;
            && after.Keys == h.sessions.Keys + {id} && after[id] == s
            && forall x | x in h.sessions ::
                 after[x] == if parent == Some(x) then h.sessions[x].(children := h.sessions[x].children + [id])
                             else h.sessions[x]
  {
    hide OneParent;
  }

  class AgentHarness {
    var sessions: map<SessionId, Session>
    ghost var rank: map<SessionId, nat>

    ghost function Model(): State
      reads this
    {
      State(sessions, rank)
    }

    ghost predicate Valid()
      reads this
    {
      Forest(Model())
    }

    constructor ()
      ensures Valid() && Settled(Model()) && Model() == EMPTY
    {
      sessions, rank := map[], map[];
    }

    /** `create_session`. `newId` is the UUID that is drawn; it has not been handed out before. */
    method CreateSession(role: AgentRole, parent: Option<SessionId>, newId: SessionId) returns (id: SessionId)
      requires Valid() && newId !in rank
      modifies this
      ensures Valid() && id == newId
      ensures Model() == Inserted(Linked(old(Model()), newId, parent),
                                  Session(newId, role, Running, None, 0, parent, []))
      ensures old(Settled(Model())) ==> Settled(Model())
      ensures sessions.Keys == old(sessions).Keys + {newId}
      ensures sessions[newId] == Session(newId, role, Running, None, 0, parent, [])
      ensures forall x | x in old(sessions) ::
                sessions[x] == if parent == Some(x)
                               then old(sessions)[x].(children := old(sessions)[x].children + [newId])
                               else old(sessions)[x]
    {
      var session := Session(newId, role, Running, None, 0, parent, []);
      ghost var before := Model();
      hide Forest, Settled;
      LinkKeepsForest(before, newId, parent);
      InsertIntoLinked(before, newId, parent, session);
      CreationSettles(before, newId, parent, session);
      CreationAddsOne(before, newId, parent, session);
      if parent.Some? && parent.value in sessions {
        var p := sessions[parent.value];
        sessions := sessions[parent.value := p.(children := p.children + [newId])];
      }
      rank := rank[newId := |rank|];
      assert Model() == Linked(before, newId, parent);
      hide Linked;
      sessions := sessions[newId := session];
      id := newId;
    }

    method RecordOutput(id: SessionId, usage: Option<TokenUsage>)
      requires Valid()
      modifies this
      ensures Valid() && (old(Settled(Model())) ==> Settled(Model()))
      ensures rank == old(rank)
      ensures sessions == if id in old(sessions)
                          then old(sessions)[id := WithOutput(old(sessions)[id], usage)] else old(sessions)
    {
      if id in sessions {
        var s := WithOutput(sessions[id], usage);
        UpdateKeepsForest(Model(), s);
        sessions := sessions[id := s];
      }
    }

    method RecordError(id: SessionId, error: string)
      requires Valid()
      modifies this
      ensures Valid() && (old(Settled(Model())) ==> Settled(Model()))
      ensures rank == old(rank)
      ensures sessions == if id in old(sessions)
                          then old(sessions)[id := old(sessions)[id].(status := Failed(error))] else old(sessions)
    {
      if id in sessions {
        var s := sessions[id].(status := Failed(error));
        UpdateKeepsForest(Model(), s);
        sessions := sessions[id := s];
      }
    }

    /** `terminate`; it reports whether the id was known. */
    method Terminate(id: SessionId) returns (known: bool)
      requires Valid()
      modifies this
      ensures Valid() && (old(Settled(Model())) ==> Settled(Model()))
      ensures rank == old(rank) && known == (id in old(sessions))
      ensures sessions == if known then old(sessions)[id := old(sessions)[id].(status := Terminated)] else old(sessions)
    {
      known := id in sessions;
      if known {
        var s := sessions[id].(status := Terminated);
        UpdateKeepsForest(Model(), s);
        sessions := sessions[id := s];
      }
    }

    /**
      * `spawn_from_plan`: one session for each subtask, in order, under a registered parent; the
      * parent's list grows by exactly these ids, and no other session changes.
      */
    method SpawnFromPlan(parent: SessionId, plan: SubtaskPlan, newIds: seq<SessionId>)
      returns (pairs: seq<(string, SessionId)>)
      requires Valid() && |newIds| == |plan.subtasks| && NoDup(newIds)
      requires forall i | 0 <= i < |newIds| :: newIds[i] !in rank && newIds[i] != parent
      modifies this
      ensures Valid() && (old(Settled(Model())) ==> Settled(Model()))
      ensures |pairs| == |newIds| && forall i | 0 <= i < |newIds| :: pairs[i] == (plan.subtasks[i].id, newIds[i])
      ensures Spawned(old(sessions), sessions, parent, plan.subtasks, newIds, |newIds|)
    {
      pairs := [];
      hide Forest, Settled, Spawned;
      NothingSpawned(sessions, parent, plan.subtasks, newIds);
      for i := 0 to |newIds|
        invariant Valid() && (old(Settled(Model())) ==> Settled(Model()))
        invariant |pairs| == i && forall k | 0 <= k < i :: pairs[k] == (plan.subtasks[k].id, newIds[k])
        invariant forall k | i <= k < |newIds| :: newIds[k] !in rank
        invariant Spawned(old(sessions), sessions, parent, plan.subtasks, newIds, i)
      {
        SpawnedNext(old(sessions), Model(), parent, plan.subtasks, newIds, i);
        var id := CreateSession(plan.subtasks[i].agentRole, Some(parent), newIds[i]);
        pairs := pairs + [(plan.subtasks[i].id, id)];
      }
    }

    /** `classify_child_failure`: record the error, then judge by how many siblings have failed. */
    method ClassifyChildFailure(parent: SessionId, child: SessionId, error: string)
      returns (r: Result<RecoveryAction, ()>)
      requires Valid()
      modifies this
      ensures Valid()
      ensures sessions == if child in old(sessions)
                          then old(sessions)[child := old(sessions)[child].(status := Failed(error))]
                          else old(sessions)
      ensures r.Ok? <==> parent in old(sessions)
      ensures r.Ok? ==>
                var cs := old(sessions)[parent].children;
                && (r.value == AbortParent
                    <==> forall i | 0 <= i < |cs| && cs[i] in sessions :: sessions[cs[i]].status.Failed?)
                && (r.value == Continue <==> 2 * CountFailed(sessions, cs) < CountRegistered(sessions, cs))
    {
      RecordError(child, error);
      if parent !in sessions {
        return Err(());
      }
      var siblings := sessions[parent].children;
      var total, failed := CountSiblings(sessions, siblings);
      AllFailed(sessions, siblings);
      r := Ok(if failed >= total then AbortParent
              else if failed * 2 >= total then EscalateToPlanner
              else Continue);
    }
  }

  lemma CreationSettles(h: State, id: SessionId, parent: Option<SessionId>, s: Session)
    requires Forest(h) && id !in h.rank && s.id == id && s.children == []
    ensures Settled(h) ==> Settled(Inserted(Linked(h, id, parent), s))
  {
    if Settled(h) {
      var h1 := Linked(h, id, parent);
      var h2 := Inserted(h1, s);
      forall a, c | ChildOf(h2, a, c) ensures c in h2.sessions {
        assert ChildOf(h1, a, c);
        LinkedChildren(h, id, parent, a, c);
      }
    }
  }
}
