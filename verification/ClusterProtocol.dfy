/**
  * The protocol of one cluster run in src/orchestrator/cluster.rs, as a state machine whose steps
  * interleave freely: `submit` starts sub-runs and their watchers one by one and inserts the record
  * at the end; each watcher reports once or gives up; the message loop delivers in channel order.
  */
module ClusterProtocol {
  import opened Wrappers
  import opened Cluster

  datatype Watcher = Polling | Reported | Lost

  datatype Phase = Submitting | Inserted | Aborted

  datatype State = State(
    phase: Phase,
    watchers: seq<Watcher>,
    channel: seq<Message>,
    record: Option<Record>)

  /** The run ids are fresh UUIDs, one for each assignment; there is at least one. */
  predicate ValidIds(ids: seq<Uuid>) {
    ids != [] && Distinct(ids)
  }

  const START := State(Submitting, [], [], None)

  // ------------------------------------------------------------------ the steps

  /** `submit` gets a sub-run accepted and spawns its watcher. */
  predicate SubmitOne(ids: seq<Uuid>, s: State, s': State) {
    && s.phase.Submitting? && |s.watchers| < |ids|
    && s' == s.(watchers := s.watchers + [Polling])
  }

  /** `submit_run` fails: `submit` returns early, the watchers already spawned live on. */
  predicate Abort(ids: seq<Uuid>, s: State, s': State) {
    s.phase.Submitting? && |s.watchers| < |ids| && s' == s.(phase := Aborted)
  }

  /** After the last sub-run, the record is inserted. */
  predicate Insert(ids: seq<Uuid>, s: State, s': State) {
    && s.phase.Submitting? && |s.watchers| == |ids|
    && s' == s.(phase := Inserted, record := Some(Fresh(ids)))
  }

  /** Watcher k finds its sub-run terminal and sends its one message. */
  predicate Report(ids: seq<Uuid>, s: State, s': State, k: nat, m: Message) {
    && k < |s.watchers| <= |ids| && s.watchers[k].Polling?
    && m.run == ids[k] && IsTerminal(m.status)
    && s' == s.(watchers := s.watchers[k := Reported], channel := s.channel + [m])
  }

  /** Watcher k finds its sub-run gone, or fails to poll it, and stops without a message. */
  predicate GiveUp(s: State, s': State, k: nat) {
    && k < |s.watchers| && s.watchers[k].Polling?
    && s' == s.(watchers := s.watchers[k := Lost])
  }

  /** The message loop handles the oldest message; without a record it is dropped. */
  predicate Deliver(s: State, s': State, now: real) {
    && s.channel != []
    && s' == s.(channel := s.channel[1..],
                record := match s.record
                          case None => None
                          case Some(r) => Some(Handled(r, s.channel[0], now)))
  }

  ghost predicate Next(ids: seq<Uuid>, s: State, s': State) {
    || s' == s
    || SubmitOne(ids, s, s') || Abort(ids, s, s') || Insert(ids, s, s')
    || (exists k, m :: Report(ids, s, s', k, m))
    || (exists k :: GiveUp(s, s', k))
    || (exists now :: Deliver(s, s', now))
  }

  /** A behaviour: a start state and steps. */
  ghost predicate Behaviour(ids: seq<Uuid>, t: seq<State>) {
    && t != [] && t[0] == START
    && forall i | 0 <= i < |t| - 1 :: Next(ids, t[i], t[i + 1])
  }

  // ------------------------------------------------------------------ the invariant

  predicate InChannel(s: State, id: Uuid) {
    exists i | 0 <= i < |s.channel| :: s.channel[i].run == id
  }

  /** Messages come from watchers that have reported, one each. */
  predicate ChannelInv(ids: seq<Uuid>, s: State) {
    && (forall i | 0 <= i < |s.channel| :: IsTerminal(s.channel[i].status))
    && (forall i, j | 0 <= i < j < |s.channel| :: s.channel[i].run != s.channel[j].run)
    && (forall k | 0 <= k < |ids| :: InChannel(s, ids[k]) ==> k < |s.watchers| && s.watchers[k].Reported?)
    && (forall i | 0 <= i < |s.channel| :: s.channel[i].run in ids)
  }

  /** A sub-run with a terminal status has reported, and its message has been delivered. */
  predicate RecordInv(ids: seq<Uuid>, s: State, r: Record) {
    && |r.subRuns| == |ids|
    && (forall k | 0 <= k < |ids| :: r.subRuns[k].runId == ids[k])
    && (forall k | 0 <= k < |ids| :: r.subRuns[k].status.Queued? || IsTerminal(r.subRuns[k].status))
    && (forall k | 0 <= k < |ids| && IsTerminal(r.subRuns[k].status) ::
          k < |s.watchers| && s.watchers[k].Reported? && !InChannel(s, ids[k]))
    && r.status == (if AllDone(r.subRuns) then Verdict(r.subRuns) else ClusterRunning)
    && (r.completedAt.Some? <==> AllDone(r.subRuns))
  }

  predicate Inv(ids: seq<Uuid>, s: State) {
    && |s.watchers| <= |ids|
    && (s.phase.Inserted? ==> |s.watchers| == |ids|)
    && (s.record.Some? <==> s.phase.Inserted?)
    && ChannelInv(ids, s)
    && (s.record.Some? ==> RecordInv(ids, s, s.record.value))
  }

  lemma InsertKeepsInv(ids: seq<Uuid>, s: State, s': State)
    requires ValidIds(ids) && Inv(ids, s) && Insert(ids, s, s')
    ensures Inv(ids, s')
  {
    var r := Fresh(ids);
    assert !IsTerminal(r.subRuns[0].status);
    forall k | 0 <= k < |ids| ensures InChannel(s', ids[k]) == InChannel(s, ids[k]) {}
  }

  lemma InChannelAfterReport(s: State, s': State, m: Message, id: Uuid)
    requires s'.channel == s.channel + [m]
    ensures InChannel(s', id) <==> InChannel(s, id) || m.run == id
  {
    if InChannel(s, id) {
      var i :| 0 <= i < |s.channel| && s.channel[i].run == id;
      assert s'.channel[i].run == id;
    }
    if m.run == id { assert s'.channel[|s.channel|].run == id; }
  }

  lemma ReportKeepsInv(ids: seq<Uuid>, s: State, s': State, k: nat, m: Message)
    requires ValidIds(ids) && Inv(ids, s) && Report(ids, s, s', k, m)
    ensures Inv(ids, s')
  {
    forall j | 0 <= j < |ids| ensures InChannel(s', ids[j]) <==> InChannel(s, ids[j]) || j == k {
      InChannelAfterReport(s, s', m, ids[j]);
      if j < k { assert ids[j] != ids[k]; }
      if k < j { assert ids[k] != ids[j]; }
    }
    assert !InChannel(s, ids[k]);
    assert forall i | 0 <= i < |s.channel| :: s.channel[i].run != m.run;
    hide InChannel, AllDone, Verdict;
  }

  lemma GiveUpKeepsInv(ids: seq<Uuid>, s: State, s': State, k: nat)
    requires Inv(ids, s) && GiveUp(s, s', k)
    ensures Inv(ids, s')
  {
    forall id ensures InChannel(s', id) == InChannel(s, id) {}
    hide InChannel, AllDone, Verdict;
  }

  lemma SubmitKeepsInv(ids: seq<Uuid>, s: State, s': State)
    requires Inv(ids, s) && (SubmitOne(ids, s, s') || Abort(ids, s, s'))
    ensures Inv(ids, s')
  {
    forall id ensures InChannel(s', id) == InChannel(s, id) {}
    hide InChannel;
  }

  lemma InChannelAfterDelivery(s: State, s': State, id: Uuid)
    requires s.channel != [] && s'.channel == s.channel[1..]
    requires forall i, j | 0 <= i < j < |s.channel| :: s.channel[i].run != s.channel[j].run
    ensures InChannel(s', id) <==> InChannel(s, id) && s.channel[0].run != id
  {
    if InChannel(s', id) {
      var i :| 0 <= i < |s'.channel| && s'.channel[i].run == id;
      assert s.channel[i + 1].run == id && s.channel[0].run != s.channel[i + 1].run;
    }
    if InChannel(s, id) && s.channel[0].run != id {
      var i :| 0 <= i < |s.channel| && s.channel[i].run == id;
      assert s'.channel[i - 1].run == id;
    }
  }

  /** The record after a delivery: the sub-run reported about gets its status. */
  lemma DeliveredRecord(ids: seq<Uuid>, s: State, now: real, r: Record, k: nat)
    requires ValidIds(ids) && Inv(ids, s) && s.channel != [] && s.record == Some(r)
    requires k < |ids| && s.channel[0].run == ids[k]
    ensures r.subRuns[k].status.Queued?
    ensures Handled(r, s.channel[0], now).subRuns == r.subRuns[k := SubRun(ids[k], s.channel[0].status)]
    ensures !AllDone(r.subRuns)
  {
    assert s.channel[0].run == ids[k] && InChannel(s, ids[k]);
    var m := s.channel[0];
    var subs' := SetStatus(r.subRuns, m.run, m.status);
    forall j | 0 <= j < |ids|
      ensures subs'[j] == r.subRuns[k := SubRun(ids[k], m.status)][j]
    {
      SetStatusAt(r.subRuns, m.run, m.status, j);
      if j < k { assert ids[j] != ids[k]; }
      if k < j { assert ids[k] != ids[j]; }
    }
    assert subs' == r.subRuns[k := SubRun(ids[k], m.status)];
  }

  lemma DeliverKeepsInv(ids: seq<Uuid>, s: State, s': State, now: real)
    requires ValidIds(ids) && Inv(ids, s) && Deliver(s, s', now)
    ensures Inv(ids, s')
  {
    var m := s.channel[0];
    assert m.run in ids;
    var k :| 0 <= k < |ids| && ids[k] == m.run;
    forall id ensures InChannel(s', id) <==> InChannel(s, id) && m.run != id {
      InChannelAfterDelivery(s, s', id);
    }
    assert InChannel(s, ids[k]);
    assert ChannelInv(ids, s') by {
      forall i | 0 <= i < |s'.channel| ensures s'.channel[i] == s.channel[i + 1] {}
      hide InChannel;
    }
    if s.record.Some? {
      DeliveredRecord(ids, s, now, s.record.value, k);
      hide InChannel, Verdict, SetStatus;
    }
  }

  lemma StepKeepsInv(ids: seq<Uuid>, s: State, s': State)
    requires ValidIds(ids) && Inv(ids, s) && Next(ids, s, s')
    ensures Inv(ids, s')
  {
    hide Inv, Report, GiveUp, Deliver, SubmitOne, Abort, Insert;
    if SubmitOne(ids, s, s') || Abort(ids, s, s') {
      SubmitKeepsInv(ids, s, s');
    } else if Insert(ids, s, s') {
      InsertKeepsInv(ids, s, s');
    } else if k: nat, m :| Report(ids, s, s', k, m) {
      ReportKeepsInv(ids, s, s', k, m);
    } else if k: nat :| GiveUp(s, s', k) {
      GiveUpKeepsInv(ids, s, s', k);
    } else if now :| Deliver(s, s', now) {
      DeliverKeepsInv(ids, s, s', now);
    }
  }

  /** Every state of every interleaving satisfies the invariant. */
  lemma {:induction false} AlwaysInv(ids: seq<Uuid>, t: seq<State>, i: nat)
    requires ValidIds(ids) && Behaviour(ids, t) && i < |t|
    ensures Inv(ids, t[i])
  {
    if i > 0 {
      AlwaysInv(ids, t, i - 1);
      assert Next(ids, t[i - 1], t[(i - 1) + 1]);
      StepKeepsInv(ids, t[i - 1], t[i]);
    }
  }

  // ------------------------------------------------------------------ safety

  ghost predicate Finished(s: State) {
    s.record.Some? && s.record.value.status != ClusterRunning
  }

  /** No step changes a record that has left Running. */
  lemma FinishedStepKeepsRecord(ids: seq<Uuid>, s: State, s': State)
    requires ValidIds(ids) && Inv(ids, s) && Next(ids, s, s') && Finished(s)
    ensures s'.record == s.record
  {
    DeliverableIsUnfinished(ids, s);
    hide Inv;
  }

  /** A message on the way has its sub-run still unmarked. */
  lemma DeliverableIsUnfinished(ids: seq<Uuid>, s: State)
    requires ValidIds(ids) && Inv(ids, s)
    ensures s.channel != [] ==> !Finished(s)
  {
    if s.channel != [] && s.record.Some? {
      var m := s.channel[0];
      assert m.run in ids;
      var k :| 0 <= k < |ids| && ids[k] == m.run;
      DeliveredRecord(ids, s, 0.0, s.record.value, k);
    }
  }

  lemma {:induction false} FinishedStays(ids: seq<Uuid>, t: seq<State>, i: nat, j: nat)
    requires ValidIds(ids) && Behaviour(ids, t) && i <= j < |t| && Finished(t[i])
    ensures t[j].record == t[i].record
  {
    hide Inv, Next;
    if i < j {
      FinishedStays(ids, t, i, j - 1);
      AlwaysInv(ids, t, j - 1);
      assert Next(ids, t[j - 1], t[(j - 1) + 1]);
      FinishedStepKeepsRecord(ids, t[j - 1], t[j]);
    }
  }

  /**
    * Safety over every interleaving: a record has left Running only when all its sub-runs are
    * terminal, with their verdict and a completion time, and then it never changes again.
    */
  lemma FinishedIsFinal(ids: seq<Uuid>, t: seq<State>, i: nat, j: nat)
    requires ValidIds(ids) && Behaviour(ids, t) && i <= j < |t| && Finished(t[i])
    ensures var r := t[i].record.value;
            && AllDone(r.subRuns) && r.status == Verdict(r.subRuns) && r.completedAt.Some?
            && t[j].record == Some(r)
  {
    AlwaysInv(ids, t, i);
    FinishedStays(ids, t, i, j);
  }

  // ------------------------------------------------------------------ the lost report

  /** Sub-run k will never be marked: its watcher has stopped and no message of it is on the way. */
  predicate Missed(ids: seq<Uuid>, s: State, k: nat) {
    && k < |ids| && k < |s.watchers| && !s.watchers[k].Polling?
    && !InChannel(s, ids[k])
    && (s.record.Some? ==> k < |s.record.value.subRuns| && s.record.value.subRuns[k].status.Queued?)
  }

  /** A message delivered before the record is inserted is missed, and so is a watcher that gives up. */
  lemma EarlyDeliveryIsMissed(ids: seq<Uuid>, s: State, s': State, now: real, k: nat)
    requires ValidIds(ids) && Inv(ids, s) && Deliver(s, s', now) && s.record.None?
    requires k < |ids| && s.channel[0].run == ids[k]
    ensures Missed(ids, s', k)
  {
    assert InChannel(s, ids[k]);
    InChannelAfterDelivery(s, s', ids[k]);
  }

  lemma MissedStep(ids: seq<Uuid>, s: State, s': State, k: nat)
    requires ValidIds(ids) && Inv(ids, s) && Next(ids, s, s') && Missed(ids, s, k)
    ensures Missed(ids, s', k)
  {
    if j: nat, m :| Report(ids, s, s', j, m) {
      InChannelAfterReport(s, s', m, ids[k]);
      if j < k { assert ids[j] != ids[k]; }
      if k < j { assert ids[k] != ids[j]; }
    } else if now :| Deliver(s, s', now) {
      InChannelAfterDelivery(s, s', ids[k]);
      if s.record.Some? {
        assert s.channel[0].run != ids[k];
        SetStatusAt(s.record.value.subRuns, s.channel[0].run, s.channel[0].status, k);
      }
    } else {
      assert s'.channel == s.channel;
    }
  }

  /** A cluster run with a missed sub-run stays Running for ever. */
  lemma {:induction false} MissedNeverFinishes(ids: seq<Uuid>, t: seq<State>, i: nat, j: nat, k: nat)
    requires ValidIds(ids) && Behaviour(ids, t) && i <= j < |t| && Missed(ids, t[i], k)
    ensures Missed(ids, t[j], k) && !Finished(t[j])
  {
    hide Next;
    AlwaysInv(ids, t, j);
    if i < j {
      MissedNeverFinishes(ids, t, i, j - 1, k);
      AlwaysInv(ids, t, j - 1);
      assert Next(ids, t[j - 1], t[(j - 1) + 1]);
      MissedStep(ids, t[j - 1], t[j], k);
    }
  }

  // ------------------------------------------------------------------ when a cluster run finishes

  /** A message is received before the record is inserted, and dropped. */
  predicate Drops(s: State, s': State) {
    s.record.None? && s.channel != [] && s' == s.(channel := s.channel[1..])
  }

  /** Nothing is left to happen: the record is there, no watcher polls, no message is on the way. */
  predicate Quiet(s: State) {
    s.phase.Inserted? && s.channel == [] && forall k | 0 <= k < |s.watchers| :: !s.watchers[k].Polling?
  }

  /** Every report is still in the channel or has marked its sub-run. */
  predicate NothingLost(ids: seq<Uuid>, s: State)
    requires |s.watchers| <= |ids|
  {
    forall k | 0 <= k < |s.watchers| && s.watchers[k].Reported? ::
      InChannel(s, ids[k])
      || (s.record.Some? && k < |s.record.value.subRuns| && IsTerminal(s.record.value.subRuns[k].status))
  }

  lemma ReportLosesNothing(ids: seq<Uuid>, s: State, s': State, k: nat, m: Message)
    requires ValidIds(ids) && Inv(ids, s) && NothingLost(ids, s) && Report(ids, s, s', k, m)
    ensures NothingLost(ids, s')
  {
    forall j | 0 <= j < |s'.watchers| { InChannelAfterReport(s, s', m, ids[j]); }
    hide InChannel;
  }

  lemma DeliveryLosesNothing(ids: seq<Uuid>, s: State, s': State, now: real)
    requires ValidIds(ids) && Inv(ids, s) && NothingLost(ids, s) && Deliver(s, s', now) && s.record.Some?
    ensures NothingLost(ids, s')
  {
    var m := s.channel[0];
    assert m.run in ids;
    var k :| 0 <= k < |ids| && ids[k] == m.run;
    DeliveredRecord(ids, s, now, s.record.value, k);
    forall j | 0 <= j < |s'.watchers| { InChannelAfterDelivery(s, s', ids[j]); }
    hide InChannel, Verdict, SetStatus;
  }

  lemma StepLosesNothing(ids: seq<Uuid>, s: State, s': State)
    requires ValidIds(ids) && Inv(ids, s) && Next(ids, s, s') && NothingLost(ids, s) && !Drops(s, s')
    ensures |s'.watchers| <= |ids| && NothingLost(ids, s')
  {
    if k: nat, m :| Report(ids, s, s', k, m) {
      ReportLosesNothing(ids, s, s', k, m);
    } else if now :| Deliver(s, s', now) {
      DeliveryLosesNothing(ids, s, s', now);
    } else {
      forall id ensures InChannel(s', id) == InChannel(s, id) {}
      hide InChannel;
    }
  }

  lemma {:induction false} NeverLost(ids: seq<Uuid>, t: seq<State>, i: nat)
    requires ValidIds(ids) && Behaviour(ids, t) && i < |t|
    requires forall j | 0 <= j < i :: !Drops(t[j], t[j + 1])
    ensures |t[i].watchers| <= |ids| && NothingLost(ids, t[i])
  {
    if i > 0 {
      NeverLost(ids, t, i - 1);
      AlwaysInv(ids, t, i - 1);
      assert Next(ids, t[i - 1], t[(i - 1) + 1]) && !Drops(t[i - 1], t[(i - 1) + 1]);
      hide Inv, Next, Drops, NothingLost;
      StepLosesNothing(ids, t[i - 1], t[i]);
    }
  }

  /** A watcher that has given up leaves its sub-run unmarked. */
  lemma LostIsMissed(ids: seq<Uuid>, s: State, k: nat)
    requires ValidIds(ids) && Inv(ids, s) && k < |s.watchers| && s.watchers[k].Lost?
    ensures Missed(ids, s, k)
  {
    hide InChannel, Verdict, AllDone;
  }

  lemma DroppedNeverFinishes(ids: seq<Uuid>, t: seq<State>, i: nat, j: nat)
    requires ValidIds(ids) && Behaviour(ids, t) && j < i < |t| && Drops(t[j], t[j + 1])
    ensures !Finished(t[i])
  {
    AlwaysInv(ids, t, j);
    var id := t[j].channel[0].run;
    assert id in ids;
    var k: nat :| k < |ids| && ids[k] == id;
    hide Behaviour, Inv, Missed, Finished, Distinct;
    EarlyDeliveryIsMissed(ids, t[j], t[j + 1], 0.0, k);
    MissedNeverFinishes(ids, t, j + 1, i, k);
  }

  /**
    * When a cluster run finishes: once nothing is left to happen, its record has left Running exactly
    * when no message came before the record was inserted and no watcher gave up.
    */
  lemma QuietFinishesExactly(ids: seq<Uuid>, t: seq<State>, i: nat)
    requires ValidIds(ids) && Behaviour(ids, t) && i < |t| && Quiet(t[i])
    ensures Finished(t[i])
       <==> (forall j | 0 <= j < i :: !Drops(t[j], t[j + 1]))
            && (forall k | 0 <= k < |t[i].watchers| :: t[i].watchers[k].Reported?)
  {
    AlwaysInv(ids, t, i);
    if j: nat :| j < i && Drops(t[j], t[j + 1]) {
      DroppedNeverFinishes(ids, t, i, j);
    } else if k: nat :| k < |t[i].watchers| && t[i].watchers[k].Lost? {
      hide Behaviour, Inv, Missed, Finished;
      LostIsMissed(ids, t[i], k);
      MissedNeverFinishes(ids, t, i, i, k);
    } else {
      NeverLost(ids, t, i);
      hide Behaviour, Drops;
      QuietRecordIsDone(ids, t[i]);
    }
  }

  lemma QuietRecordIsDone(ids: seq<Uuid>, s: State)
    requires ValidIds(ids) && Inv(ids, s) && Quiet(s) && NothingLost(ids, s)
    requires forall k | 0 <= k < |s.watchers| :: !s.watchers[k].Lost?
    ensures Finished(s) && forall k | 0 <= k < |s.watchers| :: s.watchers[k].Reported?
  {
    forall k | 0 <= k < |s.watchers| ensures s.watchers[k].Reported? && !InChannel(s, ids[k]) {}
    assert AllDone(s.record.value.subRuns);
    VerdictIsFinal(s.record.value.subRuns);
  }

  /**
    * A behaviour that misses a report: the first of two sub-runs is reported, and the message
    * delivered, while the second is still being submitted.
    */
  lemma EarlyReportRun(a: Message, b: Uuid) returns (t: seq<State>)
    requires IsTerminal(a.status) && a.run != b
    ensures Behaviour([a.run, b], t) && t[|t| - 1].phase.Inserted? && Missed([a.run, b], t[|t| - 1], 0)
  {
    var ids := [a.run, b];
    var s1 := START.(watchers := [Polling]);
    var s2 := s1.(watchers := [Reported], channel := [a]);
    var s3 := s2.(channel := []);
    var s4 := s3.(watchers := [Reported, Polling]);
    var s5 := s4.(phase := Inserted, record := Some(Fresh(ids)));
    assert Missed(ids, s5, 0);
    hide Missed, InChannel, Fresh;
    t := [START, s1, s2, s3, s4, s5];
    assert Next(ids, START, s1) by { assert SubmitOne(ids, START, s1); }
    assert Next(ids, s1, s2) by { assert Report(ids, s1, s2, 0, a); }
    assert Next(ids, s2, s3) by { assert Deliver(s2, s3, 0.0); }
    assert Next(ids, s3, s4) by { assert SubmitOne(ids, s3, s4); }
    assert Next(ids, s4, s5) by { assert Insert(ids, s4, s5); }
    hide Next;
  }

  // ------------------------------------------------------------------ the record of a behaviour

  /** The message that a step handles with the record in place, if it does. */
  function Taken(s: State, s': State): seq<Message> {
    if s.record.Some? && s.channel != [] && s'.channel == s.channel[1..] then [s.channel[0]] else []
  }

  /** The messages that have been handled with the record in place, in order. */
  function Handed(t: seq<State>, i: nat): seq<Message>
    requires i < |t|
  {
    if i == 0 then [] else Handed(t, i - 1) + Taken(t[i - 1], t[i])
  }

  lemma InsertedHasRecord(ids: seq<Uuid>, s: State)
    requires Inv(ids, s)
    ensures s.record.Some? <==> s.phase.Inserted?
  {}

  /** A step changes the record by handling the oldest message, or not at all once it is inserted. */
  lemma RecordStep(ids: seq<Uuid>, s: State, s': State) returns (now: real)
    requires Next(ids, s, s') && s.record.Some? && Inv(ids, s)
    ensures s'.record == if Taken(s, s') == [] then s.record else Some(Handled(s.record.value, Taken(s, s')[0], now))
  {
    hide Handled, Inv;
    assert s.phase.Inserted? by { InsertedHasRecord(ids, s); }
    now := 0.0;
    if k: nat, m :| Report(ids, s, s', k, m) {
      assert |s'.channel| == |s.channel| + 1;
    } else if at :| Deliver(s, s', at) {
      now := at;
    } else {
      assert s'.channel == s.channel && s'.record == s.record;
    }
  }

  lemma FirstRecord(ids: seq<Uuid>, s: State, s': State)
    requires Next(ids, s, s') && s.record.None?
    ensures s'.record.None? || s'.record == Some(Replay(ids, [], []))
  {
    hide Fresh, Handled;
  }

  /** The record of s is the replay of the messages, or there is neither. */
  predicate IsReplay(ids: seq<Uuid>, s: State, ms: seq<Message>, times: seq<real>) {
    && |times| == |ms|
    && (s.record.Some? ==> s.record == Some(Replay(ids, ms, times)))
    && (s.record.None? ==> ms == [])
  }

  lemma ReplayStep(ids: seq<Uuid>, s: State, s': State, ms: seq<Message>, times: seq<real>) returns (times': seq<real>)
    requires Inv(ids, s) && Next(ids, s, s') && IsReplay(ids, s, ms, times)
    ensures IsReplay(ids, s', ms + Taken(s, s'), times')
  {
    hide Next, Inv, Replay, Handled;
    if s.record.None? {
      FirstRecord(ids, s, s');
      times' := times;
      assert ms + Taken(s, s') == [];
    } else {
      var now := RecordStep(ids, s, s');
      if Taken(s, s') == [] {
        times' := times;
        assert ms + Taken(s, s') == ms;
      } else {
        times' := times + [now];
        ReplayNext(ids, ms, times, s.channel[0], now);
      }
    }
  }

  /** The record of every behaviour is the replay of the messages handled since its insertion. */
  lemma {:induction false} RecordIsReplay(ids: seq<Uuid>, t: seq<State>, i: nat) returns (times: seq<real>)
    requires ValidIds(ids) && Behaviour(ids, t) && i < |t|
    ensures IsReplay(ids, t[i], Handed(t, i), times)
  {
    if i == 0 {
      times := [];
    } else {
      hide IsReplay, Taken, Next, Inv, ValidIds;
      var before := RecordIsReplay(ids, t, i - 1);
      AlwaysInv(ids, t, i - 1);
      assert Next(ids, t[i - 1], t[(i - 1) + 1]);
      times := ReplayStep(ids, t[i - 1], t[i], Handed(t, i - 1), before);
    }
  }

  /** The watcher of a run has reported, and its message has left the channel. */
  ghost predicate Received(ids: seq<Uuid>, s: State, id: Uuid) {
    && !InChannel(s, id)
    && exists k :: 0 <= k < |ids| && ids[k] == id && k < |s.watchers| && s.watchers[k].Reported?
  }

  lemma ReceivedStays(ids: seq<Uuid>, s: State, s': State, id: Uuid)
    requires ValidIds(ids) && Inv(ids, s) && Next(ids, s, s') && Received(ids, s, id)
    ensures Received(ids, s', id)
  {
    var k :| 0 <= k < |ids| && ids[k] == id && k < |s.watchers| && s.watchers[k].Reported?;
    if j: nat, m :| Report(ids, s, s', j, m) {
      InChannelAfterReport(s, s', m, id);
      if j < k { assert ids[j] != ids[k]; }
      if k < j { assert ids[k] != ids[j]; }
    } else if now :| Deliver(s, s', now) {
      InChannelAfterDelivery(s, s', id);
    } else {
      assert s'.channel == s.channel;
    }
    assert k < |s'.watchers| && s'.watchers[k].Reported?;
  }

  lemma DeliveryKeepsWatchers(ids: seq<Uuid>, s: State, s': State)
    requires Next(ids, s, s') && s.channel != [] && s'.channel == s.channel[1..]
    ensures s'.watchers == s.watchers
  {
    assert |s'.channel| == |s.channel| - 1;
    forall k: nat, m ensures !Report(ids, s, s', k, m) {}
  }

  /** The oldest message is a terminal report about a run not yet received, which it then is. */
  lemma OldestIsReceived(ids: seq<Uuid>, s: State, s': State, ms: seq<Message>)
    requires ValidIds(ids) && Inv(ids, s) && s.channel != []
    requires s'.channel == s.channel[1..] && s'.watchers == s.watchers
    requires Reports(ms) && forall j | 0 <= j < |ms| :: Received(ids, s, ms[j].run)
    ensures Reports(ms + [s.channel[0]]) && Received(ids, s', s.channel[0].run)
  {
    var m := s.channel[0];
    assert InChannel(s, m.run) && m.run in ids;
    var k :| 0 <= k < |ids| && ids[k] == m.run;
    InChannelAfterDelivery(s, s', m.run);
    forall j | 0 <= j < |ms| ensures ms[j].run != m.run {
      assert Received(ids, s, ms[j].run);
    }
  }

  /** The messages are terminal reports about different sub-runs, all of them received. */
  ghost predicate AreReports(ids: seq<Uuid>, s: State, ms: seq<Message>) {
    Reports(ms) && forall j | 0 <= j < |ms| :: Received(ids, s, ms[j].run)
  }

  lemma ReportsStep(ids: seq<Uuid>, s: State, s': State, ms: seq<Message>)
    requires ValidIds(ids) && Inv(ids, s) && Next(ids, s, s') && AreReports(ids, s, ms)
    ensures AreReports(ids, s', ms + Taken(s, s'))
  {
    hide Inv, Next, Received, Reports, ValidIds;
    forall j | 0 <= j < |ms| ensures Received(ids, s', ms[j].run) {
      ReceivedStays(ids, s, s', ms[j].run);
    }
    if Taken(s, s') == [] {
      assert ms + Taken(s, s') == ms;
    } else {
      DeliveryKeepsWatchers(ids, s, s');
      OldestIsReceived(ids, s, s', ms);
    }
  }

  lemma {:induction false} HandedAreReports(ids: seq<Uuid>, t: seq<State>, i: nat)
    requires ValidIds(ids) && Behaviour(ids, t) && i < |t|
    ensures AreReports(ids, t[i], Handed(t, i))
  {
    if i > 0 {
      hide AreReports, Taken, Next, Inv, ValidIds;
      HandedAreReports(ids, t, i - 1);
      AlwaysInv(ids, t, i - 1);
      assert Next(ids, t[i - 1], t[(i - 1) + 1]);
      ReportsStep(ids, t[i - 1], t[i], Handed(t, i - 1));
    }
  }

  /**
    * Order independence over the interleavings themselves: two behaviours that have handled the same
    * messages since insertion, in whatever order, show the same record up to its completion time.
    */
  lemma SameMessagesSameRecord(ids: seq<Uuid>, t: seq<State>, i: nat, u: seq<State>, j: nat)
    requires ValidIds(ids) && Behaviour(ids, t) && Behaviour(ids, u) && i < |t| && j < |u|
    requires t[i].record.Some? && u[j].record.Some? && multiset(Handed(t, i)) == multiset(Handed(u, j))
    ensures var x, y := t[i].record.value, u[j].record.value;
            x == y.(completedAt := x.completedAt) && (x.completedAt.Some? <==> y.completedAt.Some?)
  {
    var xs := RecordIsReplay(ids, t, i);
    var ys := RecordIsReplay(ids, u, j);
    HandedAreReports(ids, t, i);
    HandedAreReports(ids, u, j);
    hide Behaviour, Handed, Replay;
    OrderIndependent(ids, Handed(t, i), xs, Handed(u, j), ys);
  }
}
