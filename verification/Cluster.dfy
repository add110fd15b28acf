/**
  * Cluster runs of src/orchestrator/cluster.rs: how completion messages are folded into the record
  * of a cluster run. The protocol around it is in ClusterProtocol.dfy.
  */
module Cluster {
  import opened Wrappers
  import opened Folds

  type Uuid = string

  datatype RunStatus = Queued | Cancelling | Cancelled | Paused | Running | Succeeded | Failed

  predicate IsTerminal(s: RunStatus) {
    s.Cancelled? || s.Succeeded? || s.Failed?
  }

  datatype ClusterStatus = ClusterRunning | ClusterSucceeded | PartialFailure | ClusterFailed

  datatype SubRun = SubRun(runId: Uuid, status: RunStatus)

  datatype Record = Record(
    subRuns: seq<SubRun>,
    status: ClusterStatus,
    completedAt: Option<real>,
    usage: Option<TokenUsage>,
    cost: Option<real>,
    costIsEstimate: bool)

  /** `ClusterMessage::SubRunCompleted`, less the id of the cluster run it is for. */
  datatype Message = Message(run: Uuid, status: RunStatus, usage: Option<TokenUsage>, cost: Option<real>)

  // ------------------------------------------------------------------ handling one message

  /** Index of the first sub-run with the given id from i on, or the length. */
  function IndexOf(subs: seq<SubRun>, run: Uuid, i: nat): (k: nat)
    requires i <= |subs|
    ensures i <= k <= |subs| && (k < |subs| ==> subs[k].runId == run)
    ensures forall j | i <= j < k :: subs[j].runId != run
    decreases |subs| - i
  {
    if i == |subs| || subs[i].runId == run then i else IndexOf(subs, run, i + 1)
  }

  /** The first sub-run with the given id gets the status. */
  function SetStatus(subs: seq<SubRun>, run: Uuid, st: RunStatus): (r: seq<SubRun>)
    ensures |r| == |subs| && forall k | 0 <= k < |subs| :: r[k].runId == subs[k].runId
  {
    var k := IndexOf(subs, run, 0);
    if k < |subs| then subs[k := SubRun(run, st)] else subs
  }

  function MergeOption(a: Option<TokenUsage>, b: Option<TokenUsage>): Option<TokenUsage> {
    if b.None? then a else if a.None? then b else Some(a.value.Merge(b.value))
  }

  function AddOption(a: Option<real>, b: Option<real>): Option<real> {
    if b.None? then a else if a.None? then Some(0.0 + b.value) else Some(a.value + b.value)
  }

  predicate AllDone(subs: seq<SubRun>) {
    forall k | 0 <= k < |subs| :: IsTerminal(subs[k].status)
  }

  function Successes(subs: seq<SubRun>): (n: nat)
    ensures n <= |subs|
  {
    if subs == [] then 0
    else Successes(subs[..|subs| - 1]) + if subs[|subs| - 1].status.Succeeded? then 1 else 0
  }

  function Verdict(subs: seq<SubRun>): ClusterStatus {
    var succeeded := Successes(subs);
    if succeeded == |subs| then ClusterSucceeded
    else if succeeded == 0 then ClusterFailed
    else PartialFailure
  }

  /** What the verdict says about the sub-runs. */
  lemma {:induction false} VerdictMeaning(subs: seq<SubRun>)
    ensures Verdict(subs) == ClusterSucceeded <==> forall k | 0 <= k < |subs| :: subs[k].status.Succeeded?
    ensures Verdict(subs) == ClusterFailed <==> subs != [] && forall k | 0 <= k < |subs| :: !subs[k].status.Succeeded?
    ensures Successes(subs) == |subs| <==> forall k | 0 <= k < |subs| :: subs[k].status.Succeeded?
    ensures Successes(subs) == 0 <==> forall k | 0 <= k < |subs| :: !subs[k].status.Succeeded?
  {
    if subs != [] {
      var n := |subs| - 1;
      VerdictMeaning(subs[..n]);
      assert forall k | 0 <= k < n :: subs[..n][k] == subs[k];
    }
  }

  function Handled(r: Record, m: Message, now: real): Record {
    var subs := SetStatus(r.subRuns, m.run, m.status);
    Record(subs,
           if AllDone(subs) then Verdict(subs) else r.status,
           if AllDone(subs) then Some(now) else r.completedAt,
           MergeOption(r.usage, m.usage),
           AddOption(r.cost, m.cost),
           r.costIsEstimate || m.cost.Some?)
  }

  /** The record map that the message loop owns. */
  class Runs {
    var runs: map<Uuid, Record>

    constructor ()
      ensures runs == map[]
    {
      runs := map[];
    }

    /** The insertion at the end of `submit`. */
    method Insert(cluster: Uuid, ids: seq<Uuid>)
      modifies this
      ensures runs == old(runs)[cluster := Fresh(ids)]
    {
      runs := runs[cluster := Fresh(ids)];
    }

    /** One turn of `message_loop`: only the record of the message's cluster run can change. */
    method Handle(cluster: Uuid, m: Message, now: real)
      modifies this
      ensures runs == if cluster in old(runs)
                      then old(runs)[cluster := Handled(old(runs)[cluster], m, now)]
                      else old(runs)
    {
      hide SetStatus, Successes, AllDone;
      if cluster in runs {
        var record := runs[cluster];
        var subs := UpdateSubRun(record.subRuns, m.run, m.status);
        if m.usage.Some? {
          record := record.(usage := Some(match record.usage
                                          case Some(prev) => prev.Merge(m.usage.value)
                                          case None => m.usage.value));
        }
        if m.cost.Some? {
          record := record.(cost := Some((if record.cost.Some? then record.cost.value else 0.0) + m.cost.value),
                            costIsEstimate := true);
        }
        record := record.(subRuns := subs);
        if AllDone(subs) {
          var succeeded := CountSucceeded(subs);
          var total := |subs|;
          record := record.(status := if succeeded == total then ClusterSucceeded
                                      else if succeeded == 0 then ClusterFailed
                                      else PartialFailure,
                            completedAt := Some(now));
        }
        runs := runs[cluster := record];
      }
    }
  }

  /** The inner loop over the sub-runs, which stops at the first match. */
  method UpdateSubRun(subs: seq<SubRun>, run: Uuid, st: RunStatus) returns (r: seq<SubRun>)
    ensures r == SetStatus(subs, run, st)
  {
    r := subs;
    for k := 0 to |subs|
      invariant r == subs && IndexOf(subs, run, 0) == IndexOf(subs, run, k)
    {
      if subs[k].runId == run {
        r := r[k := SubRun(run, st)];
        return;
      }
    }
  }

  method CountSucceeded(subs: seq<SubRun>) returns (n: nat)
    ensures n == Successes(subs)
  {
    n := 0;
    for k := 0 to |subs|
      invariant n == Successes(subs[..k])
    {
      assert subs[..k + 1][..k] == subs[..k];
      if subs[k].status.Succeeded? {
        n := n + 1;
      }
    }
    assert subs[..|subs|] == subs;
  }

  // ------------------------------------------------------------------ handling all messages

  function Fresh(ids: seq<Uuid>): Record {
    Record(seq(|ids|, k requires 0 <= k < |ids| => SubRun(ids[k], Queued)), ClusterRunning, None, None, None, false)
  }

  predicate Distinct(ids: seq<Uuid>) {
    forall i, j | 0 <= i < j < |ids| :: ids[i] != ids[j]
  }

  function Replay(ids: seq<Uuid>, ms: seq<Message>, times: seq<real>): Record
    requires |times| == |ms|
  {
    if ms == [] then Fresh(ids)
    else Handled(Replay(ids, ms[..|ms| - 1], times[..|ms| - 1]), ms[|ms| - 1], times[|ms| - 1])
  }

  /** The status that the messages give to a run: that of the last one about it. */
  function Told(ms: seq<Message>, id: Uuid): RunStatus {
    if ms == [] then Queued
    else if ms[|ms| - 1].run == id then ms[|ms| - 1].status
    else Told(ms[..|ms| - 1], id)
  }

  /** Each message is a terminal report, and no two are about the same run. */
  predicate Reports(ms: seq<Message>) {
    && (forall i | 0 <= i < |ms| :: IsTerminal(ms[i].status))
    && (forall i, j | 0 <= i < j < |ms| :: ms[i].run != ms[j].run)
  }

  lemma SetStatusAt(subs: seq<SubRun>, run: Uuid, st: RunStatus, k: nat)
    requires k < |subs| && (forall i, j | 0 <= i < j < |subs| :: subs[i].runId != subs[j].runId)
    ensures SetStatus(subs, run, st)[k].status == if subs[k].runId == run then st else subs[k].status
  {
    var i := IndexOf(subs, run, 0);
    if i < k { assert subs[i].runId != subs[k].runId; }
  }

  /** The sub-runs after all messages. */
  lemma {:induction false} ReplaySubRuns(ids: seq<Uuid>, ms: seq<Message>, times: seq<real>)
    requires |times| == |ms| && Distinct(ids)
    ensures var subs := Replay(ids, ms, times).subRuns;
            |subs| == |ids| && forall k | 0 <= k < |ids| :: subs[k] == SubRun(ids[k], Told(ms, ids[k]))
  {
    if ms != [] {
      var n := |ms| - 1;
      ReplaySubRuns(ids, ms[..n], times[..n]);
      var before := Replay(ids, ms[..n], times[..n]).subRuns;
      forall k | 0 <= k < |ids| { SetStatusAt(before, ms[n].run, ms[n].status, k); }
    }
  }

  function UsageIn(m: Message): Option<TokenUsage> { m.usage }
  function CostIn(m: Message): Option<real> { m.cost }

  lemma OptionMonoids()
    ensures CommutativeMonoid(None, MergeOption) && CommutativeMonoid(None, AddOption)
  {
    Monoids();
    forall a: Option<TokenUsage>, b: Option<TokenUsage>, c: Option<TokenUsage>
      ensures MergeOption(MergeOption(a, b), c) == MergeOption(a, MergeOption(b, c))
      ensures MergeOption(a, b) == MergeOption(b, a)
    {
      if a.Some? && b.Some? && c.Some? {
        Associates(NO_USAGE, MergeUsage, a.value, b.value, c.value);
      }
      if a.Some? && b.Some? { Associates(NO_USAGE, MergeUsage, a.value, b.value, b.value); }
    }
  }

  /** The totals are folds over the messages. */
  lemma {:induction false} ReplayTotals(ids: seq<Uuid>, ms: seq<Message>, times: seq<real>)
    requires |times| == |ms|
    ensures var r := Replay(ids, ms, times);
            && r.usage == Fold(None, MergeOption, UsageIn, ms)
            && r.cost == Fold(None, AddOption, CostIn, ms)
            && (r.costIsEstimate <==> r.cost.Some?)
  {
    if ms != [] { ReplayTotals(ids, ms[..|ms| - 1], times[..|ms| - 1]); }
  }

  /** With terminal reports only, the status is the verdict once all sub-runs are done, else Running. */
  lemma {:induction false} ReplayStatus(ids: seq<Uuid>, ms: seq<Message>, times: seq<real>)
    requires |times| == |ms| && Distinct(ids) && ids != []
    requires forall i | 0 <= i < |ms| :: IsTerminal(ms[i].status)
    ensures var r := Replay(ids, ms, times);
            && r.status == (if AllDone(r.subRuns) then Verdict(r.subRuns) else ClusterRunning)
            && (r.completedAt.Some? <==> AllDone(r.subRuns))
  {
    if ms == [] {
      assert !IsTerminal(Fresh(ids).subRuns[0].status);
    } else {
      var n := |ms| - 1;
      ReplayStatus(ids, ms[..n], times[..n]);
      ReplaySubRuns(ids, ms, times);
      ReplaySubRuns(ids, ms[..n], times[..n]);
      var before, after := Replay(ids, ms[..n], times[..n]), Replay(ids, ms, times);
      if AllDone(before.subRuns) {
        forall k | 0 <= k < |ids| ensures IsTerminal(after.subRuns[k].status) {
          assert IsTerminal(before.subRuns[k].status);
        }
      }
    }
  }

  lemma {:induction false} ToldByMembership(ms: seq<Message>, i: nat)
    requires Reports(ms) && i < |ms|
    ensures Told(ms, ms[i].run) == ms[i].status
  {
    if i < |ms| - 1 {
      assert ms[i].run != ms[|ms| - 1].run;
      ToldByMembership(ms[..|ms| - 1], i);
    }
  }

  lemma {:induction false} NotTold(ms: seq<Message>, id: Uuid)
    requires forall i | 0 <= i < |ms| :: ms[i].run != id
    ensures Told(ms, id) == Queued
  {
    if ms != [] { NotTold(ms[..|ms| - 1], id); }
  }

  lemma ToldPermutation(a: seq<Message>, b: seq<Message>, id: Uuid)
    requires Reports(a) && Reports(b) && multiset(a) == multiset(b)
    ensures Told(a, id) == Told(b, id)
  {
    if i :| 0 <= i < |a| && a[i].run == id {
      assert a[i] in multiset(a) && a[i] in multiset(b);
      var j :| 0 <= j < |b| && b[j] == a[i];
      ToldByMembership(a, i);
      ToldByMembership(b, j);
    } else {
      forall j | 0 <= j < |b| ensures b[j].run != id {
        assert b[j] in multiset(b) && b[j] in multiset(a);
      }
      NotTold(a, id);
      NotTold(b, id);
    }
  }

  /**
    * Order independence: reports handled after insertion, in any order and at any times, leave the
    * same sub-runs, status, token total and cost; only the completion time can differ.
    */
  lemma OrderIndependent(ids: seq<Uuid>, a: seq<Message>, s: seq<real>, b: seq<Message>, t: seq<real>)
    requires Distinct(ids) && ids != [] && |s| == |a| && |t| == |b|
    requires Reports(a) && Reports(b) && multiset(a) == multiset(b)
    ensures var x, y := Replay(ids, a, s), Replay(ids, b, t);
            && x == y.(completedAt := x.completedAt)
            && (x.completedAt.Some? <==> y.completedAt.Some?)
  {
    var x, y := Replay(ids, a, s), Replay(ids, b, t);
    ReplaySubRuns(ids, a, s);
    ReplaySubRuns(ids, b, t);
    forall k | 0 <= k < |ids| ensures x.subRuns[k] == y.subRuns[k] { ToldPermutation(a, b, ids[k]); }
    assert x.subRuns == y.subRuns;
    ReplayStatus(ids, a, s);
    ReplayStatus(ids, b, t);
    ReplayTotals(ids, a, s);
    ReplayTotals(ids, b, t);
    OptionMonoids();
    FoldPermutation(None, MergeOption, UsageIn, a, b);
    FoldPermutation(None, AddOption, CostIn, a, b);
  }

  /** Once every sub-run has reported, the record is complete. */
  lemma AllReported(ids: seq<Uuid>, ms: seq<Message>, times: seq<real>)
    requires Distinct(ids) && ids != [] && |times| == |ms| && Reports(ms)
    ensures var r := Replay(ids, ms, times);
            r.status != ClusterRunning
            <==> forall k | 0 <= k < |ids| :: exists i :: 0 <= i < |ms| && ms[i].run == ids[k]
  {
    var r := Replay(ids, ms, times);
    ReplayStatus(ids, ms, times);
    ReplaySubRuns(ids, ms, times);
    forall k | 0 <= k < |ids|
      ensures IsTerminal(r.subRuns[k].status) <==> exists i :: 0 <= i < |ms| && ms[i].run == ids[k]
    {
      if i :| 0 <= i < |ms| && ms[i].run == ids[k] {
        ToldByMembership(ms, i);
      } else {
        NotTold(ms, ids[k]);
      }
    }
    hide Verdict, Replay;
    VerdictIsFinal(r.subRuns);
  }

  lemma VerdictIsFinal(subs: seq<SubRun>)
    ensures Verdict(subs) != ClusterRunning
  {}

  function InputIn(m: Message): int { if m.usage.Some? then m.usage.value.input else 0 }
  function OutputIn(m: Message): int { if m.usage.Some? then m.usage.value.output else 0 }

  /** The saturating token total is the true sum over all reports, capped once on each side. */
  lemma {:induction false} TokenTotal(ms: seq<Message>)
    ensures Fold(0, Plus, InputIn, ms) >= 0 && Fold(0, Plus, OutputIn, ms) >= 0
    ensures match Fold(None, MergeOption, UsageIn, ms)
            case None => forall i | 0 <= i < |ms| :: ms[i].usage.None?
            case Some(u) => u == TokenUsage(Capped(Fold(0, Plus, InputIn, ms)), Capped(Fold(0, Plus, OutputIn, ms)))
    ensures Fold(None, MergeOption, UsageIn, ms).None? ==>
              Fold(0, Plus, InputIn, ms) == 0 && Fold(0, Plus, OutputIn, ms) == 0
  {
    if ms != [] {
      TokenTotal(ms[..|ms| - 1]);
    }
  }

  /** The sums of what the messages report, an absent report counting as nothing. */
  function InputSum(ms: seq<Message>): nat {
    if ms == [] then 0
    else
      var m := ms[|ms| - 1];
      InputSum(ms[..|ms| - 1]) + if m.usage.Some? then m.usage.value.input else 0
  }

  function OutputSum(ms: seq<Message>): nat {
    if ms == [] then 0
    else
      var m := ms[|ms| - 1];
      OutputSum(ms[..|ms| - 1]) + if m.usage.Some? then m.usage.value.output else 0
  }

  function CostSum(ms: seq<Message>): real {
    if ms == [] then 0.0
    else
      var m := ms[|ms| - 1];
      CostSum(ms[..|ms| - 1]) + if m.cost.Some? then m.cost.value else 0.0
  }

  function Saturated(n: nat): nat { if n > 0xFFFF_FFFF then 0xFFFF_FFFF else n }

  lemma TotalsStep(ids: seq<Uuid>, ms: seq<Message>, times: seq<real>)
    requires |times| == |ms| && ms != []
    ensures var n := |ms| - 1;
            var before, after := Replay(ids, ms[..n], times[..n]), Replay(ids, ms, times);
            && after.usage == MergeOption(before.usage, ms[n].usage)
            && after.cost == AddOption(before.cost, ms[n].cost)
  {
    hide SetStatus, AllDone, Verdict;
  }

  /** The cost: absent exactly when no message has one, else the plain sum of those reported. */
  lemma {:induction false} CostTotal(ids: seq<Uuid>, ms: seq<Message>, times: seq<real>)
    requires |times| == |ms|
    ensures Replay(ids, ms, times).cost.None? <==> forall i | 0 <= i < |ms| :: ms[i].cost.None?
    ensures Replay(ids, ms, times).cost.Some? ==> Replay(ids, ms, times).cost.value == CostSum(ms)
    ensures Replay(ids, ms, times).cost.None? ==> CostSum(ms) == 0.0
  {
    if ms != [] {
      var n := |ms| - 1;
      CostTotal(ids, ms[..n], times[..n]);
      TotalsStep(ids, ms, times);
      hide Replay;
    }
  }

  /** Tokens absent exactly when no message has any, else the plain sums, each capped once at 32 bits. */
  predicate IsUsageTotal(u: Option<TokenUsage>, ms: seq<Message>) {
    && (u.None? <==> forall i | 0 <= i < |ms| :: ms[i].usage.None?)
    && if u.None? then InputSum(ms) == 0 && OutputSum(ms) == 0
       else u.value.input == Saturated(InputSum(ms)) && u.value.output == Saturated(OutputSum(ms))
  }

  lemma UsageStep(u: Option<TokenUsage>, ms: seq<Message>)
    requires ms != [] && IsUsageTotal(u, ms[..|ms| - 1])
    ensures IsUsageTotal(MergeOption(u, ms[|ms| - 1].usage), ms)
  {
    var n := |ms| - 1;
    assert forall i | 0 <= i < n :: ms[..n][i] == ms[i];
  }

  /** The token total of a record. */
  lemma {:induction false} UsageTotal(ids: seq<Uuid>, ms: seq<Message>, times: seq<real>)
    requires |times| == |ms|
    ensures IsUsageTotal(Replay(ids, ms, times).usage, ms)
  {
    if ms != [] {
      var n := |ms| - 1;
      UsageTotal(ids, ms[..n], times[..n]);
      TotalsStep(ids, ms, times);
      hide Replay, IsUsageTotal, MergeOption;
      UsageStep(Replay(ids, ms[..n], times[..n]).usage, ms);
    }
  }

  /** The statuses that end a run. */
  lemma TerminalMeaning(s: RunStatus)
    ensures IsTerminal(s) <==> s == Cancelled || s == Succeeded || s == Failed
  {}

  // ------------------------------------------------------------------ many cluster runs

  /** What happens to the record map: a submission inserts a record, or a message is received. */
  datatype Event = Submitted(cluster: Uuid, ids: seq<Uuid>) | Received(cluster: Uuid, m: Message, at: real)

  /** What a cluster run's own events amount to: its sub-run ids, and the messages since its insertion. */
  datatype History = History(ids: seq<Uuid>, ms: seq<Message>, times: seq<real>)

  function HistoryOf(events: seq<Event>, cluster: Uuid): (h: Option<History>)
    ensures h.Some? ==> |h.value.times| == |h.value.ms|
  {
    if events == [] then None
    else
      var before := HistoryOf(events[..|events| - 1], cluster);
      match events[|events| - 1]
      case Submitted(c, ids) => if c == cluster then Some(History(ids, [], [])) else before
      case Received(c, m, at) =>
        if c == cluster && before.Some?
        then Some(History(before.value.ids, before.value.ms + [m], before.value.times + [at])) else before
  }

  /** A map holds, for each cluster run submitted, the replay of its own messages, and no other record. */
  ghost predicate HoldsReplays(runs: map<Uuid, Record>, events: seq<Event>) {
    forall cluster ::
      match HistoryOf(events, cluster)
      case None => cluster !in runs
      case Some(h) => cluster in runs && runs[cluster] == Replay(h.ids, h.ms, h.times)
  }

  lemma HistorySnoc(events: seq<Event>, e: Event, cluster: Uuid)
    ensures var before := HistoryOf(events, cluster);
            HistoryOf(events + [e], cluster)
            == match e
               case Submitted(c, ids) => if c == cluster then Some(History(ids, [], [])) else before
               case Received(c, m, at) =>
                 if c == cluster && before.Some?
                 then Some(History(before.value.ids, before.value.ms + [m], before.value.times + [at])) else before
  {
    assert (events + [e])[..|events|] == events;
  }

  lemma ReplayNext(ids: seq<Uuid>, ms: seq<Message>, times: seq<real>, m: Message, now: real)
    requires |times| == |ms|
    ensures Replay(ids, ms + [m], times + [now]) == Handled(Replay(ids, ms, times), m, now)
  {
    assert (ms + [m])[..|ms|] == ms && (times + [now])[..|ms|] == times;
  }

  lemma SubmissionKeepsReplays(runs: map<Uuid, Record>, events: seq<Event>, c: Uuid, ids: seq<Uuid>)
    requires HoldsReplays(runs, events)
    ensures HoldsReplays(runs[c := Fresh(ids)], events + [Submitted(c, ids)])
  {
    forall cluster { HistorySnoc(events, Submitted(c, ids), cluster); }
    assert Replay(ids, [], []) == Fresh(ids);
    hide HistoryOf, Replay, Fresh;
  }

  lemma ReceiptKeepsReplays(runs: map<Uuid, Record>, events: seq<Event>, c: Uuid, m: Message, at: real)
    requires HoldsReplays(runs, events)
    ensures HoldsReplays(if c in runs then runs[c := Handled(runs[c], m, at)] else runs, events + [Received(c, m, at)])
  {
    forall cluster { HistorySnoc(events, Received(c, m, at), cluster); }
    hide HistoryOf, Handled;
    var h := HistoryOf(events, c);
    if h.Some? { ReplayNext(h.value.ids, h.value.ms, h.value.times, m, at); }
    hide Replay;
  }

  /**
    * Many cluster runs at once: whatever the interleaving of submissions and messages, each record is
    * the replay of the messages for its own run since its insertion.
    */
  method HandleAll(events: seq<Event>) returns (cluster: Runs)
    ensures fresh(cluster) && HoldsReplays(cluster.runs, events)
  {
    cluster := new Runs();
    hide HoldsReplays, Handled, Fresh;
    assert HoldsReplays(map[], []) by { NoRuns(); }
    for i := 0 to |events|
      invariant fresh(cluster) && HoldsReplays(cluster.runs, events[..i])
    {
      assert events[..i + 1] == events[..i] + [events[i]];
      match events[i] {
        case Submitted(c, ids) =>
          SubmissionKeepsReplays(cluster.runs, events[..i], c, ids);
          cluster.Insert(c, ids);
        case Received(c, m, at) =>
          ReceiptKeepsReplays(cluster.runs, events[..i], c, m, at);
          cluster.Handle(c, m, at);
      }
    }
    assert events[..|events|] == events;
  }

  lemma NoRuns()
    ensures HoldsReplays(map[], [])
  {}
}
