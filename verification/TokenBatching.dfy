/**
  * The token batching task inside `build_event_sink` of src/orchestrator/node_executor.rs: tokens
  * arrive, a timer ticks, the channel closes, in any interleaving.
  */
module TokenBatching {

  const BATCH_MAX: nat := 50

  datatype Event<T> = Token(t: T) | Tick | Close

  // ------------------------------------------------------------------ the batches of a token stream

  /** The part of a stretch of tokens that makes up full batches, cut into them. */
  function FullBatches<T>(s: seq<T>): (r: seq<seq<T>>)
    ensures |r| == |s| / BATCH_MAX
  {
    seq(|s| / BATCH_MAX, i requires 0 <= i < |s| / BATCH_MAX => s[BATCH_MAX * i..BATCH_MAX * i + BATCH_MAX])
  }

  /** What is left over after the full batches. */
  function Leftover<T>(s: seq<T>): seq<T> {
    s[BATCH_MAX * (|s| / BATCH_MAX)..]
  }

  /** A stretch of tokens that ends in a flush: full batches, then the rest if there is one. */
  function Flushed<T>(s: seq<T>): seq<seq<T>> {
    FullBatches(s) + if Leftover(s) == [] then [] else [Leftover(s)]
  }

  /** Events up to the first close; the batching loop stops there. */
  function UntilClose<T>(events: seq<Event<T>>): seq<Event<T>> {
    if events == [] || events[0].Close? then [] else [events[0]] + UntilClose(events[1..])
  }

  /** Tokens since the last tick. */
  function Stretch<T>(events: seq<Event<T>>): seq<T> {
    if events == [] then []
    else
      var last := events[|events| - 1];
      if last.Token? then Stretch(events[..|events| - 1]) + [last.t] else []
  }

  /** Batches of all stretches that a tick has ended. */
  function Ticked<T>(events: seq<Event<T>>): seq<seq<T>> {
    if events == [] then []
    else
      var before := events[..|events| - 1];
      Ticked(before) + if events[|events| - 1].Token? then [] else Flushed(Stretch(before))
  }

  function Tokens<T>(events: seq<Event<T>>): seq<T> {
    if events == [] then []
    else
      var last := events[|events| - 1];
      Tokens(events[..|events| - 1]) + if last.Token? then [last.t] else []
  }

  function Joined<T>(batches: seq<seq<T>>): seq<T> {
    if batches == [] then [] else Joined(batches[..|batches| - 1]) + batches[|batches| - 1]
  }

  // ------------------------------------------------------------------ the batching loop

  /** The buffer of the loop, and the batches handed to the store so far. */
  class Batcher<T> {
    var buf: seq<T>
    var stored: seq<seq<T>>

    constructor ()
      ensures buf == [] && stored == []
    {
      buf, stored := [], [];
    }

    method Flush()
      modifies this
      ensures buf == []
      ensures stored == old(stored) + if old(buf) == [] then [] else [old(buf)]
    {
      if buf != [] {
        stored := stored + [buf];
        buf := [];
      }
    }

    method OnToken(t: T)
      modifies this
      ensures if |old(buf)| + 1 >= BATCH_MAX
              then buf == [] && stored == old(stored) + [old(buf) + [t]]
              else buf == old(buf) + [t] && stored == old(stored)
    {
      buf := buf + [t];
      if |buf| >= BATCH_MAX {
        stored := stored + [buf];
        buf := [];
      }
    }
  }

  /** The stored batches and the buffer after some events, none of them a close. */
  ghost predicate InStep<T(!new)>(events: seq<Event<T>>, stored: seq<seq<T>>, buf: seq<T>) {
    stored == Ticked(events) + FullBatches(Stretch(events)) && buf == Leftover(Stretch(events))
  }

  lemma LeftoverIsShort<T>(s: seq<T>)
    ensures |Leftover(s)| == |s| % BATCH_MAX < BATCH_MAX
  {}

  lemma OneMoreToken<T>(s: seq<T>, t: T)
    ensures if |Leftover(s)| == 49
            then FullBatches(s + [t]) == FullBatches(s) + [Leftover(s) + [t]] && Leftover(s + [t]) == []
            else FullBatches(s + [t]) == FullBatches(s) && Leftover(s + [t]) == Leftover(s) + [t]
  {
    LeftoverIsShort(s);
    var s', n := s + [t], |s| / BATCH_MAX;
    assert forall i | 0 <= i < n ::
        s'[BATCH_MAX * i..BATCH_MAX * i + BATCH_MAX] == s[BATCH_MAX * i..BATCH_MAX * i + BATCH_MAX];
    if |Leftover(s)| + 1 >= BATCH_MAX {
      assert |s'| / BATCH_MAX == n + 1;
      assert s'[BATCH_MAX * n..BATCH_MAX * n + BATCH_MAX] == Leftover(s) + [t];
    } else {
      assert |s'| / BATCH_MAX == n;
    }
  }

  lemma TokenStep<T(!new)>(events: seq<Event<T>>, stored: seq<seq<T>>, buf: seq<T>, t: T)
    requires InStep(events, stored, buf)
    ensures if |buf| + 1 >= BATCH_MAX then InStep(events + [Token(t)], stored + [buf + [t]], [])
            else InStep(events + [Token(t)], stored, buf + [t])
  {
    assert (events + [Token(t)])[..|events|] == events;
    OneMoreToken(Stretch(events), t);
    hide FullBatches, Leftover;
  }

  lemma TickStep<T(!new)>(events: seq<Event<T>>, stored: seq<seq<T>>, buf: seq<T>)
    requires InStep(events, stored, buf)
    ensures InStep(events + [Tick], stored + (if buf == [] then [] else [buf]), [])
    ensures stored + (if buf == [] then [] else [buf]) == Ticked(events) + Flushed(Stretch(events))
  {
    assert (events + [Tick])[..|events|] == events;
  }

  lemma UntilCloseStep<T>(events: seq<Event<T>>, i: nat)
    requires i < |events| && forall k | 0 <= k <= i :: !events[k].Close?
    ensures events[..i + 1] == events[..i] + [events[i]]
  {}

  lemma {:induction false} UntilCloseIs<T>(events: seq<Event<T>>, i: nat)
    requires i <= |events| && forall k | 0 <= k < i :: !events[k].Close?
    requires i < |events| ==> events[i].Close?
    ensures UntilClose(events) == events[..i]
  {
    if i > 0 {
      UntilCloseIs(events[1..], i - 1);
      assert events[..i] == [events[0]] + events[1..][..i - 1];
    }
  }

  /**
    * The batching loop over a whole event sequence. What reaches the store is fixed by the tokens and where
    * ticks fall among them; a close flushes the last stretch.
    */
  method RunTask<T(!new)>(events: seq<Event<T>>) returns (stored: seq<seq<T>>, buf: seq<T>)
    ensures var es := UntilClose(events);
            if |es| < |events|
            then stored == Ticked(es) + Flushed(Stretch(es)) && buf == []
            else InStep(es, stored, buf)
  {
    var task := new Batcher<T>();
    hide FullBatches, Leftover, Flushed;
    assert InStep(events[..0], [], []) by { EmptyInStep<T>(); assert events[..0] == []; }
    hide InStep;
    for i := 0 to |events|
      invariant InStep(events[..i], task.stored, task.buf)
      invariant forall k | 0 <= k < i :: !events[k].Close?
    {
      match events[i] {
        case Token(t) =>
          UntilCloseStep(events, i);
          TokenStep(events[..i], task.stored, task.buf, t);
          task.OnToken(t);
        case Tick =>
          UntilCloseStep(events, i);
          TickStep(events[..i], task.stored, task.buf);
          task.Flush();
        case Close =>
          TickStep(events[..i], task.stored, task.buf);
          UntilCloseIs(events, i);
          task.Flush();
          return task.stored, task.buf;
      }
    }
    UntilCloseIs(events, |events|);
    return task.stored, task.buf;
  }

  lemma EmptyInStep<T(!new)>()
    ensures InStep<T>([], [], [])
  {
    assert FullBatches<T>([]) == [];
    assert Leftover<T>([]) == [];
    hide FullBatches, Leftover;
  }

  // ------------------------------------------------------------------ conservation

  predicate WellSized<T>(batches: seq<seq<T>>) {
    forall i | 0 <= i < |batches| :: 1 <= |batches[i]| <= 50
  }

  lemma {:induction false} JoinedConcat<T>(a: seq<seq<T>>, b: seq<seq<T>>)
    ensures Joined(a + b) == Joined(a) + Joined(b)
  {
    if b == [] {
      assert a + b == a;
    } else {
      JoinedConcat(a, b[..|b| - 1]);
      assert (a + b)[..|a + b| - 1] == a + b[..|b| - 1];
    }
  }

  lemma {:induction false} FullBatchesJoin<T>(s: seq<T>, n: nat)
    requires n <= |s| / BATCH_MAX
    ensures Joined(FullBatches(s)[..n]) == s[..BATCH_MAX * n]
  {
    if n > 0 {
      FullBatchesJoin(s, n - 1);
      assert FullBatches(s)[..n][..n - 1] == FullBatches(s)[..n - 1];
    }
  }

  lemma FullThenRest<T>(s: seq<T>)
    ensures Joined(FullBatches(s)) + Leftover(s) == s
  {
    var n := |s| / BATCH_MAX;
    FullBatchesJoin(s, n);
    assert FullBatches(s)[..n] == FullBatches(s);
    hide FullBatches, Joined;
  }

  lemma RestJoins<T>(rest: seq<T>)
    ensures Joined(if rest == [] then [] else [rest]) == rest
  {
    if rest != [] {
      assert [rest][..0] == [];
    }
  }

  lemma FlushedJoins<T>(s: seq<T>)
    ensures Joined(Flushed(s)) == s
  {
    FullThenRest(s);
    RestJoins(Leftover(s));
    JoinedConcat(FullBatches(s), if Leftover(s) == [] then [] else [Leftover(s)]);
    hide FullBatches, Leftover, Joined;
  }

  lemma FlushedSizes<T>(s: seq<T>)
    ensures WellSized(FullBatches(s)) && WellSized(Flushed(s))
  {
    LeftoverIsShort(s);
    hide Leftover;
  }

  lemma WellSizedConcat<T>(a: seq<seq<T>>, b: seq<seq<T>>)
    requires WellSized(a) && WellSized(b)
    ensures WellSized(a + b)
  {}

  lemma Associate<T>(a: seq<T>, b: seq<T>, c: seq<T>)
    ensures (a + b) + c == a + (b + c)
  {}

  lemma NothingAfter<T>(s: seq<T>)
    ensures s + [] == s
  {}

  lemma {:induction false} TickedJoins<T>(events: seq<Event<T>>)
    ensures Joined(Ticked(events)) + Stretch(events) == Tokens(events)
  {
    hide Flushed, Joined;
    if events == [] {
      assert Joined<T>([]) == [] by { RestJoins<T>([]); }
    } else {
      var before, last := events[..|events| - 1], events[|events| - 1];
      TickedJoins(before);
      NothingAfter(Ticked(before));
      if last.Token? {
        Associate(Joined(Ticked(before)), Stretch(before), [last.t]);
      } else {
        FlushedJoins(Stretch(before));
        JoinedConcat(Ticked(before), Flushed(Stretch(before)));
        NothingAfter(Tokens(before));
      }
    }
  }

  lemma {:induction false} TickedSizes<T>(events: seq<Event<T>>)
    ensures WellSized(Ticked(events))
  {
    if events != [] {
      var before := events[..|events| - 1];
      TickedSizes(before);
      FlushedSizes(Stretch(before));
      hide Flushed, Stretch, WellSized;
      NothingAfter(Ticked(before));
      WellSizedConcat(Ticked(before), Flushed(Stretch(before)));
    }
  }

  /**
    * Nothing lost, duplicated or reordered, in any interleaving: the batches handed to the store, and
    * then the buffer, are exactly the tokens sent; every batch holds between 1 and 50 of them, and the
    * buffer fewer than 50.
    */
  lemma BatchesAreTheTokens<T(!new)>(events: seq<Event<T>>, stored: seq<seq<T>>, buf: seq<T>)
    requires InStep(events, stored, buf)
    ensures Joined(stored) + buf == Tokens(events) && WellSized(stored) && |buf| < 50
  {
    var stretch := Stretch(events);
    TickedJoins(events);
    TickedSizes(events);
    FullThenRest(stretch);
    FlushedSizes(stretch);
    LeftoverIsShort(stretch);
    JoinedConcat(Ticked(events), FullBatches(stretch));
    hide FullBatches, Leftover, Ticked, Stretch, Tokens, Joined, WellSized;
    WellSizedConcat(Ticked(events), FullBatches(stretch));
    Associate(Joined(Ticked(events)), Joined(FullBatches(stretch)), buf);
  }

  /** After a close, everything sent before it has been handed over. */
  lemma ClosedHandsOverAll<T(!new)>(events: seq<Event<T>>, stored: seq<seq<T>>)
    requires stored == Ticked(events) + Flushed(Stretch(events))
    ensures Joined(stored) == Tokens(events) && WellSized(stored)
  {
    TickedJoins(events);
    TickedSizes(events);
    FlushedJoins(Stretch(events));
    FlushedSizes(Stretch(events));
    JoinedConcat(Ticked(events), Flushed(Stretch(events)));
    hide Flushed, Ticked, Stretch, Tokens, Joined, WellSized;
    WellSizedConcat(Ticked(events), Flushed(Stretch(events)));
  }
}
