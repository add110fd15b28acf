/**
  * The token-bucket limiter of src/interface/rate_limit.rs, over exact reals. Time is in seconds.
  */
module RateLimit {
  import opened Wrappers

  datatype RateLimitConfig = RateLimitConfig(capacity: real, refillPerSec: real)

  datatype Bucket = Bucket(tokens: real, lastRefill: real)

  /** Tokens earned between two times. */
  function Earned(c: RateLimitConfig, from: real, to: real): real {
    (to - from) * c.refillPerSec
  }

  lemma EarnedAdds(c: RateLimitConfig, s: real, t: real, u: real)
    ensures Earned(c, s, t) + Earned(c, t, u) == Earned(c, s, u)
    ensures Earned(c, s, s) == 0.0
  {}

  lemma EarnedGrows(c: RateLimitConfig, s: real, t: real, u: real)
    requires s <= t && c.refillPerSec >= 0.0
    ensures Earned(c, t, u) <= Earned(c, s, u)
    ensures Earned(c, s, t) >= 0.0
  {
    assert (t - s) * c.refillPerSec >= 0.0;
    EarnedAdds(c, s, t, u);
  }

  lemma EarnedDrains(c: RateLimitConfig, s: real, t: real)
    requires s <= t && c.refillPerSec <= 0.0
    ensures Earned(c, s, t) <= 0.0
  {
    assert (t - s) * (-c.refillPerSec) >= 0.0;
  }

  function Min(a: real, b: real): real { if a <= b then a else b }

  // ------------------------------------------------------------------ one request

  /** The bucket a request sees: the stored one, or a full one made on the first request. */
  function BucketAt(c: RateLimitConfig, b: Option<Bucket>, now: real): Bucket {
    match b case Some(v) => v case None => Bucket(c.capacity, now)
  }

  /** After refilling. `duration_since` saturates at zero, so a late-arriving earlier time adds nothing. */
  function Refilled(c: RateLimitConfig, b: Bucket, now: real): Bucket {
    if now > b.lastRefill
    then Bucket(Min(b.tokens + Earned(c, b.lastRefill, now), c.capacity), now)
    else b
  }

  function Accepts(c: RateLimitConfig, b: Option<Bucket>, now: real): bool {
    Refilled(c, BucketAt(c, b, now), now).tokens >= 1.0
  }

  function After(c: RateLimitConfig, b: Option<Bucket>, now: real): Bucket {
    var r := Refilled(c, BucketAt(c, b, now), now);
    if r.tokens >= 1.0 then r.(tokens := r.tokens - 1.0) else r
  }

  function Stored(buckets: map<string, Bucket>, key: string): Option<Bucket> {
    if key in buckets then Some(buckets[key]) else None
  }

  class RateLimiter {
    const config: RateLimitConfig
    var buckets: map<string, Bucket>

    constructor (config: RateLimitConfig)
      ensures this.config == config && buckets == map[]
    {
      this.config := config;
      buckets := map[];
    }

    /** `try_acquire` at time `now`. */
    method TryAcquire(key: string, now: real) returns (ok: bool)
      modifies this
      ensures ok == Accepts(config, Stored(old(buckets), key), now)
      ensures buckets == old(buckets)[key := After(config, Stored(old(buckets), key), now)]
    {
      if key !in buckets {
        buckets := buckets[key := Bucket(config.capacity, now)];
      }
      var entry := buckets[key];
      var elapsed := if now > entry.lastRefill then now - entry.lastRefill else 0.0;
      if elapsed > 0.0 {
        entry := Bucket(Min(entry.tokens + elapsed * config.refillPerSec, config.capacity), now);
      }
      if entry.tokens >= 1.0 {
        entry := entry.(tokens := entry.tokens - 1.0);
        ok := true;
      } else {
        ok := false;
      }
      buckets := buckets[key := entry];
    }
  }

  // ------------------------------------------------------------------ runs for one key

  /** The bucket after the first n requests of a key. */
  function State(c: RateLimitConfig, times: seq<real>, n: nat): Option<Bucket>
    requires n <= |times|
  {
    if n == 0 then None else Some(After(c, State(c, times, n - 1), times[n - 1]))
  }

  predicate Accepted(c: RateLimitConfig, times: seq<real>, i: nat)
    requires i < |times|
  {
    Accepts(c, State(c, times, i), times[i])
  }

  function Count(chosen: seq<bool>, i: nat, j: nat): (n: nat)
    requires i <= j <= |chosen|
  {
    if i == j then 0 else Count(chosen, i, j - 1) + if chosen[j - 1] then 1 else 0
  }

  /** The answers of the limiter to a request sequence. */
  function Answers(c: RateLimitConfig, times: seq<real>): (r: seq<bool>)
    ensures |r| == |times| && forall i | 0 <= i < |times| :: r[i] == Accepted(c, times, i)
  {
    seq(|times|, i requires 0 <= i < |times| => Accepted(c, times, i))
  }

  predicate Monotone(times: seq<real>) {
    forall i, j | 0 <= i <= j < |times| :: times[i] <= times[j]
  }

  /** Tokens left once request i has been refilled for, before it is decided. */
  function Level(c: RateLimitConfig, times: seq<real>, i: nat): real
    requires i < |times|
  {
    Refilled(c, BucketAt(c, State(c, times, i), times[i]), times[i]).tokens
  }

  lemma {:induction false} LastRefillIsNow(c: RateLimitConfig, times: seq<real>, n: nat)
    requires 0 < n <= |times| && Monotone(times)
    ensures State(c, times, n).value.lastRefill == times[n - 1]
  {
    if n > 1 {
      LastRefillIsNow(c, times, n - 1);
      assert times[n - 2] <= times[n - 1];
    }
  }

  /** From one request to the next: one token less if accepted, then refilled up to the capacity. */
  lemma LevelNext(c: RateLimitConfig, times: seq<real>, i: nat)
    requires i + 1 < |times| && Monotone(times)
    ensures var left := Level(c, times, i) - if Accepted(c, times, i) then 1.0 else 0.0;
            && (times[i + 1] > times[i] ==>
                  Level(c, times, i + 1) == Min(left + Earned(c, times[i], times[i + 1]), c.capacity))
            && (times[i + 1] == times[i] ==> Level(c, times, i + 1) == left)
  {
    hide Earned;
    LastRefillIsNow(c, times, i + 1);
    if i > 0 { LastRefillIsNow(c, times, i); }
    assert times[i] <= times[i + 1];
  }

  lemma FirstLevel(c: RateLimitConfig, times: seq<real>)
    requires times != []
    ensures Level(c, times, 0) == c.capacity
  {}

  lemma LevelDecides(c: RateLimitConfig, times: seq<real>, i: nat)
    requires i < |times|
    ensures Accepted(c, times, i) <==> Level(c, times, i) >= 1.0
  {}

  lemma {:induction false} LevelCapped(c: RateLimitConfig, times: seq<real>, i: nat)
    requires i < |times| && Monotone(times)
    ensures Level(c, times, i) <= c.capacity
  {
    hide Earned, State, Level, Accepts;
    if i == 0 {
      FirstLevel(c, times);
    } else {
      LevelCapped(c, times, i - 1);
      LevelNext(c, times, i - 1);
      assert times[i - 1] <= times[i];
    }
  }

  /** What is accepted from i on has been paid for by the level at i and the refill since. */
  lemma {:induction false} Paid(c: RateLimitConfig, times: seq<real>, i: nat, j: nat)
    requires i <= j < |times| && Monotone(times)
    ensures Level(c, times, j) + Count(Answers(c, times), i, j) as real
         <= Level(c, times, i) + Earned(c, times[i], times[j])
  {
    hide Earned, State, Level, Accepts;
    EarnedAdds(c, times[i], times[i], times[i]);
    if i < j {
      Paid(c, times, i, j - 1);
      LevelNext(c, times, j - 1);
      assert times[j - 1] <= times[j];
      EarnedAdds(c, times[i], times[j - 1], times[j]);
    }
  }

  /** The bound that a choice of requests must meet on the interval from request i to request j. */
  predicate WithinBound(c: RateLimitConfig, times: seq<real>, chosen: seq<bool>, i: nat, j: nat)
    requires i <= j < |times| == |chosen|
  {
    Count(chosen, i, j + 1) as real <= c.capacity + Earned(c, times[i], times[j])
  }

  ghost function ChosenIn(chosen: seq<bool>, i: nat, j: nat): set<int>
    requires i <= j <= |chosen|
  {
    set k | i <= k < j && chosen[k]
  }

  /** `Count` is the number of requests chosen. */
  lemma {:induction false} CountMeaning(chosen: seq<bool>, i: nat, j: nat)
    requires i <= j <= |chosen|
    ensures Count(chosen, i, j) == |ChosenIn(chosen, i, j)|
    decreases j
  {
    if i == j {
      assert ChosenIn(chosen, i, j) == {};
    } else {
      CountMeaning(chosen, i, j - 1);
      assert ChosenIn(chosen, i, j) == ChosenIn(chosen, i, j - 1) + (if chosen[j - 1] then {j - 1} else {});
    }
  }

  /** The bound, spelled out: no more requests than the capacity and the refill over the interval. */
  lemma BoundMeaning(c: RateLimitConfig, times: seq<real>, chosen: seq<bool>, i: nat, j: nat)
    requires i <= j < |times| == |chosen|
    ensures WithinBound(c, times, chosen, i, j)
       <==> |set k | i <= k <= j && chosen[k]| as real <= c.capacity + (times[j] - times[i]) * c.refillPerSec
  {
    CountMeaning(chosen, i, j + 1);
    assert ChosenIn(chosen, i, j + 1) == set k | i <= k <= j && chosen[k];
  }

  /**
    * The window bound, for every configuration: any interval that ends with an accepted request has
    * at most capacity + rate * length accepted requests.
    */
  lemma WindowBound(c: RateLimitConfig, times: seq<real>, i: nat, j: nat)
    requires Monotone(times) && i <= j < |times| && Accepted(c, times, j)
    ensures WithinBound(c, times, Answers(c, times), i, j)
  {
    hide Earned, State, Level, Accepts;
    Paid(c, times, i, j);
    LevelCapped(c, times, i);
    LevelDecides(c, times, j);
  }

  /** With a refill rate that is not negative, every interval meets the bound once the capacity does. */
  lemma {:induction false} WindowBoundEverywhere(c: RateLimitConfig, times: seq<real>, i: nat, j: nat)
    requires Monotone(times) && i <= j < |times| && c.refillPerSec >= 0.0 && c.capacity >= 0.0
    ensures WithinBound(c, times, Answers(c, times), i, j)
    decreases j
  {
    hide Earned, State, Level, Accepts;
    if Accepted(c, times, j) {
      WindowBound(c, times, i, j);
    } else if i < j {
      WindowBoundEverywhere(c, times, i, j - 1);
      assert times[j - 1] <= times[j];
      EarnedGrows(c, times[j - 1], times[j], times[j]);
      EarnedAdds(c, times[i], times[j - 1], times[j]);
    } else {
      EarnedAdds(c, times[i], times[i], times[i]);
      assert Count(Answers(c, times), i, i) == 0;
    }
  }

  // ------------------------------------------------------------------ greedy optimality

  /** A choice of requests that meets the bound on every interval between two chosen requests. */
  predicate Admissible(c: RateLimitConfig, times: seq<real>, chosen: seq<bool>) {
    && |chosen| == |times|
    && forall i, j | 0 <= i <= j < |times| && chosen[i] && chosen[j] :: WithinBound(c, times, chosen, i, j)
  }

  /** The limiter's own answers are admissible. */
  lemma AnswersAdmissible(c: RateLimitConfig, times: seq<real>)
    requires Monotone(times)
    ensures Admissible(c, times, Answers(c, times))
  {
    forall i, j | 0 <= i <= j < |times| && Accepted(c, times, i) && Accepted(c, times, j)
      ensures WithinBound(c, times, Answers(c, times), i, j)
    {
      WindowBound(c, times, i, j);
    }
  }

  /** Since the last time the bucket was full, every refill has counted in full. */
  lemma {:induction false} SinceFull(c: RateLimitConfig, times: seq<real>, j: nat) returns (m: nat)
    requires j < |times| && Monotone(times)
    ensures m <= j && Level(c, times, m) == c.capacity
    ensures Level(c, times, j) + Count(Answers(c, times), m, j) as real
         == c.capacity + Earned(c, times[m], times[j])
  {
    hide Earned, State, Level, Accepts;
    EarnedAdds(c, times[j], times[j], times[j]);
    if j == 0 {
      m := 0;
      FirstLevel(c, times);
    } else if Level(c, times, j) == c.capacity {
      m := j;
    } else {
      m := SinceFull(c, times, j - 1);
      LevelNext(c, times, j - 1);
      assert times[j - 1] <= times[j];
      EarnedAdds(c, times[m], times[j - 1], times[j]);
    }
  }

  lemma {:induction false} CountSplit(chosen: seq<bool>, i: nat, k: nat, j: nat)
    requires i <= k <= j <= |chosen|
    ensures Count(chosen, i, j) == Count(chosen, i, k) + Count(chosen, k, j)
  {
    if k < j { CountSplit(chosen, i, k, j - 1); }
  }

  /** The first chosen request from m on, when there is one before n. */
  lemma {:induction false} FirstChosen(chosen: seq<bool>, m: nat, n: nat) returns (f: nat)
    requires m < n <= |chosen| && chosen[n - 1]
    ensures m <= f < n && chosen[f] && Count(chosen, m, n) == Count(chosen, f, n)
    decreases n - m
  {
    if chosen[m] {
      f := m;
    } else {
      f := FirstChosen(chosen, m + 1, n);
      CountSplit(chosen, m, m + 1, n);
      assert Count(chosen, m, m + 1) == 0;
    }
  }

  /**
    * Greedy optimality: with a refill rate that is not negative, on every prefix the limiter accepts
    * at least as many requests as any admissible choice.
    */
  lemma {:induction false} GreedyIsOptimal(c: RateLimitConfig, times: seq<real>, chosen: seq<bool>, n: nat)
    requires Monotone(times) && c.refillPerSec >= 0.0
    requires Admissible(c, times, chosen) && n <= |times|
    ensures Count(chosen, 0, n) <= Count(Answers(c, times), 0, n)
    decreases n
  {
    hide Earned, State, Level, Accepts;
    if n > 0 {
      var j := n - 1;
      var mine := Answers(c, times);
      GreedyIsOptimal(c, times, chosen, j);
      if chosen[j] && !mine[j] {
        var m := SinceFull(c, times, j);
        GreedyIsOptimal(c, times, chosen, m);
        CountSplit(mine, 0, m, j);
        CountSplit(chosen, 0, m, n);
        var f := FirstChosen(chosen, m, n);
        assert WithinBound(c, times, chosen, f, j);
        assert times[m] <= times[f];
        EarnedGrows(c, times[m], times[f], times[j]);
        LevelDecides(c, times, j);
      }
    }
  }

  // ------------------------------------------------------------------ many keys

  datatype Request = Request(key: string, at: real)

  function TimesOf(reqs: seq<Request>, key: string): seq<real> {
    if reqs == [] then []
    else
      var rest := TimesOf(reqs[..|reqs| - 1], key);
      var last := reqs[|reqs| - 1];
      if last.key == key then rest + [last.at] else rest
  }

  /** Each key's stored bucket is the one its own requests alone lead to. */
  ghost predicate Tracks(c: RateLimitConfig, buckets: map<string, Bucket>, reqs: seq<Request>) {
    forall key :: Stored(buckets, key) == State(c, TimesOf(reqs, key), |TimesOf(reqs, key)|)
  }

  /** The answer that request i gets when only the requests for its own key are served. */
  function OwnAnswer(c: RateLimitConfig, reqs: seq<Request>, i: nat): bool
    requires i < |reqs|
  {
    var own := TimesOf(reqs[..i], reqs[i].key) + [reqs[i].at];
    Accepted(c, own, |own| - 1)
  }

  lemma {:induction false} StatePrefix(c: RateLimitConfig, times: seq<real>, t: real, n: nat)
    requires n <= |times|
    ensures State(c, times + [t], n) == State(c, times, n)
  {
    if n > 0 { StatePrefix(c, times, t, n - 1); }
  }

  lemma TracksNext(c: RateLimitConfig, buckets: map<string, Bucket>, reqs: seq<Request>, i: nat)
    requires i < |reqs| && Tracks(c, buckets, reqs[..i])
    ensures Accepts(c, Stored(buckets, reqs[i].key), reqs[i].at) == OwnAnswer(c, reqs, i)
    ensures var r := reqs[i];
            Tracks(c, buckets[r.key := After(c, Stored(buckets, r.key), r.at)], reqs[..i + 1])
  {
    hide Accepts, After;
    var r := reqs[i];
    var own := TimesOf(reqs[..i], r.key);
    assert reqs[..i + 1][..i] == reqs[..i];
    StatePrefix(c, own, r.at, |own|);
    assert (own + [r.at])[|own|] == r.at;
    assert State(c, own + [r.at], |own| + 1) == Some(After(c, State(c, own, |own|), r.at));
    var buckets' := buckets[r.key := After(c, Stored(buckets, r.key), r.at)];
    forall key
      ensures Stored(buckets', key) == State(c, TimesOf(reqs[..i + 1], key), |TimesOf(reqs[..i + 1], key)|)
    {
      assert TimesOf(reqs[..i + 1], key)
          == if key == r.key then own + [r.at] else TimesOf(reqs[..i], key);
    }
  }

  /**
    * A run over many keys: every answer, and every stored bucket, is what the requests of that key
    * alone would give, whatever calls for other keys come between.
    */
  method Serve(config: RateLimitConfig, reqs: seq<Request>) returns (limiter: RateLimiter, answers: seq<bool>)
    ensures fresh(limiter) && limiter.config == config && |answers| == |reqs|
    ensures Tracks(config, limiter.buckets, reqs)
    ensures forall i | 0 <= i < |reqs| :: answers[i] == OwnAnswer(config, reqs, i)
  {
    limiter := new RateLimiter(config);
    answers := [];
    assert Tracks(config, limiter.buckets, reqs[..0]);
    hide Tracks, OwnAnswer, Accepts, After;
    for i := 0 to |reqs|
      invariant fresh(limiter) && limiter.config == config && |answers| == i
      invariant Tracks(config, limiter.buckets, reqs[..i])
      invariant forall k | 0 <= k < i :: answers[k] == OwnAnswer(config, reqs, k)
    {
      TracksNext(config, limiter.buckets, reqs, i);
      var ok := limiter.TryAcquire(reqs[i].key, reqs[i].at);
      answers := answers + [ok];
    }
    assert reqs[..|reqs|] == reqs;
  }

  // ------------------------------------------------------------------ when greedy is optimal

  /** The limiter accepts at least as much as any admissible choice, on every monotone run. */
  ghost predicate OptimalAlways(c: RateLimitConfig) {
    forall times, chosen ::
      Monotone(times) && Admissible(c, times, chosen)
      ==> Count(chosen, 0, |times|) <= Count(Answers(c, times), 0, |times|)
  }

  /** A draining configuration with room for two: one early request spoils two later ones. */
  lemma DrainingIsNotOptimal(c: RateLimitConfig)
    requires c.refillPerSec < 0.0 && c.capacity >= 2.0
    ensures !OptimalAlways(c)
  {
    var late := c.capacity / (-c.refillPerSec);
    var times := [0.0, late, late];
    var chosen := [false, true, true];
    assert Earned(c, 0.0, late) == -c.capacity;
    EarnedAdds(c, late, late, late);
    hide Earned;
    assert Monotone(times);
    assert Admissible(c, times, chosen) by {
      assert Count(chosen, 1, 2) == 1 && Count(chosen, 1, 3) == 2;
      assert Count(chosen, 2, 2) == 0 && Count(chosen, 2, 3) == 1;
    }
    FirstLevel(c, times);
    LevelNext(c, times, 0);
    LevelNext(c, times, 1);
    LevelDecides(c, times, 0);
    LevelDecides(c, times, 1);
    LevelDecides(c, times, 2);
    hide Level, Accepted, Admissible;
    var mine := Answers(c, times);
    assert Count(mine, 0, 1) == 1 && Count(mine, 0, 2) == 1 && Count(mine, 0, 3) == 1;
    assert Count(chosen, 0, 1) == 0 && Count(chosen, 0, 2) == 1 && Count(chosen, 0, 3) == 2;
  }

  lemma {:induction false} CountPositive(chosen: seq<bool>, n: nat) returns (f: nat)
    requires n <= |chosen| && Count(chosen, 0, n) > 0
    ensures f < n && chosen[f] && Count(chosen, 0, f + 1) == Count(chosen, 0, n)
  {
    if chosen[n - 1] {
      f := n - 1;
    } else {
      f := CountPositive(chosen, n - 1);
    }
  }

  /** Without refill and with room for less than two, an admissible choice has one request at most. */
  lemma AtMostOne(c: RateLimitConfig, times: seq<real>, chosen: seq<bool>)
    requires Monotone(times) && c.refillPerSec <= 0.0 && c.capacity < 2.0
    requires Admissible(c, times, chosen)
    ensures Count(chosen, 0, |times|) <= 1
    ensures Count(chosen, 0, |times|) == 1 ==> c.capacity >= 1.0 && times != []
  {
    hide Earned;
    if Count(chosen, 0, |times|) > 0 {
      var l := CountPositive(chosen, |times|);
      var f := FirstChosen(chosen, 0, l + 1);
      assert WithinBound(c, times, chosen, f, l);
      assert times[f] <= times[l];
      EarnedDrains(c, times[f], times[l]);
    }
  }

  /**
    * Greedy serving is optimal exactly for the configurations that do not drain, or that have room
    * for less than two requests.
    */
  lemma OptimalExactly(c: RateLimitConfig)
    ensures OptimalAlways(c) <==> c.refillPerSec >= 0.0 || c.capacity < 2.0
  {
    if c.refillPerSec < 0.0 && c.capacity >= 2.0 {
      DrainingIsNotOptimal(c);
    } else {
      forall times, chosen | Monotone(times) && Admissible(c, times, chosen)
        ensures Count(chosen, 0, |times|) <= Count(Answers(c, times), 0, |times|)
      {
        if c.refillPerSec >= 0.0 {
          GreedyIsOptimal(c, times, chosen, |times|);
        } else {
          AtMostOne(c, times, chosen);
          if Count(chosen, 0, |times|) == 1 {
            FirstLevel(c, times);
            LevelDecides(c, times, 0);
            CountSplit(Answers(c, times), 0, 1, |times|);
            assert Count(Answers(c, times), 0, 1) == 1;
          }
        }
      }
    }
  }
}
