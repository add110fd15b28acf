/**
  * Persona routing of src/orchestrator/persona_router.rs: keyword scores first, then a per-role
  * round-robin counter among the best-scoring candidates.
  */
module PersonaRouter {
  import opened Types
  import opened Wrappers

  /** The counter is a Rust `usize`, here of 64 bits, advanced by `wrapping_add`. */
  const MODULUS: nat := 0x1_0000_0000_0000_0000

  /** Character classes and case mapping of the Unicode tables. */
  datatype Unicode = Unicode(isAlphanumeric: char -> bool, toLowercase: string -> string)

  datatype Definition = Definition(capabilities: seq<string>, expertise: Option<seq<string>>)

  /** What the agent registry answers at the time of a call. */
  datatype Registry = Registry(personasForRole: AgentRole -> seq<string>, definitions: map<string, Definition>)

  datatype Call = Call(registry: Registry, role: AgentRole, pool: Option<seq<string>>, instructions: string)

  function Keep(s: seq<string>, p: string -> bool): seq<string> {
    if s == [] then [] else (if p(s[0]) then [s[0]] else []) + Keep(s[1..], p)
  }

  lemma {:induction false} KeepMeaning(s: seq<string>, p: string -> bool)
    ensures forall x :: x in Keep(s, p) <==> x in s && p(x)
    ensures |Keep(s, p)| <= |s| && (|Keep(s, p)| == |s| ==> Keep(s, p) == s)
    ensures (forall x | x in s :: p(x)) ==> Keep(s, p) == s
  {
    if s != [] {
      KeepMeaning(s[1..], p);
      assert s == [s[0]] + s[1..];
    }
  }

  lemma KeepUnfold(s: seq<string>, p: string -> bool)
    requires s != []
    ensures Keep(s, p) == (if p(s[0]) then [s[0]] else []) + Keep(s[1..], p)
  {}

  lemma Associate(a: seq<string>, b: seq<string>, c: seq<string>)
    ensures (a + b) + c == a + (b + c)
  {}

  /** What is kept stays in order: with the empty and the one-element case, this law fixes `Keep`. */
  lemma {:induction false} KeepConcat(a: seq<string>, b: seq<string>, p: string -> bool)
    ensures Keep(a + b, p) == Keep(a, p) + Keep(b, p)
  {
    if a == [] {
      assert a + b == b && Keep(a, p) == [];
    } else {
      hide Keep;
      KeepConcat(a[1..], b, p);
      KeepUnfold(a, p);
      KeepUnfold(a + b, p);
      assert (a + b)[0] == a[0] && (a + b)[1..] == a[1..] + b;
      Associate(if p(a[0]) then [a[0]] else [], Keep(a[1..], p), Keep(b, p));
    }
  }

  lemma KeepOne(x: string, p: string -> bool)
    ensures Keep([x], p) == if p(x) then [x] else []
  {
    assert [x][1..] == [];
  }

  ghost function Positions(s: seq<string>, p: string -> bool): set<int> {
    set i | 0 <= i < |s| && p(s[i])
  }

  lemma {:induction false} KeepCount(s: seq<string>, p: string -> bool)
    ensures |Keep(s, p)| == |Positions(s, p)|
  {
    if s == [] {
      assert Positions(s, p) == {};
    } else {
      hide Keep;
      var n := |s| - 1;
      KeepCount(s[..n], p);
      KeepConcat(s[..n], [s[n]], p);
      KeepOne(s[n], p);
      assert s == s[..n] + [s[n]];
      PositionsSnoc(s, p);
      hide Positions;
    }
  }

  lemma PositionsSnoc(s: seq<string>, p: string -> bool)
    requires s != []
    ensures var n := |s| - 1;
            |Positions(s, p)| == |Positions(s[..n], p)| + if p(s[n]) then 1 else 0
  {
    var n := |s| - 1;
    assert Positions(s, p) == Positions(s[..n], p) + (if p(s[n]) then {n} else {});
  }

  // ------------------------------------------------------------------ keywords

  function EndWord(u: Unicode, word: string): seq<string> {
    if word == [] then [] else [u.toLowercase(word)]
  }

  /** The words of `word + s`, where `word` is the unfinished word in front of `s`. */
  function Words(u: Unicode, word: string, s: string): seq<string>
    decreases s
  {
    if s == [] then EndWord(u, word)
    else if u.isAlphanumeric(s[0]) then Words(u, word + [s[0]], s[1..])
    else EndWord(u, word) + Words(u, [], s[1..])
  }

  function Tokenize(u: Unicode, s: string): seq<string> {
    Words(u, [], s)
  }

  /** All characters of a word are alphanumeric. */
  predicate IsWord(u: Unicode, w: string) {
    forall i | 0 <= i < |w| :: u.isAlphanumeric(w[i])
  }

  lemma {:induction false} WordsOfWord(u: Unicode, word: string, w: string)
    requires IsWord(u, w)
    ensures Words(u, word, w) == EndWord(u, word + w)
    decreases w
  {
    if w == [] {
      assert word + w == word;
    } else {
      WordsOfWord(u, word + [w[0]], w[1..]);
      assert word + [w[0]] + w[1..] == word + w;
    }
  }

  lemma {:induction false} WordsSplit(u: Unicode, word: string, s: string, sep: char, t: string)
    requires !u.isAlphanumeric(sep)
    ensures Words(u, word, s + [sep] + t) == Words(u, word, s) + Words(u, [], t)
    decreases s
  {
    var whole := s + [sep] + t;
    if s == [] {
      assert whole[0] == sep && whole[1..] == t;
    } else {
      assert whole[0] == s[0] && whole[1..] == s[1..] + [sep] + t;
      if u.isAlphanumeric(s[0]) {
        WordsSplit(u, word + [s[0]], s[1..], sep, t);
      } else {
        WordsSplit(u, [], s[1..], sep, t);
      }
    }
  }

  /**
    * Two equations that fix tokenization for every text: a text without separators is one lower-cased
    * word (none if it is empty), and a separator divides the words to its left from those to its right.
    */
  lemma TokenizeMeaning(u: Unicode, w: string, s: string, sep: char, t: string)
    requires IsWord(u, w) && !u.isAlphanumeric(sep)
    ensures Tokenize(u, w) == (if w == [] then [] else [u.toLowercase(w)])
    ensures Tokenize(u, s + [sep] + t) == Tokenize(u, s) + Tokenize(u, t)
  {
    WordsOfWord(u, [], w);
    assert [] + w == w;
    WordsSplit(u, [], s, sep, t);
  }

  function TokenizeAll(u: Unicode, terms: seq<string>): seq<string> {
    if terms == [] then [] else Tokenize(u, terms[0]) + TokenizeAll(u, terms[1..])
  }

  function PersonaTokens(u: Unicode, d: Definition): seq<string> {
    TokenizeAll(u, d.capabilities) + if d.expertise.Some? then TokenizeAll(u, d.expertise.value) else []
  }

  function ScorePersona(u: Unicode, words: seq<string>, d: Definition): nat {
    var own := PersonaTokens(u, d);
    |Keep(words, w => w in own)|
  }

  /** A candidate the registry does not know scores 0. */
  function Score(u: Unicode, c: Call, name: string): nat {
    if name in c.registry.definitions
    then ScorePersona(u, Tokenize(u, c.instructions), c.registry.definitions[name]) else 0
  }

  /** A persona scores exactly when one of the instruction words is among its own. */
  lemma ScoreMeaning(u: Unicode, words: seq<string>, d: Definition)
    ensures ScorePersona(u, words, d) > 0 <==> exists w :: w in words && w in PersonaTokens(u, d)
    ensures ScorePersona(u, words, d) == |words| <==> forall w | w in words :: w in PersonaTokens(u, d)
  {
    var own := PersonaTokens(u, d);
    var hits := Keep(words, w => w in own);
    KeepMeaning(words, w => w in own);
    if hits != [] {
      assert hits[0] in hits;
    }
  }

  /** w is a word of one of the persona's capabilities or, if it has a profile, of its expertise. */
  ghost predicate Knows(u: Unicode, d: Definition, w: string) {
    exists term ::
      (term in d.capabilities || (d.expertise.Some? && term in d.expertise.value)) && w in Tokenize(u, term)
  }

  lemma {:induction false} TokenizeAllMeaning(u: Unicode, terms: seq<string>, w: string)
    ensures w in TokenizeAll(u, terms) <==> exists term :: term in terms && w in Tokenize(u, term)
  {
    hide Tokenize;
    if terms != [] {
      TokenizeAllMeaning(u, terms[1..], w);
      assert terms == [terms[0]] + terms[1..];
      if w in Tokenize(u, terms[0]) { assert terms[0] in terms; }
    }
  }

  lemma KnowsMeaning(u: Unicode, d: Definition, w: string)
    ensures w in PersonaTokens(u, d) <==> Knows(u, d, w)
  {
    TokenizeAllMeaning(u, d.capabilities, w);
    if d.expertise.Some? { TokenizeAllMeaning(u, d.expertise.value, w); }
    hide Tokenize, TokenizeAll;
  }

  /** The score is the number of instruction words, repetitions counted, that the persona knows. */
  lemma ScoreIsCount(u: Unicode, words: seq<string>, d: Definition)
    ensures ScorePersona(u, words, d) == |set i | 0 <= i < |words| && Knows(u, d, words[i])|
  {
    var own := PersonaTokens(u, d);
    KeepCount(words, w => w in own);
    forall i | 0 <= i < |words| ensures words[i] in own <==> Knows(u, d, words[i]) {
      KnowsMeaning(u, d, words[i]);
    }
    hide Knows, PersonaTokens, Keep;
    assert Positions(words, w => w in own) == set i | 0 <= i < |words| && Knows(u, d, words[i]);
  }

  /** A candidate's score, for the words of the instructions; a name the registry does not know has none. */
  lemma CandidateScore(u: Unicode, c: Call, name: string)
    ensures var words := Tokenize(u, c.instructions);
            Score(u, c, name)
            == if name !in c.registry.definitions then 0
               else |set i | 0 <= i < |words| && Knows(u, c.registry.definitions[name], words[i])|
  {
    if name in c.registry.definitions {
      ScoreIsCount(u, Tokenize(u, c.instructions), c.registry.definitions[name]);
    }
    hide ScorePersona, Knows, Tokenize;
  }

  // ------------------------------------------------------------------ the choice

  function Candidates(c: Call): seq<string> {
    var ofRole := c.registry.personasForRole(c.role);
    match c.pool
    case Some(p) => Keep(p, n => n in ofRole)
    case None => ofRole
  }

  /** A name that may be picked: it has the role and, where a pool is given, is in the pool. */
  predicate Eligible(c: Call, name: string) {
    name in c.registry.personasForRole(c.role) && (c.pool.Some? ==> name in c.pool.value)
  }

  /** The candidates are the eligible names, in the order of the pool or else of the registry. */
  lemma CandidateMeaning(c: Call)
    ensures forall n :: n in Candidates(c) <==> Eligible(c, n)
    ensures Candidates(c) == [] <==> forall n :: !Eligible(c, n)
    ensures c.pool.None? ==> Candidates(c) == c.registry.personasForRole(c.role)
    ensures c.pool.Some? && (forall n | n in c.pool.value :: n in c.registry.personasForRole(c.role)) ==>
              Candidates(c) == c.pool.value
  {
    var ofRole := c.registry.personasForRole(c.role);
    if c.pool.Some? { KeepMeaning(c.pool.value, n => n in ofRole); }
    if Candidates(c) != [] { assert Candidates(c)[0] in Candidates(c); }
  }

  lemma MaximalMeaning(u: Unicode, c: Call, name: string)
    ensures Maximal(u, c, name)
       <==> Eligible(c, name) && forall n | Eligible(c, n) :: Score(u, c, n) <= Score(u, c, name)
  {
    CandidateMeaning(c);
    hide Candidates, Score, Eligible;
  }

  predicate Maximal(u: Unicode, c: Call, name: string) {
    name in Candidates(c) && forall n | n in Candidates(c) :: Score(u, c, n) <= Score(u, c, name)
  }

  /** The candidates of maximal score, in candidate order. */
  function Best(u: Unicode, c: Call): seq<string> {
    Keep(Candidates(c), n => Maximal(u, c, n))
  }

  predicate TieBreak(u: Unicode, c: Call) {
    |Best(u, c)| >= 2
  }

  function Counter(counters: map<AgentRole, nat>, role: AgentRole): nat {
    if role in counters then counters[role] else 0
  }

  /** The pick, given the counters before the call. */
  function Pick(u: Unicode, counters: map<AgentRole, nat>, c: Call): Option<string> {
    var best := Best(u, c);
    if best == [] then None else Some(best[Counter(counters, c.role) % |best|])
  }

  function Next(u: Unicode, counters: map<AgentRole, nat>, c: Call): map<AgentRole, nat> {
    if TieBreak(u, c) then counters[c.role := (Counter(counters, c.role) + 1) % MODULUS] else counters
  }

  method MaxScore(scores: seq<nat>) returns (m: nat)
    ensures scores == [] ==> m == 0
    ensures scores != [] ==> m in scores
    ensures forall s | s in scores :: s <= m
  {
    m := 0;
    for i := 0 to |scores|
      invariant i == 0 ==> m == 0
      invariant i > 0 ==> m in scores[..i]
      invariant forall s | s in scores[..i] :: s <= m
    {
      assert scores[..i + 1] == scores[..i] + [scores[i]];
      if scores[i] >= m {
        m := scores[i];
      }
    }
    assert scores[..|scores|] == scores;
  }

  function Scores(u: Unicode, c: Call): (scores: seq<nat>)
    ensures |scores| == |Candidates(c)|
    ensures forall i | 0 <= i < |scores| :: scores[i] == Score(u, c, Candidates(c)[i])
  {
    var cs := Candidates(c);
    seq(|cs|, i requires 0 <= i < |cs| => Score(u, c, cs[i]))
  }

  lemma TopScore(u: Unicode, c: Call, m: nat)
    requires Candidates(c) != [] && m in Scores(u, c) && forall s | s in Scores(u, c) :: s <= m
    ensures forall n | n in Candidates(c) :: Score(u, c, n) <= m
    ensures exists n :: n in Candidates(c) && Score(u, c, n) == m
  {
    hide Score, Candidates;
    var cs, scores := Candidates(c), Scores(u, c);
    hide Scores;
    forall n | n in cs ensures Score(u, c, n) <= m {
      var i: nat :| i < |cs| && cs[i] == n;
      assert scores[i] in scores;
    }
    var k: nat :| k < |scores| && scores[k] == m;
    assert cs[k] in cs && Score(u, c, cs[k]) == m;
  }

  lemma KeepSame(s: seq<string>, p: string -> bool, q: string -> bool)
    requires forall x | x in s :: p(x) <==> q(x)
    ensures Keep(s, p) == Keep(s, q)
  {}

  /** What the candidates of the top score m are. */
  lemma TiedAreBest(u: Unicode, c: Call, m: nat)
    requires forall n | n in Candidates(c) :: Score(u, c, n) <= m
    requires exists n :: n in Candidates(c) && Score(u, c, n) == m
    ensures Keep(Candidates(c), n => Score(u, c, n) == m) == Best(u, c)
    ensures m == 0 ==> Best(u, c) == Candidates(c)
    ensures Best(u, c) != []
  {
    hide Score, Candidates, Keep;
    KeepMeaning(Candidates(c), x => Maximal(u, c, x));
    var n :| n in Candidates(c) && Score(u, c, n) == m;
    assert Maximal(u, c, n) && n in Best(u, c);
    KeepSame(Candidates(c), x => Score(u, c, x) == m, x => Maximal(u, c, x));
  }

  lemma OnlyCandidate(u: Unicode, c: Call)
    requires |Candidates(c)| == 1
    ensures Best(u, c) == Candidates(c)
  {
    hide Score, Candidates, Keep;
    var cs := Candidates(c);
    KeepMeaning(cs, n => Maximal(u, c, n));
    assert forall n | n in cs :: n == cs[0];
  }

  /** Members of `Best` are exactly the maximal candidates; there is one unless there are no candidates. */
  lemma BestMeaning(u: Unicode, c: Call)
    ensures forall n :: n in Best(u, c) <==> Maximal(u, c, n)
    ensures Best(u, c) == [] <==> Candidates(c) == []
  {
    hide Score, Candidates, Keep;
    var cs := Candidates(c);
    KeepMeaning(cs, n => Maximal(u, c, n));
    if cs != [] {
      var best := BestPosition(u, c, |cs|);
      assert cs[best] in cs;
      assert Maximal(u, c, cs[best]);
      assert cs[best] in Best(u, c);
    }
  }

  lemma {:induction false} BestPosition(u: Unicode, c: Call, k: nat) returns (best: nat)
    requires 0 < k <= |Candidates(c)|
    ensures best < k
    ensures forall i | 0 <= i < k :: Score(u, c, Candidates(c)[i]) <= Score(u, c, Candidates(c)[best])
  {
    hide Score, Candidates;
    if k == 1 {
      best := 0;
    } else {
      best := BestPosition(u, c, k - 1);
      if Score(u, c, Candidates(c)[k - 1]) > Score(u, c, Candidates(c)[best]) {
        best := k - 1;
      }
    }
  }

  class Router {
    const unicode: Unicode
    var roundRobin: map<AgentRole, nat>

    constructor (u: Unicode)
      ensures unicode == u && roundRobin == map[]
    {
      unicode, roundRobin := u, map[];
    }

    /**
      * No pick exactly without candidates; otherwise one of the best-scoring candidates. The counter
      * of the role advances on a real tie only, and no other counter ever does.
      */
    method PickForRole(c: Call) returns (pick: Option<string>)
      modifies this
      ensures pick.Some? ==> pick.value in c.registry.personasForRole(c.role)
      ensures pick.Some? && c.pool.Some? ==> pick.value in c.pool.value
      ensures pick.None? <==> forall n :: !Eligible(c, n)
      ensures pick.Some? ==> forall n | Eligible(c, n) :: Score(unicode, c, n) <= Score(unicode, c, pick.value)
      ensures |Best(unicode, c)| < 2 ==> roundRobin == old(roundRobin)
      ensures |Best(unicode, c)| >= 2 ==>
                var k := if c.role in old(roundRobin) then old(roundRobin)[c.role] else 0;
                && pick == Some(Best(unicode, c)[k % |Best(unicode, c)|])
                && roundRobin == old(roundRobin)[c.role := (k + 1) % 0x1_0000_0000_0000_0000]
      ensures pick == Pick(unicode, old(roundRobin), c)
      ensures roundRobin == Next(unicode, old(roundRobin), c)
    {
      CandidateMeaning(c);
      BestMeaning(unicode, c);
      hide Candidates, Score, Scores, Best, Maximal, Keep, Eligible;
      var candidates := Candidates(c);
      if candidates == [] {
        return None;
      }
      if |candidates| == 1 {
        OnlyCandidate(unicode, c);
        BestIsEligible(unicode, c, 0);
        return Some(candidates[0]);
      }
      var maxScore := MaxScore(Scores(unicode, c));
      TopScore(unicode, c, maxScore);
      TiedAreBest(unicode, c, maxScore);
      ghost var best := Best(unicode, c);
      var u := unicode;
      var tied := if maxScore == 0 then candidates else Keep(candidates, n => Score(u, c, n) == maxScore);
      assert tied == best;
      if |tied| == 1 {
        BestIsEligible(unicode, c, 0);
        return Some(tied[0]);
      }
      var idx := if c.role in roundRobin then roundRobin[c.role] else 0;
      BestIsEligible(unicode, c, idx % |tied|);
      roundRobin := roundRobin[c.role := (idx + 1) % MODULUS];
      pick := Some(tied[idx % |tied|]);
    }
  }

  lemma BestIsEligible(u: Unicode, c: Call, i: nat)
    requires i < |Best(u, c)|
    ensures var name := Best(u, c)[i];
            && name in c.registry.personasForRole(c.role)
            && (c.pool.Some? ==> name in c.pool.value)
            && forall n | Eligible(c, n) :: Score(u, c, n) <= Score(u, c, name)
  {
    var name := Best(u, c)[i];
    assert name in Best(u, c);
    BestMeaning(u, c);
    MaximalMeaning(u, c, name);
    hide Best, Score, Maximal;
  }

  // ------------------------------------------------------------------ whole runs

  function CountersAfter(u: Unicode, counters: map<AgentRole, nat>, calls: seq<Call>): map<AgentRole, nat>
    decreases calls
  {
    if calls == [] then counters else CountersAfter(u, Next(u, counters, calls[0]), calls[1..])
  }

  /** The picks at the tie-breaks of one role, in call order. */
  function TieBreakPicks(u: Unicode, counters: map<AgentRole, nat>, calls: seq<Call>, role: AgentRole)
    : seq<Option<string>>
    decreases calls
  {
    if calls == [] then []
    else
      (if calls[0].role == role && TieBreak(u, calls[0]) then [Pick(u, counters, calls[0])] else [])
      + TieBreakPicks(u, Next(u, counters, calls[0]), calls[1..], role)
  }

  /** A sequence of calls made on one router. */
  method Serve(router: Router, calls: seq<Call>) returns (picks: seq<Option<string>>)
    modifies router
    ensures |picks| == |calls|
    ensures forall i | 0 <= i < |calls| ::
              var counters := CountersAfter(router.unicode, old(router.roundRobin), calls[..i]);
              picks[i] == Pick(router.unicode, counters, calls[i])
    ensures router.roundRobin == CountersAfter(router.unicode, old(router.roundRobin), calls)
  {
    picks := [];
    hide Pick, Next, Candidates, Maximal, TieBreak;
    ghost var u, start := router.unicode, router.roundRobin;
    for i := 0 to |calls|
      invariant |picks| == i
      invariant router.roundRobin == CountersAfter(u, start, calls[..i])
      invariant forall k | 0 <= k < i :: picks[k] == Pick(u, CountersAfter(u, start, calls[..k]), calls[k])
    {
      var pick := router.PickForRole(calls[i]);
      picks := picks + [pick];
      CountersSnoc(u, start, calls[..i], calls[i]);
      assert calls[..i + 1] == calls[..i] + [calls[i]];
      hide CountersAfter;
    }
    assert calls[..|calls|] == calls;
  }

  lemma {:induction false} CountersSnoc(u: Unicode, counters: map<AgentRole, nat>, calls: seq<Call>, c: Call)
    ensures CountersAfter(u, counters, calls + [c]) == Next(u, CountersAfter(u, counters, calls), c)
    decreases calls
  {
    hide Next;
    if calls == [] {
      assert [c][1..] == [];
    } else {
      CountersSnoc(u, Next(u, counters, calls[0]), calls[1..], c);
      assert (calls + [c])[1..] == calls[1..] + [c];
    }
  }

  /** The position in a tie list of n names that the j-th tie-break picks, from counter `start` modulo m. */
  function Position(m: nat, start: nat, j: nat, n: nat): (p: nat)
    requires m > 0 && n > 0
    ensures p < n
  {
    (start + j) % m % n
  }

  lemma MultipleGrows(n: nat, d: int)
    ensures d >= 1 ==> n * d >= n
    ensures d <= -1 ==> n * d + n <= 0
  {}

  lemma Remainder(x: int, k: int, r: int, n: nat)
    requires n > 0 && x == n * k + r && 0 <= r < n
    ensures x % n == r
  {
    var d := x / n - k;
    assert n * d == n * (x / n) - n * k;
    MultipleGrows(n, d);
  }

  lemma WrapStep(m: nat, start: nat, j: nat)
    requires m > 0
    ensures ((start + 1) % m + j) % m == (start + 1 + j) % m
  {
    var x := start + 1;
    var y := x % m + j;
    assert x == m * (x / m) + x % m;
    assert y == m * (y / m) + y % m;
    assert m * (x / m) + m * (y / m) == m * (x / m + y / m);
    Remainder(x + j, x / m + y / m, y % m, m);
  }

  ghost predicate SameTies(u: Unicode, calls: seq<Call>, role: AgentRole, tied: seq<string>) {
    forall c | c in calls && c.role == role && TieBreak(u, c) :: Best(u, c) == tied
  }

  /** The picks go round the tie list from counter `start` on and leave the counter at `after`. */
  ghost predicate Rotates(picks: seq<Option<string>>, start: nat, after: nat, tied: seq<string>)
    requires tied != []
  {
    && after == (start + |picks|) % MODULUS
    && forall j | 0 <= j < |picks| :: picks[j] == Some(tied[Position(MODULUS, start, j, |tied|)])
  }

  /**
    * Calls for other roles, and calls without a tie, leave no trace: the j-th tie-break of a role
    * picks the position that only the role's starting counter and j determine.
    */
  lemma {:induction false} TieBreaksRotate(u: Unicode, counters: map<AgentRole, nat>, calls: seq<Call>,
                                           role: AgentRole, tied: seq<string>)
    requires SameTies(u, calls, role, tied) && tied != []
    requires Counter(counters, role) < MODULUS
    ensures Rotates(TieBreakPicks(u, counters, calls, role), Counter(counters, role),
                    Counter(CountersAfter(u, counters, calls), role), tied)
    decreases calls
  {
    hide Rotates, Best, Position, Pick, Next, Counter, SameTies, TieBreak;
    if calls == [] {
      NoTurn(Counter(counters, role), tied);
    } else {
      var c, next := calls[0], Next(u, counters, calls[0]);
      SameTiesTail(u, calls, role, tied);
      NextCounter(u, counters, c, role);
      TieBreaksRotate(u, next, calls[1..], role, tied);
      var rest := TieBreakPicks(u, next, calls[1..], role);
      if c.role == role && TieBreak(u, c) {
        PickAtTie(u, counters, c);
        OneMoreTurn(Pick(u, counters, c), rest, Counter(counters, role),
                    Counter(CountersAfter(u, next, calls[1..]), role), tied);
      } else {
        assert TieBreakPicks(u, counters, calls, role) == rest;
      }
    }
  }

  lemma NoTurn(start: nat, tied: seq<string>)
    requires tied != [] && start < MODULUS
    ensures Rotates([], start, start, tied)
  {
    Remainder(start, 0, start, MODULUS);
  }

  lemma OneMoreTurn(pick: Option<string>, rest: seq<Option<string>>, start: nat, after: nat, tied: seq<string>)
    requires tied != [] && pick == Some(tied[Position(MODULUS, start, 0, |tied|)])
    requires Rotates(rest, (start + 1) % MODULUS, after, tied)
    ensures Rotates([pick] + rest, start, after, tied)
  {
    WrapStep(MODULUS, start, |rest|);
    assert after == (start + |[pick] + rest|) % MODULUS;
    forall j | 0 <= j < |[pick] + rest|
      ensures ([pick] + rest)[j] == Some(tied[Position(MODULUS, start, j, |tied|)])
    {
      if j > 0 {
        WrapStep(MODULUS, start, j - 1);
        assert ([pick] + rest)[j] == rest[j - 1];
      }
    }
  }

  lemma PickAtTie(u: Unicode, counters: map<AgentRole, nat>, c: Call)
    requires TieBreak(u, c) && Counter(counters, c.role) < MODULUS
    ensures Pick(u, counters, c)
            == Some(Best(u, c)[Position(MODULUS, Counter(counters, c.role), 0, |Best(u, c)|)])
  {
    hide Best, Counter;
    Remainder(Counter(counters, c.role), 0, Counter(counters, c.role), MODULUS);
  }

  lemma SameTiesTail(u: Unicode, calls: seq<Call>, role: AgentRole, tied: seq<string>)
    requires calls != [] && SameTies(u, calls, role, tied)
    ensures SameTies(u, calls[1..], role, tied)
    ensures calls[0].role == role && TieBreak(u, calls[0]) ==> Best(u, calls[0]) == tied
  {
    hide Best, TieBreak;
    assert calls[0] in calls;
  }

  lemma NextCounter(u: Unicode, counters: map<AgentRole, nat>, c: Call, role: AgentRole)
    ensures Counter(Next(u, counters, c), role)
            == if c.role == role && TieBreak(u, c) then (Counter(counters, role) + 1) % MODULUS
               else Counter(counters, role)
  {
    hide Best;
  }

  // ------------------------------------------------------------------ fairness

  /** n consecutive tie-breaks over n names pick pairwise different positions. */
  ghost predicate FairRound(m: nat, start: nat, n: nat)
    requires m > 0 && n > 0
  {
    forall i: nat, j: nat | i < j < n :: Position(m, start, i, n) != Position(m, start, j, n)
  }

  lemma NearbyDiffer(a: int, b: int, n: nat)
    requires n > 0 && a < b < a + n
    ensures a % n != b % n
  {
    var k := b / n - a / n;
    assert b - a == n * k + (b % n - a % n);
    MultipleGrows(n, k);
  }

  lemma WrapKeepsResidue(m: nat, x: nat, n: nat)
    requires m > 0 && n > 0 && m % n == 0
    ensures x % m % n == x % n
  {
    var k, q, y := x / m, m / n, x % m;
    assert m == n * q;
    assert x == m * k + y;
    assert m * k == n * (q * k);
    assert y == n * (y / n) + y % n;
    assert n * (q * k) + n * (y / n) == n * (q * k + y / n);
    Remainder(x, q * k + y / n, y % n, n);
  }

  lemma BeforeWrap(m: nat, start: nat, j: nat, n: nat)
    requires start + j < m && n > 0
    ensures Position(m, start, j, n) == (start + j) % n
  {
    Remainder(start + j, 0, start + j, m);
  }

  lemma AfterWrap(m: nat, start: nat, j: nat, n: nat)
    requires m <= start + j < m + m && start + j - m < n
    ensures Position(m, start, j, n) == start + j - m
  {
    Remainder(start + j, 1, start + j - m, m);
    Remainder(start + j - m, 0, start + j - m, n);
  }

  /** Where the counter wraps inside a round whose length does not divide m, some position comes twice. */
  lemma WrapRepeats(m: nat, start: nat, n: nat)
    requires n > 0 && start < m < start + n && m % n != 0
    ensures !FairRound(m, start, n)
  {
    var wrap, q, k := m - start, m % n, m / n;
    assert m == n * k + q;
    if q <= wrap {
      BeforeWrap(m, start, wrap - q, n);
      Remainder(start + (wrap - q), k, 0, n);
      AfterWrap(m, start, wrap, n);
      hide Position;
      assert Position(m, start, wrap - q, n) == Position(m, start, wrap, n);
    } else {
      BeforeWrap(m, start, 0, n);
      Remainder(start, k, q - wrap, n);
      QuotientBound(m, n);
      AfterWrap(m, start, q, n);
      hide Position;
      assert Position(m, start, 0, n) == Position(m, start, q, n);
    }
  }

  lemma QuotientBound(m: nat, n: nat)
    requires n > 0
    ensures m % n <= m
  {
    assert m == n * (m / n) + m % n;
    assert m / n >= 0 && n * (m / n) >= 0;
  }

  /**
    * When n consecutive tie-breaks over n names are fair: exactly when the counter does not wrap on
    * the way, or n divides its modulus.
    */
  lemma FairExactly(m: nat, start: nat, n: nat)
    requires n > 0 && start < m
    ensures FairRound(m, start, n) <==> start + n <= m || m % n == 0
  {
    if start + n <= m || m % n == 0 {
      forall i: nat, j: nat | i < j < n ensures Position(m, start, i, n) != Position(m, start, j, n) {
        NearbyDiffer(start + i, start + j, n);
        ResidueOf(m, start, i, n);
        ResidueOf(m, start, j, n);
        hide Position;
      }
    } else {
      WrapRepeats(m, start, n);
    }
  }

  /** A round that is not fair: three names, and a counter at its last value. */
  lemma WrapIsUnfair()
    ensures !FairRound(MODULUS, MODULUS - 1, 3)
  {
    FairExactly(MODULUS, MODULUS - 1, 3);
  }

  lemma ResidueOf(m: nat, start: nat, j: nat, n: nat)
    requires j < n && start < m && (start + n <= m || m % n == 0)
    ensures Position(m, start, j, n) == (start + j) % n
  {
    if m % n == 0 {
      WrapKeepsResidue(m, start + j, n);
    } else {
      BeforeWrap(m, start, j, n);
    }
  }

  /**
    * Any n consecutive tie-breaks of a role over the same n different names pick every name exactly
    * once, whatever calls come between them, if and only if the counter does not wrap within them or
    * n divides 2^64.
    */
  lemma EachNameOnce(u: Unicode, counters: map<AgentRole, nat>, calls: seq<Call>, role: AgentRole, tied: seq<string>)
    requires SameTies(u, calls, role, tied) && tied != []
    requires forall i, j | 0 <= i < j < |tied| :: tied[i] != tied[j]
    requires Counter(counters, role) < MODULUS
    requires |TieBreakPicks(u, counters, calls, role)| == |tied|
    ensures var picks := TieBreakPicks(u, counters, calls, role);
            (forall i, j | 0 <= i < j < |picks| :: picks[i] != picks[j])
            <==> Counter(counters, role) + |tied| <= MODULUS || MODULUS % |tied| == 0
  {
    var picks, start, n := TieBreakPicks(u, counters, calls, role), Counter(counters, role), |tied|;
    TieBreaksRotate(u, counters, calls, role, tied);
    FairExactly(MODULUS, start, n);
    hide TieBreakPicks, Counter, Position, SameTies;
    if FairRound(MODULUS, start, n) {
      forall i, j | 0 <= i < j < n ensures picks[i] != picks[j] {
        assert picks[i] == Some(tied[Position(MODULUS, start, i, n)]);
        assert picks[j] == Some(tied[Position(MODULUS, start, j, n)]);
      }
    } else {
      var i: nat, j: nat :| i < j < n && Position(MODULUS, start, i, n) == Position(MODULUS, start, j, n);
      assert picks[i] == picks[j];
    }
  }

  /** Over the whole of a fair round no name is left out. */
  lemma NobodyLeftOut(u: Unicode, counters: map<AgentRole, nat>, calls: seq<Call>, role: AgentRole, tied: seq<string>)
    requires SameTies(u, calls, role, tied) && tied != [] && Counter(counters, role) < MODULUS
    requires Counter(counters, role) + |tied| <= MODULUS || MODULUS % |tied| == 0
    requires |TieBreakPicks(u, counters, calls, role)| == |tied|
    ensures forall name | name in tied :: Some(name) in TieBreakPicks(u, counters, calls, role)
  {
    var picks, start, n := TieBreakPicks(u, counters, calls, role), Counter(counters, role), |tied|;
    TieBreaksRotate(u, counters, calls, role, tied);
    hide TieBreakPicks, Counter, SameTies, Position;
    forall name | name in tied ensures Some(name) in picks {
      var p: nat :| p < n && tied[p] == name;
      var j := Turn(MODULUS, start, p, n);
      assert picks[j] == Some(tied[Position(MODULUS, start, j, n)]);
    }
  }

  /** The tie-break of a fair round that reaches position p. */
  lemma Turn(m: nat, start: nat, p: nat, n: nat) returns (j: nat)
    requires p < n && start < m && (start + n <= m || m % n == 0)
    ensures j < n && Position(m, start, j, n) == p
  {
    j := (p - start) % n;
    ShiftedResidue(start, p, n);
    ResidueOf(m, start, j, n);
  }

  lemma ShiftedResidue(start: nat, p: nat, n: nat)
    requires p < n
    ensures (start + (p - start) % n) % n == p
  {
    var d := p - start;
    assert d == n * (d / n) + d % n;
    assert start + d % n == n * (-(d / n)) + p;
    Remainder(start + d % n, -(d / n), p, n);
  }
}
