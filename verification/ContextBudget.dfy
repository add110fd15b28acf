/**
  * Context budgeting of src/context/mod.rs: deduplication, summarising, and filling each section of
  * the prompt up to its share of the context window. Numbers are exact reals; lower-casing, which
  * follows Unicode tables, is a parameter.
  */
module ContextBudget {
  import Text
  import Utf8

  datatype ContextKind = System | Instructions | History | Retrieval | ToolResults

  datatype Chunk = Chunk(id: string, kind: ContextKind, content: string, priority: real)

  datatype OptimizedContext = OptimizedContext(
    system: seq<string>,
    instructions: seq<string>,
    history: seq<string>,
    retrieval: seq<string>,
    toolResults: seq<string>,
    tokenEstimate: nat)

  // ------------------------------------------------------------------ estimates

  /** Number of words, `inWord` telling whether one is under way. */
  function Words(s: string, inWord: bool): nat {
    if s == [] then 0
    else if Text.IsWhitespace(s[0]) then Words(s[1..], false)
    else (if inWord then 0 else 1) + Words(s[1..], true)
  }

  /** Words need separators: at most every other character starts one. */
  lemma {:induction false} WordBound(s: string, inWord: bool)
    ensures 2 * Words(s, inWord) <= |s| + if inWord then 0 else 1
  {
    if s != [] { WordBound(s[1..], !Text.IsWhitespace(s[0])); }
  }

  lemma {:induction false} WordsOfWord(s: string, inWord: bool)
    requires forall i | 0 <= i < |s| :: !Text.IsWhitespace(s[i])
    ensures Words(s, inWord) == if s == [] || inWord then 0 else 1
  {
    if s != [] { WordsOfWord(s[1..], true); }
  }

  lemma {:induction false} WordsSplit(s: string, sep: char, t: string, inWord: bool)
    requires Text.IsWhitespace(sep)
    ensures Words(s + [sep] + t, inWord) == Words(s, inWord) + Words(t, false)
    decreases s
  {
    var whole := s + [sep] + t;
    if s == [] {
      assert whole[0] == sep && whole[1..] == t;
    } else {
      assert whole[0] == s[0] && whole[1..] == s[1..] + [sep] + t;
      WordsSplit(s[1..], sep, t, !Text.IsWhitespace(s[0]));
    }
  }

  /**
    * Two equations that fix the word count of every text: a text without white space is one word (none
    * if it is empty), and a white-space character divides the words to its left from those to its right.
    */
  lemma WordsMeaning(w: string, s: string, sep: char, t: string)
    requires (forall i | 0 <= i < |w| :: !Text.IsWhitespace(w[i])) && Text.IsWhitespace(sep)
    ensures Words(w, false) == if w == [] then 0 else 1
    ensures Words(s + [sep] + t, false) == Words(s, false) + Words(t, false)
  {
    WordsOfWord(w, false);
    WordsSplit(s, sep, t, false);
  }

  function Ceil(r: real): int { -((-r).Floor) }

  function MaxReal(a: real, b: real): real { if a >= b then a else b }

  function EstimateTokens(s: string): (n: nat) {
    var whitespaceEst := Words(s, false) as real * 1.3;
    var charEst := |s| as real / 3.5;
    var n := Ceil(MaxReal(whitespaceEst, charEst));
    assert MaxReal(whitespaceEst, charEst) >= 0.0;
    n
  }

  /** The estimate is the least number that both estimates allow. */
  lemma EstimateMeaning(s: string, k: nat)
    ensures EstimateTokens(s) <= k <==> 13 * Words(s, false) <= 10 * k && 2 * |s| <= 7 * k
  {
    var w, n := Words(s, false), |s|;
    var m := MaxReal(w as real * 1.3, n as real / 3.5);
    assert EstimateTokens(s) <= k <==> m <= k as real;
    assert w as real * 1.3 <= k as real <==> 13 * w <= 10 * k;
    assert n as real / 3.5 <= k as real <==> 2 * n <= 7 * k;
  }

  function TotalTokens(items: seq<string>): nat {
    if items == [] then 0 else TotalTokens(items[..|items| - 1]) + EstimateTokens(items[|items| - 1])
  }

  /** The total of a list is the sum over its items. */
  lemma {:induction false} TotalTokensAdds(a: seq<string>, b: seq<string>, s: string)
    ensures TotalTokens(a + b) == TotalTokens(a) + TotalTokens(b)
    ensures TotalTokens([s]) == EstimateTokens(s)
  {
    hide EstimateTokens;
    assert [s][..0] == [];
    if b == [] {
      assert a + b == a;
    } else {
      var n := |b| - 1;
      TotalTokensAdds(a, b[..n], s);
      assert (a + b)[..|a + b| - 1] == a + b[..n];
    }
  }

  // ------------------------------------------------------------------ summarising

  const MARKER := "\n... [summary-trimmed] ...\n"
  const TRIGGER: nat := 600
  const SUMMARY_CHARS: nat := 480

  function FirstChars(s: string, n: nat): string { if |s| <= n then s else s[..n] }
  function LastChars(s: string, n: nat): string { if |s| <= n then s else s[|s| - n..] }

  /** `summarize_text`: the length test is in bytes, head and tail are counted in characters. */
  function SummarizeText(s: string, maxChars: nat): string {
    if |Utf8.Encode(s)| <= maxChars then s
    else FirstChars(s, maxChars / 2) + MARKER + LastChars(s, maxChars / 2)
  }

  function SummarizeChunk(c: Chunk): Chunk {
    if EstimateTokens(c.content) > TRIGGER then
      c.(content := SummarizeText(c.content, SUMMARY_CHARS),
         priority := if c.priority + 0.05 <= 1.0 then c.priority + 0.05 else 1.0)
    else c
  }

  lemma {:induction false} BytesCoverChars(s: string)
    ensures |Utf8.Encode(s)| >= |s|
  {
    if s != [] { BytesCoverChars(s[1..]); }
  }

  /** A text that triggers a summary is long enough for head and tail not to overlap. */
  lemma TriggerMeansLong(s: string)
    requires EstimateTokens(s) > TRIGGER
    ensures |s| >= 923 && |Utf8.Encode(s)| > SUMMARY_CHARS
  {
    EstimateMeaning(s, TRIGGER);
    WordBound(s, false);
    BytesCoverChars(s);
  }

  /** The summary of such a text has exactly 507 characters and estimates to at most 331 tokens. */
  lemma SummaryIsShort(s: string)
    requires EstimateTokens(s) > TRIGGER
    ensures |s| >= 480
    ensures var t := SummarizeText(s, SUMMARY_CHARS);
            && t == s[..240] + "\n... [summary-trimmed] ...\n" + s[|s| - 240..]
            && |t| == 507 && EstimateTokens(t) <= 331
  {
    TriggerMeansLong(s);
    hide EstimateTokens;
    var t := SummarizeText(s, SUMMARY_CHARS);
    assert |MARKER| == 27;
    WordBound(t, false);
    EstimateMeaning(t, 331);
  }

  /** Which chunks are summarised, and what becomes of them: head and tail, and a slightly higher priority. */
  lemma SummarizeMeaning(c: Chunk)
    ensures var s, n := c.content, |c.content|;
            if EstimateTokens(s) <= 600 then SummarizeChunk(c) == c
            else n >= 480 && SummarizeChunk(c)
                 == Chunk(c.id, c.kind, s[..240] + "\n... [summary-trimmed] ...\n" + s[n - 240..],
                          if c.priority + 0.05 <= 1.0 then c.priority + 0.05 else 1.0)
  {
    if EstimateTokens(c.content) > 600 { SummaryIsShort(c.content); }
    hide EstimateTokens, SummarizeText;
  }

  /** After summarising, every chunk estimates to at most 600 tokens, and a second pass changes nothing. */
  lemma SummarizingSettles(c: Chunk)
    ensures EstimateTokens(SummarizeChunk(c).content) <= 600
    ensures SummarizeChunk(SummarizeChunk(c)) == SummarizeChunk(c)
    ensures SummarizeChunk(c).kind == c.kind && SummarizeChunk(c).id == c.id
  {
    if EstimateTokens(c.content) > TRIGGER { SummaryIsShort(c.content); }
    hide EstimateTokens, SummarizeText;
  }

  function SummarizeAll(cs: seq<Chunk>): (r: seq<Chunk>)
    ensures |r| == |cs| && forall i | 0 <= i < |cs| :: r[i] == SummarizeChunk(cs[i])
  {
    seq(|cs|, i requires 0 <= i < |cs| => SummarizeChunk(cs[i]))
  }

  // ------------------------------------------------------------------ deduplication

  function Normalized(c: Chunk, lower: string -> string): string {
    lower(Text.Trim(c.content))
  }

  /** Chunk i is the first with its non-empty normalised content. */
  predicate FirstOfItsKind(cs: seq<Chunk>, lower: string -> string, i: nat)
    requires i < |cs|
  {
    && Normalized(cs[i], lower) != []
    && forall j | 0 <= j < i :: Normalized(cs[j], lower) != Normalized(cs[i], lower)
  }

  /** The chunks that come first with their content, in order. */
  function Deduped(cs: seq<Chunk>, lower: string -> string, n: nat): seq<Chunk>
    requires n <= |cs|
  {
    if n == 0 then []
    else Deduped(cs, lower, n - 1) + if FirstOfItsKind(cs, lower, n - 1) then [cs[n - 1]] else []
  }

  /** `dedup_chunks`. */
  method DedupChunks(cs: seq<Chunk>, lower: string -> string) returns (out: seq<Chunk>)
    ensures out == Deduped(cs, lower, |cs|)
  {
    var seen: set<string> := {};
    out := [];
    for i := 0 to |cs|
      invariant out == Deduped(cs, lower, i)
      invariant forall x :: x in seen <==> x != [] && exists j :: 0 <= j < i && Normalized(cs[j], lower) == x
    {
      var normalized := Normalized(cs[i], lower);
      if normalized == [] {
        continue;
      }
      if normalized !in seen {
        seen := seen + {normalized};
        out := out + [cs[i]];
      }
    }
  }

  /** First of its kind: not blank, and no earlier chunk has the same trimmed content in lower case. */
  lemma FirstMeaning(cs: seq<Chunk>, lower: string -> string, i: nat)
    requires i < |cs|
    ensures FirstOfItsKind(cs, lower, i)
       <==> lower(Text.Trim(cs[i].content)) != ""
            && forall j | 0 <= j < i :: lower(Text.Trim(cs[j].content)) != lower(Text.Trim(cs[i].content))
  {}

  /** What is kept, place by place: exactly the chunks that come first with their content, in order. */
  lemma {:induction false} DedupedPlaces(cs: seq<Chunk>, lower: string -> string, n: nat) returns (ks: seq<nat>)
    requires n <= |cs|
    ensures |ks| == |Deduped(cs, lower, n)|
    ensures forall i | 0 <= i < |ks| :: ks[i] < n && Deduped(cs, lower, n)[i] == cs[ks[i]]
    ensures forall i, j | 0 <= i < j < |ks| :: ks[i] < ks[j]
    ensures forall k: nat | k < n :: FirstOfItsKind(cs, lower, k) <==> k in ks
  {
    hide FirstOfItsKind;
    ks := [];
    if n > 0 {
      ks := DedupedPlaces(cs, lower, n - 1);
      if FirstOfItsKind(cs, lower, n - 1) { ks := ks + [n - 1]; }
    }
  }

  /** Kept chunks are first occurrences, so no two have the same normalised content. */
  lemma {:induction false} DedupedAreFirst(cs: seq<Chunk>, lower: string -> string, n: nat, i: nat) returns (k: nat)
    requires n <= |cs| && i < |Deduped(cs, lower, n)|
    ensures k < n && cs[k] == Deduped(cs, lower, n)[i] && FirstOfItsKind(cs, lower, k)
    ensures forall j | i < j < |Deduped(cs, lower, n)| ::
              Normalized(Deduped(cs, lower, n)[j], lower) != Normalized(cs[k], lower)
  {
    hide Normalized;
    var d := Deduped(cs, lower, n - 1);
    if i < |d| {
      k := DedupedAreFirst(cs, lower, n - 1, i);
    } else {
      k := n - 1;
    }
  }

  /** Every non-blank content is kept once. */
  lemma {:induction false} DedupedCovers(cs: seq<Chunk>, lower: string -> string, n: nat, k: nat) returns (i: nat)
    requires k < n <= |cs| && Normalized(cs[k], lower) != []
    ensures i < |Deduped(cs, lower, n)| && Normalized(Deduped(cs, lower, n)[i], lower) == Normalized(cs[k], lower)
    decreases n
  {
    hide Normalized;
    if k == n - 1 && FirstOfItsKind(cs, lower, k) {
      i := |Deduped(cs, lower, n - 1)|;
    } else {
      var j := k;
      if k == n - 1 { j :| 0 <= j < k && Normalized(cs[j], lower) == Normalized(cs[k], lower); }
      i := DedupedCovers(cs, lower, n - 1, j);
    }
  }

  // ------------------------------------------------------------------ ordering by priority

  /** Insertion behind every chunk of the same or a higher priority. */
  function Insert(c: Chunk, s: seq<Chunk>): (r: seq<Chunk>) {
    if s == [] || s[|s| - 1].priority >= c.priority then s + [c]
    else Insert(c, s[..|s| - 1]) + [s[|s| - 1]]
  }

  /** The stable sort by descending priority. */
  function ByPriority(cs: seq<Chunk>): seq<Chunk> {
    if cs == [] then [] else Insert(cs[|cs| - 1], ByPriority(cs[..|cs| - 1]))
  }

  predicate Descending(s: seq<Chunk>) {
    forall i, j | 0 <= i < j < |s| :: s[i].priority >= s[j].priority
  }

  function OfPriority(s: seq<Chunk>, p: real): seq<Chunk> {
    if s == [] then []
    else OfPriority(s[..|s| - 1], p) + if s[|s| - 1].priority == p then [s[|s| - 1]] else []
  }

  lemma OfPrioritySnoc(s: seq<Chunk>, c: Chunk, p: real)
    ensures OfPriority(s + [c], p) == OfPriority(s, p) + if c.priority == p then [c] else []
  {
    assert (s + [c])[..|s|] == s;
  }

  lemma {:induction false} InsertPermutes(c: Chunk, s: seq<Chunk>)
    ensures multiset(Insert(c, s)) == multiset(s) + multiset{c}
  {
    if s != [] && s[|s| - 1].priority < c.priority {
      var n := |s| - 1;
      InsertPermutes(c, s[..n]);
      assert s == s[..n] + [s[n]];
    }
  }

  lemma {:induction false} InsertAbove(c: Chunk, s: seq<Chunk>, x: real)
    requires c.priority >= x && forall i | 0 <= i < |s| :: s[i].priority >= x
    ensures forall i | 0 <= i < |Insert(c, s)| :: Insert(c, s)[i].priority >= x
  {
    if s != [] && s[|s| - 1].priority < c.priority { InsertAbove(c, s[..|s| - 1], x); }
  }

  lemma {:induction false} InsertSorts(c: Chunk, s: seq<Chunk>)
    requires Descending(s)
    ensures Descending(Insert(c, s))
  {
    if s != [] && s[|s| - 1].priority < c.priority {
      var n := |s| - 1;
      InsertSorts(c, s[..n]);
      InsertAbove(c, s[..n], s[n].priority);
    }
  }

  lemma {:induction false} InsertIsStable(c: Chunk, s: seq<Chunk>, p: real)
    ensures OfPriority(Insert(c, s), p) == OfPriority(s, p) + if c.priority == p then [c] else []
  {
    hide OfPriority;
    if s == [] || s[|s| - 1].priority >= c.priority {
      OfPrioritySnoc(s, c, p);
    } else {
      var n := |s| - 1;
      InsertIsStable(c, s[..n], p);
      OfPrioritySnoc(Insert(c, s[..n]), s[n], p);
      OfPrioritySnoc(s[..n], s[n], p);
      assert s == s[..n] + [s[n]];
    }
  }

  lemma {:induction false} ByPriorityPermutes(cs: seq<Chunk>)
    ensures multiset(ByPriority(cs)) == multiset(cs)
  {
    if cs != [] {
      var n := |cs| - 1;
      ByPriorityPermutes(cs[..n]);
      InsertPermutes(cs[n], ByPriority(cs[..n]));
      assert cs == cs[..n] + [cs[n]];
    }
  }

  /** A permutation, in descending order, with equal priorities in their original order. */
  lemma {:induction false} ByPriorityIsStableSort(cs: seq<Chunk>, p: real)
    ensures multiset(ByPriority(cs)) == multiset(cs)
    ensures Descending(ByPriority(cs))
    ensures OfPriority(ByPriority(cs), p) == OfPriority(cs, p)
  {
    ByPriorityPermutes(cs);
    if cs != [] {
      var n := |cs| - 1;
      ByPriorityIsStableSort(cs[..n], p);
      InsertSorts(cs[n], ByPriority(cs[..n]));
      InsertIsStable(cs[n], ByPriority(cs[..n]), p);
    }
  }

  // ------------------------------------------------------------------ budgets

  function Ratio(kind: ContextKind): real {
    match kind
    case System => 0.08
    case Instructions => 0.15
    case History => 0.32
    case Retrieval => 0.25
    case ToolResults => 0.10
  }

  function BudgetByKind(maxContext: nat, kind: ContextKind): (n: nat) {
    assert maxContext as real * Ratio(kind) >= 0.0;
    (maxContext as real * Ratio(kind)).Floor
  }

  /** The share of each section of the window, rounded down. */
  lemma BudgetMeaning(m: nat, k: nat)
    ensures k <= BudgetByKind(m, System) <==> 100 * k <= 8 * m
    ensures k <= BudgetByKind(m, Instructions) <==> 100 * k <= 15 * m
    ensures k <= BudgetByKind(m, History) <==> 100 * k <= 32 * m
    ensures k <= BudgetByKind(m, Retrieval) <==> 100 * k <= 25 * m
    ensures k <= BudgetByKind(m, ToolResults) <==> 100 * k <= 10 * m
  {
    var r := m as real;
    assert k as real <= r * 0.08 <==> 100 * k <= 8 * m;
    assert k as real <= r * 0.15 <==> 100 * k <= 15 * m;
    assert k as real <= r * 0.32 <==> 100 * k <= 32 * m;
    assert k as real <= r * 0.25 <==> 100 * k <= 25 * m;
    assert k as real <= r * 0.10 <==> 100 * k <= 10 * m;
  }

  /** The sections together get at most nine tenths of the window. */
  lemma BudgetsLeaveATenth(m: nat)
    ensures 10 * (BudgetByKind(m, System) + BudgetByKind(m, Instructions) + BudgetByKind(m, History)
                  + BudgetByKind(m, Retrieval) + BudgetByKind(m, ToolResults)) <= 9 * m
  {
    var r := m as real;
    assert r * 0.08 + r * 0.15 + r * 0.32 + r * 0.25 + r * 0.10 == r * 0.9;
  }

  /** What greedy filling keeps of the first n chunks. */
  function Kept(cs: seq<Chunk>, budget: nat, n: nat): seq<string>
    requires n <= |cs|
  {
    if n == 0 then []
    else
      var before := Kept(cs, budget, n - 1);
      if TotalTokens(before) + EstimateTokens(cs[n - 1].content) > budget then before
      else before + [cs[n - 1].content]
  }

  lemma TotalTokensSnoc(items: seq<string>, s: string)
    ensures TotalTokens(items + [s]) == TotalTokens(items) + EstimateTokens(s)
  {
    assert (items + [s])[..|items|] == items;
  }

  lemma {:induction false} KeptFits(cs: seq<Chunk>, budget: nat, n: nat)
    requires n <= |cs|
    ensures TotalTokens(Kept(cs, budget, n)) <= budget
  {
    hide EstimateTokens, TotalTokens;
    if n == 0 {
      NoTokens();
    } else {
      KeptFits(cs, budget, n - 1);
      TotalTokensSnoc(Kept(cs, budget, n - 1), cs[n - 1].content);
    }
  }

  lemma NoTokens()
    ensures TotalTokens([]) == 0
  {}

  /** `apply_budget`. */
  method ApplyBudget(cs: seq<Chunk>, budget: nat) returns (out: seq<string>)
    ensures out == Kept(cs, budget, |cs|) && TotalTokens(out) <= budget
  {
    hide EstimateTokens, TotalTokens;
    NoTokens();
    var used := 0;
    out := [];
    for i := 0 to |cs|
      invariant out == Kept(cs, budget, i) && used == TotalTokens(out)
    {
      var t := EstimateTokens(cs[i].content);
      if used + t > budget {
        continue;
      }
      TotalTokensSnoc(out, cs[i].content);
      out := out + [cs[i].content];
      used := used + t;
    }
    KeptFits(cs, budget, |cs|);
  }

  /** Filling is in order, and later chunks never displace earlier ones. */
  lemma {:induction false} KeptGrows(cs: seq<Chunk>, budget: nat, i: nat, n: nat)
    requires i <= n <= |cs|
    ensures Kept(cs, budget, i) <= Kept(cs, budget, n)
  {
    hide EstimateTokens, TotalTokens;
    if i < n { KeptGrows(cs, budget, i, n - 1); }
  }

  /**
    * Each chunk is judged by what was kept ahead of it: it is kept, right behind them, exactly when it
    * fits beside them.
    */
  lemma DroppedDidNotFit(cs: seq<Chunk>, budget: nat, i: nat)
    requires i < |cs|
    ensures var ahead := Kept(cs, budget, i);
            if TotalTokens(ahead) + EstimateTokens(cs[i].content) <= budget
            then ahead + [cs[i].content] <= Kept(cs, budget, |cs|)
            else Kept(cs, budget, i + 1) == ahead
  {
    hide EstimateTokens, TotalTokens;
    KeptGrows(cs, budget, i + 1, |cs|);
  }

  /** `truncate_low_value`: pops items from the end until the budget is met. */
  method TruncateLowValue(items: seq<string>, budget: nat) returns (out: seq<string>)
    ensures out <= items && TotalTokens(out) <= budget
    ensures |out| < |items| ==> TotalTokens(items[..|out| + 1]) > budget
  {
    hide EstimateTokens, TotalTokens;
    NoTokens();
    out := items;
    var used := TotalTokens(out);
    while used > budget && out != []
      invariant out <= items && used == TotalTokens(out)
      invariant |out| < |items| ==> TotalTokens(items[..|out| + 1]) > budget
      decreases |out|
    {
      assert items[..|out|] == out;
      out := out[..|out| - 1];
      used := TotalTokens(out);
    }
  }

  lemma {:induction false} PrefixTotal(items: seq<string>, n: nat)
    requires n <= |items|
    ensures TotalTokens(items[..n]) <= TotalTokens(items)
  {
    hide EstimateTokens;
    if n == |items| {
      assert items[..n] == items;
    } else {
      PrefixTotal(items[..|items| - 1], n);
      assert items[..|items| - 1][..n] == items[..n];
    }
  }

  // ------------------------------------------------------------------ the whole pipeline

  function OfKind(cs: seq<Chunk>, kind: ContextKind): seq<Chunk> {
    if cs == [] then []
    else OfKind(cs[..|cs| - 1], kind) + if cs[|cs| - 1].kind == kind then [cs[|cs| - 1]] else []
  }

  /** The chunks of a kind, in order: with the empty and the one-element case, this law fixes `OfKind`. */
  lemma {:induction false} OfKindConcat(a: seq<Chunk>, b: seq<Chunk>, c: Chunk, kind: ContextKind)
    ensures OfKind(a + b, kind) == OfKind(a, kind) + OfKind(b, kind)
    ensures OfKind([c], kind) == if c.kind == kind then [c] else []
  {
    assert [c][..0] == [];
    if b == [] {
      assert a + b == a;
    } else {
      var n := |b| - 1;
      OfKindConcat(a, b[..n], c, kind);
      assert (a + b)[..|a + b| - 1] == a + b[..n];
    }
  }

  lemma {:induction false} OfKindMembers(cs: seq<Chunk>, kind: ContextKind, c: Chunk)
    ensures c in OfKind(cs, kind) <==> c in cs && c.kind == kind
  {
    if cs != [] {
      OfKindMembers(cs[..|cs| - 1], kind, c);
      assert cs == cs[..|cs| - 1] + [cs[|cs| - 1]];
    }
  }

  /** What competes for a section: the summarised first occurrences of its kind, and nothing else. */
  lemma CandidateMeaning(cs: seq<Chunk>, lower: string -> string, kind: ContextKind, c: Chunk)
    ensures c in Candidates(cs, lower, kind)
       <==> exists k | 0 <= k < |cs| :: FirstOfItsKind(cs, lower, k) && cs[k].kind == kind && c == SummarizeChunk(cs[k])
  {
    var firsts := Deduped(cs, lower, |cs|);
    var all := SummarizeAll(firsts);
    ByPriorityPermutes(OfKind(all, kind));
    assert c in Candidates(cs, lower, kind) <==> c in multiset(OfKind(all, kind));
    OfKindMembers(all, kind, c);
    var ks := DedupedPlaces(cs, lower, |cs|);
    hide FirstOfItsKind, ByPriority, OfKind, Deduped;
    if k: nat :| k < |cs| && FirstOfItsKind(cs, lower, k) && cs[k].kind == kind && c == SummarizeChunk(cs[k]) {
      SummarizingSettles(cs[k]);
      var i: nat :| i < |ks| && ks[i] == k;
      assert all[i] == c;
    }
    if c in all && c.kind == kind {
      var i: nat :| i < |all| && all[i] == c;
      SummarizingSettles(firsts[i]);
      assert FirstOfItsKind(cs, lower, ks[i]) by { assert ks[i] in ks; }
      assert c == SummarizeChunk(cs[ks[i]]) && cs[ks[i]].kind == kind;
    }
  }

  /** The candidates of one section, in filling order. */
  function Candidates(cs: seq<Chunk>, lower: string -> string, kind: ContextKind): seq<Chunk> {
    ByPriority(OfKind(SummarizeAll(Deduped(cs, lower, |cs|)), kind))
  }

  function Section(cs: seq<Chunk>, lower: string -> string, maxContext: nat, kind: ContextKind): seq<string> {
    var candidates := Candidates(cs, lower, kind);
    Kept(candidates, BudgetByKind(maxContext, kind), |candidates|)
  }

  method GroupByKind(cs: seq<Chunk>) returns (grouped: map<ContextKind, seq<Chunk>>)
    ensures forall k :: (if k in grouped then grouped[k] else []) == OfKind(cs, k)
  {
    grouped := map[];
    for i := 0 to |cs|
      invariant forall k :: (if k in grouped then grouped[k] else []) == OfKind(cs[..i], k)
    {
      var kind := cs[i].kind;
      assert cs[..i + 1][..i] == cs[..i];
      grouped := grouped[kind := (if kind in grouped then grouped[kind] else []) + [cs[i]]];
    }
    assert cs[..|cs|] == cs;
  }

  method FillSection(grouped: map<ContextKind, seq<Chunk>>, maxContext: nat, kind: ContextKind)
    returns (out: seq<string>)
    ensures var cs := ByPriority(if kind in grouped then grouped[kind] else []);
            out == Kept(cs, BudgetByKind(maxContext, kind), |cs|)
    ensures TotalTokens(out) <= BudgetByKind(maxContext, kind)
  {
    out := ApplyBudget(ByPriority(if kind in grouped then grouped[kind] else []), BudgetByKind(maxContext, kind));
  }

  const RETRIEVAL_TOP_K: nat := 8

  /**
    * `optimize`. Every section is the greedy filling of its own budget, retrieval cut to eight; the
    * history truncation removes nothing; the estimate is the true total and leaves a tenth free.
    */
  method Optimize(maxContext: nat, cs: seq<Chunk>, lower: string -> string) returns (o: OptimizedContext)
    ensures o.system == Section(cs, lower, maxContext, System)
    ensures o.instructions == Section(cs, lower, maxContext, Instructions)
    ensures o.history == Section(cs, lower, maxContext, History)
    ensures var all := Section(cs, lower, maxContext, Retrieval);
            o.retrieval == if |all| <= 8 then all else all[..8]
    ensures o.toolResults == Section(cs, lower, maxContext, ToolResults)
    ensures TotalTokens(o.system) <= BudgetByKind(maxContext, System)
    ensures TotalTokens(o.instructions) <= BudgetByKind(maxContext, Instructions)
    ensures TotalTokens(o.history) <= BudgetByKind(maxContext, History)
    ensures TotalTokens(o.retrieval) <= BudgetByKind(maxContext, Retrieval)
    ensures TotalTokens(o.toolResults) <= BudgetByKind(maxContext, ToolResults)
    ensures o.tokenEstimate == TotalTokens(o.system) + TotalTokens(o.instructions) + TotalTokens(o.history)
                               + TotalTokens(o.retrieval) + TotalTokens(o.toolResults)
    ensures 10 * o.tokenEstimate <= 9 * maxContext
  {
    hide EstimateTokens, TotalTokens, Kept, ByPriority, Deduped, OfKind, SummarizeChunk, BudgetByKind;
    var deduped := DedupChunks(cs, lower);
    var grouped := GroupByKind(SummarizeAll(deduped));
    var system := FillSection(grouped, maxContext, System);
    var instructions := FillSection(grouped, maxContext, Instructions);
    var history := FillSection(grouped, maxContext, History);
    var retrieval := FillSection(grouped, maxContext, Retrieval);
    var toolResults := FillSection(grouped, maxContext, ToolResults);
    var truncated := TruncateLowValue(history, BudgetByKind(maxContext, History));
    if |truncated| < |history| {
      PrefixTotal(history, |truncated| + 1);
    }
    if |retrieval| > RETRIEVAL_TOP_K {
      PrefixTotal(retrieval, RETRIEVAL_TOP_K);
      retrieval := retrieval[..RETRIEVAL_TOP_K];
    }
    var estimate := TotalTokens(system) + TotalTokens(instructions) + TotalTokens(truncated)
                    + TotalTokens(retrieval) + TotalTokens(toolResults);
    BudgetsLeaveATenth(maxContext);
    o := OptimizedContext(system, instructions, truncated, retrieval, toolResults, estimate);
  }
}
