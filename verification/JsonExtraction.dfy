/**
  * The callers of the scanners in src/orchestrator/helpers.rs: `find_balanced_json_end`,
  * `extract_json_object` and `extract_balanced_json_fragments`, and what they find in model output.
  * Positions handed in and out are byte offsets, as in the source.
  */
module JsonExtraction {
  import opened Wrappers
  import opened Brackets
  import opened JsonText
  import Text
  import Utf8

  /** `find_balanced_json_end`: byte offset after the bracket that closes the one at character `start`. */
  function EndOffset(raw: string, start: nat, opening: char): Option<nat>
    requires start <= |raw|
  {
    match BalancedEnd(raw[start..], opening)
    case None => None
    case Some(n) => Some(ByteLen(raw[..start + n]))
  }

  /** The text between two byte offsets. */
  function ByteSlice(text: string, a: nat, b: nat): string
    requires a <= b <= ByteLen(text)
  {
    Utf8.Decode(Utf8.Encode(text)[a..b])
  }

  lemma ByteLenSnoc(raw: string, i: nat)
    requires i < |raw|
    ensures ByteLen(raw[..i + 1]) == ByteLen(raw[..i]) + |Utf8.EncodeChar(raw[i])|
  {
    assert raw[..i + 1] == raw[..i] + [raw[i]];
    Utf8.EncodeConcat(raw[..i], [raw[i]]);
    assert Utf8.Encode([raw[i]]) == Utf8.EncodeChar(raw[i]) + Utf8.Encode([]);
  }

  /** Where the scan of raw[start..] ends, once it has reached character i in state s. */
  ghost predicate Reached(raw: string, start: nat, opening: char, i: nat, s: Scan)
    requires start <= i <= |raw|
  {
    BalancedEnd(raw[start..], opening) == Shift(ScanFrom(raw[i..], s), i - start)
  }

  lemma ReachedNext(raw: string, start: nat, opening: char, i: nat, s: Scan)
    requires start <= i < |raw| && Reached(raw, start, opening, i, s)
    ensures match Step(s, raw[i])
            case Go(s') => Reached(raw, start, opening, i + 1, s')
            case Finish => EndOffset(raw, start, opening) == Some(ByteLen(raw[..i + 1]))
            case Mismatch => EndOffset(raw, start, opening) == None
  {
    ScanCons(raw[i], raw[i + 1..], raw[i..], s);
    hide ScanFrom, BalancedEnd, Step, ByteLen;
  }

  lemma ReachedEnd(raw: string, start: nat, opening: char, s: Scan)
    requires start <= |raw| && Reached(raw, start, opening, |raw|, s)
    ensures EndOffset(raw, start, opening) == None
  {
    assert raw[|raw|..] == [];
  }

  /**
    * The stack scanner as a loop over the characters from `start`, with the byte offset counted
    * along. `start` stands for the byte index ByteLen(raw[..start]), a character boundary.
    */
  method FindBalancedJsonEnd(raw: string, start: nat, opening: char) returns (r: Option<nat>)
    requires start <= |raw|
    ensures r == EndOffset(raw, start, opening)
  {
    if opening != '{' && opening != '[' {
      return None;
    }
    if start == |raw| {
      return None;
    }
    var expected := [if opening == '{' then '}' else ']'];
    var inString, escaped := false, false;
    var startIdx := ByteLen(raw[..start]);
    ByteLenSnoc(raw, start);
    var offset := |Utf8.EncodeChar(raw[start])|;
    assert raw[start..][1..] == raw[start + 1..];
    hide ScanFrom, EndOffset, ByteLen, Utf8.EncodeChar;
    for i := start + 1 to |raw|
      invariant startIdx + offset == ByteLen(raw[..i])
      invariant expected != []
      invariant Reached(raw, start, opening, i, Scan(expected, inString, escaped))
    {
      hide Reached;
      var ch := raw[i];
      ByteLenSnoc(raw, i);
      ReachedNext(raw, start, opening, i, Scan(expected, inString, escaped));
      if inString {
        if escaped {
          escaped := false;
        } else if ch == '\\' {
          escaped := true;
        } else if ch == '"' {
          inString := false;
        }
      } else if ch == '"' {
        inString := true;
      } else if ch == '{' {
        expected := expected + ['}'];
      } else if ch == '[' {
        expected := expected + [']'];
      } else if ch == '}' || ch == ']' {
        var top := expected[|expected| - 1];
        expected := expected[..|expected| - 1];
        if top != ch {
          return None;
        }
        if expected == [] {
          return Some(startIdx + offset + |Utf8.EncodeChar(ch)|);
        }
      }
      offset := offset + |Utf8.EncodeChar(ch)|;
    }
    ReachedEnd(raw, start, opening, Scan(expected, inString, escaped));
    return None;
  }

  /** Slicing at the byte offsets of two characters gives the text between them. */
  lemma SliceBytes(text: string, i: nat, k: nat)
    requires i <= k <= |text|
    ensures ByteLen(text[..i]) <= ByteLen(text[..k]) <= ByteLen(text)
    ensures ByteSlice(text, ByteLen(text[..i]), ByteLen(text[..k])) == text[i..k]
  {
    hide Utf8.Decode, Utf8.Encode;
    assert text[..k] == text[..i] + text[i..k] && text == text[..k] + text[k..];
    Utf8.EncodeConcat(text[..i], text[i..k]);
    Utf8.EncodeConcat(text[..k], text[k..]);
    Utf8.EncodeDecode(text[i..k]);
    assert Utf8.Encode(text)[ByteLen(text[..i])..ByteLen(text[..k])] == Utf8.Encode(text[i..k]);
  }

  // ------------------------------------------------------------------ extract_json_object

  const FENCES: seq<string> := ["```json\n", "```\n", "```json ", "```"]

  /** The trimmed body of the first block opened by `fence`, when it starts with a brace. */
  function Fenced(text: string, fence: string): Option<string> {
    match Text.Find(text, fence)
    case None => None
    case Some(start) =>
      var after := text[start + |fence|..];
      match Text.Find(after, "```")
      case None => None
      case Some(end) =>
        var candidate := Text.Trim(after[..end]);
        if candidate != [] && candidate[0] == '{' then Some(candidate) else None
  }

  function FirstFenced(text: string, fences: seq<string>): Option<string> {
    if fences == [] then None
    else if Fenced(text, fences[0]).Some? then Fenced(text, fences[0])
    else FirstFenced(text, fences[1..])
  }

  /** The object that the brace counter cuts out, starting at the first brace of the text. */
  function Braced(text: string): Option<string> {
    match Text.Find(text, "{")
    case None => None
    case Some(start) =>
      match CountFrom(text[start..], COUNT_START)
      case None => None
      case Some(n) => Some(text[start..start + n])
  }

  function Extracted(text: string): Option<string> {
    if FirstFenced(text, FENCES).Some? then FirstFenced(text, FENCES) else Braced(text)
  }

  /** The byte loop of the brace counter; it returns the byte length up to the closing brace. */
  method CountLoop(bytes: Utf8.Bytes) returns (r: Option<nat>)
    ensures r == CountBytes(bytes, COUNT_START)
  {
    var depth, inString, escapeNext := 0, false, false;
    for i := 0 to |bytes|
      invariant CountBytes(bytes, COUNT_START)
             == Shift(CountBytes(bytes[i..], Count(depth, inString, escapeNext)), i)
    {
      var b: int := bytes[i];
      assert bytes[i..][1..] == bytes[i + 1..];
      if escapeNext {
        escapeNext := false;
        continue;
      }
      if b == '\\' as int && inString {
        escapeNext := true;
      } else if b == '"' as int {
        inString := !inString;
      } else if b == '{' as int && !inString {
        depth := depth + 1;
      } else if b == '}' as int && !inString {
        depth := depth - 1;
        if depth == 0 {
          return Some(i + 1);
        }
      }
    }
    return None;
  }

  /** `extract_json_object`. The slice taken at byte positions is the one at character positions. */
  method ExtractJsonObject(text: string) returns (r: Option<string>)
    ensures r == Extracted(text)
  {
    for f := 0 to |FENCES|
      invariant FirstFenced(text, FENCES) == FirstFenced(text, FENCES[f..])
    {
      assert FENCES[f..][1..] == FENCES[f + 1..];
      var candidate := Fenced(text, FENCES[f]);
      if candidate.Some? {
        return candidate;
      }
    }
    match Text.Find(text, "{") {
      case None =>
        return None;
      case Some(start) =>
        var rest := text[start..];
        CountBytesIsCountFrom(rest, COUNT_START);
        var n := CountLoop(Utf8.Encode(rest));
        if n.None? {
          return None;
        }
        ghost var k := CountFrom(rest, COUNT_START).value;
        SliceBytes(rest, 0, k);
        assert rest[..0] == [] && rest[0..k] == text[start..start + k];
        return Some(ByteSlice(rest, 0, n.value));
    }
  }

  // ------------------------------------------------------------------ what extraction finds

  lemma FenceFree(text: string, fence: string)
    requires !Text.Contains(text, "```") && "```" <= fence
    ensures Fenced(text, fence) == None
  {
    Text.FindIsFirst(text, "```");
    Text.FindIsFirst(text, fence);
  }

  lemma FenceFreeText(text: string)
    requires !Text.Contains(text, "```")
    ensures Extracted(text) == Braced(text)
  {
    forall f | 0 <= f < |FENCES| ensures Fenced(text, FENCES[f]) == None { FenceFree(text, FENCES[f]); }
    forall f | 0 <= f <= |FENCES| ensures FirstFenced(text, FENCES[f..]) == None { NoneFenced(text, f); }
    assert FENCES[0..] == FENCES;
  }

  lemma {:induction false} NoneFenced(text: string, f: nat)
    requires f <= |FENCES| && forall i | 0 <= i < |FENCES| :: Fenced(text, FENCES[i]) == None
    ensures FirstFenced(text, FENCES[f..]) == None
    decreases |FENCES| - f
  {
    if f < |FENCES| {
      NoneFenced(text, f + 1);
      assert FENCES[f..][1..] == FENCES[f + 1..];
    }
  }

  lemma FindFirstBrace(prefix: string, rest: string)
    requires '{' !in prefix && rest != [] && rest[0] == '{'
    ensures Text.Find(prefix + rest, "{") == Some(|prefix|)
  {
    var text := prefix + rest;
    Text.FindIsFirst(text, "{");
    assert text[|prefix|..] == rest && "{" <= text[|prefix|..];
    forall k | 0 <= k < |prefix| ensures !("{" <= text[k..]) {
      assert text[k..][0] == prefix[k] && prefix[k] in prefix;
    }
  }

  /**
    * Prose, then a JSON object, then anything: without code fences, `extract_json_object` returns
    * exactly the object.
    */
  lemma ExtractsTheObject(prose: string, j: Json, suffix: string)
    requires ValidJson(j) && j.Object? && '{' !in prose
    requires !Text.Contains(prose + TextOf(j) + suffix, "```")
    ensures Extracted(prose + TextOf(j) + suffix) == Some(TextOf(j))
  {
    ScanFindsJson(j, suffix);
    assert TextOf(j)[0] == '{';
    var obj := TextOf(j);
    var rest, text := obj + suffix, prose + obj + suffix;
    FenceFreeText(text);
    CounterRefinesStack(rest, |obj|);
    hide TextOf, CountFrom, BalancedEnd, Extracted;
    assert text == prose + rest;
    FindFirstBrace(prose, rest);
    assert text[|prose|..] == rest;
    assert text[|prose|..|prose| + |obj|] == obj;
  }

  lemma NowhereIn(text: string, k: nat)
    requires !Text.Contains(text, "```") && k + 3 <= |text|
    ensures !(text[k] == '`' && text[k + 1] == '`' && text[k + 2] == '`')
  {
    Text.FindIsFirst(text, "```");
    assert !("```" <= text[k..]);
  }

  predicate EndsInBacktick(s: string) {
    s != [] && s[|s| - 1] == '`'
  }

  /** After text without fences, the first fence found is the one behind it. */
  lemma FindFence(before: string, tag: string, rest: string)
    requires !Text.Contains(before, "```")
    requires if tag == [] then !EndsInBacktick(before) else tag[0] != '`'
    ensures Text.Find(before + ("```" + tag) + rest, "```" + tag) == Some(|before|)
  {
    var fence := "```" + tag;
    var text, n := before + fence + rest, |before|;
    Text.FindIsFirst(text, fence);
    hide Text.Find;
    assert text[n..] == fence + rest;
    assert fence <= text[n..];
    assert forall i | 0 <= i < |fence| :: text[n + i] == fence[i];
    forall k | 0 <= k < n ensures !(fence <= text[k..]) {
      FenceOverlap(before, fence, text, k);
    }
  }

  lemma FenceOverlap(before: string, fence: string, text: string, k: nat)
    requires !Text.Contains(before, "```") && k < |before| && "```" <= fence && before + fence <= text
    requires if |fence| == 3 then !EndsInBacktick(before) else fence[3] != '`'
    ensures !(fence <= text[k..])
  {
    var n, tail := |before|, text[k..];
    assert forall i | 0 <= i < |tail| :: tail[i] == text[k + i];
    assert forall i | 0 <= i < n :: text[i] == before[i];
    assert fence[0] == '`' && fence[1] == '`' && fence[2] == '`';
    assert text[n] == fence[0] && text[n + 1] == fence[1] && text[n + 2] == fence[2];
    if k + 3 <= n {
      NowhereIn(before, k);
      assert tail[0] != fence[0] || tail[1] != fence[1] || tail[2] != fence[2];
    } else if |fence| > 3 {
      assert tail[3] == text[n + (k + 3 - n)] != fence[3];
    } else {
      assert tail[n - 1 - k] == text[n - 1] != fence[n - 1 - k];
    }
  }

  predicate AllWhitespace(s: string) {
    forall c | c in s :: Text.IsWhitespace(c)
  }

  /** White space around a text adds no fence to it. */
  lemma PaddingHasNoFence(lead: string, obj: string, trail: string)
    requires AllWhitespace(lead) && AllWhitespace(trail) && !Text.Contains(obj, "```")
    ensures !Text.Contains(lead + obj + trail, "```")
  {
    var body := lead + obj + trail;
    Text.FindIsFirst(body, "```");
    forall k: nat | k <= |body| ensures !("```" <= body[k..]) {
      NoFenceAt(lead, obj, trail, k);
    }
  }

  lemma NoFenceAt(lead: string, obj: string, trail: string, k: nat)
    requires AllWhitespace(lead) && AllWhitespace(trail) && !Text.Contains(obj, "```")
    requires k <= |lead + obj + trail|
    ensures !("```" <= (lead + obj + trail)[k..])
  {
    var body, n, m := lead + obj + trail, |lead|, |lead| + |obj|;
    var tail := body[k..];
    if |tail| >= 3 {
      assert tail[0] == body[k] && tail[1] == body[k + 1] && tail[2] == body[k + 2];
      if k < n {
        assert body[k] == lead[k] && lead[k] in lead;
      } else if k + 3 <= m {
        NowhereIn(obj, k - n);
        assert body[k] == obj[k - n] && body[k + 1] == obj[k + 1 - n] && body[k + 2] == obj[k + 2 - n];
      } else {
        assert body[k + 2] == trail[k + 2 - m] && trail[k + 2 - m] in trail;
      }
    }
    hide Text.Find;
  }

  lemma TrimPadded(lead: string, obj: string, trail: string)
    requires AllWhitespace(lead) && AllWhitespace(trail) && WellNested(obj)
    ensures Text.Trim(lead + obj + trail) == obj
  {
    GroupIsTrimmed(obj);
    assert lead + obj + trail == lead + (obj + trail);
    Text.TrimStartDrops(lead, obj + trail);
    assert !Text.IsWhitespace(obj[0]) by { GroupStart(obj); }
    assert Text.TrimStart(obj + trail) == obj + trail;
    Text.TrimEndDrops(obj, trail);
    assert Text.TrimStart(obj) == obj;
  }

  lemma GroupStart(s: string)
    requires WellNested(s)
    ensures s != [] && IsOpen(s[0])
  {}

  lemma {:induction false} FirstFencedIs(text: string, g: nat, f: nat)
    requires g <= f < |FENCES| && Fenced(text, FENCES[f]).Some?
    requires forall i | g <= i < f :: Fenced(text, FENCES[i]) == None
    ensures FirstFenced(text, FENCES[g..]) == Fenced(text, FENCES[f])
    decreases f - g
  {
    hide Fenced;
    if g < f {
      FirstFencedIs(text, g + 1, f);
      assert FENCES[g..][1..] == FENCES[g + 1..];
    }
  }

  /**
    * A JSON object in a fenced block, with any white space around it, after prose without fences and
    * before anything: `extract_json_object` returns exactly the object. The block may be opened in four
    * ways, tried in this order, as long as none of those tried earlier occurs in the text.
    */
  lemma ExtractsTheFencedObject(prose: string, opening: string, lead: string, j: Json, trail: string, suffix: string)
    requires ValidJson(j) && j.Object? && !Text.Contains(TextOf(j), "```")
    requires AllWhitespace(lead) && AllWhitespace(trail) && !Text.Contains(prose, "```")
    requires var text := prose + opening + (lead + TextOf(j) + trail + "```" + suffix);
             || opening == "```json\n"
             || (opening == "```\n" && !Text.Contains(text, "```json\n"))
             || (opening == "```json " && !Text.Contains(text, "```json\n") && !Text.Contains(text, "```\n"))
             || (opening == "```" && !Text.Contains(text, "```json\n") && !Text.Contains(text, "```\n")
                 && !Text.Contains(text, "```json ") && (prose == [] || prose[|prose| - 1] != '`'))
    ensures Extracted(prose + opening + (lead + TextOf(j) + trail + "```" + suffix)) == Some(TextOf(j))
  {
    var f: nat := if opening == "```json\n" then 0 else if opening == "```\n" then 1
                  else if opening == "```json " then 2 else 3;
    assert FENCES[f] == opening;
    FencedObjectAt(prose, f, lead, j, trail, suffix);
    hide TextOf, Extracted, Text.Contains;
  }

  lemma FencedObjectAt(prose: string, f: nat, lead: string, j: Json, trail: string, suffix: string)
    requires ValidJson(j) && j.Object? && !Text.Contains(TextOf(j), "```")
    requires AllWhitespace(lead) && AllWhitespace(trail)
    requires f < |FENCES| && !Text.Contains(prose, "```") && (f == 3 ==> !EndsInBacktick(prose))
    requires forall g | 0 <= g < f :: !Text.Contains(Block(prose, f, lead + TextOf(j) + trail, suffix), FENCES[g])
    ensures Extracted(Block(prose, f, lead + TextOf(j) + trail, suffix)) == Some(TextOf(j))
  {
    var obj := TextOf(j);
    ScanFindsJson(j, []);
    assert obj[0] == '{';
    hide TextOf;
    var body := lead + obj + trail;
    var text := Block(prose, f, body, suffix);
    PaddingHasNoFence(lead, obj, trail);
    TrimPadded(lead, obj, trail);
    BodyEnd(lead, obj, trail);
    FencedBody(prose, f, body, suffix);
    hide Fenced, WellNested;
    FirstFencedIs(text, 0, f);
    assert FENCES[0..] == FENCES;
  }

  // ------------------------------------------------------------------ what extraction is

  /** The first place where a text occurs. */
  ghost predicate OccursFirst(hay: string, needle: string, k: nat) {
    k <= |hay| && needle <= hay[k..] && forall j | 0 <= j < k :: !(needle <= hay[j..])
  }

  lemma FindMeaning(hay: string, needle: string, k: nat)
    ensures Text.Find(hay, needle) == Some(k) <==> OccursFirst(hay, needle, k)
  {
    Text.FindIsFirst(hay, needle);
    hide Text.Find;
  }

  /** c is the trimmed body of the block from the first opening, at i, to the first closing, j after it. */
  ghost predicate ClosedBlock(text: string, opening: string, i: nat, j: nat, c: string) {
    && OccursFirst(text, opening, i) && i + |opening| <= |text|
    && OccursFirst(text[i + |opening|..], "```", j)
    && c == Text.Trim(text[i + |opening|..][..j])
  }

  /** A fenced block counts when it is closed and its trimmed body starts with a brace. */
  lemma FencedMeaning(text: string, opening: string, c: string)
    ensures Fenced(text, opening) == Some(c)
       <==> c != [] && c[0] == '{' && exists i, j :: ClosedBlock(text, opening, i, j, c)
  {
    hide Text.Find, Text.Trim, OccursFirst;
    if start: nat :| Text.Find(text, opening) == Some(start) {
      FindMeaning(text, opening, start);
      var after := text[start + |opening|..];
      forall i: nat ensures OccursFirst(text, opening, i) <==> i == start { FindMeaning(text, opening, i); }
      forall j: nat ensures OccursFirst(after, "```", j) <==> Text.Find(after, "```") == Some(j) {
        FindMeaning(after, "```", j);
      }
      if end: nat :| Text.Find(after, "```") == Some(end) {
        assert ClosedBlock(text, opening, start, end, Text.Trim(after[..end]));
      }
    } else {
      forall i: nat ensures !OccursFirst(text, opening, i) { FindMeaning(text, opening, i); }
    }
  }

  /** The four openings in their order, then the first brace. */
  lemma ExtractedMeaning(text: string)
    ensures Extracted(text)
         == if Fenced(text, "```json\n").Some? then Fenced(text, "```json\n")
            else if Fenced(text, "```\n").Some? then Fenced(text, "```\n")
            else if Fenced(text, "```json ").Some? then Fenced(text, "```json ")
            else if Fenced(text, "```").Some? then Fenced(text, "```")
            else Braced(text)
  {
    hide Fenced, Braced;
    assert FENCES[1..] == ["```\n", "```json ", "```"];
    assert FENCES[1..][1..] == ["```json ", "```"];
    assert FENCES[1..][1..][1..] == ["```"];
    assert FENCES[1..][1..][1..][1..] == [];
    assert FirstFenced(text, ["```"]) == Fenced(text, "```");
    assert FirstFenced(text, FENCES[1..][1..])
        == if Fenced(text, "```json ").Some? then Fenced(text, "```json ") else FirstFenced(text, ["```"]);
    assert FirstFenced(text, FENCES[1..])
        == if Fenced(text, "```\n").Some? then Fenced(text, "```\n") else FirstFenced(text, FENCES[1..][1..]);
  }

  /** Without a fenced block: from the first brace on, up to where the braces outside strings balance. */
  lemma BracedMeaning(text: string, c: string)
    ensures Braced(text) == Some(c)
       <==> exists i: nat :: OccursFirst(text, "{", i) && i < |text| && c <= text[i..] && WellNested(Erased(c))
  {
    hide Text.Find, OccursFirst, CountFrom, WellNested;
    if i: nat :| Text.Find(text, "{") == Some(i) {
      FindMeaning(text, "{", i);
      forall k: nat ensures OccursFirst(text, "{", k) <==> k == i { FindMeaning(text, "{", k); }
      var rest := text[i..];
      assert rest[0] == '{' by { FirstBrace(text, i); }
      CounterExact(rest, |c|);
      if c <= rest { assert Erased(rest)[..|c|] == Erased(c); assert text[i..i + |c|] == c; }
      if CountFrom(rest, COUNT_START).Some? {
        var n := CountFrom(rest, COUNT_START).value;
        CounterExact(rest, n);
        assert Erased(rest)[..n] == Erased(text[i..i + n]);
      }
    } else {
      forall k: nat ensures !OccursFirst(text, "{", k) { FindMeaning(text, "{", k); }
    }
  }

  lemma FirstBrace(text: string, i: nat)
    requires OccursFirst(text, "{", i)
    ensures i < |text| && text[i] == '{'
  {
    assert text[i..][0] == "{"[0];
  }

  /** Prose, a fenced block, and what follows it. */
  function Block(prose: string, f: nat, body: string, suffix: string): string
    requires f < |FENCES|
  {
    prose + FENCES[f] + (body + "```" + suffix)
  }

  lemma BodyEnd(lead: string, obj: string, trail: string)
    requires AllWhitespace(trail) && WellNested(obj)
    ensures !EndsInBacktick(lead + obj + trail)
  {
    var body := lead + obj + trail;
    if trail != [] {
      assert body[|body| - 1] == trail[|trail| - 1] && trail[|trail| - 1] in trail;
    } else {
      GroupEnd(obj);
      assert body[|body| - 1] == obj[|obj| - 1];
    }
  }

  lemma GroupEnd(s: string)
    requires WellNested(s)
    ensures s != [] && IsClose(s[|s| - 1])
  {}

  lemma FencedBody(prose: string, f: nat, body: string, suffix: string)
    requires f < |FENCES| && !Text.Contains(prose, "```") && (f == 3 ==> !EndsInBacktick(prose))
    requires !Text.Contains(body, "```") && !EndsInBacktick(body)
    requires Text.Trim(body) != [] && Text.Trim(body)[0] == '{'
    ensures Fenced(Block(prose, f, body, suffix), FENCES[f]) == Some(Text.Trim(body))
    ensures forall g | 0 <= g < f :: !Text.Contains(Block(prose, f, body, suffix), FENCES[g]) ==>
              Fenced(Block(prose, f, body, suffix), FENCES[g]) == None
  {
    var text, fence := Block(prose, f, body, suffix), FENCES[f];
    assert fence == "```" + fence[3..];
    FindFence(prose, fence[3..], body + "```" + suffix);
    assert text[|prose| + |fence|..] == body + "```" + suffix;
    assert "```" + "" == "```";
    FindFence(body, "", suffix);
    assert (body + "```" + suffix)[..|body|] == body;
    hide Text.Find, Text.Trim, FENCES, Block;
  }

  // ------------------------------------------------------------------ extract_balanced_json_fragments

  /** The bracketed group that starts at character i, if there is one. */
  function GroupAt(raw: string, i: nat): Option<string>
    requires i < |raw|
  {
    match BalancedEnd(raw[i..], raw[i]) case None => None case Some(n) => Some(raw[i..i + n])
  }

  /** The bracketed groups that start at each bracket of the text from position i, in order. */
  function Groups(raw: string, i: nat): (r: seq<string>)
    requires i <= |raw|
    decreases |raw| - i
  {
    if i == |raw| then []
    else match GroupAt(raw, i)
         case None => Groups(raw, i + 1)
         case Some(g) => [g] + Groups(raw, i + 1)
  }

  function Take<T>(s: seq<T>, n: nat): seq<T> {
    if |s| <= n then s else s[..n]
  }

  /** A bracketed group begins and ends with brackets, so trimming leaves it as it is. */
  lemma GroupIsTrimmed(s: string)
    requires WellNested(s)
    ensures Text.Trim(s) == s && s != []
  {
    var open, body :| IsOpen(open) && ValidItems(body) && s == GroupText(open, body);
    assert s[0] == open && s[|s| - 1] == Closer(open);
    Text.TrimKeeps(s);
  }

  lemma GroupAtIsTrimmed(raw: string, i: nat)
    requires i < |raw| && GroupAt(raw, i).Some?
    ensures WellNested(GroupAt(raw, i).value)
    ensures Text.Trim(GroupAt(raw, i).value) == GroupAt(raw, i).value != []
  {
    ScanAcceptsWellNested(raw[i..], raw[i]);
    var n := BalancedEnd(raw[i..], raw[i]).value;
    hide BalancedEnd, WellNested;
    assert raw[i..][..n] == raw[i..i + n];
    GroupIsTrimmed(raw[i..i + n]);
  }

  /** The slice that the byte offsets cut out, trimmed, is the group. */
  lemma FragmentIsGroup(raw: string, i: nat)
    requires i < |raw|
    ensures match EndOffset(raw, i, raw[i])
            case None => GroupAt(raw, i) == None
            case Some(end) =>
              && ByteLen(raw[..i]) <= end <= ByteLen(raw)
              && var fragment := Text.Trim(ByteSlice(raw, ByteLen(raw[..i]), end));
                 fragment != [] && GroupAt(raw, i) == Some(fragment)
  {
    if GroupAt(raw, i).Some? {
      GroupAtIsTrimmed(raw, i);
      var n := BalancedEnd(raw[i..], raw[i]).value;
      hide BalancedEnd, WellNested, Text.Trim, ByteSlice, ByteLen;
      SliceBytes(raw, i, i + n);
    }
  }

  /**
    * `extract_balanced_json_fragments`: the first groups of the text, at most `maxCandidates` of them,
    * but one even for a cap of zero, since the cap is tested after a group has been added.
    */
  method ExtractBalancedJsonFragments(raw: string, maxCandidates: nat) returns (fragments: seq<string>)
    ensures fragments == Take(Groups(raw, 0), if maxCandidates == 0 then 1 else maxCandidates)
    ensures fragments <= Groups(raw, 0)
    ensures var cap := if maxCandidates == 0 then 1 else maxCandidates;
            |fragments| == if |Groups(raw, 0)| <= cap then |Groups(raw, 0)| else cap
  {
    fragments := [];
    hide BalancedEnd, EndOffset, GroupAt, Text.Trim, ByteSlice, ByteLen;
    for i := 0 to |raw|
      invariant fragments + Groups(raw, i) == Groups(raw, 0)
      invariant fragments == [] || |fragments| < maxCandidates
    {
      var ch := raw[i];
      FragmentIsGroup(raw, i);
      if ch != '{' && ch != '[' {
        NoGroupHere(raw, i);
        continue;
      }
      var end := FindBalancedJsonEnd(raw, i, ch);
      if end.Some? {
        var fragment := Text.Trim(ByteSlice(raw, ByteLen(raw[..i]), end.value));
        if fragment != [] {
          fragments := fragments + [fragment];
          if |fragments| >= maxCandidates {
            return;
          }
        }
      }
    }
  }

  lemma NoGroupHere(raw: string, i: nat)
    requires i < |raw| && !IsOpen(raw[i])
    ensures GroupAt(raw, i) == None
  {}

  /** Every fragment is well nested and stands somewhere in the text. */
  lemma {:induction false} GroupsAreWellNested(raw: string, i: nat, s: string)
    requires i <= |raw| && s in Groups(raw, i)
    ensures WellNested(s) && exists a, b :: i <= a <= b <= |raw| && s == raw[a..b]
    decreases |raw| - i
  {
    if GroupAt(raw, i) == Some(s) {
      GroupAtIsTrimmed(raw, i);
    } else {
      GroupsAreWellNested(raw, i + 1, s);
    }
  }

  /** A well-nested group begins at position i. */
  ghost predicate GroupBegins(raw: string, i: nat) {
    exists e: nat :: i <= e <= |raw| && WellNested(raw[i..e])
  }

  lemma GroupAtMeaning(raw: string, i: nat)
    requires i < |raw|
    ensures GroupAt(raw, i).Some? <==> GroupBegins(raw, i)
    ensures GroupAt(raw, i).Some? ==> WellNested(GroupAt(raw, i).value) && GroupAt(raw, i).value <= raw[i..]
  {
    var rest := raw[i..];
    hide BalancedEnd, WellNested;
    if BalancedEnd(rest, raw[i]).Some? {
      var n := BalancedEnd(rest, raw[i]).value;
      BalancedEndExact(rest, raw[i], n);
      assert raw[i..i + n] == rest[..n];
    }
    forall e: nat | i <= e <= |raw| && WellNested(raw[i..e]) ensures BalancedEnd(rest, raw[i]).Some? {
      BalancedEndExact(rest, raw[i], e - i);
      assert raw[i..e] == rest[..e - i];
    }
  }

  /** From position i on, the groups are those at the given places: all places where one begins, in order. */
  ghost predicate GroupsStandAt(raw: string, i: nat, groups: seq<string>, places: seq<nat>) {
    && |places| == |groups|
    && (forall k | 0 <= k < |places| ::
          i <= places[k] < |raw| && WellNested(groups[k]) && groups[k] <= raw[places[k]..])
    && (forall k, l | 0 <= k < l < |places| :: places[k] < places[l])
    && (forall p: nat | i <= p < |raw| && GroupBegins(raw, p) :: p in places)
  }

  /**
    * The groups of a text are exactly one for each place where a well-nested group begins, nested ones
    * included, in text order.
    */
  lemma {:induction false} GroupsAreAllGroups(raw: string, i: nat) returns (places: seq<nat>)
    requires i <= |raw|
    ensures GroupsStandAt(raw, i, Groups(raw, i), places)
    decreases |raw| - i
  {
    hide GroupAt, WellNested, GroupBegins;
    if i == |raw| {
      places := [];
    } else {
      var rest := GroupsAreAllGroups(raw, i + 1);
      GroupAtMeaning(raw, i);
      hide GroupsStandAt;
      if GroupAt(raw, i).Some? {
        places := [i] + rest;
        PlacesFirst(raw, i, GroupAt(raw, i).value, Groups(raw, i + 1), rest);
      } else {
        places := rest;
        PlacesSkip(raw, i, Groups(raw, i + 1), rest);
      }
    }
  }

  lemma PlacesFirst(raw: string, i: nat, g: string, groups: seq<string>, places: seq<nat>)
    requires i < |raw| && GroupsStandAt(raw, i + 1, groups, places) && WellNested(g) && g <= raw[i..]
    ensures GroupsStandAt(raw, i, [g] + groups, [i] + places)
  {
    hide WellNested, GroupBegins;
    assert forall p | p in places :: p in [i] + places;
    assert i in [i] + places;
  }

  lemma PlacesSkip(raw: string, i: nat, groups: seq<string>, places: seq<nat>)
    requires i < |raw| && GroupsStandAt(raw, i + 1, groups, places) && !GroupBegins(raw, i)
    ensures GroupsStandAt(raw, i, groups, places)
  {
    hide WellNested, GroupBegins;
  }

  /** Every object or array that stands in the text, wherever it stands, is among its groups. */
  lemma {:induction false} JsonIsAmongGroups(prefix: string, j: Json, suffix: string, i: nat)
    requires ValidJson(j) && (j.Array? || j.Object?) && i <= |prefix|
    ensures TextOf(j) in Groups(prefix + TextOf(j) + suffix, i)
    decreases |prefix| - i
  {
    var raw := prefix + TextOf(j) + suffix;
    if i < |prefix| {
      JsonIsAmongGroups(prefix, j, suffix, i + 1);
    } else {
      ScanFindsJson(j, suffix);
      assert raw[i..] == TextOf(j) + suffix;
      assert raw[i..i + |TextOf(j)|] == TextOf(j);
    }
  }
}
