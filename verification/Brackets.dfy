/**
  * The bracket scanners of src/orchestrator/helpers.rs: the stack scanner `find_balanced_json_end`,
  * the brace counter inside `extract_json_object`, and the grammar of well-nested text against
  * which both are judged.
  */
module Brackets {
  import opened Wrappers
  import Utf8

  predicate IsOpen(c: char) { c == '{' || c == '[' }
  predicate IsClose(c: char) { c == '}' || c == ']' }

  function Closer(c: char): char {
    if c == '{' then '}' else ']'
  }

  function Shift(o: Option<nat>, n: nat): Option<nat> {
    match o case None => None case Some(k) => Some(k + n)
  }

  // ------------------------------------------------------------------ well-nested text

  /** The inside of a string: plain characters, and backslashes with the character they escape. */
  datatype Units = NoUnits | Raw(c: char, more: Units) | Escape(c: char, more: Units)

  /** Text made of plain characters, strings and bracketed groups. */
  datatype Items =
    | End
    | Plain(c: char, rest: Items)
    | Quoted(units: Units, rest: Items)
    | Group(open: char, body: Items, rest: Items)

  predicate ValidUnits(us: Units) {
    match us
    case NoUnits => true
    case Raw(c, more) => c != '"' && c != '\\' && ValidUnits(more)
    case Escape(_, more) => ValidUnits(more)
  }

  predicate ValidItems(t: Items) {
    match t
    case End => true
    case Plain(c, rest) => c != '"' && !IsOpen(c) && !IsClose(c) && ValidItems(rest)
    case Quoted(units, rest) => ValidUnits(units) && ValidItems(rest)
    case Group(open, body, rest) => IsOpen(open) && ValidItems(body) && ValidItems(rest)
  }

  function UnitsText(us: Units): string {
    match us
    case NoUnits => []
    case Raw(c, more) => [c] + UnitsText(more)
    case Escape(c, more) => ['\\', c] + UnitsText(more)
  }

  function ItemsText(t: Items): string {
    match t
    case End => []
    case Plain(c, rest) => [c] + ItemsText(rest)
    case Quoted(units, rest) => ['"'] + UnitsText(units) + ['"'] + ItemsText(rest)
    case Group(open, body, rest) => [open] + ItemsText(body) + [Closer(open)] + ItemsText(rest)
  }

  function GroupText(open: char, body: Items): string {
    [open] + ItemsText(body) + [Closer(open)]
  }

  /** A bracketed group: brackets match in kind and order outside strings. */
  ghost predicate WellNested(s: string) {
    exists open, body :: IsOpen(open) && ValidItems(body) && s == GroupText(open, body)
  }

  // ------------------------------------------------------------------ the stack scanner

  /** The scanner's variables: brackets still expected, and the two string flags. */
  datatype Scan = Scan(expected: string, inString: bool, escaped: bool)

  datatype Outcome = Go(s: Scan) | Finish | Mismatch

  function Step(s: Scan, c: char): Outcome {
    if s.inString then
      Go(if s.escaped then s.(escaped := false)
         else if c == '\\' then s.(escaped := true)
         else if c == '"' then s.(inString := false)
         else s)
    else if c == '"' then Go(s.(inString := true))
    else if IsOpen(c) then Go(s.(expected := s.expected + [Closer(c)]))
    else if IsClose(c) then
      if s.expected == [] || s.expected[|s.expected| - 1] != c then Mismatch
      else if |s.expected| == 1 then Finish
      else Go(s.(expected := s.expected[..|s.expected| - 1]))
    else Go(s)
  }

  /** How many characters the scan consumes until the last expected bracket is met. */
  function ScanFrom(text: string, s: Scan): (r: Option<nat>)
    ensures r.Some? ==> 1 <= r.value <= |text|
  {
    if text == [] then None
    else match Step(s, text[0])
         case Go(s') => Shift(ScanFrom(text[1..], s'), 1)
         case Finish => Some(1)
         case Mismatch => None
  }

  function Outside(expected: string): Scan { Scan(expected, false, false) }
  function Inside(expected: string): Scan { Scan(expected, true, false) }

  /** Length of the bracketed text at the front of `text`, its first character standing for `opening`. */
  function BalancedEnd(text: string, opening: char): (r: Option<nat>)
    ensures r.Some? ==> 2 <= r.value <= |text|
  {
    if !IsOpen(opening) || text == [] then None
    else Shift(ScanFrom(text[1..], Outside([Closer(opening)])), 1)
  }

  lemma ScanCons(c: char, rest: string, text: string, s: Scan)
    requires text == [c] + rest
    ensures ScanFrom(text, s)
         == match Step(s, c)
            case Go(s') => Shift(ScanFrom(rest, s'), 1)
            case Finish => Some(1)
            case Mismatch => None
  {
    assert text[1..] == rest;
  }

  lemma {:induction false} ScanUnits(us: Units, tail: string, expected: string)
    requires ValidUnits(us)
    ensures ScanFrom(UnitsText(us) + ['"'] + tail, Inside(expected))
         == Shift(ScanFrom(tail, Outside(expected)), |UnitsText(us)| + 1)
  {
    hide ScanFrom;
    var text := UnitsText(us) + ['"'] + tail;
    match us {
      case NoUnits =>
        ScanCons('"', tail, text, Inside(expected));
      case Raw(c, more) =>
        ScanUnits(more, tail, expected);
        ScanCons(c, UnitsText(more) + ['"'] + tail, text, Inside(expected));
      case Escape(c, more) =>
        var rest := UnitsText(more) + ['"'] + tail;
        ScanUnits(more, tail, expected);
        ScanCons(c, rest, [c] + rest, Scan(expected, true, true));
        ScanCons('\\', [c] + rest, text, Inside(expected));
    }
  }

  /** Scanning well-nested items leaves the scanner where it was. */
  lemma {:induction false} ScanItems(t: Items, tail: string, expected: string)
    requires ValidItems(t) && expected != []
    ensures ScanFrom(ItemsText(t) + tail, Outside(expected))
         == Shift(ScanFrom(tail, Outside(expected)), |ItemsText(t)|)
    decreases t, 0
  {
    hide ScanFrom;
    var text, s := ItemsText(t) + tail, Outside(expected);
    match t {
      case End =>
        assert text == tail;
      case Plain(c, rest) =>
        ScanItems(rest, tail, expected);
        ScanCons(c, ItemsText(rest) + tail, text, s);
      case Quoted(units, rest) =>
        ScanItems(rest, tail, expected);
        ScanUnits(units, ItemsText(rest) + tail, expected);
        ScanCons('"', UnitsText(units) + ['"'] + (ItemsText(rest) + tail), text, s);
      case Group(open, body, rest) =>
        ScanItems(rest, tail, expected);
        ScanInner(open, body, ItemsText(rest) + tail, expected);
        assert text == [open] + (ItemsText(body) + ([Closer(open)] + (ItemsText(rest) + tail)));
    }
  }

  lemma {:induction false} ScanInner(open: char, body: Items, after: string, expected: string)
    requires IsOpen(open) && ValidItems(body) && expected != []
    ensures ScanFrom([open] + (ItemsText(body) + ([Closer(open)] + after)), Outside(expected))
         == Shift(ScanFrom(after, Outside(expected)), |ItemsText(body)| + 2)
    decreases body, 1
  {
    hide ScanFrom;
    var close := Closer(open);
    var pushed := expected + [close];
    ScanItems(body, [close] + after, pushed);
    assert pushed[..|pushed| - 1] == expected;
    ScanCons(close, after, [close] + after, Outside(pushed));
    ScanCons(open, ItemsText(body) + ([close] + after),
             [open] + (ItemsText(body) + ([close] + after)), Outside(expected));
  }

  /** Completeness: on a well-nested group followed by anything, the scan stops exactly at its end. */
  lemma ScanGroup(open: char, body: Items, suffix: string)
    requires IsOpen(open) && ValidItems(body)
    ensures BalancedEnd(GroupText(open, body) + suffix, open) == Some(|GroupText(open, body)|)
  {
    var close, after := Closer(open), [Closer(open)] + suffix;
    ScanItems(body, after, [close]);
    ScanCons(close, suffix, after, Outside([close]));
    hide ScanFrom, ItemsText;
    assert (GroupText(open, body) + suffix)[1..] == ItemsText(body) + after;
  }

  /** Inside a string, a successful scan has found the closing quote after some units. */
  lemma {:induction false} ReadUnits(text: string, expected: string) returns (us: Units, tail: string)
    requires ScanFrom(text, Inside(expected)).Some?
    ensures ValidUnits(us)
    ensures text == UnitsText(us) + ['"'] + tail
    ensures ScanFrom(tail, Outside(expected)).Some?
    decreases |text|
  {
    var c, rest := text[0], text[1..];
    if c == '"' {
      us, tail := NoUnits, rest;
    } else if c == '\\' {
      assert ScanFrom(rest, Scan(expected, true, true)).Some?;
      us, tail := ReadUnits(rest[1..], expected);
      us := Escape(rest[0], us);
    } else {
      us, tail := ReadUnits(rest, expected);
      us := Raw(c, us);
    }
  }

  /** A successful scan has read well-nested items up to the bracket expected next. */
  lemma {:induction false} ReadItems(text: string, expected: string) returns (t: Items, tail: string)
    requires expected != [] && ScanFrom(text, Outside(expected)).Some?
    ensures ValidItems(t)
    ensures text == ItemsText(t) + [expected[|expected| - 1]] + tail
    ensures IsClose(expected[|expected| - 1])
    ensures |expected| > 1 ==> ScanFrom(tail, Outside(expected[..|expected| - 1])).Some?
    decreases |text|, 0
  {
    var c, rest := text[0], text[1..];
    assert text == [c] + rest;
    ScanCons(c, rest, text, Outside(expected));
    hide ScanFrom;
    if IsClose(c) {
      t, tail := End, rest;
    } else if c == '"' {
      t, tail := ReadQuoted(rest, expected);
    } else if IsOpen(c) {
      t, tail := ReadGroup(c, rest, expected);
    } else {
      t, tail := ReadItems(rest, expected);
      t := Plain(c, t);
    }
  }

  lemma {:induction false} ReadQuoted(rest: string, expected: string) returns (t: Items, tail: string)
    requires expected != [] && ScanFrom(rest, Inside(expected)).Some?
    ensures ValidItems(t)
    ensures ['"'] + rest == ItemsText(t) + [expected[|expected| - 1]] + tail
    ensures IsClose(expected[|expected| - 1])
    ensures |expected| > 1 ==> ScanFrom(tail, Outside(expected[..|expected| - 1])).Some?
    decreases |rest|, 1
  {
    hide ScanFrom, IsClose, UnitsText;
    var us, tail1 := ReadUnits(rest, expected);
    t, tail := ReadItems(tail1, expected);
    t := Quoted(us, t);
  }

  lemma {:induction false} ReadGroup(c: char, rest: string, expected: string) returns (t: Items, tail: string)
    requires expected != [] && IsOpen(c) && ScanFrom(rest, Outside(expected + [Closer(c)])).Some?
    ensures ValidItems(t)
    ensures [c] + rest == ItemsText(t) + [expected[|expected| - 1]] + tail
    ensures IsClose(expected[|expected| - 1])
    ensures |expected| > 1 ==> ScanFrom(tail, Outside(expected[..|expected| - 1])).Some?
    decreases |rest|, 1
  {
    hide ScanFrom;
    var pushed := expected + [Closer(c)];
    var body, tail1 := ReadItems(rest, pushed);
    assert pushed[..|pushed| - 1] == expected;
    t, tail := ReadItems(tail1, expected);
    t := Group(c, body, t);
  }

  /** Soundness: whatever the scan accepts is a well-nested group. */
  lemma ScanAcceptsWellNested(text: string, opening: char)
    requires text != [] && text[0] == opening && BalancedEnd(text, opening).Some?
    ensures WellNested(text[..BalancedEnd(text, opening).value])
  {
    var body, tail := ReadItems(text[1..], [Closer(opening)]);
    ScanGroup(opening, body, tail);
    assert text == GroupText(opening, body) + tail by {
      assert text == [opening] + text[1..];
    }
    assert text[..|GroupText(opening, body)|] == GroupText(opening, body);
  }

  /**
    * The stack scanner is exact: it returns e iff the first e characters are a well-nested group. So
    * such an e is unique, and no shorter prefix is well nested.
    */
  lemma BalancedEndExact(text: string, opening: char, e: nat)
    requires text != [] && text[0] == opening
    ensures BalancedEnd(text, opening) == Some(e) <==> e <= |text| && WellNested(text[..e])
  {
    if BalancedEnd(text, opening) == Some(e) {
      ScanAcceptsWellNested(text, opening);
    }
    if e <= |text| && WellNested(text[..e]) {
      var open, body :| IsOpen(open) && ValidItems(body) && text[..e] == GroupText(open, body);
      assert text[..e][0] == opening;
      ScanGroup(open, body, text[e..]);
      assert text == GroupText(open, body) + text[e..];
    }
  }

  // ------------------------------------------------------------------ the brace counter

  /** The counter's variables. */
  datatype Count = Count(depth: int, inString: bool, escaped: bool)

  /** One step on a code unit, given as a number; bytes and characters share the ASCII range. */
  function CountStep(s: Count, b: int): Count {
    if s.escaped then s.(escaped := false)
    else if b == '\\' as int && s.inString then s.(escaped := true)
    else if b == '"' as int then s.(inString := !s.inString)
    else if b == '{' as int && !s.inString then s.(depth := s.depth + 1)
    else if b == '}' as int && !s.inString then s.(depth := s.depth - 1)
    else s
  }

  predicate CountStops(s: Count, b: int) {
    !s.escaped && b == '}' as int && !s.inString && s.depth == 1
  }

  /** How many characters the counter consumes until the depth returns to zero. */
  function CountFrom(text: string, s: Count): (r: Option<nat>)
    ensures r.Some? ==> 1 <= r.value <= |text|
  {
    if text == [] then None
    else if CountStops(s, text[0] as int) then Some(1)
    else Shift(CountFrom(text[1..], CountStep(s, text[0] as int)), 1)
  }

  /** The same over bytes, which is what the source does. */
  function CountBytes(bytes: Utf8.Bytes, s: Count): (r: Option<nat>)
    ensures r.Some? ==> 1 <= r.value <= |bytes|
  {
    if bytes == [] then None
    else if CountStops(s, bytes[0]) then Some(1)
    else Shift(CountBytes(bytes[1..], CountStep(s, bytes[0])), 1)
  }

  const COUNT_START := Count(0, false, false)

  function ByteLen(s: string): nat { |Utf8.Encode(s)| }

  /** The bytes of one character move the counter as the character does. */
  lemma CountChar(c: char, rest: Utf8.Bytes, s: Count)
    ensures CountBytes(Utf8.EncodeChar(c) + rest, s)
         == if CountStops(s, c as int) then Some(1)
            else Shift(CountBytes(rest, CountStep(s, c as int)), |Utf8.EncodeChar(c)|)
  {
    var bytes := Utf8.EncodeChar(c) + rest;
    if c as int < 0x80 {
      assert bytes[1..] == rest;
    } else {
      var s' := CountStep(s, c as int);
      assert forall i | 0 <= i < |Utf8.EncodeChar(c)| :: bytes[i] >= 0x80;
      CountInert(bytes, |Utf8.EncodeChar(c)|, s);
      assert bytes[|Utf8.EncodeChar(c)|..] == rest;
    }
  }

  lemma {:induction false} CountInert(bytes: Utf8.Bytes, n: nat, s: Count)
    requires n <= |bytes| && forall i | 0 <= i < n :: bytes[i] >= 0x80
    ensures CountBytes(bytes, s)
         == Shift(CountBytes(bytes[n..], if n == 0 then s else s.(escaped := false)), n)
  {
    if n > 0 {
      var s' := s.(escaped := false);
      assert CountStep(s, bytes[0]) == s' && !CountStops(s, bytes[0]);
      CountInert(bytes[1..], n - 1, s');
      assert bytes[1..][n - 1..] == bytes[n..];
    } else {
      assert bytes[0..] == bytes;
    }
  }

  /** Counting over the bytes of a text stops at the byte position of the character position. */
  lemma {:induction false} CountBytesIsCountFrom(text: string, s: Count)
    ensures CountBytes(Utf8.Encode(text), s)
         == match CountFrom(text, s) { case None => None case Some(k) => Some(ByteLen(text[..k])) }
  {
    if text != [] {
      var c := text[0];
      CountChar(c, Utf8.Encode(text[1..]), s);
      if CountStops(s, c as int) {
        assert text[..1] == [c] && text[..1][1..] == [];
        assert Utf8.Encode(text[..1]) == Utf8.EncodeChar(c) + [];
      } else {
        var s' := CountStep(s, c as int);
        CountBytesIsCountFrom(text[1..], s');
        match CountFrom(text[1..], s') {
          case None =>
          case Some(k) =>
            assert text[..k + 1][1..] == text[1..][..k];
        }
      }
    }
  }

  /** Number of closing braces the stack scanner still expects. */
  function Braces(expected: string): (n: nat) {
    if expected == [] then 0
    else Braces(expected[1..]) + if expected[0] == '}' then 1 else 0
  }

  lemma {:induction false} BracesSnoc(e: string, c: char)
    ensures Braces(e + [c]) == Braces(e) + if c == '}' then 1 else 0
  {
    if e == [] {
      assert (e + [c])[1..] == [];
    } else {
      assert (e + [c])[1..] == e[1..] + [c];
      BracesSnoc(e[1..], c);
    }
  }

  /** From matching states, whenever the stack scan succeeds, the counter stops at the same place. */
  lemma {:induction false} CounterFollowsStack(text: string, s: Scan)
    requires s.expected != [] && s.expected[0] == '}' && (s.escaped ==> s.inString)
    requires ScanFrom(text, s).Some?
    ensures CountFrom(text, Count(Braces(s.expected), s.inString, s.escaped)) == ScanFrom(text, s)
  {
    var c, e := text[0], s.expected;
    var k := Count(Braces(e), s.inString, s.escaped);
    assert Braces(e) >= 1;
    match Step(s, c) {
      case Finish =>
        assert e == ['}'] && e[1..] == [];
        assert CountStops(k, c as int);
      case Go(s') =>
        if !s.inString && IsOpen(c) {
          BracesSnoc(e, Closer(c));
        } else if !s.inString && IsClose(c) {
          var n := |e| - 1;
          assert e == e[..n] + [c];
          BracesSnoc(e[..n], c);
          assert Braces(e[..n]) >= 1;
        }
        assert CountStep(k, c as int) == Count(Braces(s'.expected), s'.inString, s'.escaped);
        assert !CountStops(k, c as int);
        CounterFollowsStack(text[1..], s');
    }
  }

  /**
    * The counter refines the stack scanner: on text that starts with a brace, the stack scanner
    * returns e exactly when the counter returns e and the text up to e is well nested.
    */
  lemma CounterRefinesStack(text: string, e: nat)
    requires text != [] && text[0] == '{'
    ensures BalancedEnd(text, '{') == Some(e)
       <==> CountFrom(text, COUNT_START) == Some(e) && WellNested(text[..e])
  {
    BalancedEndExact(text, '{', e);
    assert Braces(['}']) == 1 by { assert ['}'][1..] == []; }
    if BalancedEnd(text, '{') == Some(e) {
      CounterFollowsStack(text[1..], Outside(['}']));
    }
  }

  /** No square bracket stands outside strings in the first n characters. */
  predicate SquareFree(text: string, n: nat, s: Count)
    requires n <= |text|
  {
    n == 0
    || ((s.inString || (text[0] != '[' && text[0] != ']'))
        && SquareFree(text[1..], n - 1, CountStep(s, text[0] as int)))
  }

  function ClosingBraces(d: nat): string { seq(d, _ => '}') }

  /** Without square brackets, the stack is a unary counter. */
  lemma {:induction false} StackFollowsCounter(text: string, d: nat, inString: bool, escaped: bool)
    requires d > 0 && (escaped ==> inString)
    requires CountFrom(text, Count(d, inString, escaped)).Some?
    requires SquareFree(text, CountFrom(text, Count(d, inString, escaped)).value, Count(d, inString, escaped))
    ensures ScanFrom(text, Scan(ClosingBraces(d), inString, escaped)) == CountFrom(text, Count(d, inString, escaped))
  {
    var k, c := Count(d, inString, escaped), text[0];
    if !CountStops(k, c as int) {
      var k' := CountStep(k, c as int);
      assert ClosingBraces(d) + ['}'] == ClosingBraces(d + 1);
      if d > 1 { assert ClosingBraces(d)[..d - 1] == ClosingBraces(d - 1); }
      assert Step(Scan(ClosingBraces(d), inString, escaped), c)
          == Go(Scan(ClosingBraces(k'.depth), k'.inString, k'.escaped));
      StackFollowsCounter(text[1..], k'.depth, k'.inString, k'.escaped);
    }
  }

  /** The scanners agree on every text with no square bracket outside strings before the counter stops. */
  lemma ScannersAgree(text: string)
    requires text != [] && text[0] == '{'
    requires CountFrom(text, COUNT_START).Some? ==>
               SquareFree(text, CountFrom(text, COUNT_START).value, COUNT_START)
    ensures BalancedEnd(text, '{') == CountFrom(text, COUNT_START)
  {
    if BalancedEnd(text, '{').Some? {
      CounterRefinesStack(text, BalancedEnd(text, '{').value);
    } else if CountFrom(text, COUNT_START).Some? {
      assert ClosingBraces(1) == ['}'];
      StackFollowsCounter(text[1..], 1, false, false);
    }
  }

  /** The text with a blank for every square bracket. */
  function Erased(text: string): (r: string)
    ensures |r| == |text|
    ensures forall i | 0 <= i < |text| :: r[i] == if text[i] == '[' || text[i] == ']' then ' ' else text[i]
  {
    seq(|text|, i requires 0 <= i < |text| => if text[i] == '[' || text[i] == ']' then ' ' else text[i])
  }

  /** The counter does not see square brackets. */
  lemma {:induction false} CountErased(text: string, s: Count)
    ensures CountFrom(Erased(text), s) == CountFrom(text, s)
    ensures forall n | 0 <= n <= |text| :: SquareFree(Erased(text), n, s)
  {
    if text != [] {
      var s' := CountStep(s, text[0] as int);
      assert Erased(text)[1..] == Erased(text[1..]);
      assert CountStep(s, Erased(text)[0] as int) == s';
      CountErased(text[1..], s');
      forall n | 0 < n <= |text| ensures SquareFree(Erased(text), n, s) {
        assert SquareFree(Erased(text[1..]), n - 1, s');
      }
    }
  }

  /**
    * The counter is exact too: started at a brace, it returns e iff the first e characters are a
    * well-nested group once square brackets count as ordinary characters.
    */
  lemma CounterExact(text: string, e: nat)
    requires text != [] && text[0] == '{'
    ensures CountFrom(text, COUNT_START) == Some(e) <==> e <= |text| && WellNested(Erased(text)[..e])
  {
    var t := Erased(text);
    CountErased(text, COUNT_START);
    hide CountFrom, BalancedEnd, WellNested, SquareFree;
    ScannersAgree(t);
    BalancedEndExact(t, '{', e);
  }

  /** The counter ignores square brackets, so it accepts texts that the stack scanner refuses. */
  lemma CounterAcceptsMore()
    ensures CountFrom("{]}", COUNT_START) == Some(3) && BalancedEnd("{]}", '{') == None
  {
    assert "{]}"[1..] == "]}" && "]}"[1..] == "}";
    assert CountFrom("}", Count(1, false, false)) == Some(1);
    assert CountFrom("]}", Count(1, false, false)) == Some(2);
    assert ScanFrom("]}", Outside(['}'])) == None;
  }
}
