/**
  * The string operations of Rust's standard library that the modelled code calls: `trim`, `contains`,
  * `find`, decimal formatting, `str::parse::<u8>` and `rsplit('_').next()`.
  * Strings are sequences of Unicode scalar values.
  */
module Text {
  import opened Wrappers

  /** The Unicode property White_Space, as used by `char::is_whitespace`. */
  predicate IsWhitespace(c: char) {
    var k := c as int;
    || 0x09 <= k <= 0x0D || k == 0x20 || k == 0x85 || k == 0xA0 || k == 0x1680
    || 0x2000 <= k <= 0x200A || k == 0x2028 || k == 0x2029 || k == 0x202F || k == 0x205F || k == 0x3000
  }

  function TrimStart(s: string): (r: string) {
    if s == [] || !IsWhitespace(s[0]) then s else TrimStart(s[1..])
  }

  function TrimEnd(s: string): (r: string) {
    if s == [] || !IsWhitespace(s[|s| - 1]) then s else TrimEnd(s[..|s| - 1])
  }

  function Trim(s: string): string {
    TrimEnd(TrimStart(s))
  }

  /** Trimming removes exactly the white space at both ends. */
  lemma TrimMeaning(lead: string, s: string, trail: string)
    requires (forall c | c in lead :: IsWhitespace(c)) && forall c | c in trail :: IsWhitespace(c)
    requires s == [] || (!IsWhitespace(s[0]) && !IsWhitespace(s[|s| - 1]))
    ensures Trim(lead + s + trail) == s
  {
    assert lead + s + trail == lead + (s + trail);
    TrimStartDrops(lead, s + trail);
    if s == [] {
      assert s + trail == trail && trail + [] == trail;
      TrimStartDrops(trail, []);
    } else {
      assert (s + trail)[0] == s[0];
      TrimEndDrops(s, trail);
    }
  }

  /** Blank text: what `s.trim().is_empty()` asks. */
  predicate Blank(s: string) {
    Trim(s) == []
  }

  /** A string whose first and last characters are not white space is its own trim. */
  lemma TrimKeeps(s: string)
    requires s == [] || (!IsWhitespace(s[0]) && !IsWhitespace(s[|s| - 1]))
    ensures Trim(s) == s
  {}

  lemma {:induction false} TrimStartDrops(w: string, s: string)
    requires forall c | c in w :: IsWhitespace(c)
    ensures TrimStart(w + s) == TrimStart(s)
  {
    if w == [] {
      assert w + s == s;
    } else {
      assert (w + s)[1..] == w[1..] + s;
      TrimStartDrops(w[1..], s);
    }
  }

  lemma {:induction false} TrimEndDrops(s: string, w: string)
    requires forall c | c in w :: IsWhitespace(c)
    ensures TrimEnd(s + w) == TrimEnd(s)
  {
    if w == [] {
      assert s + w == s;
    } else {
      assert (s + w)[..|s + w| - 1] == s + w[..|w| - 1];
      TrimEndDrops(s, w[..|w| - 1]);
    }
  }

  /** Text is blank exactly when it has white space only. */
  lemma BlankIsAllWhitespace(s: string)
    ensures Blank(s) <==> forall c | c in s :: IsWhitespace(c)
  {
    if forall c | c in s :: IsWhitespace(c) {
      TrimStartDrops(s, []);
      assert s + [] == s;
    } else {
      var k :| 0 <= k < |s| && !IsWhitespace(s[k]);
      TrimStartNonEmpty(s, k);
    }
  }

  lemma {:induction false} TrimStartNonEmpty(s: string, k: nat)
    requires k < |s| && !IsWhitespace(s[k])
    ensures TrimStart(s) != [] && TrimEnd(TrimStart(s)) != []
    decreases s
  {
    if IsWhitespace(s[0]) {
      TrimStartNonEmpty(s[1..], k - 1);
    } else {
      TrimEndNonEmpty(s);
    }
  }

  lemma {:induction false} TrimEndNonEmpty(s: string)
    requires s != [] && !IsWhitespace(s[0])
    ensures TrimEnd(s) != []
  {
    if IsWhitespace(s[|s| - 1]) {
      TrimEndNonEmpty(s[..|s| - 1]);
    }
  }

  // ---------------------------------------------------------------------------------------

  /** Position of the first occurrence of a non-empty needle. */
  function Find(hay: string, needle: string): (r: Option<nat>)
    ensures r.Some? ==> r.value + |needle| <= |hay|
  {
    if needle <= hay then Some(0)
    else if hay == [] then None
    else match Find(hay[1..], needle)
         case None => None
         case Some(k) => Some(k + 1)
  }

  predicate Contains(hay: string, needle: string) {
    Find(hay, needle).Some?
  }

  /** `Find` gives the least position at which the needle occurs, and nothing iff it occurs nowhere. */
  lemma {:induction false} FindIsFirst(hay: string, needle: string)
    ensures match Find(hay, needle)
            case None => forall k | 0 <= k <= |hay| :: !(needle <= hay[k..])
            case Some(f) => needle <= hay[f..] && forall k | 0 <= k < f :: !(needle <= hay[k..])
  {
    assert hay[0..] == hay;
    if !(needle <= hay) && hay != [] {
      FindIsFirst(hay[1..], needle);
      assert forall k | 0 <= k <= |hay| - 1 :: hay[1..][k..] == hay[k + 1..];
      assert forall k | 1 <= k <= |hay| :: hay[k..] == hay[1..][k - 1..];
    }
  }

  lemma AbsentChar(hay: string, needle: string, c: char)
    requires c in needle && c !in hay
    ensures !Contains(hay, needle)
  {
    FindIsFirst(hay, needle);
    forall k | 0 <= k <= |hay| ensures !(needle <= hay[k..]) {
      var i :| 0 <= i < |needle| && needle[i] == c;
      if i < |hay| - k {
        assert hay[k..][i] == hay[k + i] && hay[k + i] in hay;
      }
    }
  }

  lemma PresentAt(p: string, needle: string, s: string)
    ensures Contains(p + needle + s, needle)
  {
    var hay := p + needle + s;
    FindIsFirst(hay, needle);
    hide Find;
    assert hay[|p|..] == needle + s;
    assert needle <= hay[|p|..];
  }

  // ---------------------------------------------------------------------------------------

  const U8_MAX := 255

  predicate IsDigit(c: char) {
    '0' <= c <= '9'
  }

  function Digit(d: nat): (c: char)
    requires d < 10
    ensures IsDigit(c) && c as int - '0' as int == d
  {
    ('0' as int + d) as char
  }

  /** Decimal formatting of a natural number. */
  function Decimal(n: nat): (s: string)
    ensures s != [] && forall c | c in s :: IsDigit(c)
  {
    if n < 10 then [Digit(n)] else Decimal(n / 10) + [Digit(n % 10)]
  }

  /** The digit loop of `u8::from_str`: checked multiply and add, failing on overflow. */
  function ParseDigits(s: string, acc: nat): Option<nat> {
    if s == [] then Some(acc)
    else if !IsDigit(s[0]) then None
    else
      var next := acc * 10 + (s[0] as int - '0' as int);
      if next > U8_MAX then None else ParseDigits(s[1..], next)
  }

  /** `str::parse::<u8>`: one leading '+' is accepted; empty text and a bare sign are errors. */
  function ParseU8(s: string): Option<nat> {
    if s == [] || s == "+" then None
    else if s[0] == '+' then ParseDigits(s[1..], 0)
    else ParseDigits(s, 0)
  }

  lemma {:induction false} ParseDigitsAppend(a: string, b: string, acc: nat)
    ensures ParseDigits(a + b, acc)
         == match ParseDigits(a, acc) { case None => None case Some(m) => ParseDigits(b, m) }
  {
    if a == [] {
      assert a + b == b;
    } else {
      assert (a + b)[1..] == a[1..] + b;
      if IsDigit(a[0]) && acc * 10 + (a[0] as int - '0' as int) <= U8_MAX {
        ParseDigitsAppend(a[1..], b, acc * 10 + (a[0] as int - '0' as int));
      }
    }
  }

  lemma {:induction false} ParseDigitsDecimal(n: nat)
    requires n <= U8_MAX
    ensures ParseDigits(Decimal(n), 0) == Some(n)
  {
    if n >= 10 {
      ParseDigitsDecimal(n / 10);
      ParseDigitsAppend(Decimal(n / 10), [Digit(n % 10)], 0);
      assert ParseDigits([Digit(n % 10)], n / 10) == Some(n) by {
        assert [Digit(n % 10)][1..] == [];
      }
    } else {
      assert [Digit(n)][1..] == [];
    }
  }

  /** Formatting a u8 and parsing it back gives the same number. */
  lemma ParseU8Decimal(n: nat)
    requires n <= U8_MAX
    ensures ParseU8(Decimal(n)) == Some(n)
  {
    ParseDigitsDecimal(n);
    assert IsDigit(Decimal(n)[0]);
  }

  predicate AllDigits(s: string) {
    forall i | 0 <= i < |s| :: IsDigit(s[i])
  }

  /** The number that a row of digits writes, leading zeros allowed. */
  function Value(s: string): nat
    requires AllDigits(s)
  {
    if s == [] then 0 else 10 * Value(s[..|s| - 1]) + (s[|s| - 1] as int - '0' as int)
  }

  lemma ParseDigitsSnoc(s: string, c: char)
    ensures ParseDigits(s + [c], 0)
         == match ParseDigits(s, 0)
            case None => None
            case Some(m) =>
              if !IsDigit(c) || m * 10 + (c as int - '0' as int) > U8_MAX then None
              else Some(m * 10 + (c as int - '0' as int))
  {
    ParseDigitsAppend(s, [c], 0);
    var m := ParseDigits(s, 0);
    if m.Some? {
      assert [c][1..] == [];
    }
  }

  lemma {:induction false} ParseDigitsMeaning(s: string)
    ensures ParseDigits(s, 0) == if AllDigits(s) && Value(s) <= 255 then Some(Value(s)) else None
  {
    if s != [] {
      var n := |s| - 1;
      ParseDigitsMeaning(s[..n]);
      ParseDigitsSnoc(s[..n], s[n]);
      assert s == s[..n] + [s[n]];
      hide ParseDigits;
      assert AllDigits(s) <==> AllDigits(s[..n]) && IsDigit(s[n]) by {
        if AllDigits(s[..n]) && IsDigit(s[n]) {
          forall i | 0 <= i < |s| ensures IsDigit(s[i]) { if i < n { assert s[..n][i] == s[i]; } }
        }
        if AllDigits(s) { assert forall i | 0 <= i < n :: s[..n][i] == s[i]; }
      }
    }
  }

  /** Parsing accepts one plus sign, then digits, one at least, of value at most 255; nothing else. */
  lemma ParseU8Meaning(s: string)
    ensures var digits := if s != [] && s[0] == '+' then s[1..] else s;
            ParseU8(s)
            == if digits != [] && AllDigits(digits) && Value(digits) <= 255 then Some(Value(digits)) else None
  {
    ParseDigitsMeaning(s);
    if s != [] && s[0] == '+' {
      assert s[1..] == [] ==> s == "+";
      ParseDigitsMeaning(s[1..]);
    }
    hide ParseDigits, Value;
  }

  /** `rsplit('_').next()`: what follows the last underscore, or everything. */
  function LastSegment(s: string): string {
    if s == [] || s[|s| - 1] == '_' then []
    else LastSegment(s[..|s| - 1]) + [s[|s| - 1]]
  }

  lemma {:induction false} LastSegmentAfter(p: string, s: string)
    requires forall i | 0 <= i < |s| :: s[i] != '_'
    ensures LastSegment(p + "_" + s) == s
  {
    if s == [] {
      assert (p + "_" + s)[|p + "_" + s| - 1] == '_';
    } else {
      var whole := p + "_" + s;
      assert whole[..|whole| - 1] == p + "_" + s[..|s| - 1];
      LastSegmentAfter(p, s[..|s| - 1]);
      assert s == s[..|s| - 1] + [s[|s| - 1]];
    }
  }

  lemma {:induction false} LastSegmentWhole(s: string)
    requires forall i | 0 <= i < |s| :: s[i] != '_'
    ensures LastSegment(s) == s
  {
    if s != [] {
      LastSegmentWhole(s[..|s| - 1]);
    }
  }
}
