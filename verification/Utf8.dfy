/**
  * UTF-8 as RFC 3629 defines it, and the chunk-safe flushing of `flush_utf8_safe` in
  * src/orchestrator/coder_backend.rs.
  */
module Utf8 {
  import opened Types

  type Bytes = seq<u8>

  // ------------------------------------------------------------------ syntax (section 4 of RFC 3629)

  predicate Tail(b: u8) { 0x80 <= b <= 0xBF }

  predicate Char2(a: u8, b: u8) { 0xC2 <= a <= 0xDF && Tail(b) }

  /** The first two bytes of a character of three bytes. */
  predicate Start3(a: u8, b: u8) {
    || (a == 0xE0 && 0xA0 <= b <= 0xBF)
    || (0xE1 <= a <= 0xEC && Tail(b))
    || (a == 0xED && 0x80 <= b <= 0x9F)
    || (0xEE <= a <= 0xEF && Tail(b))
  }

  predicate Char3(a: u8, b: u8, c: u8) { Start3(a, b) && Tail(c) }

  /** The first two bytes of a character of four bytes. */
  predicate Start4(a: u8, b: u8) {
    || (a == 0xF0 && 0x90 <= b <= 0xBF)
    || (0xF1 <= a <= 0xF3 && Tail(b))
    || (a == 0xF4 && 0x80 <= b <= 0x8F)
  }

  predicate Char4(a: u8, b: u8, c: u8, d: u8) { Start4(a, b) && Tail(c) && Tail(d) }

  /** The beginning of a character, cut off before its last byte. */
  predicate Truncated(s: Bytes) {
    || (|s| == 1 && 0xC2 <= s[0] <= 0xF4)
    || (|s| == 2 && (Start3(s[0], s[1]) || Start4(s[0], s[1])))
    || (|s| == 3 && Start4(s[0], s[1]) && Tail(s[2]))
  }

  /** Length of the well-formed character at the front, or 0 when there is none. */
  function CharLen(s: Bytes): (n: nat)
    ensures n <= |s| && n <= 4
  {
    if |s| >= 1 && s[0] <= 0x7F then 1
    else if |s| >= 2 && Char2(s[0], s[1]) then 2
    else if |s| >= 3 && Char3(s[0], s[1], s[2]) then 3
    else if |s| >= 4 && Char4(s[0], s[1], s[2], s[3]) then 4
    else 0
  }

  /** Length of the longest well-formed prefix: `Utf8Error::valid_up_to`, or everything. */
  function ValidUpTo(s: Bytes): (n: nat)
    ensures n <= |s|
  {
    var n := CharLen(s);
    if n == 0 then 0 else n + ValidUpTo(s[n..])
  }

  predicate Valid(s: Bytes) {
    ValidUpTo(s) == |s|
  }

  // ------------------------------------------------------------------ characters (section 3 of RFC 3629)

  function EncodeChar(c: char): (s: Bytes)
    ensures 1 <= |s| <= 4
  {
    var k := c as int;
    if k < 0x80 then [k]
    else if k < 0x800 then [0xC0 + k / 64, 0x80 + k % 64]
    else if k < 0x10000 then [0xE0 + k / 4096, 0x80 + k / 64 % 64, 0x80 + k % 64]
    else [0xF0 + k / 262144, 0x80 + k / 4096 % 64, 0x80 + k / 64 % 64, 0x80 + k % 64]
  }

  function Value2(a: int, b: int): int { (a - 0xC0) * 64 + (b - 0x80) }
  function Value3(a: int, b: int, c: int): int { (a - 0xE0) * 4096 + (b - 0x80) * 64 + (c - 0x80) }
  function Value4(a: int, b: int, c: int, d: int): int {
    (a - 0xF0) * 262144 + (b - 0x80) * 4096 + (c - 0x80) * 64 + (d - 0x80)
  }

  /** The character at the front of a text whose first character is well formed. */
  function DecodeChar(s: Bytes): char
    requires CharLen(s) > 0
  {
    match CharLen(s)
    case 1 => s[0] as char
    case 2 => Value2(s[0], s[1]) as char
    case 3 => Value3(s[0], s[1], s[2]) as char
    case _ => Value4(s[0], s[1], s[2], s[3]) as char
  }

  function Encode(s: string): Bytes {
    if s == [] then [] else EncodeChar(s[0]) + Encode(s[1..])
  }

  /** The text of the longest well-formed prefix. */
  function Decode(s: Bytes): string {
    var n := CharLen(s);
    if n == 0 then [] else [DecodeChar(s)] + Decode(s[n..])
  }

  lemma CharLenStable(s: Bytes, rest: Bytes)
    requires CharLen(s) > 0
    ensures CharLen(s + rest) == CharLen(s) && DecodeChar(s + rest) == DecodeChar(s)
  {
    assert forall i | 0 <= i < |s| :: (s + rest)[i] == s[i];
  }

  lemma EncodedCharReads(c: char)
    ensures CharLen(EncodeChar(c)) == |EncodeChar(c)| && DecodeChar(EncodeChar(c)) == c
  {
    var k := c as int;
    if 0x800 <= k < 0x10000 {
      assert k / 4096 == k / 64 / 64;
    } else if k >= 0x10000 {
      assert k / 4096 == k / 64 / 64 && k / 262144 == k / 4096 / 64;
    }
  }

  lemma CharRoundTrip(c: char, rest: Bytes)
    ensures CharLen(EncodeChar(c) + rest) == |EncodeChar(c)|
    ensures DecodeChar(EncodeChar(c) + rest) == c
  {
    EncodedCharReads(c);
    CharLenStable(EncodeChar(c), rest);
  }

  lemma Reencode2(a: u8, b: u8)
    requires Char2(a, b)
    ensures EncodeChar(Value2(a, b) as char) == [a, b]
  {
    assert Value2(a, b) / 64 == a - 0xC0;
  }

  lemma Reencode3(a: u8, b: u8, c: u8)
    requires Char3(a, b, c)
    ensures EncodeChar(Value3(a, b, c) as char) == [a, b, c]
  {
    var k, a': int, b': int := Value3(a, b, c), a, b;
    assert k / 64 == (a' - 0xE0) * 64 + (b' - 0x80);
    assert k / 4096 == a' - 0xE0;
  }

  lemma Reencode4(a: u8, b: u8, c: u8, d: u8)
    requires Char4(a, b, c, d)
    ensures EncodeChar(Value4(a, b, c, d) as char) == [a, b, c, d]
  {
    var k, a': int, b': int, c': int := Value4(a, b, c, d), a, b, c;
    assert k / 64 == (a' - 0xF0) * 4096 + (b' - 0x80) * 64 + (c' - 0x80);
    assert k / 4096 == (a' - 0xF0) * 64 + (b' - 0x80);
    assert k / 262144 == a' - 0xF0;
  }

  lemma BytesRoundTrip(s: Bytes)
    requires CharLen(s) > 0
    ensures EncodeChar(DecodeChar(s)) == s[..CharLen(s)]
  {
    match CharLen(s)
    case 1 =>
      assert s[..1] == [s[0]];
    case 2 =>
      hide EncodeChar;
      Reencode2(s[0], s[1]);
      assert s[..2] == [s[0], s[1]];
    case 3 =>
      hide EncodeChar;
      Reencode3(s[0], s[1], s[2]);
      assert s[..3] == [s[0], s[1], s[2]];
    case _ =>
      hide EncodeChar;
      Reencode4(s[0], s[1], s[2], s[3]);
      assert s[..4] == [s[0], s[1], s[2], s[3]];
  }

  /** Encoding gives well-formed bytes that decode to the same text. */
  lemma {:induction false} EncodeDecode(s: string)
    ensures Valid(Encode(s)) && Decode(Encode(s)) == s
  {
    if s != [] {
      CharRoundTrip(s[0], Encode(s[1..]));
      EncodeDecode(s[1..]);
      assert Encode(s)[|EncodeChar(s[0])|..] == Encode(s[1..]);
    }
  }

  /** Decoding loses nothing of the well-formed prefix. */
  lemma {:induction false} DecodeEncode(s: Bytes)
    ensures Encode(Decode(s)) == s[..ValidUpTo(s)]
  {
    hide CharLen, DecodeChar, EncodeChar;
    var n := CharLen(s);
    if n != 0 {
      BytesRoundTrip(s);
      DecodeEncode(s[n..]);
      assert Decode(s)[1..] == Decode(s[n..]);
      assert s[..n] + s[n..][..ValidUpTo(s[n..])] == s[..ValidUpTo(s)];
    }
  }

  lemma {:induction false} EncodeConcat(a: string, b: string)
    ensures Encode(a + b) == Encode(a) + Encode(b)
  {
    if a == [] {
      assert a + b == b;
    } else {
      assert (a + b)[1..] == a[1..] + b;
      EncodeConcat(a[1..], b);
    }
  }

  // ------------------------------------------------------------------ flushing

  /** What follows the well-formed prefix. */
  function Held(s: Bytes): (r: Bytes) {
    s[ValidUpTo(s)..]
  }

  lemma {:induction false} HeldHasNoChar(s: Bytes)
    ensures CharLen(Held(s)) == 0
  {
    var n := CharLen(s);
    if n != 0 {
      HeldHasNoChar(s[n..]);
      assert Held(s) == Held(s[n..]);
    }
  }

  /** More bytes only add to what the held bytes become: earlier output is never revised. */
  lemma {:induction false} Resume(a: Bytes, b: Bytes)
    ensures ValidUpTo(a + b) == ValidUpTo(a) + ValidUpTo(Held(a) + b)
    ensures Decode(a + b) == Decode(a) + Decode(Held(a) + b)
  {
    var n := CharLen(a);
    if n == 0 {
      assert Held(a) == a;
    } else {
      CharLenStable(a, b);
      hide CharLen, DecodeChar, Held;
      assert (a + b)[n..] == a[n..] + b;
      Resume(a[n..], b);
      assert Held(a) == Held(a[n..]) by { HeldShift(a); }
    }
  }

  lemma HeldShift(a: Bytes)
    requires CharLen(a) > 0
    ensures Held(a) == Held(a[CharLen(a)..])
  {
    hide CharLen;
  }

  lemma ResumeHeld(a: Bytes, b: Bytes)
    ensures Held(a + b) == Held(Held(a) + b)
  {
    Resume(a, b);
    hide CharLen, DecodeChar, Decode, ValidUpTo;
    var v, w := ValidUpTo(a), ValidUpTo(Held(a) + b);
    assert (a + b)[v..] == Held(a) + b;
    assert (a + b)[v + w..] == (a + b)[v..][w..];
  }

  /** The byte buffer that the caller owns and `flush_utf8_safe` changes in place. */
  class Utf8Buffer {
    var bytes: Bytes

    constructor ()
      ensures bytes == []
    {
      bytes := [];
    }

    method Append(chunk: Bytes)
      modifies this
      ensures bytes == old(bytes) + chunk
    {
      bytes := bytes + chunk;
    }

    /** `flush_utf8_safe`: emits the well-formed prefix as text and keeps the rest. */
    method FlushUtf8Safe() returns (out: string)
      modifies this
      ensures out == Decode(old(bytes)) && bytes == Held(old(bytes))
    {
      var validUpTo := ValidUpTo(bytes);
      if validUpTo == |bytes| {
        out := Decode(bytes);
        bytes := [];
      } else {
        DecodePrefix(bytes);
        out := Decode(bytes[..validUpTo]);
        bytes := bytes[validUpTo..];
      }
    }
  }

  /** A flush loses no byte: what is emitted and what is kept make up the buffer. */
  lemma FlushKeepsAllBytes(s: Bytes)
    ensures Encode(Decode(s)) + Held(s) == s
  {
    DecodeEncode(s);
  }

  lemma {:induction false} DecodePrefix(s: Bytes)
    ensures Decode(s[..ValidUpTo(s)]) == Decode(s)
  {
    var n := CharLen(s);
    if n != 0 {
      var p := s[..ValidUpTo(s)];
      assert CharLen(p) == n;
      assert DecodeChar(p) == DecodeChar(s);
      assert p[n..] == s[n..][..ValidUpTo(s[n..])];
      DecodePrefix(s[n..]);
    }
  }

  function Joined(chunks: seq<Bytes>): Bytes {
    if chunks == [] then [] else Joined(chunks[..|chunks| - 1]) + chunks[|chunks| - 1]
  }

  function JoinedText(outs: seq<string>): string {
    if outs == [] then [] else JoinedText(outs[..|outs| - 1]) + outs[|outs| - 1]
  }

  lemma JoinedTextSnoc(outs: seq<string>, out: string)
    ensures JoinedText(outs + [out]) == JoinedText(outs) + out
  {
    assert (outs + [out])[..|outs|] == outs;
  }

  /** What waits in the buffer after the first k chunks. */
  function HeldAfter(chunks: seq<Bytes>, k: nat): Bytes
    requires k <= |chunks|
  {
    Held(Joined(chunks[..k]))
  }

  lemma ResumeChunk(chunks: seq<Bytes>, k: nat)
    requires k < |chunks|
    ensures Decode(Joined(chunks[..k + 1])) == Decode(Joined(chunks[..k])) + Decode(HeldAfter(chunks, k) + chunks[k])
    ensures HeldAfter(chunks, k + 1) == Held(HeldAfter(chunks, k) + chunks[k])
  {
    hide CharLen, DecodeChar, EncodeChar, Decode, ValidUpTo;
    assert chunks[..k + 1][..k] == chunks[..k];
    Resume(Joined(chunks[..k]), chunks[k]);
    ResumeHeld(Joined(chunks[..k]), chunks[k]);
  }

  /**
    * Streaming: append a chunk, flush, repeat. For all bytes, well formed or not, and every way of
    * cutting them, the outputs join to the decoding of the whole, and the buffer is left with exactly
    * what follows the well-formed prefix. Since `chunks` is any list, this holds after each chunk.
    */
  method Stream(chunks: seq<Bytes>) returns (outs: seq<string>, held: Bytes)
    ensures |outs| == |chunks|
    ensures JoinedText(outs) == Decode(Joined(chunks))
    ensures held == HeldAfter(chunks, |chunks|)
  {
    assert JoinedText([]) == [] && HeldAfter(chunks, 0) == [] && Decode(Joined(chunks[..0])) == [];
    hide CharLen, DecodeChar, EncodeChar, Decode, ValidUpTo, Held, Joined, JoinedText, HeldAfter, Encode;
    var buffer := new Utf8Buffer();
    outs := [];
    for k := 0 to |chunks|
      invariant |outs| == k
      invariant JoinedText(outs) == Decode(Joined(chunks[..k]))
      invariant buffer.bytes == HeldAfter(chunks, k)
    {
      ResumeChunk(chunks, k);
      buffer.Append(chunks[k]);
      var out := buffer.FlushUtf8Safe();
      JoinedTextSnoc(outs, out);
      outs := outs + [out];
    }
    assert chunks[..|chunks|] == chunks;
    held := buffer.bytes;
  }

  lemma {:induction false} ValidSuffix(p: Bytes, q: Bytes)
    requires Valid(p + q)
    ensures Valid(Held(p) + q)
  {
    Resume(p, q);
  }

  /** Whether a character starts is decided by the first four bytes. */
  lemma FrontChar(r: Bytes, q: Bytes)
    requires CharLen(r + q) <= |r|
    ensures CharLen(r + q) == CharLen(r)
  {
    assert forall i | 0 <= i < |r| :: (r + q)[i] == r[i];
  }

  /** Fewer than four bytes wait as long as the bytes so far can still become well formed. */
  lemma HeldIsShort(p: Bytes, q: Bytes)
    requires Valid(p + q)
    ensures |Held(p)| <= 3
    ensures q == [] ==> Held(p) == []
  {
    ValidSuffix(p, q);
    HeldHasNoChar(p);
    var r := Held(p);
    if q == [] {
      assert p + q == p;
    }
    if |r| >= 4 {
      FrontChar(r, q);
    }
  }

  /**
    * The whole-run statement for well-formed text: every chunking of the encoding of `text` streams
    * to `text`, holding fewer than four bytes after each flush and none at the end.
    */
  lemma StreamedTextIsWhole(text: string, chunks: seq<Bytes>, k: nat)
    requires Joined(chunks) == Encode(text) && k <= |chunks|
    ensures Decode(Joined(chunks)) == text
    ensures |HeldAfter(chunks, k)| <= 3
    ensures HeldAfter(chunks, |chunks|) == []
  {
    EncodeDecode(text);
    JoinedSplit(chunks, k);
    var q :| Joined(chunks) == Joined(chunks[..k]) + q;
    HeldIsShort(Joined(chunks[..k]), q);
    assert Joined(chunks) + [] == Joined(chunks);
    HeldIsShort(Joined(chunks), []);
    assert chunks[..|chunks|] == chunks;
  }

  lemma {:induction false} JoinedSplit(chunks: seq<Bytes>, k: nat)
    requires k <= |chunks|
    ensures Joined(chunks[..k]) <= Joined(chunks)
    ensures exists q :: Joined(chunks) == Joined(chunks[..k]) + q
  {
    if k == |chunks| {
      assert chunks[..k] == chunks;
      assert Joined(chunks) == Joined(chunks[..k]) + [];
    } else {
      JoinedSplit(chunks[..|chunks| - 1], k);
      assert chunks[..|chunks| - 1][..k] == chunks[..k];
      assert Joined(chunks) == Joined(chunks[..k]) + Joined(chunks)[|Joined(chunks[..k])|..];
    }
  }

  /** Bytes that begin a character can be completed to well-formed text. */
  lemma CompletesChar(t: Bytes, q: Bytes, n: nat)
    requires n == CharLen(Held(t) + q) && |Held(t)| < n
    ensures Valid(t + q[..n - |Held(t)|])
  {
    var r := Held(t);
    var whole := r + q[..n - |r|];
    assert r + q == whole + q[n - |r|..];
    FrontChar(whole, q[n - |r|..]);
    assert whole[n..] == [];
    Resume(t, q[..n - |r|]);
  }

  /** Bytes that complete a truncated character. */
  lemma CompleteTruncated(r: Bytes) returns (q: Bytes)
    requires Truncated(r)
    ensures CharLen(r + q) == |r + q|
  {
    var second: u8 := if r[0] == 0xE0 then 0xA0 else if r[0] == 0xF0 then 0x90 else 0x80;
    var n := if r[0] <= 0xDF then 2 else if r[0] <= 0xEF then 3 else 4;
    q := (if |r| == 1 then [second] else []) + seq(n - if |r| == 1 then 2 else |r|, _ => 0x80);
  }

  /** Only truncated characters become characters by adding bytes. */
  lemma BeforeCharEnds(r: Bytes, q: Bytes)
    requires CharLen(r) == 0 && r != [] && CharLen(r + q) > 0
    ensures Truncated(r)
  {
    var s := r + q;
    assert forall i | 0 <= i < |r| :: s[i] == r[i];
    if |r| >= CharLen(s) { FrontChar(r, q); }
  }

  /** Bytes can be continued to well-formed text exactly when what is held is nothing or a truncated character. */
  lemma CompletableExactly(t: Bytes)
    ensures (exists q: Bytes :: Valid(t + q)) <==> Held(t) == [] || Truncated(Held(t))
  {
    HeldHasNoChar(t);
    var r := Held(t);
    if q: Bytes :| Valid(t + q) {
      ValidSuffix(t, q);
      if r != [] { BeforeCharEnds(r, q); }
    }
    if r == [] {
      assert t + [] == t;
      assert Valid(t + []);
    } else if Truncated(r) {
      var q := CompleteTruncated(r);
      Resume(t, q);
      assert (r + q)[|r + q|..] == [];
      assert Valid(t + q);
    }
  }

  /**
    * The stream is blocked, no further output whatever arrives, exactly when the held bytes are not
    * empty and not a truncated character. Three bytes decide it.
    */
  lemma BlockedExactly(t: Bytes)
    ensures (forall q: Bytes :: ValidUpTo(t + q) == ValidUpTo(t)) <==> Held(t) != [] && !Truncated(Held(t))
  {
    CompletableExactly(t);
    BlockedOrCompletable(t);
    hide Truncated, Valid, ValidUpTo, Held;
  }

  lemma StrayByteBlocks()
    ensures Held([0xFF]) == [0xFF] && !Truncated([0xFF])
    ensures forall q: Bytes :: Decode([0xFF] + q) == []
  {
    forall q: Bytes ensures Decode([0xFF] + q) == [] {
      assert ([0xFF] + q)[0] == 0xFF;
    }
  }

  lemma BlockedOrCompletable(t: Bytes)
    ensures (forall q: Bytes :: ValidUpTo(t + q) == ValidUpTo(t)) <==> !(exists q: Bytes :: Valid(t + q))
  {
    if q: Bytes :| Valid(t + q) {
      if ValidUpTo(t) == |t| {
        Resume(t, [0x41]);
        assert ValidUpTo(t + [0x41]) != ValidUpTo(t) by {
          assert Held(t) + [0x41] == [0x41];
          assert CharLen([0x41]) == 1;
        }
      } else {
        assert ValidUpTo(t + q) != ValidUpTo(t);
      }
    } else {
      forall q: Bytes ensures ValidUpTo(t + q) == ValidUpTo(t) {
        Resume(t, q);
        var r := Held(t);
        var n := CharLen(r + q);
        if n > 0 {
          HeldHasNoChar(t);
          if |r| >= n { FrontChar(r, q); }
          CompletesChar(t, q, n);
        }
      }
    }
  }
}
