/**
  * JSON texts by the grammar of RFC 8259 (sections 2 to 7), as concrete syntax trees: every tree
  * prints to one text of the grammar, with its own white space, number spelling and escapes.
  * Each object or array is shown to be a well-nested group for the scanners.
  */
module JsonText {
  import opened Wrappers
  import opened Brackets

  /** Section 7: a string character stands for itself or is escaped. */
  datatype JChars =
    | NoChars
    | Unescaped(c: char, more: JChars)
    | Short(c: char, more: JChars)
    | Hex(digits: string, more: JChars)

  datatype Json =
    | Null | True | False
    | Number(minus: bool, whole: string, frac: string, exp: string)
    | Str(chars: JChars)
    | Array(pad: string, elems: Elems)
    | Object(pad: string, members: Members)

  /** An element, the white space around the comma after it, and the further elements. */
  datatype Elems = NoElems | Elem(v: Json, after: string, lead: string, more: Elems)

  datatype Members =
    | NoMembers
    | Member(name: JChars, beforeColon: string, afterColon: string, v: Json,
             after: string, lead: string, more: Members)

  // ------------------------------------------------------------------ the grammar's side conditions

  predicate IsWs(s: string) {
    forall i | 0 <= i < |s| :: s[i] == ' ' || s[i] == '\t' || s[i] == '\n' || s[i] == '\r'
  }

  predicate Digits(s: string) {
    s != [] && forall i | 0 <= i < |s| :: '0' <= s[i] <= '9'
  }

  predicate HexDigits(s: string) {
    |s| == 4 && forall i | 0 <= i < |s| ::
      '0' <= s[i] <= '9' || 'a' <= s[i] <= 'f' || 'A' <= s[i] <= 'F'
  }

  /** Section 6: int, optional fraction ".digits", optional exponent "e", sign, digits. */
  predicate ValidNumber(whole: string, frac: string, exp: string) {
    && Digits(whole) && (whole[0] == '0' ==> |whole| == 1)
    && (frac == [] || (frac[0] == '.' && Digits(frac[1..])))
    && (exp == []
        || (|exp| >= 2 && (exp[0] == 'e' || exp[0] == 'E')
            && (if exp[1] == '+' || exp[1] == '-' then Digits(exp[2..]) else Digits(exp[1..]))))
  }

  predicate ValidChars(s: JChars) {
    match s
    case NoChars => true
    case Unescaped(c, more) => c as int >= 0x20 && c != '"' && c != '\\' && ValidChars(more)
    case Short(c, more) =>
      && (c == '"' || c == '\\' || c == '/' || c == 'b' || c == 'f' || c == 'n' || c == 'r' || c == 't')
      && ValidChars(more)
    case Hex(digits, more) => HexDigits(digits) && ValidChars(more)
  }

  predicate ValidJson(j: Json) {
    match j
    case Number(_, whole, frac, exp) => ValidNumber(whole, frac, exp)
    case Str(chars) => ValidChars(chars)
    case Array(pad, elems) => IsWs(pad) && ValidElems(elems)
    case Object(pad, members) => IsWs(pad) && ValidMembers(members)
    case _ => true
  }

  predicate ValidElems(es: Elems) {
    match es
    case NoElems => true
    case Elem(v, after, lead, more) => ValidJson(v) && IsWs(after) && IsWs(lead) && ValidElems(more)
  }

  predicate ValidMembers(ms: Members) {
    match ms
    case NoMembers => true
    case Member(name, b, a, v, after, lead, more) =>
      && ValidChars(name) && IsWs(b) && IsWs(a) && ValidJson(v)
      && IsWs(after) && IsWs(lead) && ValidMembers(more)
  }

  // ------------------------------------------------------------------ printing

  function CharsText(s: JChars): string {
    match s
    case NoChars => []
    case Unescaped(c, more) => [c] + CharsText(more)
    case Short(c, more) => ['\\', c] + CharsText(more)
    case Hex(digits, more) => ['\\', 'u'] + digits + CharsText(more)
  }

  function StringText(s: JChars): string {
    ['"'] + CharsText(s) + ['"']
  }

  function NumberText(minus: bool, whole: string, frac: string, exp: string): string {
    (if minus then "-" else "") + whole + frac + exp
  }

  function TextOf(j: Json): string {
    match j
    case Null => "null"
    case True => "true"
    case False => "false"
    case Number(minus, whole, frac, exp) => NumberText(minus, whole, frac, exp)
    case Str(chars) => StringText(chars)
    case Array(pad, elems) => "[" + pad + ElemsText(elems) + "]"
    case Object(pad, members) => "{" + pad + MembersText(members) + "}"
  }

  function ElemsText(es: Elems): string {
    match es
    case NoElems => ""
    case Elem(v, after, lead, more) =>
      TextOf(v) + after + if more.NoElems? then "" else "," + lead + ElemsText(more)
  }

  function MembersText(ms: Members): string {
    match ms
    case NoMembers => ""
    case Member(name, b, a, v, after, lead, more) =>
      StringText(name) + b + ":" + a + TextOf(v) + after
      + if more.NoMembers? then "" else "," + lead + MembersText(more)
  }

  // ------------------------------------------------------------------ JSON texts are well nested

  /** Text that is a sequence of plain characters, strings and groups. */
  ghost predicate Nested(s: string) {
    exists t :: ValidItems(t) && ItemsText(t) == s
  }

  function Append(a: Items, b: Items): Items {
    match a
    case End => b
    case Plain(c, rest) => Plain(c, Append(rest, b))
    case Quoted(units, rest) => Quoted(units, Append(rest, b))
    case Group(open, body, rest) => Group(open, body, Append(rest, b))
  }

  lemma Assoc(x: string, y: string, z: string)
    ensures x + (y + z) == (x + y) + z
  {}

  lemma {:induction false} AppendText(a: Items, b: Items)
    requires ValidItems(a) && ValidItems(b)
    ensures ValidItems(Append(a, b)) && ItemsText(Append(a, b)) == ItemsText(a) + ItemsText(b)
  {
    match a
    case End =>
    case Plain(c, rest) =>
      AppendText(rest, b);
      Assoc([c], ItemsText(rest), ItemsText(b));
    case Quoted(units, rest) =>
      AppendText(rest, b);
      Assoc(['"'] + UnitsText(units) + ['"'], ItemsText(rest), ItemsText(b));
    case Group(open, body, rest) =>
      AppendText(rest, b);
      Assoc([open] + ItemsText(body) + [Closer(open)], ItemsText(rest), ItemsText(b));
  }

  lemma NestedConcat(a: string, b: string)
    requires Nested(a) && Nested(b)
    ensures Nested(a + b)
  {
    var t :| ValidItems(t) && ItemsText(t) == a;
    var u :| ValidItems(u) && ItemsText(u) == b;
    AppendText(t, u);
  }

  lemma NestedConcat3(a: string, b: string, c: string)
    requires Nested(a) && Nested(b) && Nested(c)
    ensures Nested(a + b + c)
  {
    hide Nested;
    NestedConcat(a, b);
    NestedConcat(a + b, c);
  }

  /** Text without quotes and brackets. */
  predicate Flat(s: string) {
    forall i | 0 <= i < |s| :: s[i] != '"' && !IsOpen(s[i]) && !IsClose(s[i])
  }

  lemma {:induction false} NestedFlat(s: string)
    requires Flat(s)
    ensures Nested(s)
  {
    if s == [] {
      assert ItemsText(End) == s;
    } else {
      NestedFlat(s[1..]);
      var t :| ValidItems(t) && ItemsText(t) == s[1..];
      assert ItemsText(Plain(s[0], t)) == s;
    }
  }

  function RawUnits(s: string, more: Units): (us: Units)
    requires (forall i | 0 <= i < |s| :: s[i] != '"' && s[i] != '\\') && ValidUnits(more)
    ensures ValidUnits(us) && UnitsText(us) == s + UnitsText(more)
  {
    if s == [] then more else
      assert s == [s[0]] + s[1..];
      Raw(s[0], RawUnits(s[1..], more))
  }

  function UnitsOf(s: JChars): (us: Units)
    requires ValidChars(s)
    ensures ValidUnits(us) && UnitsText(us) == CharsText(s)
  {
    match s
    case NoChars => NoUnits
    case Unescaped(c, more) => Raw(c, UnitsOf(more))
    case Short(c, more) => Escape(c, UnitsOf(more))
    case Hex(digits, more) => Escape('u', RawUnits(digits, UnitsOf(more)))
  }

  lemma NestedString(s: JChars)
    requires ValidChars(s)
    ensures Nested(StringText(s))
  {
    var t := Quoted(UnitsOf(s), End);
    assert ValidItems(t) && ItemsText(t) == StringText(s);
  }

  lemma GroupItems(open: char, t: Items)
    ensures ItemsText(Group(open, t, End)) == GroupText(open, t)
  {
    assert GroupText(open, t) + [] == GroupText(open, t);
  }

  lemma NestedGroup(open: char, s: string)
    requires IsOpen(open) && Nested(s)
    ensures Nested([open] + s + [Closer(open)]) && WellNested([open] + s + [Closer(open)])
  {
    var t :| ValidItems(t) && ItemsText(t) == s;
    GroupItems(open, t);
    assert ValidItems(Group(open, t, End));
    hide ItemsText;
  }

  lemma NumberIsFlat(minus: bool, whole: string, frac: string, exp: string)
    requires ValidNumber(whole, frac, exp)
    ensures Flat(NumberText(minus, whole, frac, exp))
  {
    assert Flat(frac) by {
      if frac != [] {
        forall i | 0 <= i < |frac| ensures frac[i] == '.' || '0' <= frac[i] <= '9' {
          if i > 0 { assert frac[i] == frac[1..][i - 1]; }
        }
      }
    }
    assert Flat(exp) by {
      if exp != [] {
        forall i | 2 <= i < |exp| ensures '0' <= exp[i] <= '9' {
          assert exp[i] == exp[2..][i - 2] && exp[i] == exp[1..][i - 1];
        }
        assert exp[1] == exp[1..][0];
      }
    }
  }

  lemma Regroup(a: string, b: string, c: string, d: string)
    ensures a + b + c + d == a + (b + c) + d
  {}

  lemma {:induction false} JsonIsNested(j: Json)
    requires ValidJson(j)
    ensures Nested(TextOf(j))
    ensures j.Array? || j.Object? ==> WellNested(TextOf(j))
    decreases j, 0
  {
    hide Nested, WellNested;
    match j {
      case Number(minus, whole, frac, exp) =>
        NumberIsFlat(minus, whole, frac, exp);
        NestedFlat(TextOf(j));
      case Str(chars) =>
        NestedString(chars);
      case Array(pad, elems) =>
        ElemsAreNested(elems);
        NestedFlat(pad);
        NestedConcat(pad, ElemsText(elems));
        NestedGroup('[', pad + ElemsText(elems));
        Regroup("[", pad, ElemsText(elems), "]");
      case Object(pad, members) =>
        MembersAreNested(members);
        NestedFlat(pad);
        NestedConcat(pad, MembersText(members));
        NestedGroup('{', pad + MembersText(members));
        Regroup("{", pad, MembersText(members), "}");
      case _ =>
        NestedFlat(TextOf(j));
    }
  }

  lemma {:induction false} ElemsAreNested(es: Elems)
    requires ValidElems(es)
    ensures Nested(ElemsText(es))
    decreases es, 1
  {
    hide Nested, WellNested;
    match es
    case NoElems =>
      NestedFlat("");
    case Elem(v, after, lead, more) =>
      JsonIsNested(v);
      ElemsAreNested(more);
      NestedFlat(after);
      NestedFlat("," + lead);
      NestedFlat("");
      NestedConcat("," + lead, ElemsText(more));
      NestedConcat3(TextOf(v), after, if more.NoElems? then "" else "," + lead + ElemsText(more));
  }

  lemma {:induction false} MembersAreNested(ms: Members)
    requires ValidMembers(ms)
    ensures Nested(MembersText(ms))
    decreases ms, 1
  {
    hide Nested, WellNested;
    match ms
    case NoMembers =>
      NestedFlat("");
    case Member(name, b, a, v, after, lead, more) =>
      JsonIsNested(v);
      MembersAreNested(more);
      NestedString(name);
      NestedFlat(b + ":" + a);
      NestedFlat(after);
      NestedFlat("," + lead);
      NestedFlat("");
      NestedConcat("," + lead, MembersText(more));
      var tail := if more.NoMembers? then "" else "," + lead + MembersText(more);
      NestedConcat3(StringText(name), b + ":" + a, TextOf(v));
      NestedConcat3(StringText(name) + (b + ":" + a) + TextOf(v), after, tail);
      MemberShape(StringText(name), b, a, TextOf(v));
  }

  lemma MemberShape(n: string, b: string, a: string, v: string)
    ensures n + b + ":" + a + v == n + (b + ":" + a) + v
  {}

  /**
    * The stack scanner on JSON: started at the first bracket of an object or array, and whatever
    * follows it, it stops exactly at its end.
    */
  lemma ScanFindsJson(j: Json, suffix: string)
    requires ValidJson(j) && (j.Array? || j.Object?)
    ensures WellNested(TextOf(j))
    ensures BalancedEnd(TextOf(j) + suffix, TextOf(j)[0]) == Some(|TextOf(j)|)
  {
    JsonIsNested(j);
    hide WellNested, TextOf;
    var text := TextOf(j) + suffix;
    assert text[..|TextOf(j)|] == TextOf(j);
    BalancedEndExact(text, TextOf(j)[0], |TextOf(j)|);
  }
}
