/**
 The bytes the canonical printer emits and a parser that reads them back
 (crates/sda-device-control/src/canonicalize.rs:53-144).
 */
module JsonText {
  import opened Wrappers
  import opened Utf8
  import opened Json
  import Decimal
  import Hex

  const QUOTE: Byte := 0x22
  const BACKSLASH: Byte := 0x5C
  const COMMA: Byte := 0x2C
  const COLON: Byte := 0x3A
  const MINUS: Byte := 0x2D
  const OPEN_BRACKET: Byte := 0x5B
  const CLOSE_BRACKET: Byte := 0x5D
  const OPEN_BRACE: Byte := 0x7B
  const CLOSE_BRACE: Byte := 0x7D
  const NULL: seq<Byte> := [0x6E, 0x75, 0x6C, 0x6C]
  const TRUE: seq<Byte> := [0x74, 0x72, 0x75, 0x65]
  const FALSE: seq<Byte> := [0x66, 0x61, 0x6C, 0x73, 0x65]

  // ---- The printer ----

  predicate IsDigit(b: Byte) { 0x30 <= b <= 0x39 }

  function DigitBytes(ds: seq<Decimal.Digit>): (s: seq<Byte>)
    ensures |s| == |ds| && forall i :: 0 <= i < |s| ==> s[i] == 0x30 + ds[i] as int
  {
    seq(|ds|, i requires 0 <= i < |ds| => 0x30 + ds[i] as int)
  }

  function PrintInteger(n: int): (s: seq<Byte>)
    ensures |s| >= 1
  {
    if n < 0 then [MINUS] + DigitBytes(Decimal.Digits(-n)) else DigitBytes(Decimal.Digits(n))
  }

  function HexByte(d: int): Byte
    requires 0 <= d < 16
  {
    Hex.HexChar(d) as int
  }

  /** One character of a string literal (section 3.2.2.2 of RFC 8785). */
  function EscapeChar(c: char): (s: seq<Byte>)
    ensures 1 <= |s|
  {
    if c == '"' then [BACKSLASH, QUOTE]
    else if c == '\\' then [BACKSLASH, BACKSLASH]
    else if c == '\n' then [BACKSLASH, 0x6E]
    else if c == '\r' then [BACKSLASH, 0x72]
    else if c == '\t' then [BACKSLASH, 0x74]
    else if c as int == 0x08 then [BACKSLASH, 0x62]
    else if c as int == 0x0C then [BACKSLASH, 0x66]
    else if c as int < 0x20 then [BACKSLASH, 0x75, 0x30, 0x30, HexByte(c as int / 16), HexByte(c as int % 16)]
    else EncodeChar(c)
  }

  function Escape(s: string): seq<Byte>
  {
    if s == [] then [] else EscapeChar(s[0]) + Escape(s[1..])
  }

  function PrintString(s: string): seq<Byte> { [QUOTE] + Escape(s) + [QUOTE] }

  /** Compact JSON in stored order, as `serde_json::to_vec` writes it; a float is its own text. */
  function Print(v: Value): (r: seq<Byte>)
    decreases v, 1
  {
    match v
    case Null => NULL
    case Bool(b) => if b then TRUE else FALSE
    case Num(Integer(n)) => PrintInteger(n)
    case Num(Float(_, text)) => Encode(text)
    case Str(s) => PrintString(s)
    case Arr(items) => [OPEN_BRACKET] + PrintItems(items) + [CLOSE_BRACKET]
    case Obj(ms) => [OPEN_BRACE] + PrintMembers(ms) + [CLOSE_BRACE]
  }

  function PrintItems(items: seq<Value>): (r: seq<Byte>)
    decreases items, 0
  {
    if items == [] then []
    else if |items| == 1 then Print(items[0])
    else Print(items[0]) + [COMMA] + PrintItems(items[1..])
  }

  function PrintMember(m: Member): (r: seq<Byte>)
    decreases m, 2
  {
    PrintString(m.key) + [COLON] + Print(m.value)
  }

  function PrintMembers(ms: seq<Member>): (r: seq<Byte>)
    decreases ms, 0
  {
    if ms == [] then []
    else if |ms| == 1 then PrintMember(ms[0])
    else PrintMember(ms[0]) + [COMMA] + PrintMembers(ms[1..])
  }

  // ---- The parser ----

  type Parsed<T> = Option<(T, seq<Byte>)>

  /** The number of digits at the front. */
  function DigitRun(s: seq<Byte>): (k: nat)
    ensures k <= |s|
    ensures forall i :: 0 <= i < k ==> IsDigit(s[i])
  {
    if s == [] || !IsDigit(s[0]) then 0 else 1 + DigitRun(s[1..])
  }

  function ParseNatural(s: seq<Byte>): (r: Parsed<nat>)
    ensures r.Some? ==> |r.value.1| < |s|
  {
    var k := DigitRun(s);
    if k == 0 then None
    else Some((Decimal.Value(DigitValues(s[..k])), s[k..]))
  }

  function DigitValues(s: seq<Byte>): (ds: seq<Decimal.Digit>)
    requires forall i :: 0 <= i < |s| ==> IsDigit(s[i])
    ensures |ds| == |s| && forall i :: 0 <= i < |s| ==> ds[i] as int == s[i] as int - 0x30
  {
    if s == [] then []
    else
      assert IsDigit(s[0]);
      var d: Decimal.Digit := s[0] as int - 0x30;
      [d] + DigitValues(s[1..])
  }

  function ParseInteger(s: seq<Byte>): (r: Parsed<int>)
    ensures r.Some? ==> |r.value.1| < |s|
  {
    if s != [] && s[0] == MINUS then
      var r := ParseNatural(s[1..]);
      if r.None? then None else Some((-(r.value.0 as int), r.value.1))
    else
      var r := ParseNatural(s);
      if r.None? then None else Some((r.value.0, r.value.1))
  }

  /** One character of a string literal, with the number of bytes it takes. */
  function ParseChar(s: seq<Byte>): (r: Option<(char, nat)>)
    ensures r.Some? ==> 1 <= r.value.1 <= |s|
  {
    if |s| >= 2 && s[0] == BACKSLASH then
      var e := s[1];
      if e == QUOTE then Some(('"', 2))
      else if e == BACKSLASH then Some(('\\', 2))
      else if e == 0x6E then Some(('\n', 2))
      else if e == 0x72 then Some(('\r', 2))
      else if e == 0x74 then Some(('\t', 2))
      else if e == 0x62 then Some((8 as char, 2))
      else if e == 0x66 then Some((12 as char, 2))
      else if e == 0x75 && |s| >= 6 && s[2] == 0x30 && s[3] == 0x30 then
        var (hi, lo) := (Hex.Nibble(s[4]), Hex.Nibble(s[5]));
        if hi.Some? && lo.Some? then Some(((16 * hi.value + lo.value) as char, 6)) else None
      else None
    else if s == [] || s[0] == BACKSLASH || s[0] == QUOTE then None
    else DecodeChar(s)
  }

  /** The rest of a string literal, after its opening quote. */
  function ParseStringBody(s: seq<Byte>): (r: Parsed<string>)
    ensures r.Some? ==> |r.value.1| < |s|
    decreases |s|
  {
    if s == [] then None
    else if s[0] == QUOTE then Some(([], s[1..]))
    else
      var c := ParseChar(s);
      if c.None? then None
      else
        var r := ParseStringBody(s[c.value.1..]);
        if r.None? then None else Some(([c.value.0] + r.value.0, r.value.1))
  }

  function ParseValue(s: seq<Byte>): (r: Parsed<Value>)
    ensures r.Some? ==> |r.value.1| < |s|
    decreases |s|, 0
  {
    if s == [] then None
    else if s[0] == QUOTE then
      var r := ParseStringBody(s[1..]);
      if r.None? then None else Some((Str(r.value.0), r.value.1))
    else if s[0] == OPEN_BRACKET then
      if |s| >= 2 && s[1] == CLOSE_BRACKET then Some((Arr([]), s[2..]))
      else
        var r := ParseItems(s[1..]);
        if r.None? then None else Some((Arr(r.value.0), r.value.1))
    else if s[0] == OPEN_BRACE then
      if |s| >= 2 && s[1] == CLOSE_BRACE then Some((Obj([]), s[2..]))
      else
        var r := ParseMembers(s[1..]);
        if r.None? then None else Some((Obj(r.value.0), r.value.1))
    else if NULL <= s then Some((Null, s[4..]))
    else if TRUE <= s then Some((Bool(true), s[4..]))
    else if FALSE <= s then Some((Bool(false), s[5..]))
    else
      var r := ParseInteger(s);
      if r.None? then None else Some((Num(Integer(r.value.0)), r.value.1))
  }

  /** Array items up to and including the closing bracket. */
  function ParseItems(s: seq<Byte>): (r: Parsed<seq<Value>>)
    ensures r.Some? ==> |r.value.1| < |s|
    decreases |s|, 1
  {
    var first := ParseValue(s);
    if first.None? || first.value.1 == [] then None
    else
      var rest := first.value.1;
      if rest[0] == CLOSE_BRACKET then Some(([first.value.0], rest[1..]))
      else if rest[0] == COMMA then
        var more := ParseItems(rest[1..]);
        if more.None? then None else Some(([first.value.0] + more.value.0, more.value.1))
      else None
  }

  function ParseMember(s: seq<Byte>): (r: Parsed<Member>)
    ensures r.Some? ==> |r.value.1| < |s|
    decreases |s|, 1
  {
    if s == [] || s[0] != QUOTE then None
    else
      var key := ParseStringBody(s[1..]);
      if key.None? || key.value.1 == [] || key.value.1[0] != COLON then None
      else
        var value := ParseValue(key.value.1[1..]);
        if value.None? then None else Some((Member(key.value.0, value.value.0), value.value.1))
  }

  /** Object members up to and including the closing brace. */
  function ParseMembers(s: seq<Byte>): (r: Parsed<seq<Member>>)
    ensures r.Some? ==> |r.value.1| < |s|
    decreases |s|, 2
  {
    var first := ParseMember(s);
    if first.None? || first.value.1 == [] then None
    else
      var rest := first.value.1;
      if rest[0] == CLOSE_BRACE then Some(([first.value.0], rest[1..]))
      else if rest[0] == COMMA then
        var more := ParseMembers(rest[1..]);
        if more.None? then None else Some(([first.value.0] + more.value.0, more.value.1))
      else None
  }

  // ---- Reading back what was printed ----

  /** Bytes that cannot continue a number. */
  predicate EndsNumber(rest: seq<Byte>) { rest == [] || !IsDigit(rest[0]) }

  lemma {:induction false} DigitRunOf(s: seq<Byte>, rest: seq<Byte>)
    requires forall i :: 0 <= i < |s| ==> IsDigit(s[i])
    requires EndsNumber(rest)
    ensures DigitRun(s + rest) == |s|
  {
    if s == [] {
      assert s + rest == rest;
    } else {
      assert (s + rest)[1..] == s[1..] + rest;
      DigitRunOf(s[1..], rest);
    }
  }

  lemma NaturalRoundTrip(n: nat, rest: seq<Byte>)
    requires EndsNumber(rest)
    ensures ParseNatural(DigitBytes(Decimal.Digits(n)) + rest) == Some((n, rest))
  {
    var ds := Decimal.Digits(n);
    var s := DigitBytes(ds);
    DigitRunOf(s, rest);
    assert (s + rest)[..|s|] == s && (s + rest)[|s|..] == rest;
    assert DigitValues(s) == ds;
    Decimal.ValueOfDigits(n);
  }

  lemma SignedRoundTrip(digits: seq<Byte>, n: nat, rest: seq<Byte>)
    requires digits != [] && digits[0] != MINUS && ParseNatural(digits + rest) == Some((n, rest))
    ensures ParseInteger(digits + rest) == Some((n as int, rest))
    ensures ParseInteger([MINUS] + digits + rest) == Some((-(n as int), rest))
  {
    assert ([MINUS] + digits + rest)[1..] == digits + rest;
    assert (digits + rest)[0] == digits[0];
  }

  lemma IntegerRoundTrip(n: int, rest: seq<Byte>)
    requires EndsNumber(rest)
    ensures ParseInteger(PrintInteger(n) + rest) == Some((n, rest))
  {
    var m := if n < 0 then -n else n;
    NaturalRoundTrip(m, rest);
    SignedRoundTrip(DigitBytes(Decimal.Digits(m)), m, rest);
  }

  /** A printed character is read back whatever follows, and is never mistaken for the closing quote. */
  lemma CharRoundTrip(c: char, rest: seq<Byte>)
    ensures EscapeChar(c)[0] != QUOTE
    ensures ParseChar(EscapeChar(c) + rest) == Some((c, |EscapeChar(c)|))
  {
    var n := c as int;
    var s := EscapeChar(c) + rest;
    if s[0] == BACKSLASH {
      if n < 0x20 {
        Hex.NibbleOfChar(n / 16);
        Hex.NibbleOfChar(n % 16);
      }
    } else {
      DecodeCharOfEncode(c, rest);
    }
  }

  lemma ParseBodyStep(e: seq<Byte>, c: char, tail: seq<Byte>, text: string, rest: seq<Byte>)
    requires e != [] && e[0] != QUOTE && ParseChar(e + tail) == Some((c, |e|))
    requires ParseStringBody(tail) == Some((text, rest))
    ensures ParseStringBody(e + tail) == Some(([c] + text, rest))
  {
    assert (e + tail)[|e|..] == tail;
  }

  lemma {:induction false} StringRoundTrip(s: string, rest: seq<Byte>)
    ensures ParseStringBody(Escape(s) + [QUOTE] + rest) == Some((s, rest))
  {
    if s == [] {
      assert Escape(s) + [QUOTE] + rest == [QUOTE] + rest;
    } else {
      var tail := Escape(s[1..]) + [QUOTE] + rest;
      CharRoundTrip(s[0], tail);
      StringRoundTrip(s[1..], rest);
      ParseBodyStep(EscapeChar(s[0]), s[0], tail, s[1..], rest);
      Regroup4(EscapeChar(s[0]), Escape(s[1..]), [QUOTE], rest);
      assert s == [s[0]] + s[1..];
    }
  }

  /** The first byte of a printed value selects its case in the parser. */
  lemma FirstByte(v: Value)
    requires FloatFree(v)
    ensures Print(v) != []
    ensures var b := Print(v)[0];
            match v
            case Null => b == NULL[0]
            case Bool(x) => b == if x then TRUE[0] else FALSE[0]
            case Num(_) => IsDigit(b) || b == MINUS
            case Str(_) => b == QUOTE
            case Arr(_) => b == OPEN_BRACKET
            case Obj(_) => b == OPEN_BRACE
  {
  }

  // One parser step for each kind of value.

  lemma ParseLiteralStep(rest: seq<Byte>)
    ensures ParseValue(NULL + rest) == Some((Null, rest))
    ensures ParseValue(TRUE + rest) == Some((Bool(true), rest))
    ensures ParseValue(FALSE + rest) == Some((Bool(false), rest))
  {
    assert (NULL + rest)[4..] == rest && (TRUE + rest)[4..] == rest && (FALSE + rest)[5..] == rest;
    assert (TRUE + rest)[0] == 0x74 && (FALSE + rest)[0] == 0x66;
  }

  lemma {:induction false} ParseNumberStep(s: seq<Byte>, n: int, rest: seq<Byte>)
    requires s != [] && (IsDigit(s[0]) || s[0] == MINUS) && ParseInteger(s) == Some((n, rest))
    ensures ParseValue(s) == Some((Num(Integer(n)), rest))
  {
    assert !(NULL <= s) && !(TRUE <= s) && !(FALSE <= s);
  }

  lemma ParseStringStep(body: seq<Byte>, t: string, rest: seq<Byte>)
    requires ParseStringBody(body) == Some((t, rest))
    ensures ParseValue([QUOTE] + body) == Some((Str(t), rest))
  {
    assert ([QUOTE] + body)[1..] == body;
  }

  lemma ParseArrayStep(body: seq<Byte>, items: seq<Value>, rest: seq<Byte>)
    requires body != [] && body[0] != CLOSE_BRACKET && ParseItems(body) == Some((items, rest))
    ensures ParseValue([OPEN_BRACKET] + body) == Some((Arr(items), rest))
  {
    assert ([OPEN_BRACKET] + body)[1..] == body;
  }

  lemma ParseObjectStep(body: seq<Byte>, ms: seq<Member>, rest: seq<Byte>)
    requires body != [] && body[0] != CLOSE_BRACE && ParseMembers(body) == Some((ms, rest))
    ensures ParseValue([OPEN_BRACE] + body) == Some((Obj(ms), rest))
  {
    assert ([OPEN_BRACE] + body)[1..] == body;
  }

  lemma ParseEmptyStep(rest: seq<Byte>)
    ensures ParseValue([OPEN_BRACKET, CLOSE_BRACKET] + rest) == Some((Arr([]), rest))
    ensures ParseValue([OPEN_BRACE, CLOSE_BRACE] + rest) == Some((Obj([]), rest))
  {
    assert ([OPEN_BRACKET, CLOSE_BRACKET] + rest)[2..] == rest;
    assert ([OPEN_BRACE, CLOSE_BRACE] + rest)[2..] == rest;
  }

  lemma ParseMemberStep(body: seq<Byte>, key: string, tail: seq<Byte>, v: Value, rest: seq<Byte>)
    requires ParseStringBody(body) == Some((key, [COLON] + tail)) && ParseValue(tail) == Some((v, rest))
    ensures ParseMember([QUOTE] + body) == Some((Member(key, v), rest))
  {
    assert ([QUOTE] + body)[1..] == body;
    assert ([COLON] + tail)[1..] == tail;
  }

  lemma ParseItemsLast(s: seq<Byte>, v: Value, rest: seq<Byte>)
    requires ParseValue(s) == Some((v, [CLOSE_BRACKET] + rest))
    ensures ParseItems(s) == Some(([v], rest))
  {
    assert ([CLOSE_BRACKET] + rest)[1..] == rest;
  }

  lemma ParseItemsMore(s: seq<Byte>, v: Value, more: seq<Byte>, vs: seq<Value>, rest: seq<Byte>)
    requires ParseValue(s) == Some((v, [COMMA] + more)) && ParseItems(more) == Some((vs, rest))
    ensures ParseItems(s) == Some(([v] + vs, rest))
  {
    assert ([COMMA] + more)[1..] == more;
  }

  lemma ParseMembersLast(s: seq<Byte>, m: Member, rest: seq<Byte>)
    requires ParseMember(s) == Some((m, [CLOSE_BRACE] + rest))
    ensures ParseMembers(s) == Some(([m], rest))
  {
    assert ([CLOSE_BRACE] + rest)[1..] == rest;
  }

  lemma ParseMembersMore(s: seq<Byte>, m: Member, more: seq<Byte>, ms: seq<Member>, rest: seq<Byte>)
    requires ParseMember(s) == Some((m, [COMMA] + more)) && ParseMembers(more) == Some((ms, rest))
    ensures ParseMembers(s) == Some(([m] + ms, rest))
  {
    assert ([COMMA] + more)[1..] == more;
  }

  lemma NumberRoundTrip(n: int, rest: seq<Byte>)
    requires EndsNumber(rest)
    ensures ParseValue(PrintInteger(n) + rest) == Some((Num(Integer(n)), rest))
  {
    IntegerRoundTrip(n, rest);
    ParseNumberStep(PrintInteger(n) + rest, n, rest);
  }

  lemma TextRoundTrip(t: string, rest: seq<Byte>)
    ensures ParseValue(PrintString(t) + rest) == Some((Str(t), rest))
  {
    StringRoundTrip(t, rest);
    ParseStringStep(Escape(t) + [QUOTE] + rest, t, rest);
    Regroup4([QUOTE], Escape(t), [QUOTE], rest);
  }

  /**
   Unique decodability: the parser recovers the value and leaves exactly what follows it, for every
   float-free value of any depth and any following bytes that cannot continue a number.
   */
  lemma {:induction false} ValueRoundTrip(v: Value, rest: seq<Byte>)
    requires FloatFree(v) && EndsNumber(rest)
    ensures ParseValue(Print(v) + rest) == Some((v, rest))
    decreases v, 1
  {
    match v
    case Null =>
      ParseLiteralStep(rest);
    case Bool(b) =>
      ParseLiteralStep(rest);
    case Num(Integer(n)) =>
      NumberRoundTrip(n, rest);
    case Str(t) =>
      TextRoundTrip(t, rest);
    case Arr(items) =>
      ArrayRoundTrip(items, rest);
    case Obj(ms) =>
      ObjectRoundTrip(ms, rest);
  }

  lemma {:induction false} ArrayRoundTrip(items: seq<Value>, rest: seq<Byte>)
    requires forall i :: 0 <= i < |items| ==> FloatFree(items[i])
    ensures ParseValue([OPEN_BRACKET] + PrintItems(items) + [CLOSE_BRACKET] + rest) == Some((Arr(items), rest))
    decreases items, 1
  {
    var s := [OPEN_BRACKET] + PrintItems(items) + [CLOSE_BRACKET] + rest;
    if items == [] {
      ParseEmptyStep(rest);
      assert s == [OPEN_BRACKET, CLOSE_BRACKET] + rest;
    } else {
      ItemsRoundTrip(items, rest);
      var body := PrintItems(items) + [CLOSE_BRACKET] + rest;
      FirstByte(items[0]);
      assert body[0] == Print(items[0])[0];
      ParseArrayStep(body, items, rest);
      assert s == [OPEN_BRACKET] + body;
    }
  }

  // Regrouping concatenations.

  lemma Regroup3(a: seq<Byte>, b: seq<Byte>, c: seq<Byte>)
    ensures a + b + c == a + (b + c)
  {
  }

  lemma Regroup4(a: seq<Byte>, b: seq<Byte>, c: seq<Byte>, d: seq<Byte>)
    ensures a + b + c + d == a + (b + c + d)
  {
  }

  lemma Regroup5(a: seq<Byte>, b: seq<Byte>, c: seq<Byte>, d: seq<Byte>, e: seq<Byte>)
    ensures a + b + c + d + e == a + (b + (c + d + e))
  {
  }

  lemma RegroupMember(q: seq<Byte>, e: seq<Byte>, c: seq<Byte>, v: seq<Byte>, rest: seq<Byte>)
    ensures q + e + q + c + v + rest == q + (e + q + (c + (v + rest)))
  {
  }

  /** Printed items: the first, then a bracket or a comma and the others. */
  lemma ItemsSplit(items: seq<Value>, rest: seq<Byte>)
    requires items != []
    ensures var s := PrintItems(items) + [CLOSE_BRACKET] + rest;
            s == Print(items[0]) + if |items| == 1 then [CLOSE_BRACKET] + rest
                                   else [COMMA] + (PrintItems(items[1..]) + [CLOSE_BRACKET] + rest)
  {
    if |items| == 1 {
      Regroup3(Print(items[0]), [CLOSE_BRACKET], rest);
    } else {
      Regroup5(Print(items[0]), [COMMA], PrintItems(items[1..]), [CLOSE_BRACKET], rest);
    }
  }

  lemma HeadAndTail<T>(s: seq<T>)
    requires s != []
    ensures s == [s[0]] + s[1..]
  {
  }

  lemma {:induction false} ItemsRoundTrip(items: seq<Value>, rest: seq<Byte>)
    requires items != [] && forall i :: 0 <= i < |items| ==> FloatFree(items[i])
    ensures ParseItems(PrintItems(items) + [CLOSE_BRACKET] + rest) == Some((items, rest))
    decreases items, 0
  {
    ItemsSplit(items, rest);
    if |items| == 1 {
      assert items == [items[0]];
      var tail := [CLOSE_BRACKET] + rest;
      ValueRoundTrip(items[0], tail);
      ParseItemsLast(Print(items[0]) + tail, items[0], rest);
    } else {
      var more := PrintItems(items[1..]) + [CLOSE_BRACKET] + rest;
      ValueRoundTrip(items[0], [COMMA] + more);
      ItemsRoundTrip(items[1..], rest);
      HeadAndTail(items);
      ParseItemsMore(Print(items[0]) + ([COMMA] + more), items[0], more, items[1..], rest);
    }
  }

  lemma {:induction false} MemberRoundTrip(m: Member, rest: seq<Byte>)
    requires FloatFree(m.value) && EndsNumber(rest)
    ensures ParseMember(PrintMember(m) + rest) == Some((m, rest))
    decreases m, 2
  {
    var tail := Print(m.value) + rest;
    var body := Escape(m.key) + [QUOTE] + ([COLON] + tail);
    StringRoundTrip(m.key, [COLON] + tail);
    ValueRoundTrip(m.value, rest);
    ParseMemberStep(body, m.key, tail, m.value, rest);
    RegroupMember([QUOTE], Escape(m.key), [COLON], Print(m.value), rest);
  }

  lemma MembersSplit(ms: seq<Member>, rest: seq<Byte>)
    requires ms != []
    ensures var s := PrintMembers(ms) + [CLOSE_BRACE] + rest;
            && s == PrintMember(ms[0]) + (if |ms| == 1 then [CLOSE_BRACE] + rest
                                          else [COMMA] + (PrintMembers(ms[1..]) + [CLOSE_BRACE] + rest))
            && s[0] == QUOTE
  {
    assert PrintMember(ms[0])[0] == QUOTE;
    if |ms| == 1 {
      Regroup3(PrintMember(ms[0]), [CLOSE_BRACE], rest);
    } else {
      Regroup5(PrintMember(ms[0]), [COMMA], PrintMembers(ms[1..]), [CLOSE_BRACE], rest);
    }
  }

  lemma {:induction false} ObjectRoundTrip(ms: seq<Member>, rest: seq<Byte>)
    requires forall i :: 0 <= i < |ms| ==> FloatFree(ms[i].value)
    ensures ParseValue([OPEN_BRACE] + PrintMembers(ms) + [CLOSE_BRACE] + rest) == Some((Obj(ms), rest))
    decreases ms, 1
  {
    var s := [OPEN_BRACE] + PrintMembers(ms) + [CLOSE_BRACE] + rest;
    if ms == [] {
      assert s == [OPEN_BRACE, CLOSE_BRACE] + rest;
      ParseEmptyStep(rest);
    } else {
      var body := PrintMembers(ms) + [CLOSE_BRACE] + rest;
      assert s == [OPEN_BRACE] + body;
      MembersSplit(ms, rest);
      MembersRoundTrip(ms, rest);
      ParseObjectStep(body, ms, rest);
    }
  }

  lemma {:induction false} MembersRoundTrip(ms: seq<Member>, rest: seq<Byte>)
    requires ms != [] && forall i :: 0 <= i < |ms| ==> FloatFree(ms[i].value)
    ensures ParseMembers(PrintMembers(ms) + [CLOSE_BRACE] + rest) == Some((ms, rest))
    decreases ms, 0
  {
    MembersSplit(ms, rest);
    if |ms| == 1 {
      assert ms == [ms[0]];
      var tail := [CLOSE_BRACE] + rest;
      MemberRoundTrip(ms[0], tail);
      ParseMembersLast(PrintMember(ms[0]) + tail, ms[0], rest);
    } else {
      var more := PrintMembers(ms[1..]) + [CLOSE_BRACE] + rest;
      MemberRoundTrip(ms[0], [COMMA] + more);
      MembersRoundTrip(ms[1..], rest);
      HeadAndTail(ms);
      ParseMembersMore(PrintMember(ms[0]) + ([COMMA] + more), ms[0], more, ms[1..], rest);
    }
  }

  // ---- The printed form is the one RFC 8785 asks for ----

  /** No control characters, which JSON forbids inside a string. */
  predicate NoControl(s: seq<Byte>) { forall i :: 0 <= i < |s| ==> s[i] >= 0x20 }

  /** A numeric escape written with lowercase digits. */
  predicate LowercaseEscape(e: seq<Byte>)
  {
    |e| == 6 ==> !(0x41 <= e[4] <= 0x46) && !(0x41 <= e[5] <= 0x46)
  }

  lemma EscapeHasNoControl(c: char)
    ensures NoControl(EscapeChar(c)) && LowercaseEscape(EscapeChar(c))
  {
  }

  lemma ReadPlainly(c: char, e: seq<Byte>)
    requires ParseChar(e) == Some((c, |e|)) && e[0] != BACKSLASH
    ensures e == EncodeChar(c) && c != '"' && c != '\\'
  {
    assert e[..|e|] == e;
  }

  lemma LowercaseDigit(b: Byte)
    requires Hex.Nibble(b).Some? && !(0x41 <= b <= 0x46)
    ensures b == HexByte(Hex.Nibble(b).value)
  {
  }

  lemma TwoDigits(n: int, hi: int, lo: int)
    requires n == 16 * hi + lo && 0 <= hi < 16 && 0 <= lo < 16
    ensures n / 16 == hi && n % 16 == lo
  {
  }

  lemma ReadNumerically(c: char, e: seq<Byte>)
    requires ParseChar(e) == Some((c, |e|)) && e[0] == BACKSLASH && |e| > 2 && LowercaseEscape(e)
    ensures |e| == 6 && c as int < 0x100
    ensures e == [BACKSLASH, 0x75, 0x30, 0x30, HexByte(c as int / 16), HexByte(c as int % 16)]
  {
    LowercaseDigit(e[4]);
    LowercaseDigit(e[5]);
    TwoDigits(c as int, Hex.Nibble(e[4]).value, Hex.Nibble(e[5]).value);
  }

  /**
   Among all spellings of a character that JSON allows and a reader takes for it, the one written is the
   shortest, and the only one of that length with lowercase digits.
   */
  lemma EscapeIsShortest(c: char, e: seq<Byte>)
    requires ParseChar(e) == Some((c, |e|)) && NoControl(e)
    ensures |EscapeChar(c)| <= |e|
    ensures |e| == |EscapeChar(c)| && LowercaseEscape(e) ==> e == EscapeChar(c)
  {
    if e[0] != BACKSLASH {
      ReadPlainly(c, e);
    } else if |e| > 2 && LowercaseEscape(e) {
      ReadNumerically(c, e);
    }
  }

  /** The escapes with a letter of their own, spelled out. */
  lemma EscapeTable()
    ensures EscapeChar('"') == Encode("\\\"") && EscapeChar('\\') == Encode("\\\\")
    ensures EscapeChar('\n') == Encode("\\n") && EscapeChar('\r') == Encode("\\r") && EscapeChar('\t') == Encode("\\t")
    ensures EscapeChar(8 as char) == Encode("\\b") && EscapeChar(12 as char) == Encode("\\f")
  {
    EncodeTwo('\\', '"');
    EncodeTwo('\\', '\\');
    EncodeTwo('\\', 'n');
    EncodeTwo('\\', 'r');
    EncodeTwo('\\', 't');
    EncodeTwo('\\', 'b');
    EncodeTwo('\\', 'f');
  }

  lemma EncodeTwo(a: char, b: char)
    requires a as int < 0x80 && b as int < 0x80
    ensures Encode([a, b]) == [a as int, b as int]
  {
    EncodeAscii([a, b]);
  }

  lemma Spelled(text: string, bytes: seq<Byte>)
    requires |bytes| == |text| && forall i :: 0 <= i < |text| ==> bytes[i] == text[i] as int && bytes[i] < 0x80
    ensures bytes == Encode(text)
  {
    EncodeAscii(text);
  }

  /** The words and marks of JSON, spelled out: printer and parser share the constants. */
  lemma Spelling()
    ensures NULL == Encode("null") && TRUE == Encode("true") && FALSE == Encode("false")
    ensures [QUOTE, BACKSLASH, COMMA, COLON, MINUS, OPEN_BRACKET, CLOSE_BRACKET, OPEN_BRACE, CLOSE_BRACE]
         == Encode("\"\\,:-[]{}")
  {
    Spelled("null", NULL);
    Spelled("true", TRUE);
    Spelled("false", FALSE);
    Spelled("\"\\,:-[]{}",
            [QUOTE, BACKSLASH, COMMA, COLON, MINUS, OPEN_BRACKET, CLOSE_BRACKET, OPEN_BRACE, CLOSE_BRACE]);
  }
}
