/**
 UTF-8 and UTF-16 of Unicode scalar values. Dafny's `char` is a scalar value, like Rust's,
 and a Rust `String` is the UTF-8 encoding of a sequence of them.
 */
module Utf8 {
  import opened Wrappers
  import Lex

  type Byte = b: int | 0 <= b < 256

  predicate IsScalar(n: int) { 0 <= n < 0xD800 || 0xE000 <= n < 0x110000 }

  predicate IsContinuation(b: Byte) { 0x80 <= b < 0xC0 }

  /** `char::encode_utf8`. */
  function EncodeChar(c: char): (s: seq<Byte>)
    ensures 1 <= |s| <= 4
    ensures !IsContinuation(s[0])
    ensures forall i :: 1 <= i < |s| ==> IsContinuation(s[i])
  {
    var n := c as int;
    if n < 0x80 then [n]
    else if n < 0x800 then [0xC0 + n / 64, 0x80 + n % 64]
    else if n < 0x10000 then [0xE0 + n / 4096, 0x80 + n / 64 % 64, 0x80 + n % 64]
    else [0xF0 + n / 262144, 0x80 + n / 4096 % 64, 0x80 + n / 64 % 64, 0x80 + n % 64]
  }

  function Encode(s: string): seq<Byte>
  {
    if s == [] then [] else EncodeChar(s[0]) + Encode(s[1..])
  }

  /** The scalar value at the front of well-formed bytes, with the number of bytes it takes. */
  function DecodeChar(s: seq<Byte>): (r: Option<(char, nat)>)
    ensures r.Some? ==> 1 <= r.value.1 <= |s| && s[..r.value.1] == EncodeChar(r.value.0)
  {
    if s == [] then None
    else
      var k := SequenceLength(s[0]);
      if |s| < k then None
      else
        var n := SequenceValue(s[..k]);
        if IsScalar(n) && EncodeChar(n as char) == s[..k] then Some((n as char, k)) else None
  }

  /** How many bytes a lead byte announces. */
  function SequenceLength(lead: Byte): (k: nat)
    ensures 1 <= k <= 4
  {
    if lead < 0x80 then 1 else if lead < 0xE0 then 2 else if lead < 0xF0 then 3 else 4
  }

  /** The payload bits of a sequence of one to four bytes. */
  function SequenceValue(s: seq<int>): int
    requires 1 <= |s| <= 4
  {
    if |s| == 1 then s[0]
    else if |s| == 2 then (s[0] - 0xC0) * 64 + s[1] - 0x80
    else if |s| == 3 then (s[0] - 0xE0) * 4096 + (s[1] - 0x80) * 64 + s[2] - 0x80
    else (s[0] - 0xF0) * 262144 + (s[1] - 0x80) * 4096 + (s[2] - 0x80) * 64 + s[3] - 0x80
  }

  /** `String::from_utf8`. */
  function Decode(s: seq<Byte>): (r: Option<string>)
    decreases |s|
  {
    if s == [] then Some([])
    else
      var first := DecodeChar(s);
      if first.None? then None
      else
        var rest := Decode(s[first.value.1..]);
        if rest.None? then None else Some([first.value.0] + rest.value)
  }

  /** Bytes that are the encoding of some text. */
  predicate IsUtf8(s: seq<Byte>) { Decode(s).Some? }

  lemma EncodeFirst(c: char, t: string)
    ensures Encode([c] + t) == EncodeChar(c) + Encode(t)
  {
    assert ([c] + t)[1..] == t;
  }

  /** The first character of decoded bytes and what is left of them. */
  lemma DecodeFirst(s: seq<Byte>) returns (c: char, k: nat)
    requires IsUtf8(s) && s != []
    ensures 1 <= k <= |s| && s[..k] == EncodeChar(c)
    ensures IsUtf8(s[k..]) && Decode(s).value == [c] + Decode(s[k..]).value
  {
    c, k := DecodeChar(s).value.0, DecodeChar(s).value.1;
  }

  /** What is decoded encodes to the same bytes. */
  lemma {:induction false} EncodeOfDecode(s: seq<Byte>)
    requires IsUtf8(s)
    ensures Encode(Decode(s).value) == s
    decreases |s|
  {
    if s != [] {
      var c, k := DecodeFirst(s);
      EncodeOfDecode(s[k..]);
      EncodeFirst(c, Decode(s[k..]).value);
      assert s == s[..k] + s[k..];
    }
  }

  lemma SixBitGroups(n: nat)
    ensures n == n / 4096 * 4096 + n / 64 % 64 * 64 + n % 64
    ensures n / 4096 == n / 262144 * 64 + n / 4096 % 64
  {
    var h := n / 64;
    assert n == h * 64 + n % 64;
    assert h / 64 == n / 4096;
    assert h == h / 64 * 64 + h % 64;
    assert n / 4096 / 64 == n / 262144;
  }

  lemma SequenceOfChar(c: char)
    ensures SequenceLength(EncodeChar(c)[0]) == |EncodeChar(c)| && SequenceValue(EncodeChar(c)) == c as int
  {
    var n := c as int;
    SixBitGroups(n);
    if n < 0x80 {
    } else if n < 0x800 {
      assert EncodeChar(c) == [0xC0 + n / 64, 0x80 + n % 64];
    } else if n < 0x10000 {
      var x, y, z := n / 4096, n / 64 % 64, n % 64;
      assert EncodeChar(c) == [0xE0 + x, 0x80 + y, 0x80 + z];
    } else {
      var w, x, y, z := n / 262144, n / 4096 % 64, n / 64 % 64, n % 64;
      assert EncodeChar(c) == [0xF0 + w, 0x80 + x, 0x80 + y, 0x80 + z];
    }
  }

  /** A character is recovered whatever bytes follow it. */
  lemma DecodeCharOfEncode(c: char, rest: seq<Byte>)
    ensures DecodeChar(EncodeChar(c) + rest) == Some((c, |EncodeChar(c)|))
  {
    SequenceOfChar(c);
    assert (EncodeChar(c) + rest)[..|EncodeChar(c)|] == EncodeChar(c);
  }

  lemma {:induction false} DecodeOfEncode(s: string)
    ensures Decode(Encode(s)) == Some(s)
  {
    if s != [] {
      DecodeCharOfEncode(s[0], Encode(s[1..]));
      DecodeOfEncode(s[1..]);
      assert Encode(s)[|EncodeChar(s[0])|..] == Encode(s[1..]);
      assert s == [s[0]] + s[1..];
    }
  }

  lemma {:induction false} EncodeConcat(s: string, t: string)
    ensures Encode(s + t) == Encode(s) + Encode(t)
  {
    if s == [] {
      assert s + t == t;
    } else {
      EncodeConcat(s[1..], t);
      assert (s + t)[1..] == s[1..] + t;
    }
  }

  /** ASCII text is one byte a character. */
  lemma {:induction false} EncodeAscii(s: string)
    requires forall i :: 0 <= i < |s| ==> s[i] as int < 0x80
    ensures |Encode(s)| == |s| && forall i :: 0 <= i < |s| ==> Encode(s)[i] == s[i] as int
  {
    if s != [] {
      EncodeAscii(s[1..]);
    }
  }

  /** `char::encode_utf16`. */
  function Utf16Char(c: char): (u: seq<int>)
    ensures 1 <= |u| <= 2
  {
    var n := c as int;
    if n < 0x10000 then [n] else [0xD800 + (n - 0x10000) / 1024, 0xDC00 + (n - 0x10000) % 1024]
  }

  function Utf16(s: string): seq<int>
  {
    if s == [] then [] else Utf16Char(s[0]) + Utf16(s[1..])
  }

  /** No code unit sequence of a scalar value starts another's. */
  lemma Utf16CharUnique(c: char, d: char, x: seq<int>, y: seq<int>)
    requires Utf16Char(c) + x == Utf16Char(d) + y
    ensures c == d && x == y
  {
    var m, n := c as int, d as int;
    var u, v := Utf16Char(c), Utf16Char(d);
    assert (u + x)[0] == u[0] && (v + y)[0] == v[0];
    if |u| == 2 && |v| == 2 {
      assert (u + x)[1] == u[1] && (v + y)[1] == v[1];
      assert m - 0x10000 == (m - 0x10000) / 1024 * 1024 + (m - 0x10000) % 1024;
      assert n - 0x10000 == (n - 0x10000) / 1024 * 1024 + (n - 0x10000) % 1024;
    }
    assert (u + x)[|u|..] == x && (v + y)[|v|..] == y;
  }

  lemma {:induction false} Utf16Injective(s: string, t: string)
    requires Utf16(s) == Utf16(t)
    ensures s == t
  {
    if s != [] && t != [] {
      Utf16CharUnique(s[0], t[0], Utf16(s[1..]), Utf16(t[1..]));
      Utf16Injective(s[1..], t[1..]);
      assert s == [s[0]] + s[1..] && t == [t[0]] + t[1..];
    }
  }

  /** `utf16_compare` reports `Less`: the order of object members (section 3.2.3 of RFC 8785). */
  predicate KeyBefore(a: string, b: string) { Lex.Before(Utf16(a), Utf16(b)) }

  /** Comparing code units is a strict total order on keys, surrogate pairs included. */
  lemma KeyOrderTotal(a: string, b: string)
    ensures !KeyBefore(a, a)
    ensures a == b || KeyBefore(a, b) || KeyBefore(b, a)
    ensures !(KeyBefore(a, b) && KeyBefore(b, a))
  {
    Lex.Irreflexive(Utf16(a));
    Lex.Trichotomy(Utf16(a), Utf16(b));
    if Utf16(a) == Utf16(b) {
      Utf16Injective(a, b);
    }
    if KeyBefore(a, b) && KeyBefore(b, a) {
      Lex.Transitive(Utf16(a), Utf16(b), Utf16(a));
    }
  }

  lemma KeyOrderTransitive(a: string, b: string, c: string)
    requires KeyBefore(a, b) && KeyBefore(b, c)
    ensures KeyBefore(a, c)
  {
    Lex.Transitive(Utf16(a), Utf16(b), Utf16(c));
  }

  /** One code unit up to U+FFFF; above, two surrogates that hold the value past 0x10000 in ten bits each. */
  lemma Utf16Exactly(c: char)
    ensures c as int < 0x10000 ==> Utf16Char(c) == [c as int]
    ensures c as int >= 0x10000 ==>
              && |Utf16Char(c)| == 2 && 0xD800 <= Utf16Char(c)[0] < 0xDC00 <= Utf16Char(c)[1] < 0xE000
              && c as int == 0x10000 + 0x400 * (Utf16Char(c)[0] - 0xD800) + (Utf16Char(c)[1] - 0xDC00)
  {
    var n := c as int - 0x10000;
    assert n >= 0 ==> n == n / 1024 * 1024 + n % 1024;
  }

  /** Where code unit order and code point order differ: a supplementary character comes before U+E000 to U+FFFF. */
  lemma SupplementaryFirst(c: char, d: char, s: string, t: string)
    requires c as int >= 0x10000 && 0xE000 <= d as int < 0x10000
    ensures KeyBefore([c] + s, [d] + t)
  {
    Utf16Exactly(c);
    Utf16Exactly(d);
    assert ([c] + s)[1..] == s && ([d] + t)[1..] == t;
  }
}
