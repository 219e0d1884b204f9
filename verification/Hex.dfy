/**
 Lowercase hexadecimal text: UUIDs as serde prints them, and the 32-byte arrays of an evidence record
 (`byte_array_32`, crates/sda-device-control/src/evidence.rs:272-317).
 */
module Hex {
  import opened Wrappers
  import opened Utf8

  function HexChar(d: int): (c: char)
    requires 0 <= d < 16
    ensures '0' <= c <= '9' || 'a' <= c <= 'f'
  {
    if d < 10 then ('0' as int + d) as char else ('a' as int + d - 10) as char
  }

  /** `hex_nibble`: both cases are read. */
  function Nibble(b: Byte): Option<int>
  {
    if 0x30 <= b <= 0x39 then Some(b - 0x30)
    else if 0x61 <= b <= 0x66 then Some(10 + b - 0x61)
    else if 0x41 <= b <= 0x46 then Some(10 + b - 0x41)
    else None
  }

  /** `{b:02x}` of every byte. */
  function HexText(bytes: seq<Byte>): (s: string)
    ensures |s| == 2 * |bytes|
    ensures forall i :: 0 <= i < |s| ==> s[i] as int < 0x80
    ensures forall i :: 0 <= i < |bytes| ==>
              s[2 * i] == HexChar(bytes[i] / 16) && s[2 * i + 1] == HexChar(bytes[i] % 16)
  {
    if bytes == [] then "" else [HexChar(bytes[0] / 16), HexChar(bytes[0] % 16)] + HexText(bytes[1..])
  }

  method Serialize(bytes: seq<Byte>) returns (out: string)
    ensures out == HexText(bytes)
  {
    out := "";
    for i := 0 to |bytes|
      invariant out == HexText(bytes[..i])
    {
      out := out + [HexChar(bytes[i] / 16), HexChar(bytes[i] % 16)];
      HexTextAppend(bytes[..i], bytes[i]);
      assert bytes[..i + 1] == bytes[..i] + [bytes[i]];
    }
    assert bytes[..|bytes|] == bytes;
  }

  lemma {:induction false} HexTextAppend(bytes: seq<Byte>, b: Byte)
    ensures HexText(bytes + [b]) == HexText(bytes) + [HexChar(b / 16), HexChar(b % 16)]
  {
    if bytes == [] {
      assert bytes + [b] == [b];
      assert [b][1..] == [];
    } else {
      assert (bytes + [b])[1..] == bytes[1..] + [b];
      HexTextAppend(bytes[1..], b);
    }
  }

  datatype HexError = BadLength(n: nat) | NonHex(b: Byte)

  /** The 64 digits are 32 bytes, most significant digit first. */
  predicate IsHexOf(text: seq<Byte>, bytes: seq<Byte>)
  {
    && |text| == 2 * |bytes|
    && forall i :: 0 <= i < |bytes| ==>
                     && Nibble(text[2 * i]).Some? && Nibble(text[2 * i + 1]).Some?
                     && bytes[i] == 16 * Nibble(text[2 * i]).value + Nibble(text[2 * i + 1]).value
  }

  /** The first byte that is no hexadecimal digit stands at `i`. */
  predicate IsFirstNonHex(text: seq<Byte>, i: int)
  {
    0 <= i < |text| && Nibble(text[i]).None? && forall k :: 0 <= k < i ==> Nibble(text[k]).Some?
  }

  /** Reads exactly 64 hexadecimal digits; otherwise reports the length or the first offending byte. */
  method Deserialize(text: seq<Byte>) returns (r: Result<seq<Byte>, HexError>)
    ensures r.Ok? ==> |r.value| == 32 && IsHexOf(text, r.value)
    ensures r.Ok? <==> |text| == 64 && forall i :: 0 <= i < 64 ==> Nibble(text[i]).Some?
    ensures r.Err? ==> if |text| != 64 then r.error == BadLength(|text|)
                       else r.error.NonHex? && exists i :: IsFirstNonHex(text, i) && text[i] == r.error.b
  {
    if |text| != 64 {
      return Err(BadLength(|text|));
    }
    var out: seq<Byte> := [];
    for i := 0 to 32
      invariant |out| == i
      invariant forall j :: 0 <= j < 2 * i ==> Nibble(text[j]).Some?
      invariant forall j :: 0 <= j < i ==> out[j] == 16 * Nibble(text[2 * j]).value + Nibble(text[2 * j + 1]).value
    {
      var hi, lo := Nibble(text[2 * i]), Nibble(text[2 * i + 1]);
      if hi.None? {
        assert IsFirstNonHex(text, 2 * i);
        return Err(NonHex(text[2 * i]));
      }
      if lo.None? {
        assert IsFirstNonHex(text, 2 * i + 1);
        return Err(NonHex(text[2 * i + 1]));
      }
      out := out + [16 * hi.value + lo.value];
    }
    return Ok(out);
  }

  /** A hexadecimal digit of either case, and nothing else, is read as its value. */
  lemma NibbleExactly(b: Byte, d: int)
    ensures Nibble(b) == Some(d) <==>
              0 <= d < 16 && (b == "0123456789abcdef"[d] as int || b == "0123456789ABCDEF"[d] as int)
  {
  }

  lemma NibbleOfChar(d: int)
    requires 0 <= d < 16
    ensures HexChar(d) as int < 0x80 && Nibble(HexChar(d) as int) == Some(d)
  {
  }

  /** Only the bytes that were written are read back. */
  lemma HexRoundTrip(bytes: seq<Byte>, other: seq<Byte>)
    requires IsHexOf(Encode(HexText(bytes)), other)
    ensures other == bytes
  {
    var s := HexText(bytes);
    EncodeAscii(s);
    forall i | 0 <= i < |bytes| ensures other[i] == bytes[i] {
      assert s[2 * i] == HexChar(bytes[i] / 16) && s[2 * i + 1] == HexChar(bytes[i] % 16);
      NibbleOfChar(bytes[i] / 16);
      NibbleOfChar(bytes[i] % 16);
    }
  }

  lemma HexTextReads(bytes: seq<Byte>)
    ensures IsHexOf(Encode(HexText(bytes)), bytes)
  {
    var s := HexText(bytes);
    EncodeAscii(s);
    forall i | 0 <= i < |bytes|
      ensures Nibble(Encode(s)[2 * i]) == Some(bytes[i] / 16) && Nibble(Encode(s)[2 * i + 1]) == Some(bytes[i] % 16)
    {
      assert s[2 * i] == HexChar(bytes[i] / 16) && s[2 * i + 1] == HexChar(bytes[i] % 16);
      NibbleOfChar(bytes[i] / 16);
      NibbleOfChar(bytes[i] % 16);
    }
  }

  lemma HexTextInjective(a: seq<Byte>, b: seq<Byte>)
    requires HexText(a) == HexText(b)
    ensures a == b
  {
    HexTextReads(a);
    HexRoundTrip(b, a);
  }

  // ---- UUIDs ----

  /** The 16 bytes of a UUID; they are compared byte by byte. */
  type Uuid = s: seq<Byte> | |s| == 16 witness seq(16, _ => 0)

  function Hyphenated(d: string): (s: string)
    requires |d| == 32
    ensures |s| == 36
  {
    d[..8] + "-" + d[8..12] + "-" + d[12..16] + "-" + d[16..20] + "-" + d[20..]
  }

  lemma HyphenatedParts(d: string)
    requires |d| == 32
    ensures var s := Hyphenated(d);
            s[..8] == d[..8] && s[9..13] == d[8..12] && s[14..18] == d[12..16] && s[19..23] == d[16..20] &&
            s[24..] == d[20..]
  {
  }

  /** The hyphenated form, 8-4-4-4-12. */
  function UuidText(u: Uuid): (s: string)
    ensures |s| == 36
  {
    Hyphenated(HexText(u))
  }

  lemma UuidTextInjective(u: Uuid, v: Uuid)
    requires UuidText(u) == UuidText(v)
    ensures u == v
  {
    var d, e := HexText(u), HexText(v);
    HyphenatedParts(d);
    HyphenatedParts(e);
    assert d == d[..8] + d[8..12] + d[12..16] + d[16..20] + d[20..];
    assert e == e[..8] + e[8..12] + e[12..16] + e[16..20] + e[20..];
    HexTextInjective(u, v);
  }

  /** The 32 digits in order, cut 8-4-4-4-12 by hyphens. */
  lemma UuidTextShape(u: Uuid)
    ensures var s := UuidText(u);
            && s[8] == '-' && s[13] == '-' && s[18] == '-' && s[23] == '-'
            && s[..8] + s[9..13] + s[14..18] + s[19..23] + s[24..] == HexText(u)
  {
    var d := HexText(u);
    HyphenatedParts(d);
    assert d == d[..8] + d[8..12] + d[12..16] + d[16..20] + d[20..];
  }
}
