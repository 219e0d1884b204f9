/**
 Cutting text to a byte budget without splitting a character: `bound_output`
 (crates/sda-device-control/src/action_result.rs) and the lock-screen message of
 `RemoteLock` (crates/sda-device-control/src/signed_job.rs).

 A Rust `String` is a byte sequence that decodes as UTF-8.
 */
module Truncation {
  import opened Utf8

  /** A Rust `String`. */
  type Text = s: seq<Byte> | IsUtf8(s) witness []

  /** `str::is_char_boundary`. */
  predicate IsCharBoundary(s: seq<Byte>, i: nat)
  {
    i == 0 || i == |s| || (i < |s| && !IsContinuation(s[i]))
  }

  /** How many whole characters of `t` fit in `limit` bytes. */
  function Fitting(t: string, limit: nat): (k: nat)
    ensures k <= |t|
  {
    if t == [] || |EncodeChar(t[0])| > limit then 0 else 1 + Fitting(t[1..], limit - |EncodeChar(t[0])|)
  }

  lemma PrefixStep(t: string, k: nat)
    requires k < |t|
    ensures Encode(t[..k + 1]) == Encode(t[..k]) + EncodeChar(t[k])
  {
    assert t[..k + 1] == t[..k] + [t[k]];
    EncodeConcat(t[..k], [t[k]]);
    assert Encode([t[k]]) == EncodeChar(t[k]) + Encode([t[k]][1..]);
  }

  lemma {:induction false} PrefixesGrow(t: string, j: nat, k: nat)
    requires j <= k <= |t|
    ensures |Encode(t[..j])| + (k - j) <= |Encode(t[..k])|
    decreases k - j
  {
    if j < k {
      PrefixStep(t, k - 1);
      PrefixesGrow(t, j, k - 1);
    }
  }

  /** The fitting prefix is the longest one: a prefix fits exactly when it is no longer. */
  lemma {:induction false} FittingIsLongest(t: string, limit: nat, k: nat)
    requires k <= |t|
    ensures |Encode(t[..k])| <= limit <==> k <= Fitting(t, limit)
    decreases |t|
  {
    if k > 0 {
      assert t[..k][1..] == t[1..][..k - 1];
      if |EncodeChar(t[0])| <= limit {
        FittingIsLongest(t[1..], limit - |EncodeChar(t[0])|, k - 1);
      }
    }
  }

  /** A cut through longer text wastes at most three bytes. */
  lemma FittingIsTight(t: string, limit: nat)
    requires |Encode(t)| > limit
    ensures Fitting(t, limit) < |t|
    ensures limit - 3 <= |Encode(t[..Fitting(t, limit)])| <= limit
  {
    var k := Fitting(t, limit);
    FittingIsLongest(t, limit, k);
    assert t[..|t|] == t;
    FittingIsLongest(t, limit, |t|);
    FittingIsLongest(t, limit, k + 1);
    PrefixStep(t, k);
  }

  /** Byte offsets between characters are exactly the lengths of encoded prefixes. */
  lemma {:induction false} BoundaryIsPrefix(t: string, i: nat) returns (k: nat)
    requires i <= |Encode(t)| && IsCharBoundary(Encode(t), i)
    ensures k <= |t| && |Encode(t[..k])| == i
    decreases |t|
  {
    if i == 0 {
      k := 0;
    } else {
      var n := |EncodeChar(t[0])|;
      assert i >= n;
      assert Encode(t)[n..] == Encode(t[1..]);
      k := BoundaryIsPrefix(t[1..], i - n);
      k := k + 1;
      assert t[..k][1..] == t[1..][..k - 1];
    }
  }

  lemma PrefixIsBoundary(t: string, k: nat)
    requires k <= |t|
    ensures Encode(t[..k]) <= Encode(t) && IsCharBoundary(Encode(t), |Encode(t[..k])|)
  {
    assert t == t[..k] + t[k..];
    EncodeConcat(t[..k], t[k..]);
    if k < |t| {
      assert Encode(t)[|Encode(t[..k])|] == Encode(t[k..])[0] == EncodeChar(t[k])[0];
    }
  }

  /** The last boundary at or before `limit` ends the fitting prefix. */
  lemma LastBoundary(t: string, limit: nat, cut: nat)
    requires cut <= limit < |Encode(t)|
    requires IsCharBoundary(Encode(t), cut)
    requires forall j :: cut < j <= limit ==> !IsCharBoundary(Encode(t), j)
    ensures Encode(t)[..cut] == Encode(t[..Fitting(t, limit)])
  {
    var k := BoundaryIsPrefix(t, cut);
    FittingIsLongest(t, limit, k);
    FittingIsTight(t, limit);
    var f := Fitting(t, limit);
    PrefixIsBoundary(t, f);
    PrefixesGrow(t, k, f);
    assert |Encode(t[..f])| == cut;
  }

  /** Cut valid text to at most `limit` bytes. */
  function Cut(s: seq<Byte>, limit: nat): (r: seq<Byte>)
    requires IsUtf8(s)
  {
    Encode(Decode(s).value[..Fitting(Decode(s).value, limit)])
  }

  lemma TextOf(s: seq<Byte>) returns (t: string)
    requires IsUtf8(s)
    ensures Encode(t) == s
  {
    EncodeOfDecode(s);
    t := Decode(s).value;
  }

  lemma CutOf(t: string, limit: nat)
    ensures IsUtf8(Encode(t)) && Cut(Encode(t), limit) == Encode(t[..Fitting(t, limit)])
  {
    DecodeOfEncode(t);
  }

  /**
   The walk-back loop: from `limit` down to a character boundary, in at most three steps.
   */
  method WalkBack(s: seq<Byte>, limit: nat) returns (end: nat)
    requires IsUtf8(s) && limit < |s|
    ensures end <= limit <= end + 3
    ensures IsCharBoundary(s, end)
    ensures s[..end] == Cut(s, limit)
  {
    ghost var t := TextOf(s);
    CutOf(t, limit);
    FittingIsTight(t, limit);
    end := FindBoundary(s, limit);
    LastBoundary(t, limit, end);
  }

  method FindBoundary(s: seq<Byte>, limit: nat) returns (end: nat)
    requires limit < |s|
    ensures end <= limit && IsCharBoundary(s, end)
    ensures forall j :: end < j <= limit ==> !IsCharBoundary(s, j)
  {
    end := limit;
    while !IsCharBoundary(s, end)
      invariant end <= limit
      invariant forall j :: end < j <= limit ==> !IsCharBoundary(s, j)
      decreases end
    {
      end := end - 1;
    }
  }

  const OUTPUT_MAX_BYTES: nat := 65536
  const MARKER_START: string := "[output truncated "
  const MARKER_END: string := " full bytes hashed in evidence] "
  const TRUNCATION_MARKER: string := MARKER_START + ['—'] + MARKER_END

  predicate Ascii(s: string) { forall i :: 0 <= i < |s| ==> s[i] as int < 0x80 }

  lemma LengthAround(a: string, b: char, c: string)
    requires Ascii(a) && Ascii(c)
    ensures |Encode(a + [b] + c)| == |a| + |EncodeChar(b)| + |c|
  {
    EncodeConcat(a + [b], c);
    EncodeConcat(a, [b]);
    EncodeAscii(a);
    EncodeAscii(c);
    assert Encode([b]) == EncodeChar(b) + Encode([b][1..]);
  }

  lemma MarkerLength()
    ensures |Encode(TRUNCATION_MARKER)| == 53
  {
    LengthAround(MARKER_START, '—', MARKER_END);
  }

  method BoundOutput(output: seq<Byte>) returns (bounded: seq<Byte>, truncated: bool)
    requires IsUtf8(output)
    ensures (bounded, truncated) == Bounded(output)
    ensures |output| > 65536 ==> 65533 <= |bounded|
  {
    if |output| <= OUTPUT_MAX_BYTES {
      return output, false;
    }
    MarkerLength();
    var marker := |Encode(TRUNCATION_MARKER)|;
    var limit := if marker <= OUTPUT_MAX_BYTES then OUTPUT_MAX_BYTES - marker else 0;
    limit := WalkBack(output, limit);
    var head := output[..limit];
    bounded := Encode(TRUNCATION_MARKER);
    bounded := bounded + head;
    truncated := true;
  }

  /**
   What `bound_output` returns: short text as it is, long text as the marker and the longest prefix that fits
   after it.
   */
  function Bounded(output: seq<Byte>): (seq<Byte>, bool)
    requires IsUtf8(output)
  {
    if |output| <= OUTPUT_MAX_BYTES then (output, false)
    else
      var marker := Encode(TRUNCATION_MARKER);
      (marker + Cut(output, if |marker| <= OUTPUT_MAX_BYTES then OUTPUT_MAX_BYTES - |marker| else 0), true)
  }

  lemma CutIsUtf8(s: seq<Byte>, limit: nat)
    requires IsUtf8(s)
    ensures IsUtf8(Cut(s, limit)) && |Cut(s, limit)| <= limit && Cut(s, limit) <= s
    ensures |s| <= limit ==> Cut(s, limit) == s
  {
    var t := TextOf(s);
    CutOf(t, limit);
    CutOfText(t, limit);
  }

  lemma {:induction false} CutOfText(t: string, limit: nat)
    ensures var r := Encode(t[..Fitting(t, limit)]);
            IsUtf8(r) && |r| <= limit && r <= Encode(t) && (|Encode(t)| <= limit ==> r == Encode(t))
  {
    var k := Fitting(t, limit);
    DecodeOfEncode(t[..k]);
    FittingIsLongest(t, limit, k);
    PrefixIsBoundary(t, k);
    FittingIsLongest(t, limit, |t|);
    assert t[..|t|] == t;
  }

  /** The result is valid UTF-8 within the cap, says whether anything was lost, and is left alone by a second call. */
  lemma BoundedIsStable(output: seq<Byte>)
    requires IsUtf8(output)
    ensures var (bounded, truncated) := Bounded(output);
            && IsUtf8(bounded) && |bounded| <= 65536
            && (truncated <==> bounded != output)
            && Bounded(bounded) == (bounded, false)
  {
    if |output| > OUTPUT_MAX_BYTES {
      MarkerLength();
      var limit := OUTPUT_MAX_BYTES - 53;
      var t := TextOf(output);
      CutOf(t, limit);
      CutOfText(t, limit);
      var head := t[..Fitting(t, limit)];
      EncodeConcat(TRUNCATION_MARKER, head);
      DecodeOfEncode(TRUNCATION_MARKER + head);
      assert Bounded(output).0 == Encode(TRUNCATION_MARKER) + Encode(head);
    }
  }

  const LOCK_MESSAGE_MAX_BYTES: nat := 240

  /** The in-place truncation of a `RemoteLock` message. */
  method TruncateLockMessage(message: seq<Byte>) returns (shown: seq<Byte>)
    requires IsUtf8(message)
    ensures shown == Cut(message, 240)
    ensures |message| > 240 ==> 237 <= |shown|
  {
    CutIsUtf8(message, LOCK_MESSAGE_MAX_BYTES);
    shown := message;
    if |message| > LOCK_MESSAGE_MAX_BYTES {
      var end := WalkBack(message, LOCK_MESSAGE_MAX_BYTES);
      shown := message[..end];
    }
  }

  /** Cutting twice is cutting once. */
  lemma CutIsIdempotent(s: seq<Byte>, limit: nat)
    requires IsUtf8(s)
    ensures IsUtf8(Cut(s, limit)) && Cut(Cut(s, limit), limit) == Cut(s, limit)
  {
    CutIsUtf8(s, limit);
    CutIsUtf8(Cut(s, limit), limit);
  }

  /** Output of up to 64 KiB stays; longer output becomes the marker and the longest prefix that then fits. */
  lemma BoundedExactly(output: seq<Byte>)
    requires IsUtf8(output)
    ensures |output| <= 65536 ==> Bounded(output) == (output, false)
    ensures |output| > 65536 ==>
              && Bounded(output).1
              && Bounded(output).0 ==
                 Encode("[output truncated " + ['—'] + " full bytes hashed in evidence] ") + Cut(output, 65483)
  {
    MarkerLength();
  }
}
