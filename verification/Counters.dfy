/**
 The message counters of the secure channel and the header they are printed in
 (crates/sda-comms/src/crypto.rs:212-229). Counters are 32-bit and wrap, as in a release build.
 */
module Counters {
  import opened Decimal
  import Arith

  const LOCAL_LIMIT := 9997
  const U32 := 0x1_0000_0000

  /** Frames before the pair of counters repeats. */
  const PERIOD := LOCAL_LIMIT * U32

  type Word = n: int | 0 <= n < U32
  type Half = n: int | 0 <= n < 0x1_0000

  datatype Pair = Pair(global: Word, local: Word)

  /** One message: count it locally; at the limit start over and count globally. */
  function Advance(c: Pair): Pair
  {
    var local := (c.local + 1) % U32;
    if local >= LOCAL_LIMIT then Pair((c.global + 1) % U32, 0) else Pair(c.global, local)
  }

  /** The counters of the `n`-th frame of a fresh cipher, frames counted from 1. */
  function Nth(n: nat): Pair
  {
    if n == 0 then Pair(0, 0) else Advance(Nth(n - 1))
  }

  function Closed(n: nat): Pair { Pair(n / LOCAL_LIMIT % U32, n % LOCAL_LIMIT) }

  lemma AdvanceClosed(n: nat)
    ensures Advance(Closed(n)) == Closed(n + 1)
  {
    var q, r := n / LOCAL_LIMIT, n % LOCAL_LIMIT;
    if r + 1 == LOCAL_LIMIT {
      assert (n + 1) / LOCAL_LIMIT == q + 1 && (n + 1) % LOCAL_LIMIT == 0;
      assert (q % U32 + 1) % U32 == (q + 1) % U32;
    } else {
      assert (n + 1) / LOCAL_LIMIT == q && (n + 1) % LOCAL_LIMIT == r + 1;
    }
  }

  /** Frame `n` carries `n` div 9997 and `n` mod 9997, for every `n`; the global part wraps at 32 bits. */
  lemma {:induction false} ClosedForm(n: nat)
    ensures Nth(n) == Closed(n) == Pair(n / 9997 % 0x1_0000_0000, n % 9997)
    ensures n < PERIOD ==> Nth(n).global == n / LOCAL_LIMIT
  {
    if n > 0 {
      ClosedForm(n - 1);
      AdvanceClosed(n - 1);
    }
    assert n < PERIOD ==> n / LOCAL_LIMIT < U32;
  }

  predicate Below(c: Pair, d: Pair) { c.global < d.global || (c.global == d.global && c.local < d.local) }

  /** Over the first 9997 * 2^32 frames the pairs strictly increase. */
  lemma StrictlyIncreasing(m: nat, n: nat)
    requires m < n < PERIOD
    ensures Below(Nth(m), Nth(n))
  {
    ClosedForm(m);
    ClosedForm(n);
    assert m / LOCAL_LIMIT <= n / LOCAL_LIMIT;
  }

  /** Two frames carry the same pair exactly when they are a whole number of periods apart. */
  lemma RepeatExactly(m: nat, n: nat)
    ensures Nth(m) == Nth(n) <==> m % PERIOD == n % PERIOD
  {
    ClosedForm(m);
    ClosedForm(n);
    PositionInPeriod(m);
    PositionInPeriod(n);
  }

  /** The pair is the position within the period, written in base 9997. */
  lemma PositionInPeriod(n: nat)
    ensures n % PERIOD == LOCAL_LIMIT * (n / LOCAL_LIMIT % U32) + n % LOCAL_LIMIT
  {
    var q, r := n / LOCAL_LIMIT, n % LOCAL_LIMIT;
    var k, g := q / U32, q % U32;
    assert n == PERIOD * k + (LOCAL_LIMIT * g + r);
  }

  /** The two plain additions stay within 32 bits; where one does not, a checked build panics. */
  predicate AdditionsFit(c: Pair)
  {
    c.local + 1 < U32 && (c.local + 1 >= LOCAL_LIMIT ==> c.global + 1 < U32)
  }

  lemma NextPosition(n: nat, at: int)
    requires at == n % PERIOD
    ensures (n + 1) % PERIOD == 0 <==> at + 1 == PERIOD
  {
    var q := n / PERIOD;
    if at + 1 == PERIOD {
      Arith.Division(n + 1, PERIOD, q + 1, 0);
    } else {
      Arith.Division(n + 1, PERIOD, q, at + 1);
    }
  }

  lemma LastOfPeriod(g: Word, r: int)
    requires 0 <= r < LOCAL_LIMIT
    ensures LOCAL_LIMIT * g + r + 1 == PERIOD <==> g + 1 == U32 && r + 1 == LOCAL_LIMIT
  {
  }

  /** A checked build panics exactly on the frame that completes a period. */
  lemma ChecksPassExactly(n: nat)
    ensures AdditionsFit(Nth(n)) <==> (n + 1) % PERIOD != 0
  {
    ClosedForm(n);
    PositionInPeriod(n);
    NextPosition(n, n % PERIOD);
    LastOfPeriod(Nth(n).global, Nth(n).local);
  }

  // ---- The header ----

  /** The ASCII digit. */
  function DigitByte(d: Digit): bv8
  {
    match d
    case 0 => 0x30
    case 1 => 0x31
    case 2 => 0x32
    case 3 => 0x33
    case 4 => 0x34
    case 5 => 0x35
    case 6 => 0x36
    case 7 => 0x37
    case 8 => 0x38
    case _ => 0x39
  }

  function DigitText(s: seq<Digit>): (t: seq<bv8>)
    ensures |t| == |s|
  {
    seq(|s|, i requires 0 <= i < |s| => DigitByte(s[i]))
  }

  lemma DigitTextInjective(s: seq<Digit>, t: seq<Digit>)
    requires DigitText(s) == DigitText(t)
    ensures s == t
  {
    assert |s| == |t|;
    forall i | 0 <= i < |s| ensures s[i] == t[i] {
      assert DigitText(s)[i] == DigitText(t)[i];
    }
  }

  const COLON: bv8 := 0x3a

  /** `{:05}{:010}:{:04}:` of the random number and the counters. */
  function Header(rand: Half, c: Pair): (h: seq<bv8>)
  {
    DigitText(Padded(rand, 5)) + DigitText(Padded(c.global, 10)) + [COLON] + DigitText(Padded(c.local, 4)) + [COLON]
  }

  lemma Widths()
    ensures Pow10(4) == 10_000 && Pow10(5) == 100_000 && Pow10(10) == 10_000_000_000
  {
    assert Pow10(2) == 100;
    assert Pow10(4) == 100 * Pow10(2);
    assert Pow10(7) == 1000 * Pow10(4);
    assert Pow10(10) == 1000 * Pow10(7);
  }

  function FixedHeader(rand: Half, c: Pair): (h: seq<bv8>)
    ensures |h| == 21 && h[15] == COLON && h[20] == COLON
  {
    DigitText(Fixed(rand, 5)) + DigitText(Fixed(c.global, 10)) + [COLON] + DigitText(Fixed(c.local, 4)) + [COLON]
  }

  /** No field ever outgrows its width, so the header is always 21 bytes with colons at 15 and 20. */
  lemma HeaderShape(rand: Half, c: Pair)
    requires c.local < 10_000
    ensures Header(rand, c) == FixedHeader(rand, c)
    ensures |Header(rand, c)| == 21 && Header(rand, c)[15] == COLON && Header(rand, c)[20] == COLON
  {
    Widths();
    PaddedIsFixed(rand, 5);
    PaddedIsFixed(c.global, 10);
    PaddedIsFixed(c.local, 4);
  }

  /** The header can be read back. */
  lemma HeaderInjective(rand: Half, c: Pair, other: Half, d: Pair)
    requires c.local < 10_000 && d.local < 10_000
    requires Header(rand, c) == Header(other, d)
    ensures rand == other && c == d
  {
    HeaderShape(rand, c);
    HeaderShape(other, d);
    var h, k := FixedHeader(rand, c), FixedHeader(other, d);
    assert h[..5] == DigitText(Fixed(rand, 5)) && k[..5] == DigitText(Fixed(other, 5));
    assert h[5..15] == DigitText(Fixed(c.global, 10)) && k[5..15] == DigitText(Fixed(d.global, 10));
    assert h[16..20] == DigitText(Fixed(c.local, 4)) && k[16..20] == DigitText(Fixed(d.local, 4));
    DigitTextInjective(Fixed(rand, 5), Fixed(other, 5));
    DigitTextInjective(Fixed(c.global, 10), Fixed(d.global, 10));
    DigitTextInjective(Fixed(c.local, 4), Fixed(d.local, 4));
    Widths();
    FixedInjective(rand, other, 5);
    FixedInjective(c.global, d.global, 10);
    FixedInjective(c.local, d.local, 4);
  }

  /** The bytes are the decimal digits of this number. */
  ghost predicate Shows(h: seq<bv8>, n: nat)
  {
    exists ds: seq<Digit> ::
      |ds| == |h| && Value(ds) == n && forall i :: 0 <= i < |h| ==> h[i] as int == 48 + (ds[i] as int)
  }

  lemma DigitBytes(ds: seq<Digit>, i: nat)
    requires i < |ds|
    ensures DigitText(ds)[i] as int == 48 + (ds[i] as int)
  {
  }

  lemma PaddedShows(n: nat, w: nat)
    ensures Shows(DigitText(Padded(n, w)), n)
  {
    var ds := Padded(n, w);
    ValueOfPadded(n, w);
    forall i | 0 <= i < |ds| ensures DigitText(ds)[i] as int == 48 + (ds[i] as int) {
      DigitBytes(ds, i);
    }
  }

  /** A reader finds the random number in the first five places, then the global counter, then the local one. */
  lemma HeaderReads(rand: Half, c: Pair)
    requires c.local < 10_000
    ensures var h := Header(rand, c);
            |h| == 21 && Shows(h[..5], rand) && Shows(h[5..15], c.global) && Shows(h[16..20], c.local)
    ensures Header(rand, c)[15] as int == ':' as int && Header(rand, c)[20] as int == ':' as int
  {
    HeaderShape(rand, c);
    Widths();
    PaddedIsFixed(rand, 5);
    PaddedIsFixed(c.global, 10);
    PaddedIsFixed(c.local, 4);
    var h := Header(rand, c);
    assert h[..5] == DigitText(Padded(rand, 5)) && h[5..15] == DigitText(Padded(c.global, 10));
    assert h[16..20] == DigitText(Padded(c.local, 4));
    PaddedShows(rand, 5);
    PaddedShows(c.global, 10);
    PaddedShows(c.local, 4);
  }
}
