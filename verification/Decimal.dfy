/**
 Decimal digits of natural numbers, as printed by Rust's `{}`, `{:04}` and the like.
 Digits are values 0..9; each user maps them to its own characters or bytes.
 */
module Decimal {
  import Lex

  type Digit = d: int | 0 <= d < 10

  function Pow10(w: nat): (p: nat)
    ensures p >= 1
  {
    if w == 0 then 1 else 10 * Pow10(w - 1)
  }

  /** `{}`: no leading zeros, and "0" for zero. */
  function Digits(n: nat): (s: seq<Digit>)
    ensures |s| >= 1
    ensures |s| > 1 ==> s[0] != 0
  {
    if n < 10 then [n] else Digits(n / 10) + [n % 10]
  }

  /** The number a digit string denotes. */
  function Value(s: seq<Digit>): nat
  {
    if s == [] then 0 else 10 * Value(s[..|s| - 1]) + s[|s| - 1]
  }

  /** The last `w` digits. */
  function Fixed(n: nat, w: nat): (s: seq<Digit>)
    ensures |s| == w
  {
    if w == 0 then [] else Fixed(n / 10, w - 1) + [n % 10]
  }

  /** `{:0w}`: at least `w` digits, filled with zeros. */
  function Padded(n: nat, w: nat): (s: seq<Digit>)
    ensures |s| >= w
  {
    var s := Digits(n);
    if |s| >= w then s else seq(w - |s|, _ => 0) + s
  }

  lemma {:induction false} ValueOfDigits(n: nat)
    ensures Value(Digits(n)) == n
  {
    if n < 10 {
      assert Value([n]) == 10 * Value([][..0]) + n;
    } else {
      ValueOfDigits(n / 10);
      assert Digits(n)[..|Digits(n)| - 1] == Digits(n / 10);
    }
  }

  lemma DigitsInjective(m: nat, n: nat)
    requires Digits(m) == Digits(n)
    ensures m == n
  {
    ValueOfDigits(m);
    ValueOfDigits(n);
  }

  /** A number needs at most `w` digits exactly when it is below 10^w. */
  lemma {:induction false} DigitCount(n: nat, w: nat)
    requires w >= 1
    ensures |Digits(n)| <= w <==> n < Pow10(w)
    decreases w
  {
    if w == 1 {
      assert Pow10(1) == 10 * Pow10(0);
    } else if n >= 10 {
      DigitCount(n / 10, w - 1);
    } else {
      assert Pow10(w) == 10 * Pow10(w - 1);
    }
  }

  lemma {:induction false} FixedOfZero(w: nat)
    ensures Fixed(0, w) == seq(w, _ => 0)
  {
    if w > 0 {
      FixedOfZero(w - 1);
    }
  }

  /** While the number fits, padding gives exactly `w` digits. */
  lemma {:induction false} PaddedIsFixed(n: nat, w: nat)
    requires w >= 1 && n < Pow10(w)
    ensures Padded(n, w) == Fixed(n, w)
    decreases w
  {
    DigitCount(n, w);
    if w == 1 {
      assert Fixed(n, 1) == Fixed(n / 10, 0) + [n % 10];
    } else if n < 10 {
      FixedOfZero(w - 1);
    } else {
      PaddedIsFixed(n / 10, w - 1);
      DigitCount(n / 10, w - 1);
    }
  }

  lemma {:induction false} FixedInjective(m: nat, n: nat, w: nat)
    requires m < Pow10(w) && n < Pow10(w)
    requires Fixed(m, w) == Fixed(n, w)
    ensures m == n
    decreases w
  {
    if w > 0 {
      assert Fixed(m / 10, w - 1) == Fixed(m, w)[..w - 1] == Fixed(n, w)[..w - 1] == Fixed(n / 10, w - 1);
      FixedInjective(m / 10, n / 10, w - 1);
    }
  }

  /** Fixed-width digit strings sort like the numbers they denote. */
  lemma {:induction false} FixedOrder(m: nat, n: nat, w: nat)
    requires m < Pow10(w) && n < Pow10(w)
    ensures m < n <==> Lex.Before(Fixed(m, w), Fixed(n, w))
    decreases w
  {
    if w > 0 {
      FixedOrder(m / 10, n / 10, w - 1);
      Lex.Fields(Fixed(m / 10, w - 1), Fixed(n / 10, w - 1), [m % 10], [n % 10]);
      if Fixed(m / 10, w - 1) == Fixed(n / 10, w - 1) {
        FixedInjective(m / 10, n / 10, w - 1);
      }
    }
  }

  function Text(ds: seq<Digit>): (s: string)
    ensures |s| == |ds| && forall i :: 0 <= i < |s| ==> s[i] as int == 48 + (ds[i] as int)
  {
    seq(|ds|, i requires 0 <= i < |ds| => ('0' as int + ds[i]) as char)
  }

  lemma TextInjective(ds: seq<Digit>, es: seq<Digit>)
    requires Text(ds) == Text(es)
    ensures ds == es
  {
    assert |ds| == |es|;
    forall i | 0 <= i < |ds| ensures ds[i] == es[i] {
      assert Text(ds)[i] == Text(es)[i];
    }
  }

  lemma {:induction false} LeadingZeros(k: nat, s: seq<Digit>)
    ensures Value(seq(k, _ => 0) + s) == Value(s)
    decreases |s|, k
  {
    var zeros: seq<Digit> := seq(k, _ => 0);
    if s != [] {
      var n := |s| - 1;
      LeadingZeros(k, s[..n]);
      assert (zeros + s)[..k + n] == zeros + s[..n];
    } else if k > 0 {
      LeadingZeros(k - 1, s);
      assert (zeros + s)[..k - 1] == seq(k - 1, _ => 0) + s;
    } else {
      assert zeros + s == s;
    }
  }

  /** Padding does not change the number denoted. */
  lemma ValueOfPadded(n: nat, w: nat)
    ensures Value(Padded(n, w)) == n
  {
    ValueOfDigits(n);
    LeadingZeros(if |Digits(n)| >= w then 0 else w - |Digits(n)|, Digits(n));
  }
}
