/**
 The Feistel network of the channel's block cipher, for any round keys, any round function and any kind of
 word with an exclusive-or (crates/sda-comms/src/blowfish_wazuh.rs:60-93).
 */
module Feistel {
  /** What the network is made of: exclusive-or and the round function. */
  datatype Net<!W> = Net(xor: (W, W) -> W, f: W -> W) {
    function Xor(a: W, b: W): W { xor(a, b) }

    function F(a: W): W { f(a) }
  }

  /** The laws of exclusive-or that the inverse rests on. */
  ghost predicate Lawful<W(!new)>(net: Net<W>)
  {
    && (forall a, b :: net.Xor(net.Xor(a, b), b) == a)
    && (forall a, b, c :: net.Xor(net.Xor(a, b), c) == net.Xor(net.Xor(a, c), b))
  }

  datatype Pair<W> = Pair(l: W, r: W)

  /** One round: mix the key into the left half, the left half into the right, then swap. */
  function Round<W>(net: Net<W>, k: W, x: Pair<W>): Pair<W>
  {
    var xl := net.Xor(x.l, k);
    Pair(net.Xor(x.r, net.F(xl)), xl)
  }

  /** The rounds with these keys, first key first. */
  function Rounds<W>(net: Net<W>, ks: seq<W>, x: Pair<W>): Pair<W>
  {
    if ks == [] then x
    else
      var n := |ks| - 1;
      Round(net, ks[n], Rounds(net, ks[..n], x))
  }

  /** The last swap undone and the last two keys mixed in. */
  function Finish<W>(net: Net<W>, a: W, b: W, y: Pair<W>): Pair<W> { Pair(net.Xor(y.r, b), net.Xor(y.l, a)) }

  /** Rounds with all keys but the last two, which finish the block. */
  function Crypt<W>(net: Net<W>, ks: seq<W>, x: Pair<W>): Pair<W>
    requires |ks| >= 2
  {
    var n := |ks| - 2;
    Finish(net, ks[n], ks[n + 1], Rounds(net, ks[..n], x))
  }

  function Reverse<W>(ks: seq<W>): (r: seq<W>)
    ensures |r| == |ks|
    ensures forall i :: 0 <= i < |ks| ==> r[i] == ks[|ks| - 1 - i]
  {
    seq(|ks|, i requires 0 <= i < |ks| => ks[|ks| - 1 - i])
  }

  function UndoRound<W>(net: Net<W>, k: W, y: Pair<W>): Pair<W> { Pair(net.Xor(y.r, k), net.Xor(y.l, net.F(y.r))) }

  lemma {:induction false} FirstRound<W>(net: Net<W>, k: W, ks: seq<W>, x: Pair<W>)
    ensures Rounds(net, [k] + ks, x) == Rounds(net, ks, Round(net, k, x))
  {
    var n := |ks|;
    assert ([k] + ks)[n] == if n == 0 then k else ks[n - 1];
    if n == 0 {
      assert ([k] + ks)[..n] == [];
    } else {
      FirstRound(net, k, ks[..n - 1], x);
      assert ([k] + ks)[..n] == [k] + ks[..n - 1];
    }
  }

  /** A key added in front is a round before; a key added at the end undoes that round. */
  lemma KeyInFront<W>(net: Net<W>, k: W, ks: seq<W>, x: Pair<W>)
    requires |ks| >= 2
    ensures Crypt(net, [k] + ks, x) == Crypt(net, ks, Round(net, k, x))
  {
    var n := |ks| - 2;
    assert ([k] + ks)[..n + 1] == [k] + ks[..n];
    FirstRound(net, k, ks[..n], x);
  }

  lemma KeyAtEnd<W(!new)>(net: Net<W>, ks: seq<W>, k: W, x: Pair<W>)
    requires |ks| >= 2 && Lawful(net)
    ensures Crypt(net, ks + [k], x) == UndoRound(net, k, Crypt(net, ks, x))
  {
    var n := |ks| - 2;
    assert (ks + [k])[..n + 1] == ks[..n + 1];
    assert ks[..n + 1][..n] == ks[..n];
  }

  /** Running the network with the keys reversed inverts it, for any number of rounds. */
  lemma {:induction false} ReversedInverts<W(!new)>(net: Net<W>, ks: seq<W>, x: Pair<W>)
    requires |ks| >= 2 && Lawful(net)
    ensures Crypt(net, Reverse(ks), Crypt(net, ks, x)) == x
    decreases |ks|
  {
    if |ks| > 2 {
      var k, rest := ks[0], ks[1..];
      assert ks == [k] + rest;
      assert Reverse(ks) == Reverse(rest) + [k];
      KeyInFront(net, k, rest, x);
      ReversedInverts(net, rest, Round(net, k, x));
      KeyAtEnd(net, Reverse(rest), k, Crypt(net, ks, x));
    }
  }

  lemma ReverseTwice<W>(ks: seq<W>)
    ensures Reverse(Reverse(ks)) == ks
  {
  }

  /** The halves before every round, and after the last: each round swaps, the new right half being the old left one. */
  ghost predicate IsTrace<W>(net: Net<W>, ks: seq<W>, xs: seq<Pair<W>>)
  {
    && |xs| == |ks| + 1
    && forall i :: 0 <= i < |ks| ==>
         && xs[i + 1].r == net.Xor(xs[i].l, ks[i])
         && xs[i + 1].l == net.Xor(xs[i].r, net.F(xs[i + 1].r))
  }

  lemma {:induction false} RoundsTrace<W>(net: Net<W>, ks: seq<W>, x: Pair<W>) returns (xs: seq<Pair<W>>)
    ensures IsTrace(net, ks, xs) && xs[0] == x && xs[|ks|] == Rounds(net, ks, x)
  {
    if ks == [] {
      xs := [x];
    } else {
      var n := |ks| - 1;
      var before := RoundsTrace(net, ks[..n], x);
      xs := before + [Rounds(net, ks, x)];
    }
  }

  /** A block as the halves it passes through; the last two keys go on crosswise, without a swap. */
  lemma CryptTrace<W>(net: Net<W>, ks: seq<W>, x: Pair<W>) returns (xs: seq<Pair<W>>)
    requires |ks| >= 2
    ensures var n := |ks| - 2; var y := Crypt(net, ks, x);
            && IsTrace(net, ks[..n], xs) && xs[0] == x
            && y.l == net.Xor(xs[n].r, ks[n + 1]) && y.r == net.Xor(xs[n].l, ks[n])
  {
    xs := RoundsTrace(net, ks[..|ks| - 2], x);
  }

  // ---- The rounds as loops over the subkey array ----

  method RunForward<W>(net: Net<W>, p: array<W>, l: W, r: W) returns (y: Pair<W>)
    requires p.Length == 18
    ensures y == Crypt(net, p[..], Pair(l, r))
  {
    var xl, xr := l, r;
    for i := 0 to 16
      invariant Pair(xl, xr) == Rounds(net, p[..i], Pair(l, r))
    {
      assert p[..i + 1][..i] == p[..i];
      xl := net.Xor(xl, p[i]);
      xr := net.Xor(xr, net.F(xl));
      xl, xr := xr, xl;
    }
    assert p[..][..16] == p[..16];
    xl, xr := xr, xl;
    xr := net.Xor(xr, p[16]);
    xl := net.Xor(xl, p[17]);
    y := Pair(xl, xr);
  }

  method RunBackward<W>(net: Net<W>, p: array<W>, l: W, r: W) returns (y: Pair<W>)
    requires p.Length == 18
    ensures y == Crypt(net, Reverse(p[..]), Pair(l, r))
  {
    var xl, xr := l, r;
    ghost var ks := Reverse(p[..]);
    for i := 18 downto 2
      invariant Pair(xl, xr) == Rounds(net, ks[..18 - i], Pair(l, r))
    {
      assert ks[..18 - i][..17 - i] == ks[..17 - i];
      xl := net.Xor(xl, p[i]);
      xr := net.Xor(xr, net.F(xl));
      xl, xr := xr, xl;
    }
    xl, xr := xr, xl;
    xr := net.Xor(xr, p[1]);
    xl := net.Xor(xl, p[0]);
    y := Pair(xl, xr);
  }
}
