/**
 The cipher object, its key schedule and the in-place CBC loops
 (crates/sda-comms/src/blowfish_wazuh.rs:8-169).
 */
module BlowfishCipher {
  import opened Feistel
  import opened Cbc
  import opened Blowfish
  import Arith

  // ---- The key schedule as a function ----

  /** The key repeated over the 72 bytes that the subkeys take. */
  function Stream(key: seq<bv8>): (bytes: seq<bv8>)
    requires key != []
    ensures |bytes| == 72
  {
    seq(72, j requires 0 <= j < 72 => key[j % |key|])
  }

  /** The big-endian word at `j`. */
  function Word(bytes: seq<bv8>, j: nat): bv32
    requires j + 4 <= |bytes|
  {
    FromBytes(bytes[j], bytes[j + 1], bytes[j + 2], bytes[j + 3])
  }

  /** The first `n` words of the key stream mixed into the subkeys. */
  function MixedIn(p: Subkeys, bytes: seq<bv8>, n: nat): Subkeys
    requires n <= 18 && |bytes| == 72
  {
    if n == 0 then p
    else
      var q := MixedIn(p, bytes, n - 1);
      q[n - 1 := XorWord(q[n - 1], Word(bytes, 4 * n - 4))]
  }

  function Keyed(p: Subkeys, key: seq<bv8>): Subkeys
    requires key != []
  {
    MixedIn(p, Stream(key), 18)
  }

  /** Every subkey is combined with its own word of the key stream. */
  lemma {:induction false} MixedInAt(p: Subkeys, bytes: seq<bv8>, n: nat, i: nat)
    requires n <= 18 && |bytes| == 72 && i < 18
    ensures MixedIn(p, bytes, n)[i] == if i < n then XorWord(p[i], Word(bytes, 4 * i)) else p[i]
  {
    if n > 0 {
      MixedInAt(p, bytes, n - 1, i);
    }
  }

  /** A byte shifted in from the right. */
  function Push(w: bv32, b: bv8): bv32 { (w << 8) | (b as bv32) }

  function Packed(bytes: seq<bv8>): bv32
  {
    if bytes == [] then 0 else Push(Packed(bytes[..|bytes| - 1]), bytes[|bytes| - 1])
  }

  lemma PushUnfolds(a: bv8, b: bv8, c: bv8, d: bv8)
    ensures Push(Push(Push(Push(0, a), b), c), d)
         == (((((((a as bv32) << 8) | (b as bv32)) << 8) | (c as bv32)) << 8) | (d as bv32))
  {
  }

  lemma ShiftedIn(a: bv8, b: bv8, c: bv8, d: bv8)
    ensures (((((((a as bv32) << 8) | (b as bv32)) << 8) | (c as bv32)) << 8) | (d as bv32)) == FromBytes(a, b, c, d)
  {
  }

  lemma FourPushes(a: bv8, b: bv8, c: bv8, d: bv8)
    ensures Push(Push(Push(Push(0, a), b), c), d) == FromBytes(a, b, c, d)
  {
    PushUnfolds(a, b, c, d);
    ShiftedIn(a, b, c, d);
  }

  lemma PackedNext(bytes: seq<bv8>, b: bv8)
    ensures Packed(bytes + [b]) == Push(Packed(bytes), b)
  {
    assert (bytes + [b])[..|bytes|] == bytes;
  }

  lemma PackedWord(a: bv8, b: bv8, c: bv8, d: bv8)
    ensures Packed([a, b, c, d]) == FromBytes(a, b, c, d)
  {
    PackedNext([a, b, c], d);
    PackedNext([a, b], c);
    PackedNext([a], b);
    PackedNext([], a);
    assert [a, b, c] + [d] == [a, b, c, d] && [a, b] + [c] == [a, b, c] && [a] + [b] == [a, b] && [] + [a] == [a];
    FourPushes(a, b, c, d);
  }

  /** A block is its left half, then its right half, each most significant byte first. */
  lemma BlockReads(b: Block)
    ensures ToPair(b).l == Packed([b[0], b[1], b[2], b[3]]) && ToPair(b).r == Packed([b[4], b[5], b[6], b[7]])
  {
    PackedWord(b[0], b[1], b[2], b[3]);
    PackedWord(b[4], b[5], b[6], b[7]);
  }

  /** Tables and the block that is encrypted over and over to fill them. */
  datatype Expansion = Expansion(t: Tables, x: Halves)

  /** A block cipher that takes its tables along. */
  type PairCipher = (Tables, Halves) -> Halves

  function StepP(cipher: PairCipher, e: Expansion, n: nat): Expansion
    requires n < 9
  {
    var y := cipher(e.t, e.x);
    Expansion(e.t.(p := e.t.p[2 * n := y.l][2 * n + 1 := y.r]), y)
  }

  function FillP(cipher: PairCipher, e: Expansion, n: nat): Expansion
    requires n <= 9
  {
    if n == 0 then e else StepP(cipher, FillP(cipher, e, n - 1), n - 1)
  }

  function StepS(cipher: PairCipher, e: Expansion, n: nat): Expansion
    requires n < 512
  {
    var y := cipher(e.t, e.x);
    Expansion(e.t.(s := e.t.s[2 * n := y.l][2 * n + 1 := y.r]), y)
  }

  function FillS(cipher: PairCipher, e: Expansion, n: nat): Expansion
    requires n <= 512
  {
    if n == 0 then e else StepS(cipher, FillS(cipher, e, n - 1), n - 1)
  }

  function Expanded(cipher: PairCipher, t: Tables): Tables
  {
    FillS(cipher, FillP(cipher, Expansion(t, Pair(0, 0)), 9), 512).t
  }

  function Schedule(initial: Tables, key: seq<bv8>): Tables
    requires key != []
  {
    Expanded(EncryptedPair, initial.(p := Keyed(initial.p, key)))
  }

  // ---- The schedule told by its result ----

  /** All words of the tables in the order in which they are overwritten. */
  function Words(t: Tables): (w: seq<bv32>)
    ensures |w| == 1042
  {
    t.p + t.s
  }

  function TablesOf(w: seq<bv32>): Tables
    requires |w| == 1042
  {
    Tables(w[..18], w[18..])
  }

  function BlockOf(t: Tables, i: nat): Halves
    requires i < 521
  {
    Pair(Words(t)[2 * i], Words(t)[2 * i + 1])
  }

  /** The tables once their first `i` blocks are overwritten. */
  function PartOverwritten(initial: Tables, final: Tables, i: nat): Tables
    requires i <= 521
  {
    TablesOf(Words(final)[..2 * i] + Words(initial)[2 * i..])
  }

  function Fill(cipher: PairCipher, t: Tables, i: nat): Expansion
    requires i <= 521
  {
    if i <= 9 then FillP(cipher, Expansion(t, Pair(0, 0)), i)
    else FillS(cipher, FillP(cipher, Expansion(t, Pair(0, 0)), 9), i - 9)
  }

  lemma StepPWords(cipher: PairCipher, e: Expansion, n: nat)
    requires n < 9
    ensures var y := cipher(e.t, e.x);
            StepP(cipher, e, n).x == y && Words(StepP(cipher, e, n).t) == Words(e.t)[2 * n := y.l][2 * n + 1 := y.r]
  {
  }

  lemma StepSWords(cipher: PairCipher, e: Expansion, n: nat)
    requires n < 512
    ensures var y := cipher(e.t, e.x);
            && StepS(cipher, e, n).x == y
            && Words(StepS(cipher, e, n).t) == Words(e.t)[18 + 2 * n := y.l][19 + 2 * n := y.r]
  {
  }

  lemma FillStep(cipher: PairCipher, t: Tables, i: nat)
    requires i < 521
    ensures var e, next := Fill(cipher, t, i), Fill(cipher, t, i + 1);
            && next.x == cipher(e.t, e.x)
            && Words(next.t) == Words(e.t)[2 * i := next.x.l][2 * i + 1 := next.x.r]
  {
    if i < 9 {
      StepPWords(cipher, Fill(cipher, t, i), i);
    } else {
      var full := FillP(cipher, Expansion(t, Pair(0, 0)), 9);
      assert Fill(cipher, t, i) == FillS(cipher, full, i - 9) && Fill(cipher, t, i + 1) == FillS(cipher, full, i - 8);
      StepSWords(cipher, FillS(cipher, full, i - 9), i - 9);
    }
  }

  lemma {:induction false} FillRest(cipher: PairCipher, t: Tables, i: nat)
    requires i <= 521
    ensures Words(Fill(cipher, t, i).t)[2 * i..] == Words(t)[2 * i..]
  {
    if i > 0 {
      FillRest(cipher, t, i - 1);
      FillStep(cipher, t, i - 1);
      var w := Words(Fill(cipher, t, i - 1).t);
      assert w[2 * i..] == w[2 * i - 2..][2..] && Words(t)[2 * i..] == Words(t)[2 * i - 2..][2..];
    }
  }

  lemma {:induction false} FillStays(cipher: PairCipher, t: Tables, i: nat, m: nat)
    requires i <= m <= 521
    ensures Words(Fill(cipher, t, m).t)[..2 * i] == Words(Fill(cipher, t, i).t)[..2 * i]
    decreases m
  {
    if i < m {
      FillStays(cipher, t, i, m - 1);
      FillStep(cipher, t, m - 1);
    }
  }

  lemma WordsBack(t: Tables)
    ensures TablesOf(Words(t)) == t
  {
  }

  /** A block stays as it was written. */
  lemma BlockStays(cipher: PairCipher, t: Tables, i: nat)
    requires i < 521
    ensures BlockOf(Fill(cipher, t, 521).t, i) == Fill(cipher, t, i + 1).x
  {
    var w, v := Words(Fill(cipher, t, 521).t), Words(Fill(cipher, t, i + 1).t);
    FillStep(cipher, t, i);
    FillStays(cipher, t, i + 1, 521);
    assert w[2 * i] == w[..2 * i + 2][2 * i] == v[2 * i];
    assert w[2 * i + 1] == w[..2 * i + 2][2 * i + 1] == v[2 * i + 1];
  }

  lemma FillIsPart(cipher: PairCipher, t: Tables, i: nat)
    requires i <= 521
    ensures PartOverwritten(t, Fill(cipher, t, 521).t, i) == Fill(cipher, t, i).t
  {
    var v := Words(Fill(cipher, t, i).t);
    FillStays(cipher, t, i, 521);
    FillRest(cipher, t, i);
    assert v == v[..2 * i] + v[2 * i..];
    WordsBack(Fill(cipher, t, i).t);
  }

  /**
   The finished tables, told without the loops: block `i` of all 521 is the encryption of the block before it,
   the first of the zero block, under the tables of which just the blocks before it were overwritten.
   */
  lemma ExpandedBlock(cipher: PairCipher, t: Tables, i: nat)
    requires i < 521
    ensures var final := Expanded(cipher, t);
            BlockOf(final, i)
            == cipher(PartOverwritten(t, final, i), if i == 0 then Pair(0, 0) else BlockOf(final, i - 1))
  {
    assert Expanded(cipher, t) == Fill(cipher, t, 521).t;
    FillStep(cipher, t, i);
    BlockStays(cipher, t, i);
    FillIsPart(cipher, t, i);
    if i > 0 {
      BlockStays(cipher, t, i - 1);
    }
  }

  /** The subkeys the schedule starts from: every initial one combined with the next four bytes of the repeated key. */
  predicate KeyMixed(initial: Subkeys, key: seq<bv8>, p: Subkeys)
    requires key != []
  {
    forall i :: 0 <= i < 18 ==>
      p[i] == XorWord(initial[i], FromBytes(key[4 * i % |key|], key[(4 * i + 1) % |key|],
                                            key[(4 * i + 2) % |key|], key[(4 * i + 3) % |key|]))
  }

  lemma KeyedExactly(initial: Subkeys, key: seq<bv8>)
    requires key != []
    ensures KeyMixed(initial, key, Keyed(initial, key))
  {
    forall i | 0 <= i < 18 ensures Keyed(initial, key)[i] == XorWord(initial[i], Word(Stream(key), 4 * i)) {
      MixedInAt(initial, Stream(key), 18, i);
    }
  }

  /** The key schedule, told without its loops: the key is mixed in, then block after block is overwritten. */
  lemma ScheduledBlock(initial: Tables, key: seq<bv8>, i: nat) returns (p: Subkeys)
    requires key != [] && i < 521
    ensures KeyMixed(initial.p, key, p)
    ensures var final := Schedule(initial, key);
            BlockOf(final, i) == EncryptedPair(PartOverwritten(initial.(p := p), final, i),
                                               if i == 0 then Pair(0, 0) else BlockOf(final, i - 1))
  {
    p := Keyed(initial.p, key);
    KeyedExactly(initial.p, key);
    ExpandedBlock(EncryptedPair, initial.(p := p), i);
  }

  /** Names tables and a block at which two ciphers are to be compared. */
  ghost predicate At(t: Tables, x: Halves) { true }

  /** The cipher is Blowfish; used one named block at a time. */
  ghost predicate IsBlowfish(cipher: PairCipher)
  {
    forall t, x {:trigger At(t, x)} :: At(t, x) ==> cipher(t, x) == EncryptedPair(t, x)
  }

  lemma RemainderStep(j: nat, n: nat)
    requires j >= n > 0
    ensures j % n == (j - n) % n
  {
    assert n * (j / n - 1) == n * (j / n) - n;
    Arith.Division(j - n, n, j / n - 1, j % n);
  }

  lemma {:induction false} RemainderOfDouble(j: nat, n: nat)
    requires n > 0
    ensures j % n == if j % (2 * n) < n then j % (2 * n) else j % (2 * n) - n
  {
    if j >= 2 * n {
      RemainderStep(j, 2 * n);
      RemainderStep(j, n);
      RemainderStep(j - n, n);
      RemainderOfDouble(j - 2 * n, n);
    } else {
      Arith.Division(j, 2 * n, 0, j);
      Arith.Division(j, n, if j < n then 0 else 1, if j < n then j else j - n);
    }
  }

  /** The schedule reads the key cyclically: writing a key twice gives the same cipher. */
  lemma RepeatedKey(initial: Tables, key: seq<bv8>)
    requires key != []
    ensures Schedule(initial, key + key) == Schedule(initial, key)
  {
    forall j | 0 <= j < 72 ensures Stream(key + key)[j] == Stream(key)[j] {
      RemainderOfDouble(j, |key|);
    }
    assert Stream(key + key) == Stream(key);
  }

  /** Four key bytes from `j` on, shifted in one by one. */
  method KeyWord(key: seq<bv8>, j: nat) returns (data: bv32)
    requires key != [] && j + 4 <= 72
    ensures data == Word(Stream(key), j)
  {
    data := 0;
    ghost var bytes := Stream(key)[j..j + 4];
    for n := 0 to 4
      invariant data == Packed(bytes[..n])
    {
      PackedNext(bytes[..n], bytes[n]);
      assert bytes[..n] + [bytes[n]] == bytes[..n + 1];
      data := Push(data, key[(j + n) % |key|]);
    }
    PackedWord(bytes[0], bytes[1], bytes[2], bytes[3]);
    assert bytes[..4] == [bytes[0], bytes[1], bytes[2], bytes[3]];
  }

  // ---- The object ----

  class Cipher {
    const p: array<bv32>
    const s: array<bv32>

    ghost predicate Valid() { p.Length == 18 && s.Length == 1024 && p != s }

    function State(): Tables
      requires Valid()
      reads p, s
    {
      Tables(p[..], s[..])
    }

    constructor (initial: Tables, key: seq<bv8>)
      requires 4 <= |key| <= 72
      ensures Valid() && fresh(p) && fresh(s) && State() == Schedule(initial, key)
    {
      p := new bv32[18](i requires 0 <= i < 18 => initial.p[i]);
      s := new bv32[1024](i requires 0 <= i < 1024 => initial.s[i]);
      new;
      assert p[..] == initial.p && s[..] == initial.s;
      MixKey(key);
      Expand(EncryptedPair);
    }

    /** XOR the key cyclically into the subkeys. */
    method MixKey(key: seq<bv8>)
      requires Valid() && key != []
      modifies p
      ensures State() == old(State()).(p := Keyed(old(State()).p, key))
      ensures forall i :: 0 <= i < 18 ==> p[i] == XorWord(old(p[i]), Word(Stream(key), 4 * i))
    {
      for i := 0 to 18
        invariant p[..] == MixedIn(old(p[..]), Stream(key), i)
      {
        MixWord(key, i, old(p[..]));
      }
      forall i | 0 <= i < 18 ensures p[..][i] == XorWord(old(p[..])[i], Word(Stream(key), 4 * i)) {
        MixedInAt(old(p[..]), Stream(key), 18, i);
      }
    }

    method MixWord(key: seq<bv8>, i: nat, ghost initial: Subkeys)
      requires Valid() && key != [] && i < 18 && p[..] == MixedIn(initial, Stream(key), i)
      modifies p
      ensures p[..] == MixedIn(initial, Stream(key), i + 1)
    {
      var data := KeyWord(key, 4 * i);
      ghost var before := p[..];
      p[i] := XorWord(p[i], data);
      assert p[..] == before[i := XorWord(before[i], data)];
    }

    /** Encrypt successive blocks and write them over the subkeys, then over the boxes. */
    method Expand(ghost cipher: PairCipher)
      requires Valid() && IsBlowfish(cipher)
      modifies p, s
      ensures State() == Expanded(cipher, old(State()))
    {
      ghost var e := Expansion(State(), Pair(0, 0));
      var x := Pair(0, 0);
      for n := 0 to 9
        invariant Expansion(State(), x) == FillP(cipher, e, n)
      {
        x := OverwriteP(cipher, n, x);
      }
      ghost var d := Expansion(State(), x);
      for i := 0 to 4
        invariant Expansion(State(), x) == FillS(cipher, d, 128 * i)
      {
        x := ExpandBox(cipher, i, x, d);
      }
    }

    method ExpandBox(ghost cipher: PairCipher, i: nat, x: Halves, ghost d: Expansion) returns (y: Halves)
      requires Valid() && i < 4 && IsBlowfish(cipher) && Expansion(State(), x) == FillS(cipher, d, 128 * i)
      modifies s
      ensures Expansion(State(), y) == FillS(cipher, d, 128 * (i + 1))
    {
      y := x;
      for k := 0 to 128
        invariant Expansion(State(), y) == FillS(cipher, d, 128 * i + k)
      {
        y := OverwriteS(cipher, i, k, y);
      }
    }

    method OverwriteP(ghost cipher: PairCipher, n: nat, x: Halves) returns (y: Halves)
      requires Valid() && n < 9 && IsBlowfish(cipher)
      modifies p
      ensures Expansion(State(), y) == StepP(cipher, old(Expansion(State(), x)), n)
    {
      assert At(State(), x);
      y := EncryptPair(x.l, x.r);
      p[2 * n] := y.l;
      p[2 * n + 1] := y.r;
      assert p[..] == old(p[..])[2 * n := y.l][2 * n + 1 := y.r];
    }

    method OverwriteS(ghost cipher: PairCipher, i: nat, k: nat, x: Halves) returns (y: Halves)
      requires Valid() && i < 4 && k < 128 && IsBlowfish(cipher)
      modifies s
      ensures Expansion(State(), y) == StepS(cipher, old(Expansion(State(), x)), 128 * i + k)
    {
      assert At(State(), x);
      y := EncryptPair(x.l, x.r);
      s[256 * i + 2 * k] := y.l;
      s[256 * i + 2 * k + 1] := y.r;
      assert s[..] == old(s[..])[256 * i + 2 * k := y.l][256 * i + 2 * k + 1 := y.r];
    }

    method EncryptPair(l: bv32, r: bv32) returns (y: Halves)
      requires Valid()
      ensures y == EncryptedPair(State(), Pair(l, r))
    {
      y := RunForward(Network(s[..]), p, l, r);
    }

    method DecryptPair(l: bv32, r: bv32) returns (y: Halves)
      requires Valid()
      ensures y == DecryptedPair(State(), Pair(l, r))
    {
      y := RunBackward(Network(s[..]), p, l, r);
    }

    /** The block at `at`, encrypted in place. */
    method EncryptBlock(buf: array<bv8>, at: nat)
      requires Valid() && at + 8 <= buf.Length
      modifies buf
      ensures buf[..] == Replaced(old(buf[..]), at, BlockEncryption(old(State()))(old(buf[..])[at..at + 8]))
      ensures State() == old(State())
    {
      var b := buf[at..at + 8];
      var y := EncryptPair(ToPair(b).l, ToPair(b).r);
      Store(buf, at, ToBlock(y));
    }

    /** The block at `at`, decrypted in place. */
    method DecryptBlock(buf: array<bv8>, at: nat)
      requires Valid() && at + 8 <= buf.Length
      modifies buf
      ensures buf[..] == Replaced(old(buf[..]), at, BlockDecryption(old(State()))(old(buf[..])[at..at + 8]))
      ensures State() == old(State())
    {
      var b := buf[at..at + 8];
      var y := DecryptPair(ToPair(b).l, ToPair(b).r);
      Store(buf, at, ToBlock(y));
    }
  }

  // ---- CBC ----

  /** Names a block at which two functions are to be compared. */
  ghost predicate Point(b: Block) { true }

  /** Both functions agree everywhere; used one named block at a time. */
  ghost predicate Agree(f: Block -> Block, g: Block -> Block)
  {
    forall b {:trigger Point(b)} :: Point(b) ==> f(b) == g(b)
  }

  /** XOR the block with the one before and encrypt it; the new ciphertext block is chained to next. */
  method EncryptTurn(bf: Cipher, buf: array<bv8>, at: nat, prev: Block, ghost enc: Block -> Block) returns (next: Block)
    requires bf.Valid() && at + 8 <= buf.Length && Agree(enc, BlockEncryption(bf.State()))
    modifies buf
    ensures next == enc(Xor(old(buf[..])[at..at + 8], prev))
    ensures buf[..] == Replaced(old(buf[..]), at, next)
  {
    ghost var mixed := Xor(buf[..][at..at + 8], prev);
    ReplacedTwice(buf[..], at, mixed, enc(mixed));
    XorInto(buf, at, prev);
    assert Point(mixed);
    bf.EncryptBlock(buf, at);
    next := buf[..][at..at + 8];
  }

  /** Decrypt the block and XOR it with the ciphertext block before; the old ciphertext block is chained to next. */
  method DecryptTurn(bf: Cipher, buf: array<bv8>, at: nat, prev: Block, ghost dec: Block -> Block) returns (next: Block)
    requires bf.Valid() && at + 8 <= buf.Length && Agree(dec, BlockDecryption(bf.State()))
    modifies buf
    ensures next == old(buf[..])[at..at + 8]
    ensures buf[..] == Replaced(old(buf[..]), at, Xor(dec(next), prev))
  {
    next := buf[..][at..at + 8];
    ReplacedTwice(buf[..], at, dec(next), Xor(dec(next), prev));
    assert Point(next);
    bf.DecryptBlock(buf, at);
    XorInto(buf, at, prev);
  }

  method EncryptNextBlock(bf: Cipher, buf: array<bv8>, at: nat, prev: Block, ghost enc: Block -> Block,
                          ghost data: Blocks)
    returns (next: Block)
    requires bf.Valid() && Agree(enc, BlockEncryption(bf.State()))
    requires at + 8 <= buf.Length == |data| && at % 8 == 0 && (at + 8) % 8 == 0
    requires buf[..] == Encrypting(enc, IV, data, at) && prev == Chained(enc, IV, data, at)
    modifies buf
    ensures buf[..] == Encrypting(enc, IV, data, at + 8) && next == Chained(enc, IV, data, at + 8)
  {
    EncryptingNext(enc, IV, data, at, enc(Xor(data[at..at + 8], prev)));
    next := EncryptTurn(bf, buf, at, prev, enc);
  }

  method DecryptNextBlock(bf: Cipher, buf: array<bv8>, at: nat, prev: Block, ghost dec: Block -> Block,
                          ghost data: Blocks)
    returns (next: Block)
    requires bf.Valid() && Agree(dec, BlockDecryption(bf.State()))
    requires at + 8 <= buf.Length == |data| && at % 8 == 0 && (at + 8) % 8 == 0
    requires buf[..] == Decrypting(dec, IV, data, at) && prev == Saved(IV, data, at)
    modifies buf
    ensures buf[..] == Decrypting(dec, IV, data, at + 8) && next == Saved(IV, data, at + 8)
  {
    DecryptingNext(dec, IV, data, at);
    next := DecryptTurn(bf, buf, at, prev, dec);
  }

  method EncryptBuffer(bf: Cipher, buf: array<bv8>, ghost enc: Block -> Block)
    requires bf.Valid() && buf.Length % 8 == 0 && Agree(enc, BlockEncryption(bf.State()))
    modifies buf
    ensures buf[..] == Encrypt(enc, IV, old(buf[..]))
  {
    ghost var data := buf[..];
    EncryptingEnds(enc, IV, data);
    var prev, at := IV, 0;
    while at < buf.Length
      invariant at <= buf.Length && at % 8 == 0
      invariant buf[..] == Encrypting(enc, IV, data, at) && prev == Chained(enc, IV, data, at)
    {
      NextBoundary(at, buf.Length);
      prev := EncryptNextBlock(bf, buf, at, prev, enc, data);
      at := at + 8;
    }
  }

  method DecryptBuffer(bf: Cipher, buf: array<bv8>, ghost dec: Block -> Block)
    requires bf.Valid() && buf.Length % 8 == 0 && Agree(dec, BlockDecryption(bf.State()))
    modifies buf
    ensures buf[..] == Decrypt(dec, IV, old(buf[..]))
  {
    ghost var data := buf[..];
    DecryptingEnds(dec, IV, data);
    var prev, at := IV, 0;
    while at < buf.Length
      invariant at <= buf.Length && at % 8 == 0
      invariant buf[..] == Decrypting(dec, IV, data, at) && prev == Saved(IV, data, at)
    {
      NextBoundary(at, buf.Length);
      prev := DecryptNextBlock(bf, buf, at, prev, dec, data);
      at := at + 8;
    }
  }

  method CbcEncrypt(bf: Cipher, plaintext: seq<bv8>) returns (ciphertext: seq<bv8>)
    requires bf.Valid()
    ensures ciphertext == CbcEncrypted(bf.State(), plaintext)
  {
    var buf := Filled(ZeroPadded(plaintext));
    EncryptBuffer(bf, buf, BlockEncryption(bf.State()));
    ciphertext := buf[..];
  }

  method CbcDecrypt(bf: Cipher, ciphertext: seq<bv8>) returns (m: seq<bv8>)
    requires bf.Valid()
    ensures m == CbcDecrypted(bf.State(), ciphertext)
  {
    if ciphertext == [] || |ciphertext| % 8 != 0 {
      return [];
    }
    var buf := Filled(ciphertext);
    DecryptBuffer(bf, buf, BlockDecryption(bf.State()));
    m := buf[..];
  }
}
