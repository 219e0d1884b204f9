/**
 The channel's Blowfish: tables, key schedule, block cipher and CBC
 (crates/sda-comms/src/blowfish_wazuh.rs:8-169). The four 256-word substitution boxes lie one after the
 other in one array of 1024 words. The initial tables are a parameter: nothing here depends on their content.
 */
module Blowfish {
  import opened Feistel
  import opened Cbc

  type Subkeys = s: seq<bv32> | |s| == 18 witness seq(18, _ => 0)
  type Boxes = s: seq<bv32> | |s| == 1024 witness seq(1024, _ => 0)

  datatype Tables = Tables(p: Subkeys, s: Boxes)

  /** Big-endian bytes. */
  function ToBytes(x: bv32): (b: seq<bv8>)
    ensures |b| == 4
  {
    [(x >> 24) as bv8, ((x >> 16) & 0xff) as bv8, ((x >> 8) & 0xff) as bv8, (x & 0xff) as bv8]
  }

  function Substitute(s: Boxes, x: bv32): bv32
  {
    var b := ToBytes(x);
    AddWord(XorWord(AddWord(s[b[0] as int], s[256 + b[1] as int]), s[512 + b[2] as int]), s[768 + b[3] as int])
  }

  /** How the four words are combined, for any kind of word. */
  datatype WordOps<!W> = WordOps(add: (W, W) -> W, sub: (W, W) -> W, xor: (W, W) -> W) {
    function Mix(a: W, b: W, c: W, d: W): W { add(xor(add(a, b), c), d) }

    /** What is left of a mixed word when the last three are taken off again. */
    function TakeOff(y: W, b: W, c: W, d: W): W { sub(xor(sub(y, d), c), b) }
  }

  ghost predicate Undoes<W(!new)>(ops: WordOps<W>)
  {
    && (forall a, b :: ops.sub(ops.add(a, b), b) == a)
    && (forall a, b :: ops.xor(ops.xor(a, b), b) == a)
  }

  lemma MixUndone<W(!new)>(ops: WordOps<W>, a: W, b: W, c: W, d: W)
    requires Undoes(ops)
    ensures ops.TakeOff(ops.Mix(a, b, c, d), b, c, d) == a
  {
  }

  function AddWord(a: bv32, b: bv32): bv32 { a + b }

  function SubWord(a: bv32, b: bv32): bv32 { a - b }

  lemma SubOfSum(a: bv32, b: bv32)
    ensures SubWord(a + b, b) == a
  {
  }

  lemma SubUndoesAdd(a: bv32, b: bv32)
    ensures SubWord(AddWord(a, b), b) == a
  {
    SubOfSum(a, b);
  }

  const WORDS := WordOps(AddWord, SubWord, XorWord)

  lemma WordsUndo()
    ensures Undoes(WORDS)
  {
    forall a, b ensures WORDS.sub(WORDS.add(a, b), b) == a {
      SubUndoesAdd(a, b);
    }
    forall a, b ensures WORDS.xor(WORDS.xor(a, b), b) == a {
      XorCancels(a, b);
    }
  }

  lemma MixOf(a: bv32, b: bv32, c: bv32, d: bv32)
    ensures WORDS.Mix(a, b, c, d) == AddWord(XorWord(AddWord(a, b), c), d)
  {
  }

  lemma SubstituteMixes(s: Boxes, x: bv32)
    ensures var b := ToBytes(x);
            Substitute(s, x) ==
              WORDS.Mix(s[b[0] as int], s[256 + b[1] as int], s[512 + b[2] as int], s[768 + b[3] as int])
  {
    var b := ToBytes(x);
    MixOf(s[b[0] as int], s[256 + b[1] as int], s[512 + b[2] as int], s[768 + b[3] as int]);
  }

  /** The four bytes of the word, first byte first, each look up their own box; the four words can be taken apart. */
  lemma SubstituteUndone(s: Boxes, x: bv32)
    ensures var b := ToBytes(x);
            WORDS.TakeOff(Substitute(s, x), s[256 + b[1] as int], s[512 + b[2] as int], s[768 + b[3] as int])
            == s[b[0] as int]
  {
    var b := ToBytes(x);
    SubstituteMixes(s, x);
    WordsUndo();
    MixUndone(WORDS, s[b[0] as int], s[256 + b[1] as int], s[512 + b[2] as int], s[768 + b[3] as int]);
  }

  function XorWord(a: bv32, b: bv32): bv32 { a ^ b }

  lemma XorCancels(a: bv32, b: bv32)
    ensures XorWord(XorWord(a, b), b) == a
  {
  }

  lemma XorUnfolds(a: bv32, b: bv32, c: bv32)
    ensures XorWord(XorWord(a, b), c) == (a ^ b) ^ c
  {
  }

  lemma XorTurns(a: bv32, b: bv32, c: bv32)
    ensures XorWord(XorWord(a, b), c) == XorWord(XorWord(a, c), b)
  {
    XorUnfolds(a, b, c);
    XorUnfolds(a, c, b);
  }

  /** The network these boxes give. */
  function Network(s: Boxes): Net<bv32> { Net(XorWord, (x: bv32) => Substitute(s, x)) }

  lemma NetworkIsLawful(s: Boxes)
    ensures Lawful(Network(s))
  {
    forall a, b ensures Network(s).Xor(Network(s).Xor(a, b), b) == a {
      XorCancels(a, b);
    }
    forall a, b, c ensures Network(s).Xor(Network(s).Xor(a, b), c) == Network(s).Xor(Network(s).Xor(a, c), b) {
      XorTurns(a, b, c);
    }
  }

  type Halves = Pair<bv32>

  function EncryptedPair(t: Tables, x: Halves): Halves { Crypt(Network(t.s), t.p, x) }

  function DecryptedPair(t: Tables, x: Halves): Halves { Crypt(Network(t.s), Reverse(t.p), x) }

  /** For every table content, each direction inverts the other. */
  lemma PairRoundTrip(t: Tables, x: Halves)
    ensures DecryptedPair(t, EncryptedPair(t, x)) == x
    ensures EncryptedPair(t, DecryptedPair(t, x)) == x
  {
    NetworkIsLawful(t.s);
    ReversedInverts(Network(t.s), t.p, x);
    ReversedInverts(Network(t.s), Reverse(t.p), x);
    ReverseTwice(t.p);
  }

  // ---- Blocks ----

  function FromBytes(a: bv8, b: bv8, c: bv8, d: bv8): bv32
  {
    ((a as bv32) << 24) | ((b as bv32) << 16) | ((c as bv32) << 8) | (d as bv32)
  }

  lemma WordRoundTrip(x: bv32)
    ensures var b := ToBytes(x); FromBytes(b[0], b[1], b[2], b[3]) == x
  {
  }

  lemma BytesRoundTrip(a: bv8, b: bv8, c: bv8, d: bv8)
    ensures ToBytes(FromBytes(a, b, c, d)) == [a, b, c, d]
  {
  }

  function ToPair(b: Block): Halves { Pair(FromBytes(b[0], b[1], b[2], b[3]), FromBytes(b[4], b[5], b[6], b[7])) }

  function ToBlock(x: Halves): Block { ToBytes(x.l) + ToBytes(x.r) }

  lemma PairOfBlock(x: Halves)
    ensures ToPair(ToBlock(x)) == x
  {
    WordRoundTrip(x.l);
    WordRoundTrip(x.r);
  }

  lemma BlockOfPair(b: Block)
    ensures ToBlock(ToPair(b)) == b
  {
    BytesRoundTrip(b[0], b[1], b[2], b[3]);
    BytesRoundTrip(b[4], b[5], b[6], b[7]);
  }

  function BlockEncryption(t: Tables): Block -> Block { b => ToBlock(EncryptedPair(t, ToPair(b))) }

  function BlockDecryption(t: Tables): Block -> Block { b => ToBlock(DecryptedPair(t, ToPair(b))) }

  lemma BlockRoundTrip(t: Tables)
    ensures Inverts(BlockDecryption(t), BlockEncryption(t))
    ensures Inverts(BlockEncryption(t), BlockDecryption(t))
  {
    forall b ensures BlockDecryption(t)(BlockEncryption(t)(b)) == b && BlockEncryption(t)(BlockDecryption(t)(b)) == b {
      var x := ToPair(b);
      PairOfBlock(EncryptedPair(t, x));
      PairOfBlock(DecryptedPair(t, x));
      PairRoundTrip(t, x);
      BlockOfPair(b);
    }
  }

  // ---- CBC ----

  function CbcEncrypted(t: Tables, plaintext: seq<bv8>): (c: seq<bv8>)
    ensures |c| == PaddedLength(|plaintext|)
  {
    Encrypt(BlockEncryption(t), IV, ZeroPadded(plaintext))
  }

  /** Nothing, or a length that is no whole number of blocks, decrypts to nothing. */
  function CbcDecrypted(t: Tables, ciphertext: seq<bv8>): seq<bv8>
  {
    if ciphertext == [] || |ciphertext| % 8 != 0 then [] else Decrypt(BlockDecryption(t), IV, ciphertext)
  }

  /** Decrypting an encrypted message gives the message, zero-padded to whole blocks. */
  lemma CbcRoundTrip(t: Tables, m: seq<bv8>)
    ensures CbcDecrypted(t, CbcEncrypted(t, m)) == ZeroPadded(m)
  {
    BlockRoundTrip(t);
    DecryptsEncrypted(BlockEncryption(t), BlockDecryption(t), IV, ZeroPadded(m));
  }

  /** Every whole number of blocks is the ciphertext of what it decrypts to. */
  lemma CbcOnto(t: Tables, c: seq<bv8>)
    requires |c| % 8 == 0
    ensures CbcEncrypted(t, CbcDecrypted(t, c)) == c
  {
    BlockRoundTrip(t);
    EncryptsDecrypted(BlockEncryption(t), BlockDecryption(t), IV, c);
    WholeBlocksStay(CbcDecrypted(t, c));
  }
}
