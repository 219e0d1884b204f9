/**
 Cipher-block chaining over 8-byte blocks for any block permutation
 (crates/sda-comms/src/blowfish_wazuh.rs:120-169).
 */
module Cbc {
  type Block = s: seq<bv8> | |s| == 8 witness seq(8, _ => 0)

  /** A whole number of blocks. */
  type Blocks = s: seq<bv8> | |s| % 8 == 0

  const IV: Block := [0xfe, 0xdc, 0xba, 0x98, 0x76, 0x54, 0x32, 0x10]

  function Xor(a: Block, b: Block): Block { seq(8, i requires 0 <= i < 8 => a[i] ^ b[i]) }

  lemma XorTwice(a: Block, b: Block)
    ensures Xor(Xor(a, b), b) == a
  {
    forall i | 0 <= i < 8 ensures Xor(Xor(a, b), b)[i] == a[i] {
      XorByteTwice(a[i], b[i]);
    }
  }

  lemma XorByteTwice(a: bv8, b: bv8)
    ensures (a ^ b) ^ b == a
  {
  }

  /** The block the next one is chained to. */
  function Last(iv: Block, data: Blocks): Block { if data == [] then iv else data[|data| - 8..] }

  function Encrypt(enc: Block -> Block, iv: Block, data: Blocks): (c: Blocks)
    ensures |c| == |data|
  {
    if data == [] then []
    else
      var n := |data| - 8;
      var before := Encrypt(enc, iv, data[..n]);
      before + enc(Xor(data[n..], Last(iv, before)))
  }

  function Decrypt(dec: Block -> Block, iv: Block, data: Blocks): (m: Blocks)
    ensures |m| == |data|
  {
    if data == [] then []
    else
      var n := |data| - 8;
      Decrypt(dec, iv, data[..n]) + Xor(dec(data[n..]), Last(iv, data[..n]))
  }

  ghost predicate Inverts(dec: Block -> Block, enc: Block -> Block) { forall b :: dec(enc(b)) == b }

  lemma EncryptNext(enc: Block -> Block, iv: Block, data: Blocks, block: Block)
    ensures Encrypt(enc, iv, data + block) ==
            Encrypt(enc, iv, data) + enc(Xor(block, Last(iv, Encrypt(enc, iv, data))))
  {
    assert (data + block)[..|data|] == data && (data + block)[|data|..] == block;
  }

  lemma DecryptNext(dec: Block -> Block, iv: Block, data: Blocks, block: Block)
    ensures Decrypt(dec, iv, data + block) == Decrypt(dec, iv, data) + Xor(dec(block), Last(iv, data))
  {
    assert (data + block)[..|data|] == data && (data + block)[|data|..] == block;
  }

  /** Decryption undoes encryption, block by block. */
  lemma {:induction false} DecryptsEncrypted(enc: Block -> Block, dec: Block -> Block, iv: Block, data: Blocks)
    requires Inverts(dec, enc)
    ensures Decrypt(dec, iv, Encrypt(enc, iv, data)) == data
    decreases |data|
  {
    if data != [] {
      var n := |data| - 8;
      var rest, block := data[..n], data[n..];
      assert data == rest + block;
      DecryptsEncrypted(enc, dec, iv, rest);
      var c := Encrypt(enc, iv, rest);
      EncryptNext(enc, iv, rest, block);
      DecryptNext(dec, iv, c, enc(Xor(block, Last(iv, c))));
      XorTwice(block, Last(iv, c));
    }
  }

  /** And encryption undoes decryption, so no two texts share a ciphertext and every text is one. */
  lemma {:induction false} EncryptsDecrypted(enc: Block -> Block, dec: Block -> Block, iv: Block, data: Blocks)
    requires Inverts(enc, dec)
    ensures Encrypt(enc, iv, Decrypt(dec, iv, data)) == data
    decreases |data|
  {
    if data != [] {
      var n := |data| - 8;
      var rest, block := data[..n], data[n..];
      assert data == rest + block;
      EncryptsDecrypted(enc, dec, iv, rest);
      DecryptNext(dec, iv, rest, block);
      EncryptNext(enc, iv, Decrypt(dec, iv, rest), Xor(dec(block), Last(iv, rest)));
      XorTwice(dec(block), Last(iv, rest));
    }
  }

  /** Length rounded up to whole blocks. */
  function PaddedLength(n: nat): (r: nat)
    ensures r % 8 == 0 && n <= r < n + 8
  {
    (n + 7) / 8 * 8
  }

  function Zeros(n: nat): seq<bv8> { seq(n, _ => 0) }

  function ZeroPadded(m: seq<bv8>): (r: Blocks)
    ensures m <= r && |r| == PaddedLength(|m|) && forall i :: |m| <= i < |r| ==> r[i] == 0
  {
    m + Zeros(PaddedLength(|m|) - |m|)
  }

  lemma WholeBlocksStay(m: Blocks)
    ensures ZeroPadded(m) == m
  {
    assert PaddedLength(|m|) == |m|;
  }

  // ---- Working through a buffer ----

  lemma NextBoundary(at: nat, n: nat)
    requires at % 8 == 0 && n % 8 == 0 && at < n
    ensures at + 8 <= n && (at + 8) % 8 == 0
  {
  }

  function Replaced(s: seq<bv8>, at: nat, b: Block): (r: seq<bv8>)
    requires at + 8 <= |s|
    ensures |r| == |s|
  {
    s[..at] + b + s[at + 8..]
  }

  /** The buffer with its first `at` bytes encrypted, and the block the next one is chained to. */
  function Encrypting(enc: Block -> Block, iv: Block, data: Blocks, at: nat): (r: seq<bv8>)
    requires at <= |data| && at % 8 == 0
    ensures |r| == |data|
  {
    Encrypt(enc, iv, data[..at]) + data[at..]
  }

  function Chained(enc: Block -> Block, iv: Block, data: Blocks, at: nat): Block
    requires at <= |data| && at % 8 == 0
  {
    Last(iv, Encrypt(enc, iv, data[..at]))
  }

  lemma EncryptingNext(enc: Block -> Block, iv: Block, data: Blocks, at: nat, next: Block)
    requires at + 8 <= |data| && at % 8 == 0
    requires next == enc(Xor(data[at..at + 8], Chained(enc, iv, data, at)))
    ensures Encrypting(enc, iv, data, at)[at..at + 8] == data[at..at + 8]
    ensures Replaced(Encrypting(enc, iv, data, at), at, next) == Encrypting(enc, iv, data, at + 8)
    ensures Chained(enc, iv, data, at + 8) == next
  {
    EncryptNext(enc, iv, data[..at], data[at..at + 8]);
    assert data[..at + 8] == data[..at] + data[at..at + 8];
  }

  function Decrypting(dec: Block -> Block, iv: Block, data: Blocks, at: nat): (r: seq<bv8>)
    requires at <= |data| && at % 8 == 0
    ensures |r| == |data|
  {
    Decrypt(dec, iv, data[..at]) + data[at..]
  }

  /** The ciphertext block that was saved before the one at `at`. */
  function Saved(iv: Block, data: Blocks, at: nat): Block
    requires at <= |data| && at % 8 == 0
  {
    Last(iv, data[..at])
  }

  lemma DecryptingNext(dec: Block -> Block, iv: Block, data: Blocks, at: nat)
    requires at + 8 <= |data| && at % 8 == 0
    ensures Decrypting(dec, iv, data, at)[at..at + 8] == data[at..at + 8] == Saved(iv, data, at + 8)
    ensures Replaced(Decrypting(dec, iv, data, at), at, Xor(dec(data[at..at + 8]), Saved(iv, data, at)))
         == Decrypting(dec, iv, data, at + 8)
  {
    DecryptNext(dec, iv, data[..at], data[at..at + 8]);
    assert data[..at + 8] == data[..at] + data[at..at + 8];
  }

  lemma EncryptingEnds(enc: Block -> Block, iv: Block, data: Blocks)
    ensures Encrypting(enc, iv, data, 0) == data && Chained(enc, iv, data, 0) == iv
    ensures Encrypting(enc, iv, data, |data|) == Encrypt(enc, iv, data)
  {
    assert data[..|data|] == data;
  }

  lemma DecryptingEnds(dec: Block -> Block, iv: Block, data: Blocks)
    ensures Decrypting(dec, iv, data, 0) == data && Saved(iv, data, 0) == iv
    ensures Decrypting(dec, iv, data, |data|) == Decrypt(dec, iv, data)
  {
    assert data[..|data|] == data;
  }

  // ---- In place ----

  method Filled(data: seq<bv8>) returns (buf: array<bv8>)
    ensures fresh(buf) && buf[..] == data
  {
    buf := new bv8[|data|](i requires 0 <= i < |data| => data[i]);
  }

  method Store(buf: array<bv8>, at: nat, b: Block)
    requires at + 8 <= buf.Length
    modifies buf
    ensures buf[..] == Replaced(old(buf[..]), at, b)
  {
    for i := 0 to 8
      invariant forall k :: 0 <= k < i ==> buf[at + k] == b[k]
      invariant forall k :: 0 <= k < at ==> buf[k] == old(buf[k])
      invariant forall k :: at + i <= k < buf.Length ==> buf[k] == old(buf[k])
    {
      buf[at + i] := b[i];
    }
    SplitAt(buf[..], at);
    assert buf[..][at..at + 8] == b;
  }

  lemma SplitAt(s: seq<bv8>, at: nat)
    requires at + 8 <= |s|
    ensures s == s[..at] + s[at..at + 8] + s[at + 8..]
  {
  }

  method XorInto(buf: array<bv8>, at: nat, b: Block)
    requires at + 8 <= buf.Length
    modifies buf
    ensures buf[..] == Replaced(old(buf[..]), at, Xor(old(buf[..])[at..at + 8], b))
  {
    ghost var mixed := Xor(buf[..][at..at + 8], b);
    for i := 0 to 8
      invariant forall k :: 0 <= k < i ==> buf[at + k] == mixed[k]
      invariant forall k :: 0 <= k < at ==> buf[k] == old(buf[k])
      invariant forall k :: at + i <= k < buf.Length ==> buf[k] == old(buf[k])
    {
      buf[at + i] := buf[at + i] ^ b[i];
    }
    SplitAt(buf[..], at);
    assert buf[..][at..at + 8] == mixed;
  }

  lemma ReplacedTwice(s: seq<bv8>, at: nat, a: Block, b: Block)
    requires at + 8 <= |s|
    ensures Replaced(s, at, a)[at..at + 8] == a && Replaced(Replaced(s, at, a), at, b) == Replaced(s, at, b)
  {
  }

  // ---- Block by block ----

  function BlockAt(data: seq<bv8>, i: nat): Block
    requires 8 * i + 8 <= |data|
  {
    data[8 * i..8 * i + 8]
  }

  /** Every ciphertext block encrypts its plaintext block combined with the ciphertext block before, or the vector. */
  lemma {:induction false} EncryptedBlock(enc: Block -> Block, iv: Block, data: Blocks, i: nat)
    requires 8 * i + 8 <= |data|
    ensures var c := Encrypt(enc, iv, data);
            BlockAt(c, i) == enc(Xor(BlockAt(data, i), if i == 0 then iv else BlockAt(c, i - 1)))
    decreases |data|
  {
    var n := |data| - 8;
    var c, before := Encrypt(enc, iv, data), Encrypt(enc, iv, data[..n]);
    if 8 * i < n {
      EncryptedBlock(enc, iv, data[..n], i);
      assert BlockAt(c, i) == BlockAt(before, i) && BlockAt(data[..n], i) == BlockAt(data, i);
      assert i > 0 ==> BlockAt(c, i - 1) == BlockAt(before, i - 1);
    } else {
      assert 8 * i == n && BlockAt(data, i) == data[n..];
      assert i > 0 ==> BlockAt(c, i - 1) == before[|before| - 8..];
    }
  }

  /**
   A message of any length, zero-padded, under the fixed vector FEDCBA9876543210: every block is combined with the
   ciphertext block before, the first with the vector, and encrypted.
   */
  lemma CipherBlock(enc: Block -> Block, m: seq<bv8>, i: nat)
    requires 8 * i < |m|
    ensures var c := Encrypt(enc, IV, ZeroPadded(m));
            BlockAt(c, i) == enc(
              Xor(BlockAt(ZeroPadded(m), i),
                  if i == 0 then [0xfe, 0xdc, 0xba, 0x98, 0x76, 0x54, 0x32, 0x10] else BlockAt(c, i - 1)))
  {
    EncryptedBlock(enc, IV, ZeroPadded(m), i);
  }
}
