/**
 The Wazuh secure channel: key derivation, message framing, sealing and opening
 (crates/sda-comms/src/crypto.rs:36-410). MD5, zlib and AES-CBC are parameters; random numbers and
 initialisation vectors are arguments.
 */
module SecureChannel {
  import opened Wrappers
  import Counters
  import Cbc
  import Blowfish
  import BlowfishCipher

  type Octets = seq<bv8>

  const BANG: bv8 := 0x21
  const COLON: bv8 := Counters.COLON

  /** An MD5 digest in hexadecimal. */
  type Digest = s: Octets | |s| == 32 witness seq(32, _ => 0x30)
  type Nonce = s: Octets | |s| == 16 witness seq(16, _ => 0)

  datatype Primitives = Primitives(
    md5: Octets -> Digest,
    isUtf8: Octets -> bool,
    deflate: Octets -> Octets,
    inflate: Octets -> Option<Octets>,
    aesEncrypt: (Octets, Nonce, Octets) -> Octets,
    aesDecrypt: (Octets, Nonce, Octets) -> Option<Octets>)

  /**
   What is assumed of the libraries: hexadecimal is UTF-8; decompression undoes compression, and a zlib
   stream starts with a byte of low nibble 8 (section 2.2 of RFC 1950); AES decryption undoes encryption,
   and padding makes every ciphertext at least one block long.
   */
  ghost predicate Sound(p: Primitives)
  {
    && (forall x :: p.isUtf8(p.md5(x)))
    && (forall x :: p.inflate(p.deflate(x)) == Some(x))
    && (forall x :: p.deflate(x) != [] && p.deflate(x)[0] & 0x0f == 8)
    && (forall k, iv, m :: p.aesDecrypt(k, iv, p.aesEncrypt(k, iv, m)) == Some(m))
    && (forall k, iv, m :: |p.aesEncrypt(k, iv, m)| >= 16)
  }

  datatype CryptoMethod = BlowfishCbc | Aes

  datatype Keys = Keys(cipher: CryptoMethod, tables: Blowfish.Tables, aesKey: Octets)

  // ---- Key derivation ----

  function EncryptionKey(p: Primitives, id: Octets, name: Octets, key: Octets): (k: Octets)
    ensures |k| == 47 && k[..32] == p.md5(key) && k[32..] == p.md5(p.md5(name) + p.md5(id))[..15]
  {
    p.md5(key) + p.md5(p.md5(name) + p.md5(id))[..15]
  }

  function KeysOf(p: Primitives, initial: Blowfish.Tables, id: Octets, name: Octets, key: Octets, m: CryptoMethod): Keys
  {
    Keys(m, BlowfishCipher.Schedule(initial, EncryptionKey(p, id, name, key)), p.md5(key))
  }

  /** The AES key is the front of the encryption key, and Blowfish runs on the whole of it. */
  lemma KeysExactly(p: Primitives, initial: Blowfish.Tables, id: Octets, name: Octets, key: Octets, m: CryptoMethod)
    ensures var k, keys := EncryptionKey(p, id, name, key), KeysOf(p, initial, id, name, key, m);
            keys.aesKey == k[..32] && keys.tables == BlowfishCipher.Schedule(initial, k) && keys.cipher == m
  {
  }

  // ---- Sealing ----

  function Inner(rand: Counters.Half, c: Counters.Pair, body: Octets): Octets { Counters.Header(rand, c) + body }

  function Bangs(n: nat): Octets { seq(n, _ => BANG) }

  /** How many `!` go before `n` compressed bytes. */
  function Padding(n: nat): (k: nat)
    ensures 1 <= k <= 8 && (k + n) % 8 == 0
  {
    var rem := (n + 1) % 8;
    (if rem == 0 then 0 else 8 - rem) + 1
  }

  function Framed(p: Primitives, inner: Octets): (r: Octets)
    ensures |r| % 8 == 0
  {
    var z := p.deflate(p.md5(inner) + inner);
    Bangs(Padding(|z|)) + z
  }

  function Seal(p: Primitives, keys: Keys, iv: Nonce, inner: Octets): Octets
  {
    match keys.cipher
    case BlowfishCbc => Blowfish.CbcEncrypted(keys.tables, Framed(p, inner))
    case Aes => iv + p.aesEncrypt(keys.aesKey, iv, Framed(p, inner))
  }

  // ---- Opening ----

  datatype Failure =
    | UnexpectedFirstByte(b: bv8)
    | Decompression
    | TooShort
    | ChecksumEncoding
    | ChecksumMismatch
    | NoGlobalColon
    | NoLocalColon
    | NoCounters
    | NoSeparator
    | AesTooShort
    | AesPadding

  datatype CryptoError = DecryptionFailed(why: Failure) | EmptyPayload

  function AfterBangs(data: Octets): Octets
  {
    if data != [] && data[0] == BANG then AfterBangs(data[1..]) else data
  }

  /** Checksum, counters and body of a decompressed frame. */
  function Unframe(p: Primitives, d: Octets): Result<Octets, CryptoError>
  {
    if |d| < 53 then Err(DecryptionFailed(TooShort))
    else
      var checksum, rest := d[..32], d[32..];
      if !p.isUtf8(checksum) then Err(DecryptionFailed(ChecksumEncoding))
      else if p.md5(rest) != checksum then Err(DecryptionFailed(ChecksumMismatch))
      else if rest[15] != COLON then Err(DecryptionFailed(NoGlobalColon))
      else if rest[20] != COLON then Err(DecryptionFailed(NoLocalColon))
      else Ok(rest[21..])
  }

  function OpenCompressed(p: Primitives, data: Octets): Result<Octets, CryptoError>
  {
    var d := p.inflate(AfterBangs(data));
    if d.None? then Err(DecryptionFailed(Decompression)) else Unframe(p, d.value)
  }

  function StripTrailingNulls(data: Octets): (r: Octets)
    ensures r <= data && (r != [] ==> r[|r| - 1] != 0) && (forall i :: |r| <= i < |data| ==> data[i] == 0)
    ensures data != [] && data[0] != 0 ==> r != []
  {
    if data != [] && data[|data| - 1] == 0 then StripTrailingNulls(data[..|data| - 1]) else data
  }

  /** The position of the first `b`. */
  function Position(s: Octets, b: bv8): (i: Option<nat>)
    ensures match i
            case Some(k) => k < |s| && s[k] == b && b !in s[..k]
            case None => b !in s
  {
    if s == [] then None
    else if s[0] == b then Some(0)
    else
      var rest := Position(s[1..], b);
      if rest.None? then None else Some(rest.value + 1)
  }

  /** Counters, separator and body of an old-format frame. */
  function OldBody(after: Octets): Result<Octets, CryptoError>
  {
    if |after| < 16 then Err(DecryptionFailed(NoCounters))
    else
      var rest := after[16..];
      var separator := Position(rest, COLON);
      if separator.None? then Err(DecryptionFailed(NoSeparator)) else Ok(rest[separator.value + 1..])
  }

  function OpenOldFormat(p: Primitives, data: Octets): Result<Octets, CryptoError>
    requires data != [] && data[0] == COLON
  {
    var rest := StripTrailingNulls(data)[1..];
    if |rest| < 32 then Err(DecryptionFailed(TooShort))
    else
      var checksum, after := rest[..32], rest[32..];
      if !p.isUtf8(checksum) then Err(DecryptionFailed(ChecksumEncoding))
      else if p.md5(after) != checksum then Err(DecryptionFailed(ChecksumMismatch))
      else OldBody(after)
  }

  function Unwrap(p: Primitives, data: Octets): Result<Octets, CryptoError>
  {
    if data == [] then Err(EmptyPayload)
    else if data[0] == BANG then OpenCompressed(p, data)
    else if data[0] == COLON then OpenOldFormat(p, data)
    else Err(DecryptionFailed(UnexpectedFirstByte(data[0])))
  }

  function AesDecrypted(p: Primitives, key: Octets, data: Octets): Result<Octets, CryptoError>
  {
    if |data| < 32 then Err(DecryptionFailed(AesTooShort))
    else
      var m := p.aesDecrypt(key, data[..16], data[16..]);
      if m.None? then Err(DecryptionFailed(AesPadding)) else Ok(m.value)
  }

  function Open(p: Primitives, keys: Keys, data: Octets): Result<Octets, CryptoError>
  {
    match keys.cipher
    case BlowfishCbc => Unwrap(p, Blowfish.CbcDecrypted(keys.tables, data))
    case Aes =>
      var m := AesDecrypted(p, keys.aesKey, data);
      if m.Err? then m else Unwrap(p, m.value)
  }

  // ---- Round trips ----

  lemma NotBang(b: bv8)
    requires b & 0x0f == 8
    ensures b != BANG
  {
  }

  lemma {:induction false} AfterBangsOf(n: nat, z: Octets)
    requires z != [] && z[0] != BANG
    ensures AfterBangs(Bangs(n) + z) == z
  {
    if n == 0 {
      assert Bangs(n) + z == z;
    } else {
      AfterBangsOf(n - 1, z);
      assert (Bangs(n) + z)[1..] == Bangs(n - 1) + z;
    }
  }

  lemma UnframeInner(p: Primitives, rand: Counters.Half, c: Counters.Pair, body: Octets)
    requires Sound(p) && c.local < 10_000
    ensures var inner := Inner(rand, c, body); Unframe(p, p.md5(inner) + inner) == Ok(body)
  {
    var inner := Inner(rand, c, body);
    var d := p.md5(inner) + inner;
    Counters.HeaderShape(rand, c);
    assert d[..32] == p.md5(inner) && d[32..] == inner;
    assert inner[21..] == body;
  }

  /** Framing is undone, whatever the body: nothing in it can be mistaken for padding. */
  lemma UnwrapFramed(p: Primitives, rand: Counters.Half, c: Counters.Pair, body: Octets)
    requires Sound(p) && c.local < 10_000
    ensures Unwrap(p, Framed(p, Inner(rand, c, body))) == Ok(body)
  {
    var inner := Inner(rand, c, body);
    var z := p.deflate(p.md5(inner) + inner);
    NotBang(z[0]);
    AfterBangsOf(Padding(|z|), z);
    UnframeInner(p, rand, c, body);
    assert Framed(p, inner)[0] == BANG;
  }

  /** The padded frame fills whole blocks: Blowfish adds no zero bytes of its own. */
  lemma NoZeroPadding(p: Primitives, inner: Octets)
    ensures Cbc.ZeroPadded(Framed(p, inner)) == Framed(p, inner)
  {
    Cbc.WholeBlocksStay(Framed(p, inner));
  }

  /** A sealed body opens to itself, for both methods and every body. */
  lemma SealRoundTrip(p: Primitives, keys: Keys, iv: Nonce, rand: Counters.Half, c: Counters.Pair, body: Octets)
    requires Sound(p) && c.local < 10_000
    ensures Open(p, keys, Seal(p, keys, iv, Inner(rand, c, body))) == Ok(body)
  {
    var inner := Inner(rand, c, body);
    UnwrapFramed(p, rand, c, body);
    match keys.cipher
    case BlowfishCbc =>
      Blowfish.CbcRoundTrip(keys.tables, Framed(p, inner));
      NoZeroPadding(p, inner);
    case Aes =>
      var sealed := Seal(p, keys, iv, inner);
      assert sealed[..16] == iv && sealed[16..] == p.aesEncrypt(keys.aesKey, iv, Framed(p, inner));
  }

  /** Nothing is stripped past a byte that is not null. */
  lemma {:induction false} StripAfter(x: Octets, c: bv8, y: Octets)
    requires c != 0
    ensures StripTrailingNulls(x + [c] + y) == x + [c] + StripTrailingNulls(y)
  {
    var s := x + [c] + y;
    if y == [] {
      assert s == x + [c];
    } else if y[|y| - 1] == 0 {
      assert s[..|s| - 1] == x + [c] + y[..|y| - 1];
      StripAfter(x, c, y[..|y| - 1]);
    }
  }

  lemma {:induction false} StripZeros(data: Octets, n: nat)
    ensures StripTrailingNulls(data + Cbc.Zeros(n)) == StripTrailingNulls(data)
  {
    var s := data + Cbc.Zeros(n);
    if n == 0 {
      assert s == data;
    } else {
      assert s[..|s| - 1] == data + Cbc.Zeros(n - 1);
      StripZeros(data, n - 1);
    }
  }

  lemma {:induction false} SeparatorAt(tag: Octets, body: Octets)
    requires COLON !in tag
    ensures Position(tag + [COLON] + body, COLON) == Some(|tag|)
  {
    var s := tag + [COLON] + body;
    if tag != [] {
      assert s[1..] == tag[1..] + [COLON] + body;
      SeparatorAt(tag[1..], body);
    }
  }

  lemma OldBodyOf(counters: Octets, tag: Octets, body: Octets)
    requires |counters| == 16 && COLON !in tag
    ensures OldBody(counters + tag + [COLON] + body) == Ok(body)
  {
    var rest := tag + [COLON] + body;
    assert (counters + tag + [COLON] + body)[16..] == rest;
    SeparatorAt(tag, body);
    assert rest[|tag| + 1..] == body;
  }

  lemma {:induction false} OldFrameReads(p: Primitives, checksum: Digest, after: Octets, data: Octets)
    requires data != [] && data[0] == COLON && StripTrailingNulls(data) == [COLON] + checksum + after
    requires p.isUtf8(checksum)
    ensures Unwrap(p, data) ==
              if p.md5(after) != checksum then Err(DecryptionFailed(ChecksumMismatch)) else OldBody(after)
  {
    var rest := StripTrailingNulls(data)[1..];
    assert rest == checksum + after;
    assert rest[..32] == checksum && rest[32..] == after;
  }

  /** The frame of a body, zero-padded, loses the nulls at its end and with them those at the end of the body. */
  lemma OldFrameStripped(start: Octets, body: Octets, zeros: nat)
    ensures StripTrailingNulls(start + [COLON] + body + Cbc.Zeros(zeros)) == start + [COLON] + StripTrailingNulls(body)
  {
    StripZeros(start + [COLON] + body, zeros);
    StripAfter(start, COLON, body);
  }

  lemma OldFrameRegrouped(digest: Octets, counters: Octets, tag: Octets, body: Octets)
    ensures [COLON] + digest + (counters + tag + [COLON] + body) == [COLON] + digest + counters + tag + [COLON] + body
  {
  }

  lemma NothingStripped(body: Octets)
    ensures StripTrailingNulls(body) == body <==> body == [] || body[|body| - 1] != 0
  {
  }

  /** An old-format frame, zero-padded by any amount, opens to its body exactly when the body does not end in a null. */
  lemma OldFormatExactly(p: Primitives, counters: Octets, tag: Octets, body: Octets, zeros: nat)
    requires Sound(p) && |counters| == 16 && COLON !in tag
    ensures var after := counters + tag + [COLON] + body;
            Unwrap(p, [COLON] + p.md5(after) + after + Cbc.Zeros(zeros)) == Ok(body) <==>
              body == [] || body[|body| - 1] != 0
  {
    var after := counters + tag + [COLON] + body;
    var stripped := StripTrailingNulls(body);
    var start := [COLON] + p.md5(after) + counters + tag;
    OldFrameRegrouped(p.md5(after), counters, tag, body);
    OldFrameStripped(start, body, zeros);
    OldFrameRegrouped(p.md5(after), counters, tag, stripped);
    OldFrameReads(p, p.md5(after), counters + tag + [COLON] + stripped,
                  [COLON] + p.md5(after) + after + Cbc.Zeros(zeros));
    OldBodyOf(counters, tag, stripped);
    NothingStripped(body);
  }

  // ---- What opens ----

  /** The bytes are marks and a compressed frame: checksum, a header with its colons, body. */
  ghost predicate CompressedFrame(p: Primitives, d: Octets, rest: Octets, body: Octets)
  {
    && d != [] && d[0] == BANG && p.inflate(AfterBangs(d)) == Some(p.md5(rest) + rest) && p.isUtf8(p.md5(rest))
    && |rest| >= 21 && rest[15] == COLON && rest[20] == COLON && body == rest[21..]
  }

  /** The bytes are an old-format frame, null-padded: checksum, counters, a tag without colon, body. */
  ghost predicate OldFrame(p: Primitives, d: Octets, counters: Octets, tag: Octets, body: Octets)
  {
    var after := counters + tag + [COLON] + body;
    && d != [] && d[0] == COLON && StripTrailingNulls(d) == [COLON] + p.md5(after) + after && p.isUtf8(p.md5(after))
    && |counters| == 16 && COLON !in tag
  }

  ghost predicate FrameOf(p: Primitives, d: Octets, body: Octets)
  {
    || (exists rest :: CompressedFrame(p, d, rest, body))
    || (exists counters, tag :: OldFrame(p, d, counters, tag, body))
  }

  lemma UnframedIsCompressed(p: Primitives, d: Octets, body: Octets) returns (rest: Octets)
    requires d != [] && d[0] == BANG && Unwrap(p, d) == Ok(body)
    ensures CompressedFrame(p, d, rest, body)
  {
    var z := p.inflate(AfterBangs(d)).value;
    rest := z[32..];
    assert z == z[..32] + rest;
  }

  lemma CompressedUnwraps(p: Primitives, d: Octets, rest: Octets, body: Octets)
    requires CompressedFrame(p, d, rest, body)
    ensures Unwrap(p, d) == Ok(body)
  {
    var z := p.md5(rest) + rest;
    assert z[..32] == p.md5(rest) && z[32..] == rest;
  }

  lemma UnwrappedIsOld(p: Primitives, d: Octets, body: Octets) returns (counters: Octets, tag: Octets)
    requires d != [] && d[0] == COLON && Unwrap(p, d) == Ok(body)
    ensures OldFrame(p, d, counters, tag, body)
  {
    var all := StripTrailingNulls(d);
    var after := all[1..][32..];
    counters := after[..16];
    var k := Position(after[16..], COLON).value;
    tag := after[16..][..k];
    assert after == counters + tag + [COLON] + body;
    assert all == [COLON] + all[1..][..32] + after;
  }

  lemma OldUnwraps(p: Primitives, d: Octets, counters: Octets, tag: Octets, body: Octets)
    requires OldFrame(p, d, counters, tag, body)
    ensures Unwrap(p, d) == Ok(body)
  {
    var after := counters + tag + [COLON] + body;
    OldFrameReads(p, p.md5(after), after, d);
    OldBodyOf(counters, tag, body);
  }

  /** Bytes unwrap to a body exactly if they are a frame of it, in one of the two formats. */
  lemma UnwrapExactly(p: Primitives, d: Octets, body: Octets)
    ensures Unwrap(p, d) == Ok(body) <==> FrameOf(p, d, body)
  {
    if Unwrap(p, d) == Ok(body) {
      if d[0] == BANG {
        var rest := UnframedIsCompressed(p, d, body);
      } else {
        var counters, tag := UnwrappedIsOld(p, d, body);
      }
    }
    if rest :| CompressedFrame(p, d, rest, body) {
      CompressedUnwraps(p, d, rest, body);
    } else if counters, tag :| OldFrame(p, d, counters, tag, body) {
      OldUnwraps(p, d, counters, tag, body);
    }
  }

  /** A Blowfish ciphertext opens to a body exactly if it is the encryption of whole blocks that frame the body. */
  lemma BlowfishOpensExactly(p: Primitives, keys: Keys, data: Octets, body: Octets)
    requires keys.cipher == BlowfishCbc
    ensures Open(p, keys, data) == Ok(body) <==>
              exists d :: data == Blowfish.CbcEncrypted(keys.tables, d) && |d| % 8 == 0 && FrameOf(p, d, body)
  {
    var plain := Blowfish.CbcDecrypted(keys.tables, data);
    UnwrapExactly(p, plain, body);
    if Open(p, keys, data) == Ok(body) {
      Blowfish.CbcOnto(keys.tables, data);
    }
    forall d | data == Blowfish.CbcEncrypted(keys.tables, d) && |d| % 8 == 0 && FrameOf(p, d, body)
      ensures plain == d
    {
      Blowfish.CbcRoundTrip(keys.tables, d);
      Cbc.WholeBlocksStay(d);
    }
  }

  /** An AES ciphertext opens to a body exactly if it decrypts, under the vector in front, to a frame of the body. */
  lemma AesOpensExactly(p: Primitives, keys: Keys, data: Octets, body: Octets)
    requires keys.cipher == Aes
    ensures Open(p, keys, data) == Ok(body) <==>
              && |data| >= 32
              && p.aesDecrypt(keys.aesKey, data[..16], data[16..]).Some?
              && FrameOf(p, p.aesDecrypt(keys.aesKey, data[..16], data[16..]).value, body)
  {
    if |data| >= 32 && p.aesDecrypt(keys.aesKey, data[..16], data[16..]).Some? {
      UnwrapExactly(p, p.aesDecrypt(keys.aesKey, data[..16], data[16..]).value, body);
    }
  }

  /** Which ciphertexts carry nothing: none or a ragged one under Blowfish, an encryption of nothing under AES. */
  lemma EmptyExactly(p: Primitives, keys: Keys, data: Octets)
    ensures Open(p, keys, data) == Err(EmptyPayload) <==>
            match keys.cipher
            case BlowfishCbc => data == [] || |data| % 8 != 0
            case Aes => |data| >= 32 && p.aesDecrypt(keys.aesKey, data[..16], data[16..]) == Some([])
  {
    match keys.cipher
    case BlowfishCbc => UnwrapEmpty(p, Blowfish.CbcDecrypted(keys.tables, data));
    case Aes =>
      if AesDecrypted(p, keys.aesKey, data).Ok? {
        UnwrapEmpty(p, AesDecrypted(p, keys.aesKey, data).value);
      }
  }

  lemma UnwrapEmpty(p: Primitives, d: Octets)
    ensures Unwrap(p, d) == Err(EmptyPayload) <==> d == []
  {
  }
}
