/**
 Wire frames: the cipher object with its counters, the cleartext routing prefix and received frames
 (crates/sda-comms/src/crypto.rs:63-317, crates/sda-comms/src/connection.rs:15-85 and 299-328).
 */
module Wire {
  import opened Wrappers
  import opened SecureChannel
  import Counters
  import Blowfish
  import BlowfishCipher

  // ---- The routing prefix ----

  const AES_TOKEN: Octets := [0x23, 0x41, 0x45, 0x53, 0x3a]   // "#AES:"

  function Token(m: CryptoMethod): Octets { if m == Aes then AES_TOKEN else [COLON] }

  /** `!{agent_id}!{token}{ciphertext}`. */
  function Frame(id: Octets, m: CryptoMethod, ciphertext: Octets): Octets
  {
    [BANG] + id + [BANG] + Token(m) + ciphertext
  }

  function StripToken(body: Octets): Octets
  {
    if AES_TOKEN <= body then body[5..]
    else if body != [] && body[0] == COLON then body[1..]
    else body
  }

  function AfterId(buf: Octets): Octets
  {
    if buf == [] || buf[0] != BANG then buf
    else
      var end := Position(buf[1..], BANG);
      if end.None? then buf else buf[end.value + 2..]
  }

  function StripRoutingPrefix(buf: Octets): Octets { StripToken(AfterId(buf)) }

  lemma TokenStripped(m: CryptoMethod, ciphertext: Octets)
    ensures StripToken(Token(m) + ciphertext) == ciphertext
    ensures StripRoutingPrefix(Token(m) + ciphertext) == ciphertext
  {
    var body := Token(m) + ciphertext;
    assert body[|Token(m)|..] == ciphertext;
    assert body[0] == if m == Aes then 0x23 else COLON;
    assert AES_TOKEN <= body ==> body[0] == 0x23;
  }

  /** The first `!` of `id`, or the one after it. */
  lemma {:induction false} PrefixEnd(id: Octets, tail: Octets)
    ensures var end := Position(id + [BANG] + tail, BANG);
            end.Some? && end.value <= |id| && (end.value == |id| <==> BANG !in id)
  {
    var s := id + [BANG] + tail;
    if id != [] {
      assert s[1..] == id[1..] + [BANG] + tail;
      PrefixEnd(id[1..], tail);
    }
  }

  lemma AfterIdOf(id: Octets, tail: Octets) returns (k: nat)
    ensures k <= |id| && (k == |id| <==> BANG !in id)
    ensures AfterId([BANG] + id + [BANG] + tail) == if k == |id| then tail else id[k + 1..] + [BANG] + tail
  {
    var buf, s := [BANG] + id + [BANG] + tail, id + [BANG] + tail;
    assert buf[1..] == s;
    PrefixEnd(id, tail);
    k := Position(s, BANG).value;
    assert buf[k + 2..] == if k == |id| then tail else id[k + 1..] + [BANG] + tail;
  }

  /** A token is never stripped out of what an id left over: its `!` is in the way. */
  lemma LeftoverStays(leftover: Octets, m: CryptoMethod, ciphertext: Octets)
    ensures |StripToken(leftover + [BANG] + Token(m) + ciphertext)| > |ciphertext|
  {
    var body := leftover + [BANG] + Token(m) + ciphertext;
    assert body[|leftover|] == BANG;
    if AES_TOKEN <= body {
      assert forall i :: 0 <= i < 5 ==> body[i] == AES_TOKEN[i];
      assert |leftover| >= 5;
    }
  }

  /** The receiver finds the ciphertext exactly when the agent id has no `!`. */
  lemma PrefixStrippedExactly(id: Octets, m: CryptoMethod, ciphertext: Octets)
    ensures StripRoutingPrefix(Frame(id, m, ciphertext)) == ciphertext <==> BANG !in id
  {
    var tail := Token(m) + ciphertext;
    assert Frame(id, m, ciphertext) == [BANG] + id + [BANG] + tail;
    var k := AfterIdOf(id, tail);
    if k == |id| {
      TokenStripped(m, ciphertext);
    } else {
      assert id[k + 1..] + [BANG] + tail == id[k + 1..] + [BANG] + Token(m) + ciphertext;
      LeftoverStays(id[k + 1..], m, ciphertext);
    }
  }

  // ---- Received frames ----

  datatype ConnectionError = ReceiveFailed(why: CryptoError)

  /** An empty payload is no error; without keys a frame is taken as it is. */
  function DecryptFrame(p: Primitives, keys: Option<Keys>, buf: Octets): Result<Option<Octets>, ConnectionError>
  {
    match keys
    case Some(k) =>
      (match Open(p, k, StripRoutingPrefix(buf))
       case Ok(plaintext) => Ok(Some(plaintext))
       case Err(e) => if e == EmptyPayload then Ok(None) else Err(ReceiveFailed(e)))
    case None => if buf == [] then Ok(None) else Ok(Some(buf))
  }

  /** A received frame is no message exactly if what is behind its prefix carries nothing; other failures are errors. */
  lemma ReceivedExactly(p: Primitives, keys: Keys, buf: Octets)
    ensures var body, r := StripRoutingPrefix(buf), DecryptFrame(p, Some(keys), buf);
            && (r == Ok(None) <==>
                match keys.cipher
                case BlowfishCbc => body == [] || |body| % 8 != 0
                case Aes => |body| >= 32 && p.aesDecrypt(keys.aesKey, body[..16], body[16..]) == Some([]))
            && (forall m :: r == Ok(Some(m)) <==> Open(p, keys, body) == Ok(m))
            && (forall e :: r == Err(ReceiveFailed(e)) <==> Open(p, keys, body) == Err(e) && e.DecryptionFailed?)
  {
    EmptyExactly(p, keys, StripRoutingPrefix(buf));
  }

  /** A frame without routing prefix and token is taken as it is, and so is one whose id never ends. */
  lemma PrefixlessStays(buf: Octets)
    requires || buf == [] || (buf[0] != BANG && buf[0] != COLON && buf[0] != AES_TOKEN[0])
             || (buf[0] == BANG && BANG !in buf[1..])
    ensures StripRoutingPrefix(buf) == buf
  {
  }

  /** The bytes are the ASCII of this text. */
  predicate Spells(bytes: Octets, text: string)
  {
    |bytes| == |text| && forall i :: 0 <= i < |bytes| ==> bytes[i] as int == text[i] as int
  }

  lemma TokenSpelled(m: CryptoMethod)
    ensures Spells(Token(m), if m == Aes then "#AES:" else ":")
  {
    if m == Aes {
      assert AES_TOKEN[0] as int == 0x23 && AES_TOKEN[1] as int == 0x41 && AES_TOKEN[2] as int == 0x45;
      assert AES_TOKEN[3] as int == 0x53 && AES_TOKEN[4] as int == 0x3a;
    }
  }

  /** A frame is `!`, the id, `!`, the token of its method and the ciphertext. */
  lemma FrameSpelled(id: Octets, m: CryptoMethod, ciphertext: Octets) returns (mark: Octets, token: Octets)
    ensures Frame(id, m, ciphertext) == mark + id + mark + token + ciphertext
    ensures Spells(mark, "!") && Spells(token, if m == Aes then "#AES:" else ":")
  {
    mark, token := [BANG], Token(m);
    TokenSpelled(m);
  }

  /** What a peer sends is what the receiver with the same keys gets, for both methods and every body. */
  lemma EndToEnd(p: Primitives, keys: Keys, id: Octets, iv: Nonce, rand: Counters.Half, c: Counters.Pair, body: Octets)
    requires Sound(p) && c.local < 10_000 && BANG !in id
    ensures var frame := Frame(id, keys.cipher, Seal(p, keys, iv, Inner(rand, c, body)));
            DecryptFrame(p, Some(keys), frame) == Ok(Some(body))
  {
    PrefixStrippedExactly(id, keys.cipher, Seal(p, keys, iv, Inner(rand, c, body)));
    SealRoundTrip(p, keys, iv, rand, c, body);
  }

  /** A server omits the id; its frames open all the same. */
  lemma ServerToAgent(p: Primitives, keys: Keys, iv: Nonce, rand: Counters.Half, c: Counters.Pair, body: Octets)
    requires Sound(p) && c.local < 10_000
    ensures var frame := Token(keys.cipher) + Seal(p, keys, iv, Inner(rand, c, body));
            DecryptFrame(p, Some(keys), frame) == Ok(Some(body))
  {
    TokenStripped(keys.cipher, Seal(p, keys, iv, Inner(rand, c, body)));
    SealRoundTrip(p, keys, iv, rand, c, body);
  }

  // ---- Whole conversations ----

  /** A message with the randomness drawn for it. */
  datatype Outgoing = Outgoing(rand: Counters.Half, iv: Nonce, body: Octets)

  function NthFrame(p: Primitives, keys: Keys, id: Octets, n: nat, m: Outgoing): Octets
  {
    Frame(id, keys.cipher, Seal(p, keys, m.iv, Inner(m.rand, Counters.Nth(n), m.body)))
  }

  /** Frame `n` of any conversation opens to its body, however long the conversation. */
  lemma FrameOpens(p: Primitives, keys: Keys, id: Octets, n: nat, m: Outgoing)
    requires Sound(p) && BANG !in id
    ensures DecryptFrame(p, Some(keys), NthFrame(p, keys, id, n, m)) == Ok(Some(m.body))
  {
    Counters.ClosedForm(n);
    EndToEnd(p, keys, id, m.iv, m.rand, Counters.Nth(n), m.body);
  }

  /** Frame `n` of any conversation opens to its body, and no two frames within the period share a header. */
  lemma Conversation(p: Primitives, keys: Keys, id: Octets, m: nat, x: Outgoing, n: nat, y: Outgoing)
    requires Sound(p) && BANG !in id && m < n < Counters.PERIOD
    ensures DecryptFrame(p, Some(keys), NthFrame(p, keys, id, n, y)) == Ok(Some(y.body))
    ensures Counters.Below(Counters.Nth(m), Counters.Nth(n))
    ensures Counters.Header(x.rand, Counters.Nth(m)) != Counters.Header(y.rand, Counters.Nth(n))
  {
    FrameOpens(p, keys, id, n, y);
    Counters.StrictlyIncreasing(m, n);
    if Counters.Header(x.rand, Counters.Nth(m)) == Counters.Header(y.rand, Counters.Nth(n)) {
      Counters.HeaderInjective(x.rand, Counters.Nth(m), y.rand, Counters.Nth(n));
    }
  }

  // ---- The cipher object ----

  class WazuhCipher {
    const p: Primitives
    const cipher: CryptoMethod
    const aesKey: Octets
    const blowfish: BlowfishCipher.Cipher
    var globalCounter: Counters.Word
    var localCounter: Counters.Word

    ghost predicate Valid()
      reads this
    {
      blowfish.Valid() && localCounter < Counters.LOCAL_LIMIT
    }

    ghost function SharedKeys(): Keys
      requires blowfish.Valid()
      reads blowfish.p, blowfish.s
    {
      Keys(cipher, blowfish.State(), aesKey)
    }

    function Count(): Counters.Pair
      reads this
    {
      Counters.Pair(globalCounter, localCounter)
    }

    constructor (p: Primitives, initial: Blowfish.Tables, id: Octets, name: Octets, key: Octets, m: CryptoMethod)
      ensures Valid() && fresh(blowfish) && this.p == p
      ensures SharedKeys() == KeysOf(p, initial, id, name, key, m) && Count() == Counters.Nth(0)
    {
      this.p, cipher := p, m;
      var encryptionKey := EncryptionKey(p, id, name, key);
      blowfish := new BlowfishCipher.Cipher(initial, encryptionKey);
      aesKey := encryptionKey[..32];
      globalCounter, localCounter := 0, 0;
    }

    method BuildInnerFrame(rand: Counters.Half, message: Octets) returns (buf: Octets)
      requires Valid()
      modifies this
      ensures Valid() && Count() == Counters.Advance(old(Count())) && buf == Inner(rand, Count(), message)
    {
      var local: Counters.Word := (localCounter + 1) % Counters.U32;
      localCounter := local;
      var global := globalCounter;
      if local >= Counters.LOCAL_LIMIT {
        localCounter := 0;
        local := 0;
        global := (global + 1) % Counters.U32;
        globalCounter := global;
      }
      buf := Counters.Header(rand, Counters.Pair(global, local)) + message;
    }

    /** Checksum, compress and pad with `!` to whole blocks. */
    method PadFrame(inner: Octets) returns (padded: Octets)
      ensures padded == Framed(p, inner)
    {
      var compressed := p.deflate(p.md5(inner) + inner);
      var size := |compressed| + 1;
      var extra := if size % 8 == 0 then 0 else 8 - size % 8;
      padded := Bangs(extra + 1) + compressed;
    }

    method Encrypt(rand: Counters.Half, iv: Nonce, plaintext: Octets) returns (ciphertext: Octets)
      requires Valid()
      modifies this
      ensures Valid() && Count() == Counters.Advance(old(Count())) && SharedKeys() == old(SharedKeys())
      ensures ciphertext == Seal(p, SharedKeys(), iv, Inner(rand, Count(), plaintext))
    {
      var inner := BuildInnerFrame(rand, plaintext);
      var padded := PadFrame(inner);
      if cipher == BlowfishCbc {
        ciphertext := BlowfishCipher.CbcEncrypt(blowfish, padded);
      } else {
        ciphertext := iv + p.aesEncrypt(aesKey, iv, padded);
      }
    }

    method DecryptCompressed(data: Octets) returns (r: Result<Octets, CryptoError>)
      ensures r == OpenCompressed(p, data)
    {
      var start := 0;
      while start < |data| && data[start] == BANG
        invariant 0 <= start <= |data| && AfterBangs(data) == AfterBangs(data[start..])
      {
        assert data[start..][1..] == data[start + 1..];
        start := start + 1;
      }
      var d := p.inflate(data[start..]);
      if d.None? {
        return Err(DecryptionFailed(Decompression));
      }
      r := Unframe(p, d.value);
    }

    method Decrypt(data: Octets) returns (r: Result<Octets, CryptoError>)
      requires Valid()
      ensures r == Open(p, SharedKeys(), data)
    {
      var decrypted: Octets;
      if cipher == BlowfishCbc {
        decrypted := BlowfishCipher.CbcDecrypt(blowfish, data);
      } else {
        var m := AesDecrypted(p, aesKey, data);
        if m.Err? {
          return m;
        }
        decrypted := m.value;
      }
      if decrypted == [] {
        return Err(EmptyPayload);
      }
      if decrypted[0] == BANG {
        r := DecryptCompressed(decrypted);
      } else if decrypted[0] == COLON {
        r := OpenOldFormat(p, decrypted);
      } else {
        r := Err(DecryptionFailed(UnexpectedFirstByte(decrypted[0])));
      }
    }

    /** The frame a cipher that has sent `n` messages builds is frame `n + 1` of its conversation. */
    method BuildWireFrame(id: Octets, m: Outgoing, ghost n: nat) returns (wire: Octets)
      requires Valid() && Count() == Counters.Nth(n)
      modifies this
      ensures Valid() && Count() == Counters.Nth(n + 1) && SharedKeys() == old(SharedKeys())
      ensures wire == NthFrame(p, SharedKeys(), id, n + 1, m)
    {
      var encrypted := Encrypt(m.rand, m.iv, m.body);
      wire := [BANG] + id + [BANG] + Token(cipher) + encrypted;
    }
  }

  // ---- Two ends of a connection ----

  /** What an end makes of a received frame; before enrolment it has no cipher. */
  method ReceiveFrame(cipher: WazuhCipher?, buf: Octets) returns (r: Result<Option<Octets>, ConnectionError>)
    requires cipher != null ==> cipher.Valid()
    ensures cipher != null ==> r == DecryptFrame(cipher.p, Some(cipher.SharedKeys()), buf)
    ensures cipher == null ==> forall p :: r == DecryptFrame(p, None, buf)
  {
    if cipher == null {
      return if buf == [] then Ok(None) else Ok(Some(buf));
    }
    var plain := cipher.Decrypt(StripRoutingPrefix(buf));
    if plain.Ok? {
      return Ok(Some(plain.value));
    }
    r := if plain.error == EmptyPayload then Ok(None) else Err(ReceiveFailed(plain.error));
  }

  /** Names a message and its place in the conversation. */
  ghost predicate At(n: nat, m: Outgoing) { true }

  /** The frames of a conversation, each opening to its body; used one named message at a time. */
  ghost predicate Frames(p: Primitives, keys: Keys, id: Octets, frame: (nat, Outgoing) -> Octets)
  {
    forall n, m {:trigger At(n, m)} :: At(n, m) ==>
      frame(n, m) == NthFrame(p, keys, id, n, m) && DecryptFrame(p, Some(keys), frame(n, m)) == Ok(Some(m.body))
  }

  method SendNth(sender: WazuhCipher, id: Octets, m: Outgoing, ghost keys: Keys, ghost n: nat,
                 ghost frame: (nat, Outgoing) -> Octets)
    returns (wire: Octets)
    requires sender.Valid() && sender.SharedKeys() == keys && Frames(sender.p, keys, id, frame)
    requires sender.Count() == Counters.Nth(n)
    modifies sender
    ensures sender.Valid() && sender.SharedKeys() == keys
    ensures sender.Count() == Counters.Nth(n + 1) && wire == frame(n + 1, m)
  {
    assert At(n + 1, m);
    wire := sender.BuildWireFrame(id, m, n);
  }

  method ReceiveNth(receiver: WazuhCipher, id: Octets, wire: Octets, ghost keys: Keys, ghost n: nat, ghost m: Outgoing,
                    ghost frame: (nat, Outgoing) -> Octets)
    returns (r: Result<Option<Octets>, ConnectionError>)
    requires receiver.Valid() && receiver.SharedKeys() == keys && Frames(receiver.p, keys, id, frame)
    requires wire == frame(n, m)
    ensures r == Ok(Some(m.body))
  {
    assert At(n, m);
    r := ReceiveFrame(receiver, wire);
  }

  method Exchange(sender: WazuhCipher, receiver: WazuhCipher, id: Octets, messages: seq<Outgoing>, ghost keys: Keys,
                  ghost n: nat, ghost frame: (nat, Outgoing) -> Octets)
    returns (received: seq<Result<Option<Octets>, ConnectionError>>)
    requires sender.Valid() && receiver.Valid() && receiver.p == sender.p && Frames(sender.p, keys, id, frame)
    requires sender.SharedKeys() == keys && receiver.SharedKeys() == keys && sender.Count() == Counters.Nth(n)
    modifies sender
    ensures sender.Valid() && sender.Count() == Counters.Nth(n + |messages|)
    ensures |received| == |messages| && forall i :: 0 <= i < |messages| ==> received[i] == Ok(Some(messages[i].body))
  {
    received := [];
    for i := 0 to |messages|
      invariant sender.Valid() && receiver.Valid() && sender.SharedKeys() == keys && receiver.SharedKeys() == keys
      invariant sender.Count() == Counters.Nth(n + i)
      invariant |received| == i && forall k :: 0 <= k < i ==> received[k] == Ok(Some(messages[k].body))
    {
      var wire := SendNth(sender, id, messages[i], keys, n + i, frame);
      var r := ReceiveNth(receiver, id, wire, keys, n + i + 1, messages[i], frame);
      received := received + [r];
    }
  }

  /** Two ends with the same keys: every message of any conversation arrives, in order and unchanged. */
  method Converse(sender: WazuhCipher, receiver: WazuhCipher, id: Octets, messages: seq<Outgoing>, ghost n: nat)
    returns (received: seq<Result<Option<Octets>, ConnectionError>>)
    requires sender.Valid() && receiver.Valid() && Sound(sender.p) && receiver.p == sender.p
    requires receiver.SharedKeys() == sender.SharedKeys() && sender.Count() == Counters.Nth(n) && BANG !in id
    modifies sender
    ensures sender.Valid() && sender.Count() == Counters.Nth(n + |messages|)
    ensures |received| == |messages| && forall i :: 0 <= i < |messages| ==> received[i] == Ok(Some(messages[i].body))
  {
    ghost var p, keys := sender.p, sender.SharedKeys();
    ghost var frame := (k: nat, m: Outgoing) => NthFrame(p, keys, id, k, m);
    forall k, m | At(k, m) ensures DecryptFrame(p, Some(keys), frame(k, m)) == Ok(Some(m.body)) {
      FrameOpens(p, keys, id, k, m);
    }
    received := Exchange(sender, receiver, id, messages, keys, n, frame);
  }
}
