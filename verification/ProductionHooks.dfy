/**
 The hooks of a deployed agent: a rotation set of Ed25519 keys with approvers, tier permissions and local
 keys (crates/sda-device-control/src/router.rs:125-269). Ed25519 itself is a parameter.
 */
module ProductionHooks {
  import opened Wrappers
  import opened Utf8
  import opened Json
  import opened Types
  import opened Hex
  import opened Evidence
  import opened SignedJob
  import opened Router

  type Key = seq<Byte>

  datatype Crypto = Crypto(p: Primitives, verify: (Key, seq<Byte>, seq<Byte>) -> bool)

  datatype KeyState = KeyState(
    keys: map<string, Key>, permitted: Option<set<ActionKind>>, localKeys: set<string>, approvers: map<string, Uuid>)

  /** Look the key up and verify one signature over the job's pre-image. */
  function VerifyOne(c: Crypto, st: KeyState, j: Job, keyId: string, signature: seq<Byte>): Option<JobRefused>
  {
    if keyId !in st.keys then Some(UnknownKeyId)
    else
      var preImage := SigningPreImage(c.p, j);
      if preImage.Err? then Some(preImage.error)
      else if |signature| != 64 then Some(BadSignature)
      else if c.verify(st.keys[keyId], preImage.value, signature) then None
      else Some(BadSignature)
  }

  function HooksOf(c: Crypto, st: KeyState): Hooks
  {
    Hooks(
      (j: Job) => VerifyOne(c, st, j, j.keyId, j.signature),
      (a: ActionKind) => st.permitted.None? || a in st.permitted.value,
      (now: int) => true,
      (j: Job, a: AdditionalSignature) => VerifyOne(c, st, j, a.keyId, a.signature),
      (k: string) => if k in st.approvers then Some(st.approvers[k]) else None,
      (k: string) => k in st.localKeys)
  }

  /** The object itself; every mutator changes one table. */
  class Keyring {
    var keys: map<string, Key>
    var permitted: Option<set<ActionKind>>
    var localKeys: set<string>
    var approvers: map<string, Uuid>

    function State(): KeyState
      reads this
    {
      KeyState(keys, permitted, localKeys, approvers)
    }

    constructor (initial: map<string, Key>)
      ensures State() == KeyState(initial, None, {}, map[])
    {
      keys := initial;
      permitted := None;
      localKeys := {};
      approvers := map[];
    }

    method RestrictActions(actions: set<ActionKind>)
      modifies this
      ensures State() == old(State()).(permitted := Some(actions))
    {
      permitted := Some(actions);
    }

    method RegisterLocalEphemeralKey(keyId: string)
      modifies this
      ensures State() == old(State()).(localKeys := old(localKeys) + {keyId})
    {
      localKeys := localKeys + {keyId};
    }

    method UpsertKey(keyId: string, key: Key)
      modifies this
      ensures State() == old(State()).(keys := old(keys)[keyId := key])
    {
      keys := keys[keyId := key];
    }

    method RegisterApprover(keyId: string, user: Uuid)
      modifies this
      ensures State() == old(State()).(approvers := old(approvers)[keyId := user])
    {
      approvers := approvers[keyId := user];
    }
  }

  /** Whatever a deployed agent accepts has float-free args: their canonical form exists. */
  lemma AcceptedIsFloatFree(c: Crypto, st: KeyState, j: Job, id: Identity, now: int, d: Decoders)
    requires WellFormed(j.args) && Validate(j, id, now, HooksOf(c, st), d).Ok?
    ensures FloatFree(j.args)
  {
    StepsPass(j, id, now, HooksOf(c, st), d);
    PreImageExactly(c.p, j);
  }

  lemma LocalKeysOutsideDualControl(c: Crypto, st: KeyState, more: KeyState, j: Job)
    requires more == st.(localKeys := more.localKeys)
    ensures HooksOf(c, st).verifySignature(j) == HooksOf(c, more).verifySignature(j)
    ensures DualControl(j, HooksOf(c, st)) <==> DualControl(j, HooksOf(c, more))
  {
    forall k, signature ensures VerifyOne(c, st, j, k, signature) == VerifyOne(c, more, j, k, signature) {
    }
    SameDualControl(j, HooksOf(c, st), HooksOf(c, more));
  }

  /** Declaring a key local never lets a job through that was refused before. */
  lemma LocalKeysOnlyRestrict(c: Crypto, st: KeyState, keyId: string, j: Job, id: Identity, now: int, d: Decoders)
    requires Validate(j, id, now, HooksOf(c, st.(localKeys := st.localKeys + {keyId})), d).Ok?
    ensures Validate(j, id, now, HooksOf(c, st), d) ==
              Validate(j, id, now, HooksOf(c, st.(localKeys := st.localKeys + {keyId})), d)
  {
    var more := st.(localKeys := st.localKeys + {keyId});
    LocalKeysOutsideDualControl(c, st, more, j);
    FewerLocalKeys(j, id, now, HooksOf(c, st), HooksOf(c, more), d);
  }

  lemma VerifyIgnoresOrder(c: Crypto, st: KeyState, j: Job, additional: seq<AdditionalSignature>, keyId: string,
                           signature: seq<Byte>)
    ensures VerifyOne(c, st, j.(additional := additional), keyId, signature) == VerifyOne(c, st, j, keyId, signature)
  {
    PreImageIgnoresSignatures(c.p, j, j.signature, additional);
  }

  /** Rearranging the additional signatures of a job never changes what the pipeline decides. */
  lemma OrderOfSignaturesIrrelevant(c: Crypto, st: KeyState, j: Job, additional: seq<AdditionalSignature>, id: Identity,
                                    now: int, d: Decoders)
    requires multiset(additional) == multiset(j.additional)
    ensures Validate(j.(additional := additional), id, now, HooksOf(c, st), d) ==
              Validate(j, id, now, HooksOf(c, st), d)
  {
    var k, h := j.(additional := additional), HooksOf(c, st);
    forall keyId, signature ensures VerifyOne(c, st, k, keyId, signature) == VerifyOne(c, st, j, keyId, signature) {
      VerifyIgnoresOrder(c, st, j, additional, keyId, signature);
    }
    if DualControl(j, h) {
      DualControlRearranged(j, k, h);
    }
    if DualControl(k, h) {
      DualControlRearranged(k, j, h);
    }
    SameVerdict(j, k, id, now, h, h, d);
  }

  // ---- What a deployed agent accepts ----

  /** A known key verifies this 64-byte signature over the job's pre-image. */
  predicate SignedBy(c: Crypto, st: KeyState, j: Job, keyId: string, signature: seq<Byte>)
  {
    && keyId in st.keys && |signature| == 64
    && SigningPreImage(c.p, j).Ok? && c.verify(st.keys[keyId], SigningPreImage(c.p, j).value, signature)
  }

  lemma VerifyOneExactly(c: Crypto, st: KeyState, j: Job, keyId: string, signature: seq<Byte>)
    ensures VerifyOne(c, st, j, keyId, signature) ==
            if keyId !in st.keys then Some(UnknownKeyId)
            else if SignedBy(c, st, j, keyId, signature) then None
            else Some(BadSignature)
  {
  }

  /** Two or more keys, all signatures verified, all keys of registered and pairwise different approvers. */
  predicate DeployedApproved(c: Crypto, st: KeyState, j: Job)
  {
    var keys := KeyIds(j);
    && |keys| >= 2
    && (forall i :: 0 <= i < |j.additional| ==> SignedBy(c, st, j, j.additional[i].keyId, j.additional[i].signature))
    && (forall i :: 0 <= i < |keys| ==> keys[i] in st.approvers)
    && (forall i, k :: 0 <= i < k < |keys| ==> st.approvers[keys[i]] != st.approvers[keys[k]])
  }

  lemma ApproversExactly(c: Crypto, st: KeyState, keys: seq<string>)
    ensures (forall i :: 0 <= i < |keys| ==> HooksOf(c, st).approver(keys[i]).Some?) <==>
            forall i :: 0 <= i < |keys| ==> keys[i] in st.approvers
    ensures (forall i :: 0 <= i < |keys| ==> keys[i] in st.approvers) ==>
              ((forall i, k :: 0 <= i < k < |keys| ==>
                  HooksOf(c, st).approver(keys[i]) != HooksOf(c, st).approver(keys[k])) <==>
               forall i, k :: 0 <= i < k < |keys| ==> st.approvers[keys[i]] != st.approvers[keys[k]])
  {
  }

  lemma AdditionalExactly(c: Crypto, st: KeyState, j: Job)
    ensures (forall i :: 0 <= i < |j.additional| ==> HooksOf(c, st).verifyAdditional(j, j.additional[i]).None?) <==>
            forall i :: 0 <= i < |j.additional| ==>
              SignedBy(c, st, j, j.additional[i].keyId, j.additional[i].signature)
  {
    forall i | 0 <= i < |j.additional|
      ensures HooksOf(c, st).verifyAdditional(j, j.additional[i]).None? <==>
              SignedBy(c, st, j, j.additional[i].keyId, j.additional[i].signature)
    {
      VerifyOneExactly(c, st, j, j.additional[i].keyId, j.additional[i].signature);
    }
  }

  lemma ApprovedExactly(c: Crypto, st: KeyState, j: Job)
    ensures ApprovedTwice(j, HooksOf(c, st)) <==> DeployedApproved(c, st, j)
  {
    ApproversExactly(c, st, KeyIds(j));
    AdditionalExactly(c, st, j);
  }

  /** A deployed agent accepts a job exactly if it passes every gate; it keeps no maintenance window of its own. */
  lemma DeployedExactly(c: Crypto, st: KeyState, j: Job, id: Identity, now: int, d: Decoders)
    ensures Validate(j, id, now, HooksOf(c, st), d).Ok? <==>
            && WellStructured(j)
            && SignedBy(c, st, j, j.keyId, j.signature)
            && InTime(j, now)
            && j.tenantId == id.tenantId && j.deviceId == id.deviceId
            && (st.permitted.None? || j.action in st.permitted.value)
            && ParseArgs(d, j.action, j.args).Some?
            && (j.action == RemoteWipe ==> DeployedApproved(c, st, j))
            && (j.keyId in st.localKeys ==> LocallyAllowed(j))
  {
    AcceptedExactly(j, id, now, HooksOf(c, st), d);
    VerifyOneExactly(c, st, j, j.keyId, j.signature);
    ApprovedExactly(c, st, j);
  }

  // ---- What was signed is what is accepted ----

  /** Message `m` is the pre-image of job `k`. */
  ghost predicate Signs(p: Primitives, k: Job, m: seq<Byte>)
  {
    WellFormed(k.args) && FloatFree(k.args) && SigningPreImage(p, k) == Ok(m)
  }

  /** A signature verifies only over the pre-image of a job that the holder of the key signed. */
  ghost predicate Unforgeable(c: Crypto, signed: (Key, Job) -> bool)
  {
    forall key, m, s :: c.verify(key, m, s) ==> exists k :: signed(key, k) && Signs(c.p, k, m)
  }

  /** The holder of the key signed a job that agrees with this one outside the signature fields. */
  ghost predicate WasSigned(signed: (Key, Job) -> bool, key: Key, j: Job)
  {
    exists k :: signed(key, k) && SameJob(j, k)
  }

  lemma VerifiedWasSigned(c: Crypto, st: KeyState, j: Job, keyId: string, s: seq<Byte>, signed: (Key, Job) -> bool)
    requires Faithful(c.p) && Unforgeable(c, signed) && WellFormed(j.args)
    requires VerifyOne(c, st, j, keyId, s).None?
    ensures keyId in st.keys && WasSigned(signed, st.keys[keyId], j)
  {
    PreImageExactly(c.p, j);
    var m := SigningPreImage(c.p, j).value;
    assert c.verify(st.keys[keyId], m, s);
    var k :| signed(st.keys[keyId], k) && Signs(c.p, k, m);
    PreImageIffSameJob(c.p, j, k);
  }

  /** If signatures cannot be forged, a deployed agent accepts only what the holder of a known key signed. */
  lemma AcceptedWasSigned(c: Crypto, st: KeyState, j: Job, id: Identity, now: int, d: Decoders,
                          signed: (Key, Job) -> bool)
    requires Faithful(c.p) && Unforgeable(c, signed) && WellFormed(j.args)
    requires Validate(j, id, now, HooksOf(c, st), d).Ok?
    ensures j.keyId in st.keys && WasSigned(signed, st.keys[j.keyId], j)
  {
    StepsPass(j, id, now, HooksOf(c, st), d);
    VerifiedWasSigned(c, st, j, j.keyId, j.signature, signed);
  }

  lemma AdditionalWasSigned(c: Crypto, st: KeyState, j: Job, i: nat, signed: (Key, Job) -> bool)
    requires Faithful(c.p) && Unforgeable(c, signed) && WellFormed(j.args) && i < |j.additional|
    requires HooksOf(c, st).verifyAdditional(j, j.additional[i]).None?
    ensures j.additional[i].keyId in st.keys && WasSigned(signed, st.keys[j.additional[i].keyId], j)
  {
    VerifiedWasSigned(c, st, j, j.additional[i].keyId, j.additional[i].signature, signed);
  }

  lemma ApproversDiffer(c: Crypto, st: KeyState, keys: seq<string>)
    requires forall i :: 0 <= i < |keys| ==> HooksOf(c, st).approver(keys[i]).Some?
    requires forall i, k :: 0 <= i < k < |keys| ==> HooksOf(c, st).approver(keys[i]) != HooksOf(c, st).approver(keys[k])
    ensures forall i :: 0 <= i < |keys| ==> keys[i] in st.approvers
    ensures forall i, k :: 0 <= i < k < |keys| ==> st.approvers[keys[i]] != st.approvers[keys[k]]
  {
    forall i | 0 <= i < |keys| ensures keys[i] in st.approvers {
      assert HooksOf(c, st).approver(keys[i]).Some?;
    }
    forall i, k | 0 <= i < k < |keys| ensures st.approvers[keys[i]] != st.approvers[keys[k]] {
      assert HooksOf(c, st).approver(keys[i]) != HooksOf(c, st).approver(keys[k]);
    }
  }

  lemma WipeSigners(c: Crypto, st: KeyState, j: Job, id: Identity, now: int, d: Decoders, signed: (Key, Job) -> bool)
    requires Faithful(c.p) && Unforgeable(c, signed) && WellFormed(j.args)
    requires Validate(j, id, now, HooksOf(c, st), d).Ok? && j.action == RemoteWipe
    ensures forall i :: 0 <= i < |KeyIds(j)| ==> KeyIds(j)[i] in st.keys && WasSigned(signed, st.keys[KeyIds(j)[i]], j)
  {
    var h, fine := HooksOf(c, st), (k: string) => k in st.keys && WasSigned(signed, st.keys[k], j);
    AcceptedWasSigned(c, st, j, id, now, d, signed);
    forall i | 0 <= i < |j.additional| && h.verifyAdditional(j, j.additional[i]).None?
      ensures fine(j.additional[i].keyId)
    {
      AdditionalWasSigned(c, st, j, i, signed);
    }
    EveryKeyVerified(j, id, now, h, d, fine);
  }

  lemma WipeApprovers(c: Crypto, st: KeyState, j: Job, id: Identity, now: int, d: Decoders)
    requires Validate(j, id, now, HooksOf(c, st), d).Ok? && j.action == RemoteWipe
    ensures |KeyIds(j)| >= 2 && NoDuplicates(KeyIds(j))
    ensures forall i :: 0 <= i < |KeyIds(j)| ==> KeyIds(j)[i] in st.approvers
    ensures forall i, k :: 0 <= i < k < |KeyIds(j)| ==> st.approvers[KeyIds(j)[i]] != st.approvers[KeyIds(j)[k]]
  {
    WipeNeedsTwoApprovers(j, id, now, HooksOf(c, st), d);
    ApproversDiffer(c, st, KeyIds(j));
  }

  /** And a wipe only if that content was signed under two or more keys of pairwise different approvers. */
  lemma WipeWasSignedTwice(c: Crypto, st: KeyState, j: Job, id: Identity, now: int, d: Decoders,
                           signed: (Key, Job) -> bool)
    requires Faithful(c.p) && Unforgeable(c, signed) && WellFormed(j.args)
    requires Validate(j, id, now, HooksOf(c, st), d).Ok? && j.action == RemoteWipe
    ensures |KeyIds(j)| >= 2 && NoDuplicates(KeyIds(j))
    ensures forall i :: 0 <= i < |KeyIds(j)| ==> KeyIds(j)[i] in st.keys && WasSigned(signed, st.keys[KeyIds(j)[i]], j)
    ensures forall i :: 0 <= i < |KeyIds(j)| ==> KeyIds(j)[i] in st.approvers
    ensures forall i, k :: 0 <= i < k < |KeyIds(j)| ==> st.approvers[KeyIds(j)[i]] != st.approvers[KeyIds(j)[k]]
  {
    WipeSigners(c, st, j, id, now, d, signed);
    WipeApprovers(c, st, j, id, now, d);
  }
}
