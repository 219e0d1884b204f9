/**
 The validation pipeline of signed jobs (crates/sda-device-control/src/router.rs:59-441).
 */
module Router {
  import opened Wrappers
  import opened Types
  import opened Hex
  import opened SignedJob
  import JsonText
  import Lex

  const CLOCK_SKEW_TOLERANCE: int := 60

  /** `JobValidationHooks`: the decisions the pipeline delegates. `None` from a verifier means accepted. */
  datatype Hooks = Hooks(
    verifySignature: Job -> Option<JobRefused>,
    actionPermitted: ActionKind -> bool,
    inWindow: int -> bool,
    verifyAdditional: (Job, AdditionalSignature) -> Option<JobRefused>,
    approver: string -> Option<Uuid>,
    isLocalKey: string -> bool)

  datatype Identity = Identity(tenantId: Uuid, deviceId: Uuid)

  function StructuralToRefused(e: SignedJobError): JobRefused
  {
    if e.ArgsRejected? then ArgsParseError else SchemaParseError
  }

  // ---- What each step demands ----

  function Approvers(j: Job, h: Hooks): (r: seq<Option<Uuid>>)
    ensures |r| == 1 + |j.additional|
  {
    [h.approver(j.keyId)] + seq(|j.additional|, i requires 0 <= i < |j.additional| => h.approver(j.additional[i].keyId))
  }

  /** Two or more valid signatures, all from known and pairwise different approvers. */
  predicate DualControl(j: Job, h: Hooks)
  {
    var who := Approvers(j, h);
    && j.additional != []
    && (forall i :: 0 <= i < |j.additional| ==> h.verifyAdditional(j, j.additional[i]).None?)
    && (forall i :: 0 <= i < |who| ==> who[i].Some?)
    && (forall i, k :: 0 <= i < k < |who| ==> who[i] != who[k])
  }

  predicate IsPostureFix(a: ActionKind) { a == EnableDiskEncryption || a == EnableFirewall || a == SetScreenLock }

  function RefuseIf(refused: bool, reason: JobRefused): Option<JobRefused>
  {
    if refused then Some(reason) else None
  }

  /** The steps in order, each with the reason it refuses for. */
  function Steps(j: Job, id: Identity, now: int, h: Hooks, d: Decoders): seq<Option<JobRefused>>
  {
    var structure := ValidateStructure(j);
    [if structure.Some? then Some(StructuralToRefused(structure.value)) else None,
     h.verifySignature(j),
     RefuseIf(now < j.notBefore - CLOCK_SKEW_TOLERANCE || now > j.notAfter + CLOCK_SKEW_TOLERANCE, Expired),
     RefuseIf(j.tenantId != id.tenantId, TenantMismatch),
     RefuseIf(j.deviceId != id.deviceId, DeviceMismatch),
     RefuseIf(!h.actionPermitted(j.action), ActionNotPermitted),
     RefuseIf(!h.inWindow(now), OutsideWindow),
     RefuseIf(ParseArgs(d, j.action, j.args).None?, ArgsParseError),
     RefuseIf(j.action == RemoteWipe && !DualControl(j, h), WipeRequiresDualControl),
     RefuseIf(h.isLocalKey(j.keyId) && !(IsPostureFix(j.action) && j.recommendationId.None?),
              LocalKeyNotAuthorisedForAction)]
  }

  /** The reason of the first step that refuses. */
  function FirstRefusal(steps: seq<Option<JobRefused>>): (r: Option<JobRefused>)
    ensures r.None? <==> forall i :: 0 <= i < |steps| ==> steps[i].None?
    ensures r.Some? ==> exists i :: 0 <= i < |steps| && steps[i] == r && forall k :: 0 <= k < i ==> steps[k].None?
  {
    if steps == [] then None
    else if steps[0].Some? then steps[0]
    else
      var r := FirstRefusal(steps[1..]);
      assert r.Some? ==> exists i :: 0 <= i < |steps| && steps[i] == r && forall k :: 0 <= k < i ==> steps[k].None? by {
        if r.Some? {
          var i :| 0 <= i < |steps[1..]| && steps[1..][i] == r && forall k :: 0 <= k < i ==> steps[1..][k].None?;
          assert steps[i + 1] == r;
          assert forall k :: 0 <= k < i + 1 ==> steps[k].None? by {
            assert forall k :: 1 <= k < i + 1 ==> steps[k] == steps[1..][k - 1];
          }
        }
      }
      r
  }

  function Validate(j: Job, id: Identity, now: int, h: Hooks, d: Decoders): Result<JobArgs, JobRefused>
  {
    var refusal := FirstRefusal(Steps(j, id, now, h, d));
    if refusal.Some? then Err(refusal.value)
    else
      assert Steps(j, id, now, h, d)[7].None?;
      Ok(ParseArgs(d, j.action, j.args).value)
  }

  // ---- The dual-control gate as it is computed ----

  /** Byte order on UUIDs: nothing stands before a smaller element. */
  predicate Ascending(s: seq<Uuid>) { forall i, k :: 0 <= i < k < |s| ==> !Lex.Before(s[k], s[i]) }

  predicate NoDuplicates<T(==)>(s: seq<T>) { forall i, k :: 0 <= i < k < |s| ==> s[i] != s[k] }

  lemma InsertContents(r: seq<Uuid>, x: Uuid, i: nat)
    requires i <= |r|
    ensures multiset(r[..i] + [x] + r[i..]) == multiset(r) + multiset{x}
  {
    assert r == r[..i] + r[i..];
  }

  /** Not after, in both steps, is not after. */
  lemma NotAfter(a: Uuid, b: Uuid, c: Uuid)
    requires !Lex.Before(b, a) && !Lex.Before(c, b)
    ensures !Lex.Before(c, a)
  {
    Lex.Trichotomy(a, b);
    Lex.Trichotomy(b, c);
    if Lex.Before(c, a) {
      if a == b || b == c {
      } else {
        Lex.Transitive(b, c, a);
      }
    }
  }

  lemma InsertAscending(r: seq<Uuid>, x: Uuid, i: nat)
    requires Ascending(r) && i <= |r|
    requires forall k :: 0 <= k < i ==> !Lex.Before(x, r[k])
    requires forall k :: i <= k < |r| ==> !Lex.Before(r[k], x)
    ensures Ascending(r[..i] + [x] + r[i..])
  {
    var t := r[..i] + [x] + r[i..];
    forall m, n | 0 <= m < n < |t| ensures !Lex.Before(t[n], t[m]) {
      if m < i && n > i {
        assert t[m] == r[m] && t[n] == r[n - 1];
      } else if m < i && n < i {
        assert t[m] == r[m] && t[n] == r[n];
      } else if m > i {
        assert t[m] == r[m - 1] && t[n] == r[n - 1];
      }
    }
  }

  /** Everything up to the insertion point stays in front. */
  lemma FrontStays(r: seq<Uuid>, x: Uuid, i: nat)
    requires Ascending(r) && i <= |r| && (i > 0 ==> !Lex.Before(x, r[i - 1]))
    ensures forall k :: 0 <= k < i ==> !Lex.Before(x, r[k])
  {
    forall k | 0 <= k < i ensures !Lex.Before(x, r[k]) {
      if k < i - 1 {
        NotAfter(r[k], r[i - 1], x);
      }
    }
  }

  lemma Asymmetric(a: Uuid, b: Uuid)
    requires Lex.Before(a, b)
    ensures !Lex.Before(b, a)
  {
    Lex.Irreflexive(a);
    if Lex.Before(b, a) {
      Lex.Transitive(a, b, a);
    }
  }

  /** `sort_unstable`. */
  method SortUuids(s: seq<Uuid>) returns (r: seq<Uuid>)
    ensures Ascending(r) && multiset(r) == multiset(s)
  {
    r := [];
    for n := 0 to |s|
      invariant Ascending(r) && multiset(r) == multiset(s[..n])
    {
      var i := |r|;
      while i > 0 && Lex.Before(s[n], r[i - 1])
        invariant 0 <= i <= |r|
        invariant forall k :: i <= k < |r| ==> !Lex.Before(r[k], s[n])
      {
        Asymmetric(s[n], r[i - 1]);
        i := i - 1;
      }
      FrontStays(r, s[n], i);
      InsertContents(r, s[n], i);
      InsertAscending(r, s[n], i);
      assert s[..n + 1] == s[..n] + [s[n]];
      r := r[..i] + [s[n]] + r[i..];
    }
    assert s[..|s|] == s;
  }

  /** The elements that differ from the one before, in order. */
  function Deduped(s: seq<Uuid>): seq<Uuid>
  {
    if |s| <= 1 then s
    else
      var n := |s| - 1;
      Deduped(s[..n]) + if s[n] == s[n - 1] then [] else [s[n]]
  }

  lemma {:induction false} DedupedShape(s: seq<Uuid>)
    ensures s != [] ==> Deduped(s) != [] && Deduped(s)[|Deduped(s)| - 1] == s[|s| - 1]
    ensures |Deduped(s)| <= |s|
    ensures |Deduped(s)| == |s| <==> forall i :: 0 < i < |s| ==> s[i] != s[i - 1]
  {
    if |s| > 1 {
      var n := |s| - 1;
      DedupedShape(s[..n]);
      assert forall i :: 0 <= i < n ==> s[..n][i] == s[i];
    }
  }

  /** `Vec::dedup`: the order is kept and elements equal to the one before are dropped. */
  method Dedup(s: seq<Uuid>) returns (r: seq<Uuid>)
    ensures r == Deduped(s)
  {
    r := [];
    for n := 0 to |s|
      invariant r == Deduped(s[..n])
    {
      assert s[..n + 1][..n] == s[..n];
      DedupedShape(s[..n]);
      if r == [] || r[|r| - 1] != s[n] {
        r := r + [s[n]];
      }
    }
    assert s[..|s|] == s;
  }

  lemma {:induction false} DuplicateCount<T>(s: seq<T>)
    ensures NoDuplicates(s) <==> forall x :: multiset(s)[x] <= 1
  {
    if s != [] {
      var t := s[1..];
      assert s == [s[0]] + t;
      DuplicateCount(t);
      if NoDuplicates(s) {
        assert s[0] !in t;
      }
      if forall x :: multiset(s)[x] <= 1 {
        assert multiset(s)[s[0]] == 1 + multiset(t)[s[0]];
        assert s[0] !in t;
        forall x ensures multiset(t)[x] <= 1 {
          assert multiset(s)[x] <= 1;
        }
      }
    }
  }

  lemma NeighboursDiffer(s: seq<Uuid>)
    requires Ascending(s) && forall i :: 0 < i < |s| ==> s[i] != s[i - 1]
    ensures NoDuplicates(s)
  {
    forall i, k | 0 <= i < k < |s| ensures s[i] != s[k] {
      Lex.Trichotomy(s[k - 1], s[k]);
      assert Lex.Before(s[k - 1], s[k]);
    }
  }

  /** Sorting and dropping neighbours keeps the length exactly when nobody appears twice. */
  method AllDistinct(approvers: seq<Uuid>) returns (ok: bool)
    ensures ok <==> NoDuplicates(approvers)
  {
    var sorted := SortUuids(approvers);
    var deduped := Dedup(sorted);
    ok := |deduped| == |approvers|;
    DedupedShape(sorted);
    DuplicateCount(approvers);
    DuplicateCount(sorted);
    assert |sorted| == |multiset(sorted)| == |approvers|;
    if ok {
      NeighboursDiffer(sorted);
    }
  }

  /** Step 11 as a loop over the additional signatures that fills, sorts and dedups a vector. */
  method PassesDualControl(j: Job, h: Hooks) returns (ok: bool)
    ensures ok <==> DualControl(j, h)
  {
    if j.additional == [] {
      return false;
    }
    ghost var who := Approvers(j, h);
    var primary := h.approver(j.keyId);
    if primary.None? {
      assert who[0].None?;
      return false;
    }
    var approvers := [primary.value];
    for i := 0 to |j.additional|
      invariant |approvers| == i + 1
      invariant forall k :: 0 <= k <= i ==> who[k] == Some(approvers[k])
      invariant forall k :: 0 <= k < i ==> h.verifyAdditional(j, j.additional[k]).None?
    {
      if h.verifyAdditional(j, j.additional[i]).Some? {
        return false;
      }
      var id := h.approver(j.additional[i].keyId);
      assert who[i + 1] == id;
      if id.None? {
        return false;
      }
      approvers := approvers + [id.value];
    }
    ok := AllDistinct(approvers);
    assert NoDuplicates(approvers) <==> forall i, k :: 0 <= i < k < |who| ==> who[i] != who[k];
  }

  /** Ten steps, tried one after the other. */
  lemma InSequence(s: seq<Option<JobRefused>>)
    requires |s| == 10
    ensures FirstRefusal(s) == if s[0].Some? then s[0] else if s[1].Some? then s[1] else if s[2].Some? then s[2]
                               else if s[3].Some? then s[3] else if s[4].Some? then s[4] else if s[5].Some? then s[5]
                               else if s[6].Some? then s[6] else if s[7].Some? then s[7] else if s[8].Some? then s[8]
                               else s[9]
  {
    var r := FirstRefusal(s);
    if r.Some? {
      var i :| 0 <= i < |s| && s[i] == r && forall k :: 0 <= k < i ==> s[k].None?;
    }
  }

  /** `validate`: early returns, in the order of the steps. */
  method ValidateJob(j: Job, id: Identity, now: int, h: Hooks, d: Decoders) returns (r: Result<JobArgs, JobRefused>)
    ensures r == Validate(j, id, now, h, d)
  {
    InSequence(Steps(j, id, now, h, d));
    var structure := ValidateStructure(j);
    if structure.Some? {
      return Err(StructuralToRefused(structure.value));
    }
    var signature := h.verifySignature(j);
    if signature.Some? {
      return Err(signature.value);
    }
    if now < j.notBefore - CLOCK_SKEW_TOLERANCE {
      return Err(Expired);
    }
    if now > j.notAfter + CLOCK_SKEW_TOLERANCE {
      return Err(Expired);
    }
    if j.tenantId != id.tenantId {
      return Err(TenantMismatch);
    }
    if j.deviceId != id.deviceId {
      return Err(DeviceMismatch);
    }
    if !h.actionPermitted(j.action) {
      return Err(ActionNotPermitted);
    }
    if !h.inWindow(now) {
      return Err(OutsideWindow);
    }
    var args := ParseArgs(d, j.action, j.args);
    if args.None? {
      return Err(ArgsParseError);
    }
    if j.action == RemoteWipe {
      var dual := PassesDualControl(j, h);
      if !dual {
        return Err(WipeRequiresDualControl);
      }
    }
    if h.isLocalKey(j.keyId) {
      if !IsPostureFix(j.action) || j.recommendationId.Some? {
        return Err(LocalKeyNotAuthorisedForAction);
      }
    }
    return Ok(args.value);
  }

  // ---- Main results ----

  /** A job passes exactly when every step lets it through. */
  lemma StepsPass(j: Job, id: Identity, now: int, h: Hooks, d: Decoders)
    ensures Validate(j, id, now, h, d).Ok? <==>
            && ValidateStructure(j).None?
            && h.verifySignature(j).None?
            && j.notBefore - CLOCK_SKEW_TOLERANCE <= now <= j.notAfter + CLOCK_SKEW_TOLERANCE
            && j.tenantId == id.tenantId && j.deviceId == id.deviceId
            && h.actionPermitted(j.action) && h.inWindow(now)
            && ParseArgs(d, j.action, j.args).Some?
            && (j.action == RemoteWipe ==> DualControl(j, h))
            && (h.isLocalKey(j.keyId) ==> IsPostureFix(j.action) && j.recommendationId.None?)
  {
    var steps := Steps(j, id, now, h, d);
    assert steps[0].None? <==> ValidateStructure(j).None?;
    assert steps[1] == h.verifySignature(j);
    assert steps[2].None? <==> j.notBefore - CLOCK_SKEW_TOLERANCE <= now <= j.notAfter + CLOCK_SKEW_TOLERANCE;
    assert steps[3].None? && steps[4].None? <==> j.tenantId == id.tenantId && j.deviceId == id.deviceId;
    assert steps[5].None? && steps[6].None? <==> h.actionPermitted(j.action) && h.inWindow(now);
    assert steps[7].None? <==> ParseArgs(d, j.action, j.args).Some?;
    assert steps[8].None? <==> (j.action == RemoteWipe ==> DualControl(j, h));
    assert steps[9].None? <==> (h.isLocalKey(j.keyId) ==> IsPostureFix(j.action) && j.recommendationId.None?);
  }

  /** The key ids of all signatures on a job, the primary one first. */
  function KeyIds(j: Job): (r: seq<string>)
    ensures |r| == 1 + |j.additional|
  {
    [j.keyId] + seq(|j.additional|, i requires 0 <= i < |j.additional| => j.additional[i].keyId)
  }

  // What the gates demand, told apart from the code.

  /** Schema version 1, at most 64 KiB of compact args, an ordered window. */
  predicate WellStructured(j: Job)
  {
    j.schemaVersion == 1 && |JsonText.Print(j.args)| <= 65536 && j.notBefore <= j.notAfter
  }

  /** Within the window, a minute of skew allowed at either end. */
  predicate InTime(j: Job, now: int) { j.notBefore - 60 <= now <= j.notAfter + 60 }

  /** Two or more keys, all signatures verified, all keys of registered and pairwise different approvers. */
  predicate ApprovedTwice(j: Job, h: Hooks)
  {
    var keys := KeyIds(j);
    && |keys| >= 2 && (forall i :: 0 <= i < |j.additional| ==> h.verifyAdditional(j, j.additional[i]).None?)
    && (forall i :: 0 <= i < |keys| ==> h.approver(keys[i]).Some?)
    && (forall i, k :: 0 <= i < k < |keys| ==> h.approver(keys[i]) != h.approver(keys[k]))
  }

  /** A posture fix that answers no recommendation. */
  predicate LocallyAllowed(j: Job)
  {
    j.action in {EnableDiskEncryption, EnableFirewall, SetScreenLock} && j.recommendationId.None?
  }

  lemma StructureExactly(j: Job)
    ensures ValidateStructure(j).None? <==> WellStructured(j)
    ensures ValidateStructure(j).Some? ==> StructuralToRefused(ValidateStructure(j).value) == SchemaParseError
  {
  }

  lemma DualControlExactly(j: Job, h: Hooks)
    ensures DualControl(j, h) <==> ApprovedTwice(j, h)
  {
    var who, keys := Approvers(j, h), KeyIds(j);
    assert forall i :: 0 <= i < |keys| ==> who[i] == h.approver(keys[i]);
  }

  /** A job is accepted exactly when it passes every gate, and then its parsed args are returned. */
  lemma AcceptedExactly(j: Job, id: Identity, now: int, h: Hooks, d: Decoders)
    ensures Validate(j, id, now, h, d).Ok? <==>
            && WellStructured(j)
            && h.verifySignature(j).None?
            && InTime(j, now)
            && j.tenantId == id.tenantId && j.deviceId == id.deviceId
            && h.actionPermitted(j.action) && h.inWindow(now)
            && ParseArgs(d, j.action, j.args).Some?
            && (j.action == RemoteWipe ==> ApprovedTwice(j, h))
            && (h.isLocalKey(j.keyId) ==> LocallyAllowed(j))
    ensures Validate(j, id, now, h, d).Ok? ==> Validate(j, id, now, h, d).value == ParseArgs(d, j.action, j.args).value
  {
    StepsPass(j, id, now, h, d);
    StructureExactly(j);
    DualControlExactly(j, h);
  }

  lemma StepReasons(j: Job, id: Identity, now: int, h: Hooks, d: Decoders)
    ensures var s := Steps(j, id, now, h, d);
            && |s| == 10
            && s[0] == RefuseIf(!WellStructured(j), SchemaParseError)
            && s[1] == h.verifySignature(j)
            && s[2] == RefuseIf(!InTime(j, now), Expired)
            && s[8] == RefuseIf(j.action == RemoteWipe && !ApprovedTwice(j, h), WipeRequiresDualControl)
            && s[9] == RefuseIf(h.isLocalKey(j.keyId) && !LocallyAllowed(j), LocalKeyNotAuthorisedForAction)
  {
    StructureExactly(j);
    DualControlExactly(j, h);
  }

  /** Every verdict, gate by gate: the first gate that is shut names the reason. */
  lemma VerdictExactly(j: Job, id: Identity, now: int, h: Hooks, d: Decoders)
    ensures Validate(j, id, now, h, d) ==
            if !WellStructured(j) then Err(SchemaParseError)
            else if h.verifySignature(j).Some? then Err(h.verifySignature(j).value)
            else if !InTime(j, now) then Err(Expired)
            else if j.tenantId != id.tenantId then Err(TenantMismatch)
            else if j.deviceId != id.deviceId then Err(DeviceMismatch)
            else if !h.actionPermitted(j.action) then Err(ActionNotPermitted)
            else if !h.inWindow(now) then Err(OutsideWindow)
            else if ParseArgs(d, j.action, j.args).None? then Err(ArgsParseError)
            else if j.action == RemoteWipe && !ApprovedTwice(j, h) then Err(WipeRequiresDualControl)
            else if h.isLocalKey(j.keyId) && !LocallyAllowed(j) then Err(LocalKeyNotAuthorisedForAction)
            else Ok(ParseArgs(d, j.action, j.args).value)
  {
    StepReasons(j, id, now, h, d);
    InSequence(Steps(j, id, now, h, d));
  }

  /**
   An accepted wipe carries at least two verified signatures whose approvers, and hence whose keys, are pairwise
   different.
   */
  lemma WipeNeedsTwoApprovers(j: Job, id: Identity, now: int, h: Hooks, d: Decoders)
    requires Validate(j, id, now, h, d).Ok? && j.action == RemoteWipe
    ensures |KeyIds(j)| >= 2
    ensures forall i :: 0 <= i < |KeyIds(j)| ==> h.approver(KeyIds(j)[i]).Some?
    ensures forall i, k :: 0 <= i < k < |KeyIds(j)| ==> h.approver(KeyIds(j)[i]) != h.approver(KeyIds(j)[k])
    ensures NoDuplicates(KeyIds(j))
    ensures h.verifySignature(j).None?
    ensures forall i :: 0 <= i < |j.additional| ==> h.verifyAdditional(j, j.additional[i]).None?
  {
    StepsPass(j, id, now, h, d);
    var who, keys := Approvers(j, h), KeyIds(j);
    assert forall i :: 0 <= i < |keys| ==> who[i] == h.approver(keys[i]);
  }

  /** What a verified signature tells of its key holds of every key of an accepted wipe. */
  lemma EveryKeyVerified(j: Job, id: Identity, now: int, h: Hooks, d: Decoders, fine: string -> bool)
    requires Validate(j, id, now, h, d).Ok? && j.action == RemoteWipe
    requires h.verifySignature(j).None? ==> fine(j.keyId)
    requires forall i :: 0 <= i < |j.additional| && h.verifyAdditional(j, j.additional[i]).None?
                  ==> fine(j.additional[i].keyId)
    ensures forall i :: 0 <= i < |KeyIds(j)| ==> fine(KeyIds(j)[i])
  {
    WipeNeedsTwoApprovers(j, id, now, h, d);
  }

  /** A job signed by the agent's own key is a posture fix that answers no recommendation, or it is refused. */
  lemma LocalKeyOnlyFixesPosture(j: Job, id: Identity, now: int, h: Hooks, d: Decoders)
    requires Validate(j, id, now, h, d).Ok? && h.isLocalKey(j.keyId)
    ensures j.action in {EnableDiskEncryption, EnableFirewall, SetScreenLock} && j.recommendationId.None?
  {
    StepsPass(j, id, now, h, d);
  }

  // ---- When two calls decide alike ----

  lemma SameVerdict(j: Job, k: Job, id: Identity, now: int, g: Hooks, h: Hooks, d: Decoders)
    requires k == j.(signature := k.signature, additional := k.additional)
    requires g.verifySignature(j) == h.verifySignature(k)
    requires g.actionPermitted(j.action) == h.actionPermitted(j.action) && g.inWindow(now) == h.inWindow(now)
    requires DualControl(j, g) <==> DualControl(k, h)
    requires g.isLocalKey(j.keyId) == h.isLocalKey(j.keyId)
    ensures Validate(j, id, now, g, d) == Validate(k, id, now, h, d)
  {
    assert Steps(j, id, now, g, d) == Steps(k, id, now, h, d);
  }

  lemma FewerLocalKeys(j: Job, id: Identity, now: int, g: Hooks, h: Hooks, d: Decoders)
    requires g.verifySignature(j) == h.verifySignature(j)
    requires g.actionPermitted(j.action) == h.actionPermitted(j.action) && g.inWindow(now) == h.inWindow(now)
    requires DualControl(j, g) <==> DualControl(j, h)
    requires g.isLocalKey(j.keyId) ==> h.isLocalKey(j.keyId)
    requires Validate(j, id, now, h, d).Ok?
    ensures Validate(j, id, now, g, d) == Validate(j, id, now, h, d)
  {
    StepsPass(j, id, now, g, d);
    StepsPass(j, id, now, h, d);
  }

  lemma SameDualControl(j: Job, g: Hooks, h: Hooks)
    requires g.approver(j.keyId) == h.approver(j.keyId)
    requires forall i :: 0 <= i < |j.additional| ==>
               g.approver(j.additional[i].keyId) == h.approver(j.additional[i].keyId)
    requires forall i :: 0 <= i < |j.additional| ==>
               g.verifyAdditional(j, j.additional[i]) == h.verifyAdditional(j, j.additional[i])
    ensures DualControl(j, g) <==> DualControl(j, h)
  {
    assert Approvers(j, g) == Approvers(j, h);
  }

  // ---- Rearranging the additional signatures ----

  function Without<T>(s: seq<T>, i: nat): seq<T>
    requires i < |s|
  {
    s[..i] + s[i + 1..]
  }

  lemma WithoutContents<T>(s: seq<T>, i: nat)
    requires i < |s|
    ensures multiset(s) == multiset(Without(s, i)) + multiset{s[i]}
    ensures multiset(Without(s, i)) == multiset(s) - multiset{s[i]}
  {
    assert s == s[..i] + [s[i]] + s[i + 1..];
  }

  lemma FindIn<T>(x: T, s: seq<T>) returns (i: nat)
    requires x in multiset(s)
    ensures i < |s| && s[i] == x
  {
    i :| i < |s| && s[i] == x;
  }

  function KeyApprovers(h: Hooks, s: seq<AdditionalSignature>): (r: seq<Option<Uuid>>)
    ensures |r| == |s| && forall i :: 0 <= i < |s| ==> r[i] == h.approver(s[i].keyId)
  {
    seq(|s|, i requires 0 <= i < |s| => h.approver(s[i].keyId))
  }

  lemma KeyApproversWithout(h: Hooks, s: seq<AdditionalSignature>, i: nat)
    requires i < |s|
    ensures multiset(KeyApprovers(h, s)) == multiset(KeyApprovers(h, Without(s, i))) + multiset{h.approver(s[i].keyId)}
  {
    WithoutContents(KeyApprovers(h, s), i);
    assert KeyApprovers(h, Without(s, i)) == Without(KeyApprovers(h, s), i);
  }

  /** A rearrangement of the signatures rearranges the approvers. */
  lemma {:induction false} ApproversRearranged(h: Hooks, s: seq<AdditionalSignature>, t: seq<AdditionalSignature>)
    requires multiset(s) == multiset(t)
    ensures multiset(KeyApprovers(h, s)) == multiset(KeyApprovers(h, t))
    decreases |s|
  {
    assert |s| == |multiset(s)| == |t|;
    if s != [] {
      assert s[0] in multiset(s);
      var i := FindIn(s[0], t);
      WithoutContents(s, 0);
      WithoutContents(t, i);
      KeyApproversWithout(h, s, 0);
      KeyApproversWithout(h, t, i);
      ApproversRearranged(h, Without(s, 0), Without(t, i));
    }
  }

  /** Dual control does not depend on the order of the additional signatures, if verifying one does not. */
  lemma DualControlRearranged(j: Job, k: Job, h: Hooks)
    requires k == j.(additional := k.additional) && multiset(k.additional) == multiset(j.additional)
    requires forall i :: 0 <= i < |k.additional| ==>
               h.verifyAdditional(k, k.additional[i]) == h.verifyAdditional(j, k.additional[i])
    requires DualControl(j, h)
    ensures DualControl(k, h)
  {
    assert |j.additional| == |multiset(j.additional)| == |k.additional|;
    forall i | 0 <= i < |k.additional| ensures h.verifyAdditional(k, k.additional[i]).None? {
      assert k.additional[i] in multiset(k.additional);
      var n := FindIn(k.additional[i], j.additional);
    }
    ApproversRearranged(h, j.additional, k.additional);
    var a, b := Approvers(j, h), Approvers(k, h);
    assert a == [h.approver(j.keyId)] + KeyApprovers(h, j.additional);
    assert b == [h.approver(j.keyId)] + KeyApprovers(h, k.additional);
    SameMembers(a, b);
  }

  lemma SameMembers(a: seq<Option<Uuid>>, b: seq<Option<Uuid>>)
    requires multiset(a) == multiset(b)
    requires NoDuplicates(a) && forall i :: 0 <= i < |a| ==> a[i].Some?
    ensures NoDuplicates(b) && forall i :: 0 <= i < |b| ==> b[i].Some?
  {
    DuplicateCount(a);
    DuplicateCount(b);
    forall i | 0 <= i < |b| ensures b[i].Some? {
      assert b[i] in multiset(b);
      var n := FindIn(b[i], a);
    }
  }
}
