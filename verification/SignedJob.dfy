/**
 Signed action jobs: their JSON form, the pre-image their signatures cover, and the checks that need no
 outside state (crates/sda-device-control/src/signed_job.rs, crates/sda-device-control/src/router.rs:193-205).
 */
module SignedJob {
  import opened Wrappers
  import TextLines
  import opened Utf8
  import opened Json
  import opened JsonText
  import opened Types
  import opened Schema
  import opened Canonical
  import opened Hex
  import opened Evidence
  import Truncation

  datatype AdditionalSignature = AdditionalSignature(signature: seq<Byte>, keyId: string)

  datatype Job = Job(
    jobId: Uuid, tenantId: Uuid, deviceId: Uuid, schemaVersion: U16, recommendationId: Option<Uuid>,
    action: ActionKind, args: Value, notBefore: int, notAfter: int, signature: seq<Byte>, keyId: string,
    correlationId: Option<Uuid>, additional: seq<AdditionalSignature>)

  // ---- Jobs as JSON ----

  /** The fields that are always present; the signature value is a parameter. */
  function FixedJobFields(p: Primitives, j: Job, signature: Value): seq<Member>
  {
    [Member("job_id", Str(p.uuidText(j.jobId))),
     Member("tenant_id", Str(p.uuidText(j.tenantId))),
     Member("device_id", Str(p.uuidText(j.deviceId))),
     Member("schema_version", Num(Integer(j.schemaVersion))),
     Member("action", Str(p.actionName(j.action))),
     Member("args", j.args),
     Member("not_before", Str(p.timeText(j.notBefore))),
     Member("not_after", Str(p.timeText(j.notAfter))),
     Member("signature", signature),
     Member("key_id", Str(j.keyId))]
  }

  function JobFields1(p: Primitives, j: Job, signature: Value): seq<Member>
  {
    FixedJobFields(p, j, signature) + Optional("recommendation_id", UuidOption(p, j.recommendationId))
  }

  function JobFields2(p: Primitives, j: Job, signature: Value): seq<Member>
  {
    JobFields1(p, j, signature) + Optional("correlation_id", UuidOption(p, j.correlationId))
  }

  function AdditionalValue(a: AdditionalSignature): Value
  {
    Obj([Member("signature", Bytes(a.signature)), Member("key_id", Str(a.keyId))])
  }

  function AdditionalOption(additional: seq<AdditionalSignature>): Option<Value>
  {
    if additional == [] then None
    else Some(Arr(seq(|additional|, i requires 0 <= i < |additional| => AdditionalValue(additional[i]))))
  }

  /** `serde_json::to_value` of a job: an empty list of additional signatures is left out. */
  function JobMembers(p: Primitives, j: Job): seq<Member>
  {
    JobFields2(p, j, Bytes(j.signature)) + Optional("additional_signatures", AdditionalOption(j.additional))
  }

  /**
   `signing_pre_image`: both signature fields are set to the empty array, the second even where serde leaves it
   out.
   */
  function SigningPreImage(p: Primitives, j: Job): Result<seq<Byte>, JobRefused>
  {
    var blanked := Put(Put(JobMembers(p, j), "signature", Arr([])), "additional_signatures", Arr([]));
    var bytes := Canonicalize(Obj(blanked));
    if bytes.Err? then Err(BadSignature) else Ok(bytes.value)
  }

  /** The member list the pre-image is taken of, whatever signatures the job carries. */
  function BlankFields(p: Primitives, j: Job): seq<Member>
  {
    JobFields2(p, j, Arr([])) + Optional("additional_signatures", Some(Arr([])))
  }

  const JOB_TAGS: seq<int> := [100106006, 100116009, 100100009, 110115014, 110097006, 115097004, 101110010, 114110009,
                              101115009, 100107006]

  lemma JobTags(p: Primitives, j: Job, signature: Value)
    ensures var ms := FixedJobFields(p, j, signature);
            |ms| == 10 && forall i :: 0 <= i < 10 ==> ms[i].key != "" && Tag(ms[i].key) == JOB_TAGS[i]
  {
  }

  lemma JobTagsDistinct()
    ensures forall i, k :: 0 <= i < k < 10 ==> JOB_TAGS[i] != JOB_TAGS[k]
  {
  }

  lemma FixedJobDistinct(p: Primitives, j: Job, signature: Value)
    ensures DistinctKeys(FixedJobFields(p, j, signature))
    ensures var ms := FixedJobFields(p, j, signature);
            !HasKey(ms, "recommendation_id") && !HasKey(ms, "correlation_id") && !HasKey(ms, "additional_signatures")
  {
    JobTags(p, j, signature);
    JobTagsDistinct();
    assert Tag("recommendation_id") == 100114017;
    assert Tag("correlation_id") == 100099014;
    assert Tag("additional_signatures") == 115097021;
  }

  lemma JobOptionalAbsent(p: Primitives, j: Job, signature: Value)
    ensures !HasKey(JobFields1(p, j, signature), "correlation_id")
    ensures !HasKey(JobFields2(p, j, signature), "additional_signatures")
  {
    FixedJobDistinct(p, j, signature);
    OptionalKeys(FixedJobFields(p, j, signature), "recommendation_id", UuidOption(p, j.recommendationId));
    OptionalKeys(JobFields1(p, j, signature), "correlation_id", UuidOption(p, j.correlationId));
    assert |"recommendation_id"| == 17 && |"correlation_id"| == 14 && |"additional_signatures"| == 21;
  }

  lemma SignatureBlanked(p: Primitives, j: Job)
    ensures Put(JobMembers(p, j), "signature", Arr([]))
         == JobFields2(p, j, Arr([])) + Optional("additional_signatures", AdditionalOption(j.additional))
  {
    var ms, fixed := JobMembers(p, j), FixedJobFields(p, j, Bytes(j.signature));
    JobTags(p, j, Bytes(j.signature));
    JobTagsDistinct();
    assert Tag("signature") == JOB_TAGS[8];
    assert ms[8].key == "signature";
    forall i | 0 <= i < 8 ensures ms[i].key != "signature" {
      assert ms[i] == fixed[i];
    }
    PutAt(ms, 8, "signature", Arr([]));
    assert fixed[8 := Member("signature", Arr([]))] == FixedJobFields(p, j, Arr([]));
  }

  /** Blanking gives the same fields for every job content, present or absent signatures alike. */
  lemma AllBlanked(p: Primitives, j: Job)
    ensures Put(Put(JobMembers(p, j), "signature", Arr([])), "additional_signatures", Arr([])) == BlankFields(p, j)
  {
    SignatureBlanked(p, j);
    JobOptionalAbsent(p, j, Arr([]));
    var base := JobFields2(p, j, Arr([]));
    if j.additional == [] {
      assert base + Optional("additional_signatures", None) == base;
      PutNew(base, "additional_signatures", Arr([]));
    } else {
      var ms := base + Optional("additional_signatures", AdditionalOption(j.additional));
      forall i | 0 <= i < |base| ensures ms[i].key != "additional_signatures" {
        assert HasKey(base, base[i].key);
      }
      PutAt(ms, |base|, "additional_signatures", Arr([]));
    }
  }

  lemma BlankDistinct(p: Primitives, j: Job)
    ensures DistinctKeys(BlankFields(p, j))
  {
    FixedJobDistinct(p, j, Arr([]));
    JobOptionalAbsent(p, j, Arr([]));
    DistinctOptional(FixedJobFields(p, j, Arr([])), "recommendation_id", UuidOption(p, j.recommendationId));
    DistinctOptional(JobFields1(p, j, Arr([])), "correlation_id", UuidOption(p, j.correlationId));
    DistinctOptional(JobFields2(p, j, Arr([])), "additional_signatures", Some(Arr([])));
  }

  lemma BlankShape(p: Primitives, j: Job)
    requires WellFormed(j.args)
    ensures WellFormed(Obj(BlankFields(p, j)))
    ensures FloatFree(Obj(BlankFields(p, j))) <==> FloatFree(j.args)
  {
    BlankDistinct(p, j);
    var fixed := FixedJobFields(p, j, Arr([]));
    assert fixed[5].value == j.args && BlankFields(p, j)[5].value == j.args;
    assert forall i :: 0 <= i < |fixed| && i != 5 ==> GoodValue(fixed[i].value);
  }

  lemma DistinctOptional(ms: seq<Member>, k: string, o: Option<Value>)
    requires DistinctKeys(ms) && !HasKey(ms, k)
    ensures DistinctKeys(ms + Optional(k, o))
  {
  }

  /** The pre-image exists exactly when the args hold no float. */
  lemma PreImageExactly(p: Primitives, j: Job)
    requires WellFormed(j.args)
    ensures SigningPreImage(p, j).Ok? <==> FloatFree(j.args)
    ensures SigningPreImage(p, j).Err? ==> SigningPreImage(p, j).error == BadSignature
  {
    AllBlanked(p, j);
    BlankShape(p, j);
    CanonicalExactly(Obj(BlankFields(p, j)));
  }

  /** Equality of jobs as signers see them: everything but the signatures, args compared as JSON values. */
  ghost predicate SameJob(j: Job, k: Job)
  {
    j.(args := Null, signature := [], additional := []) == k.(args := Null, signature := [], additional := []) &&
    Same(j.args, k.args)
  }

  lemma JobTexts(p: Primitives, j: Job, k: Job)
    requires Aligned(FixedJobFields(p, j, Arr([])), FixedJobFields(p, k, Arr([])))
    ensures p.uuidText(j.jobId) == p.uuidText(k.jobId) && p.uuidText(j.tenantId) == p.uuidText(k.tenantId)
    ensures p.uuidText(j.deviceId) == p.uuidText(k.deviceId) && j.schemaVersion == k.schemaVersion
    ensures p.actionName(j.action) == p.actionName(k.action) && Same(j.args, k.args)
    ensures p.timeText(j.notBefore) == p.timeText(k.notBefore) && p.timeText(j.notAfter) == p.timeText(k.notAfter)
    ensures j.keyId == k.keyId
  {
    var ms, ns := FixedJobFields(p, j, Arr([])), FixedJobFields(p, k, Arr([]));
    assert Same(ms[0].value, ns[0].value) && Same(ms[1].value, ns[1].value) && Same(ms[2].value, ns[2].value);
    assert Same(ms[3].value, ns[3].value) && Same(ms[4].value, ns[4].value) && Same(ms[5].value, ns[5].value);
    assert Same(ms[6].value, ns[6].value) && Same(ms[7].value, ns[7].value) && Same(ms[9].value, ns[9].value);
  }

  lemma JobAligned(p: Primitives, j: Job, k: Job)
    ensures Same(Obj(FixedJobFields(p, j, Arr([]))), Obj(FixedJobFields(p, k, Arr([]))))
       <==> Aligned(FixedJobFields(p, j, Arr([])), FixedJobFields(p, k, Arr([])))
  {
    FixedJobDistinct(p, j, Arr([]));
    FixedFields(FixedJobFields(p, j, Arr([])), FixedJobFields(p, k, Arr([])));
  }

  lemma BlankDetermines(p: Primitives, j: Job, k: Job)
    requires Faithful(p)
    requires Same(Obj(BlankFields(p, j)), Obj(BlankFields(p, k)))
    ensures SameJob(j, k)
  {
    var none := Arr([]);
    FixedJobDistinct(p, j, none);
    FixedJobDistinct(p, k, none);
    JobOptionalAbsent(p, j, none);
    JobOptionalAbsent(p, k, none);
    Peel(JobFields2(p, j, none), JobFields2(p, k, none), "additional_signatures", Some(none), Some(none));
    Peel(JobFields1(p, j, none), JobFields1(p, k, none), "correlation_id",
         UuidOption(p, j.correlationId), UuidOption(p, k.correlationId));
    Peel(FixedJobFields(p, j, none), FixedJobFields(p, k, none), "recommendation_id",
         UuidOption(p, j.recommendationId), UuidOption(p, k.recommendationId));
    JobAligned(p, j, k);
    JobTexts(p, j, k);
  }

  lemma SameJobBlank(p: Primitives, j: Job, k: Job)
    requires SameJob(j, k)
    ensures Same(Obj(BlankFields(p, j)), Obj(BlankFields(p, k)))
  {
    var none := Arr([]);
    FixedJobDistinct(p, j, none);
    FixedJobDistinct(p, k, none);
    JobOptionalAbsent(p, j, none);
    JobOptionalAbsent(p, k, none);
    assert FixedJobFields(p, k, none) == FixedJobFields(p, j, none)[5 := Member("args", k.args)];
    assert Aligned(FixedJobFields(p, j, none), FixedJobFields(p, k, none));
    JobAligned(p, j, k);
    Extend(FixedJobFields(p, j, none), FixedJobFields(p, k, none), "recommendation_id",
           UuidOption(p, j.recommendationId), UuidOption(p, k.recommendationId));
    Extend(JobFields1(p, j, none), JobFields1(p, k, none), "correlation_id",
           UuidOption(p, j.correlationId), UuidOption(p, k.correlationId));
    Extend(JobFields2(p, j, none), JobFields2(p, k, none), "additional_signatures", Some(none), Some(none));
  }

  /** Two pre-images are equal exactly when the blanked jobs are the same JSON value. */
  lemma PreImageIffSameBlank(p: Primitives, j: Job, k: Job)
    requires WellFormed(j.args) && WellFormed(k.args) && FloatFree(j.args) && FloatFree(k.args)
    ensures SigningPreImage(p, j) == SigningPreImage(p, k) <==> Same(Obj(BlankFields(p, j)), Obj(BlankFields(p, k)))
  {
    PreImageIsBlank(p, j);
    PreImageIsBlank(p, k);
    CanonicalIffSame(Obj(BlankFields(p, j)), Obj(BlankFields(p, k)));
  }

  lemma PreImageIsBlank(p: Primitives, j: Job)
    requires WellFormed(j.args) && FloatFree(j.args)
    ensures var v := Obj(BlankFields(p, j));
            WellFormed(v) && FloatFree(v) && Canonicalize(v).Ok? && SigningPreImage(p, j) == Ok(Canonicalize(v).value)
  {
    AllBlanked(p, j);
    BlankShape(p, j);
    CanonicalExactly(Obj(BlankFields(p, j)));
  }

  /** Blanked jobs are the same JSON value exactly when the jobs agree outside the signatures. */
  lemma SameBlankIffSameJob(p: Primitives, j: Job, k: Job)
    requires Faithful(p)
    ensures Same(Obj(BlankFields(p, j)), Obj(BlankFields(p, k))) <==> SameJob(j, k)
  {
    if SameJob(j, k) {
      SameJobBlank(p, j, k);
    } else if Same(Obj(BlankFields(p, j)), Obj(BlankFields(p, k))) {
      BlankDetermines(p, j, k);
    }
  }

  /**
   The signing pre-image covers exactly the job without its signatures: for float-free args two jobs have
   the same pre-image if and only if they agree on every field except `signature` and
   `additional_signatures`.
   */
  lemma PreImageIffSameJob(p: Primitives, j: Job, k: Job)
    requires Faithful(p) && WellFormed(j.args) && WellFormed(k.args)
    requires FloatFree(j.args) && FloatFree(k.args)
    ensures SigningPreImage(p, j) == SigningPreImage(p, k) <==> SameJob(j, k)
  {
    PreImageIffSameBlank(p, j, k);
    SameBlankIffSameJob(p, j, k);
  }

  /** Whatever the args, the pre-image does not depend on the signatures. */
  lemma PreImageIgnoresSignatures(p: Primitives, j: Job, signature: seq<Byte>, additional: seq<AdditionalSignature>)
    ensures SigningPreImage(p, j.(signature := signature, additional := additional)) == SigningPreImage(p, j)
  {
    var k := j.(signature := signature, additional := additional);
    AllBlanked(p, j);
    AllBlanked(p, k);
    assert BlankFields(p, j) == BlankFields(p, k);
  }

  // ---- What a verifier reads ----

  lemma FieldRead(p: Primitives, j: Job, v: Value, i: nat, k: string, w: Value)
    requires Same(Obj(BlankFields(p, j)), v) && i < 10 && FixedJobFields(p, j, Arr([]))[i] == Member(k, w)
    ensures Holds(v, k, w)
  {
    assert BlankFields(p, j)[i] == FixedJobFields(p, j, Arr([]))[i];
    SameHolds(BlankFields(p, j), v, i, k, w);
  }

  lemma IdsRead(p: Primitives, j: Job, v: Value)
    requires Same(Obj(BlankFields(p, j)), v)
    ensures Holds(v, "job_id", Str(p.uuidText(j.jobId))) && Holds(v, "tenant_id", Str(p.uuidText(j.tenantId)))
  {
    FieldRead(p, j, v, 0, "job_id", Str(p.uuidText(j.jobId)));
    FieldRead(p, j, v, 1, "tenant_id", Str(p.uuidText(j.tenantId)));
  }

  lemma DeviceRead(p: Primitives, j: Job, v: Value)
    requires Same(Obj(BlankFields(p, j)), v)
    ensures Holds(v, "device_id", Str(p.uuidText(j.deviceId)))
    ensures Holds(v, "schema_version", Num(Integer(j.schemaVersion)))
  {
    FieldRead(p, j, v, 2, "device_id", Str(p.uuidText(j.deviceId)));
    FieldRead(p, j, v, 3, "schema_version", Num(Integer(j.schemaVersion)));
  }

  lemma OrderRead(p: Primitives, j: Job, v: Value)
    requires Same(Obj(BlankFields(p, j)), v)
    ensures Holds(v, "action", Str(p.actionName(j.action))) && Holds(v, "args", j.args)
  {
    FieldRead(p, j, v, 4, "action", Str(p.actionName(j.action)));
    FieldRead(p, j, v, 5, "args", j.args);
  }

  lemma WindowRead(p: Primitives, j: Job, v: Value)
    requires Same(Obj(BlankFields(p, j)), v)
    ensures Holds(v, "not_before", Str(p.timeText(j.notBefore))) && Holds(v, "not_after", Str(p.timeText(j.notAfter)))
  {
    FieldRead(p, j, v, 6, "not_before", Str(p.timeText(j.notBefore)));
    FieldRead(p, j, v, 7, "not_after", Str(p.timeText(j.notAfter)));
  }

  lemma SignatureRead(p: Primitives, j: Job, v: Value)
    requires Same(Obj(BlankFields(p, j)), v)
    ensures Holds(v, "signature", Arr([])) && Holds(v, "key_id", Str(j.keyId))
  {
    FieldRead(p, j, v, 8, "signature", Arr([]));
    FieldRead(p, j, v, 9, "key_id", Str(j.keyId));
  }

  lemma BlankLacks(p: Primitives, j: Job)
    ensures j.recommendationId.None? ==> !HasKey(BlankFields(p, j), "recommendation_id")
    ensures j.correlationId.None? ==> !HasKey(BlankFields(p, j), "correlation_id")
  {
    FixedJobDistinct(p, j, Arr([]));
    OptionalKeys(FixedJobFields(p, j, Arr([])), "recommendation_id", UuidOption(p, j.recommendationId));
    OptionalKeys(JobFields1(p, j, Arr([])), "correlation_id", UuidOption(p, j.correlationId));
    OptionalKeys(JobFields2(p, j, Arr([])), "additional_signatures", Some(Arr([])));
    assert |"recommendation_id"| == 17 && |"correlation_id"| == 14 && |"additional_signatures"| == 21;
  }

  lemma OptionsRead(p: Primitives, j: Job, v: Value)
    requires Same(Obj(BlankFields(p, j)), v)
    ensures HoldsOption(v, "recommendation_id", UuidOption(p, j.recommendationId))
    ensures HoldsOption(v, "correlation_id", UuidOption(p, j.correlationId))
    ensures Holds(v, "additional_signatures", Arr([]))
  {
    var all := BlankFields(p, j);
    BlankLacks(p, j);
    OptionRead(FixedJobFields(p, j, Arr([])), "recommendation_id", UuidOption(p, j.recommendationId), all, v);
    OptionRead(JobFields1(p, j, Arr([])), "correlation_id", UuidOption(p, j.correlationId), all, v);
    OptionRead(JobFields2(p, j, Arr([])), "additional_signatures", Some(Arr([])), all, v);
  }

  /**
   What a verifier reads in the pre-image: every field of the job under its wire name, the two signature fields
   as empty arrays, absent optional fields absent.
   */
  lemma PreImageReads(p: Primitives, j: Job) returns (v: Value)
    requires WellFormed(j.args) && FloatFree(j.args)
    ensures SigningPreImage(p, j).Ok? && ParseValue(SigningPreImage(p, j).value) == Some((v, []))
    ensures Holds(v, "job_id", Str(p.uuidText(j.jobId))) && Holds(v, "tenant_id", Str(p.uuidText(j.tenantId)))
    ensures Holds(v, "device_id", Str(p.uuidText(j.deviceId))) && Holds(v, "action", Str(p.actionName(j.action)))
    ensures Holds(v, "schema_version", Num(Integer(j.schemaVersion))) && Holds(v, "args", j.args)
    ensures Holds(v, "not_before", Str(p.timeText(j.notBefore))) && Holds(v, "not_after", Str(p.timeText(j.notAfter)))
    ensures Holds(v, "signature", Arr([])) && Holds(v, "key_id", Str(j.keyId))
    ensures HoldsOption(v, "recommendation_id", UuidOption(p, j.recommendationId))
    ensures HoldsOption(v, "correlation_id", UuidOption(p, j.correlationId))
    ensures Holds(v, "additional_signatures", Arr([]))
  {
    var blank := Obj(BlankFields(p, j));
    PreImageIsBlank(p, j);
    CanonicalReads(blank);
    v := Sorted(blank);
    IdsRead(p, j, v);
    DeviceRead(p, j, v);
    OrderRead(p, j, v);
    WindowRead(p, j, v);
    SignatureRead(p, j, v);
    OptionsRead(p, j, v);
  }

  // ---- Structural checks ----

  const JOB_SCHEMA_VERSION: U16 := 1
  const ARGS_MAX_BYTES: nat := 65536

  datatype SignedJobError =
    | UnsupportedVersion(version: int)
    | ArgsTooLarge(actual: nat, max: nat)
    | InvalidWindow
    | ArgsRejected

  /** `validate_structure`: the first violated rule. The args are measured in compact JSON. */
  function ValidateStructure(j: Job): Option<SignedJobError>
  {
    if j.schemaVersion != JOB_SCHEMA_VERSION then Some(UnsupportedVersion(j.schemaVersion))
    else if |Print(j.args)| > ARGS_MAX_BYTES then Some(ArgsTooLarge(|Print(j.args)|, ARGS_MAX_BYTES))
    else if j.notBefore > j.notAfter then Some(InvalidWindow)
    else None
  }

  // ---- Per-action args ----

  /** Decoded args: the fields the agent checks, for the actions that have such fields. */
  datatype JobArgs =
    | GrantJitAdminArgs(durationMinutes: nat)
    | RunScriptArgs(timeoutSeconds: nat, scriptSha256: string)
    | PushAppControlPolicyArgs(policySha256: string)
    | StartRemoteSupportArgs(maxDurationMinutes: nat)
    | QueryAdHocArgs(maxRows: nat)
    | RemoteWipeArgs(reason: string)
    | RemoteLockArgs(message: Truncation.Text)
    | EnterLostModeArgs(notice: string)
    | InstallOsUpdateArgs(rebootPolicy: string)
    | ApplyConfigProfileArgs(profileSha256: string)
    | SetScreenLockArgs(timeoutSecs: nat)
    | IsolateHostArgs(extraAllowIps: seq<string>)
    | OtherArgs(action: ActionKind)

  /** Foreign decoders: serde's strict struct decoding and the CIDR parser. */
  datatype Decoders = Decoders(decode: (ActionKind, Value) -> Option<JobArgs>, isCidr: string -> bool)

  predicate IsLowerHex64(s: string)
  {
    |s| == 64 && forall i :: 0 <= i < |s| ==> '0' <= s[i] <= '9' || 'a' <= s[i] <= 'f'
  }

  /** The limits that args must respect to be handed to an executor. */
  predicate WithinCaps(d: Decoders, a: JobArgs)
  {
    match a
    case GrantJitAdminArgs(n) => 1 <= n <= 480
    case RunScriptArgs(n, sha) => 1 <= n <= 1800 && IsLowerHex64(sha)
    case PushAppControlPolicyArgs(sha) => IsLowerHex64(sha)
    case StartRemoteSupportArgs(n) => 1 <= n <= 240
    case QueryAdHocArgs(n) => 1 <= n <= 10000
    case RemoteWipeArgs(reason) => !TextLines.Blank(reason)
    case RemoteLockArgs(message) => |message| <= 240
    case EnterLostModeArgs(notice) => !TextLines.Blank(notice)
    case InstallOsUpdateArgs(policy) => policy in ["never", "if_required", "force"]
    case ApplyConfigProfileArgs(sha) => IsLowerHex64(sha)
    case SetScreenLockArgs(n) => 1 <= n <= 3600
    case IsolateHostArgs(ips) => forall i :: 0 <= i < |ips| ==> d.isCidr(ips[i])
    case OtherArgs(_) => true
  }

  /**
   `JobArgs::parse`: args are accepted exactly when they decode and respect their caps; they come back as
   decoded, but for a lock message, which is cut to fit.
   */
  function ParseArgs(d: Decoders, action: ActionKind, args: Value): (r: Option<JobArgs>)
    ensures r.Some? ==> WithinCaps(d, r.value)
    ensures r.Some? <==>
            && d.decode(action, args).Some?
            && (d.decode(action, args).value.RemoteLockArgs? || WithinCaps(d, d.decode(action, args).value))
    ensures r.Some? && !d.decode(action, args).value.RemoteLockArgs? ==> r == d.decode(action, args)
    ensures r.Some? && d.decode(action, args).value.RemoteLockArgs? ==>
              && r.value.RemoteLockArgs?
              && r.value.message ==
                   Truncation.Cut(d.decode(action, args).value.message, 240)
  {
    var raw := d.decode(action, args);
    if raw.None? then None
    else if raw.value.RemoteLockArgs? then
      Truncation.CutIsUtf8(raw.value.message, Truncation.LOCK_MESSAGE_MAX_BYTES);
      Some(RemoteLockArgs(Truncation.Cut(raw.value.message, Truncation.LOCK_MESSAGE_MAX_BYTES)))
    else if WithinCaps(d, raw.value) then raw
    else None
  }

  // ---- The limits, told apart from the checks ----

  /** The number an action's args are limited by, with the least and the greatest value allowed. */
  function Limit(a: JobArgs): Option<(nat, nat, nat)>
  {
    match a
    case GrantJitAdminArgs(minutes) => Some((minutes, 1, 480))
    case RunScriptArgs(seconds, _) => Some((seconds, 1, 1800))
    case StartRemoteSupportArgs(minutes) => Some((minutes, 1, 240))
    case QueryAdHocArgs(rows) => Some((rows, 1, 10000))
    case SetScreenLockArgs(seconds) => Some((seconds, 1, 3600))
    case _ => None
  }

  function Digest(a: JobArgs): Option<string>
  {
    match a
    case RunScriptArgs(_, sha) => Some(sha)
    case PushAppControlPolicyArgs(sha) => Some(sha)
    case ApplyConfigProfileArgs(sha) => Some(sha)
    case _ => None
  }

  function Wording(a: JobArgs): Option<string>
  {
    match a
    case RemoteWipeArgs(reason) => Some(reason)
    case EnterLostModeArgs(notice) => Some(notice)
    case _ => None
  }

  /** Numbers in range, digests of 64 lowercase digits, wordings not blank, a known reboot policy, address ranges. */
  predicate RespectsLimits(d: Decoders, a: JobArgs)
  {
    && (Limit(a).Some? ==> Limit(a).value.1 <= Limit(a).value.0 <= Limit(a).value.2)
    && (Digest(a).Some? ==> |Digest(a).value| == 64 && forall c :: c in Digest(a).value ==> c in "0123456789abcdef")
    && (Wording(a).Some? ==> exists i :: 0 <= i < |Wording(a).value| && !TextLines.IsSpace(Wording(a).value[i]))
    && (a.InstallOsUpdateArgs? ==>
          a.rebootPolicy == "never" || a.rebootPolicy == "if_required" || a.rebootPolicy == "force")
    && (a.IsolateHostArgs? ==> forall i :: 0 <= i < |a.extraAllowIps| ==> d.isCidr(a.extraAllowIps[i]))
  }

  lemma LowerHexDigit(c: char)
    ensures '0' <= c <= '9' || 'a' <= c <= 'f' <==> c in "0123456789abcdef"
  {
    var digits := "0123456789abcdef";
    if '0' <= c <= '9' {
      assert digits[c as int - '0' as int] == c;
    } else if 'a' <= c <= 'f' {
      assert digits[10 + c as int - 'a' as int] == c;
    }
  }

  lemma LowerHexExactly(s: string)
    ensures IsLowerHex64(s) <==> |s| == 64 && forall c :: c in s ==> c in "0123456789abcdef"
  {
    forall c ensures '0' <= c <= '9' || 'a' <= c <= 'f' <==> c in "0123456789abcdef" {
      LowerHexDigit(c);
    }
    if IsLowerHex64(s) {
      forall c | c in s ensures c in "0123456789abcdef" {
        var i :| 0 <= i < |s| && s[i] == c;
      }
    }
    if |s| == 64 && forall c :: c in s ==> c in "0123456789abcdef" {
      forall i | 0 <= i < |s| ensures '0' <= s[i] <= '9' || 'a' <= s[i] <= 'f' {
        assert s[i] in s;
      }
    }
  }

  lemma CapsExactly(d: Decoders, a: JobArgs)
    requires !a.RemoteLockArgs?
    ensures WithinCaps(d, a) <==> RespectsLimits(d, a)
  {
    if Digest(a).Some? {
      LowerHexExactly(Digest(a).value);
    }
  }

  /** Args are accepted exactly if they decode and respect these limits; a lock message is cut instead of refused. */
  lemma ParsedExactly(d: Decoders, action: ActionKind, args: Value)
    ensures ParseArgs(d, action, args).Some? <==>
              d.decode(action, args).Some? && RespectsLimits(d, d.decode(action, args).value)
  {
    if d.decode(action, args).Some? && !d.decode(action, args).value.RemoteLockArgs? {
      CapsExactly(d, d.decode(action, args).value);
    }
  }
}
