/**
 Evidence records and the hash chain they form (crates/sda-device-control/src/evidence.rs).

 SHA-256 and the timestamp printer are foreign. They are fields of `Primitives`, together with the printers of
 UUIDs and enumerations, and results hold for every choice of injective printers; `Deployed` is the one the
 agent uses.
 */
module Evidence {
  import opened Wrappers
  import opened Utf8
  import opened Json
  import opened Types
  import opened Schema
  import opened Canonical
  import opened Hex
  import JsonText
  import HashChain

  type Hash = HashChain.Hash
  type U16 = n: int | 0 <= n < 0x1_0000
  type I32 = n: int | -0x8000_0000 <= n < 0x8000_0000

  /** The hash and the printers of a record's scalar fields. */
  datatype Primitives = Primitives(
    sha256: seq<Byte> -> Hash, timeText: int -> string, uuidText: Uuid -> string,
    actionName: ActionKind -> string, statusName: ActionStatus -> string, refusedName: JobRefused -> string,
    osName: PlatformOs -> string, archName: PlatformArch -> string)

  /** No two values of a field print alike. */
  ghost predicate Faithful(p: Primitives)
  {
    && (forall s, t :: p.timeText(s) == p.timeText(t) ==> s == t)
    && (forall u, v :: p.uuidText(u) == p.uuidText(v) ==> u == v)
    && (forall a, b :: p.actionName(a) == p.actionName(b) ==> a == b)
    && (forall a, b :: p.statusName(a) == p.statusName(b) ==> a == b)
    && (forall a, b :: p.refusedName(a) == p.refusedName(b) ==> a == b)
    && (forall a, b :: p.osName(a) == p.osName(b) ==> a == b)
    && (forall a, b :: p.archName(a) == p.archName(b) ==> a == b)
  }

  /** The agent's own printers: hyphenated UUIDs and the wire names of the schema. */
  function Deployed(sha256: seq<Byte> -> Hash, timeText: int -> string): Primitives
  {
    Primitives(sha256, timeText, UuidText, ActionName, StatusName, RefusedName, OsName, ArchName)
  }

  /** They are faithful whenever the timestamp printer is injective. */
  lemma DeployedFaithful(sha256: seq<Byte> -> Hash, timeText: int -> string)
    requires forall s, t :: timeText(s) == timeText(t) ==> s == t
    ensures Faithful(Deployed(sha256, timeText))
  {
    var p := Deployed(sha256, timeText);
    forall u, v | p.uuidText(u) == p.uuidText(v) ensures u == v {
      UuidTextInjective(u, v);
    }
    forall a, b | p.actionName(a) == p.actionName(b) ensures a == b {
      ActionNameInjective(a, b);
    }
    forall a, b | p.statusName(a) == p.statusName(b) ensures a == b {
      StatusNameInjective(a, b);
    }
    forall a, b | p.refusedName(a) == p.refusedName(b) ensures a == b {
      RefusedNameInjective(a, b);
    }
    forall a, b | p.osName(a) == p.osName(b) ensures a == b {
      OsNameInjective(a, b);
    }
    forall a, b | p.archName(a) == p.archName(b) ensures a == b {
      ArchNameInjective(a, b);
    }
  }

  datatype Platform = Platform(os: PlatformOs, version: string, arch: PlatformArch, distro: Option<string>)

  datatype AgentVersion = AgentVersion(version: string, buildSha: string, channel: string)

  datatype Record = Record(
    evidenceId: Uuid, tenantId: Uuid, deviceId: Uuid, schemaVersion: U16, jobId: Uuid,
    recommendationId: Option<Uuid>, action: ActionKind, argsCanonical: string,
    startedAt: int, finishedAt: int, status: ActionStatus, refusedReason: Option<JobRefused>,
    exitCode: Option<I32>, outputSha256: Hash, platform: Platform, agent: AgentVersion,
    prevRecordHash: Hash, signature: seq<Byte>, keyId: string)

  const FIRST_RECORD_PREV_HASH: Hash := seq(32, _ => 0)
  const SCHEMA_VERSION: U16 := 1
  const STUB_KEY_ID: string := "sda-evidence-stub-phase1"

  datatype EvidenceError =
    | SchemaVersionUnsupported(version: int)
    | BadTimeOrder
    | MissingRefusedReason
    | UnexpectedRefusedReason(status: ActionStatus)
    | CanonicalizeFailed(error: CanonicalizeError)

  /** `EvidenceRecord::validate`: the first violated rule. */
  function CheckRecord(r: Record): Option<EvidenceError>
  {
    if r.schemaVersion != SCHEMA_VERSION then Some(SchemaVersionUnsupported(r.schemaVersion))
    else if r.startedAt > r.finishedAt then Some(BadTimeOrder)
    else if r.status == Refused then (if r.refusedReason.None? then Some(MissingRefusedReason) else None)
    else if r.refusedReason.Some? then Some(UnexpectedRefusedReason(r.status))
    else None
  }

  /** A record is valid exactly if it has version 1, ordered times, and a reason just when refused. */
  lemma CheckRecordExactly(r: Record)
    ensures CheckRecord(r).None? <==>
            r.schemaVersion == 1 && r.startedAt <= r.finishedAt && (r.status == Refused <==> r.refusedReason.Some?)
  {
  }

  // ---- Records as JSON ----

  function PlatformValue(p: Primitives, pl: Platform): Value
  {
    Obj([Member("os", Str(p.osName(pl.os))), Member("version", Str(pl.version)),
         Member("arch", Str(p.archName(pl.arch)))]
        + Optional("distro", if pl.distro.None? then None else Some(Str(pl.distro.value))))
  }

  function AgentValue(a: AgentVersion): Value
  {
    Obj([Member("version", Str(a.version)), Member("build_sha", Str(a.buildSha)), Member("channel", Str(a.channel))])
  }

  /** The fields that are always present; the signature value is a parameter. */
  function FixedFieldsOf(p: Primitives, r: Record, signature: Value): seq<Member>
  {
    [Member("evidence_id", Str(p.uuidText(r.evidenceId))),
     Member("tenant_id", Str(p.uuidText(r.tenantId))),
     Member("device_id", Str(p.uuidText(r.deviceId))),
     Member("schema_version", Num(Integer(r.schemaVersion))),
     Member("job_id", Str(p.uuidText(r.jobId))),
     Member("action", Str(p.actionName(r.action))),
     Member("args_canonical", Str(r.argsCanonical)),
     Member("started_at", Str(p.timeText(r.startedAt))),
     Member("finished_at", Str(p.timeText(r.finishedAt))),
     Member("status", Str(p.statusName(r.status))),
     Member("output_sha256", Str(HexText(r.outputSha256))),
     Member("platform", PlatformValue(p, r.platform)),
     Member("agent", AgentValue(r.agent)),
     Member("prev_record_hash", Str(HexText(r.prevRecordHash))),
     Member("signature", signature),
     Member("key_id", Str(r.keyId))]
  }

  function UuidOption(p: Primitives, o: Option<Uuid>): Option<Value>
  {
    if o.None? then None else Some(Str(p.uuidText(o.value)))
  }

  function RefusedOption(p: Primitives, o: Option<JobRefused>): Option<Value>
  {
    if o.None? then None else Some(Str(p.refusedName(o.value)))
  }

  function IntegerOption(o: Option<I32>): Option<Value> { if o.None? then None else Some(Num(Integer(o.value))) }

  /** `serde_json::to_value` of a record. */
  function Fields(p: Primitives, r: Record, signature: Value): seq<Member>
  {
    WithThree(FixedFieldsOf(p, r, signature),
              "recommendation_id", UuidOption(p, r.recommendationId),
              "refused_reason", RefusedOption(p, r.refusedReason),
              "exit_code", IntegerOption(r.exitCode))
  }

  function RecordValue(p: Primitives, r: Record): Value { Obj(Fields(p, r, Bytes(r.signature))) }

  /** `canonical_pre_image`: the record with `signature` overwritten by the empty string. */
  function PreImage(p: Primitives, r: Record): Result<seq<Byte>, CanonicalizeError>
  {
    Canonicalize(Obj(Put(RecordValue(p, r).members, "signature", Str(""))))
  }

  /** `chain_hash`: SHA-256 of the canonical record, signature included. */
  function ChainHash(p: Primitives, r: Record): Result<Hash, CanonicalizeError>
  {
    var bytes := Canonicalize(RecordValue(p, r));
    if bytes.Err? then Err(bytes.error) else Ok(p.sha256(bytes.value))
  }

  // ---- Every record canonicalises ----

  lemma PlatformGood(p: Primitives, pl: Platform)
    ensures GoodValue(PlatformValue(p, pl))
  {
    var ms := [Member("os", Str(p.osName(pl.os))), Member("version", Str(pl.version)),
               Member("arch", Str(p.archName(pl.arch)))];
    PlatformKeys(ms);
    GoodOptional(ms, "distro", if pl.distro.None? then None else Some(Str(pl.distro.value)));
  }

  lemma PlatformKeys(ms: seq<Member>)
    requires |ms| == 3 && ms[0].key == "os" && ms[1].key == "version" && ms[2].key == "arch"
    ensures DistinctKeys(ms) && !HasKey(ms, "distro")
  {
    assert Tag("os") != Tag("version") && Tag("os") != Tag("arch") && Tag("version") != Tag("arch");
    assert Tag("distro") != Tag("version") && |"distro"| != |"arch"| && |"distro"| != |"os"|;
  }

  lemma AgentGood(a: AgentVersion)
    ensures GoodValue(AgentValue(a))
  {
    assert Tag("version") != Tag("build_sha") && Tag("version") != Tag("channel") && Tag("build_sha") != Tag("channel");
  }

  /** The tags of the fixed field names, in field order. */
  const FIELD_TAGS: seq<int> := [100101011, 100116009, 100100009, 110115014, 100106006, 110097006, 108097014, 116115010,
                                 116102011, 115115006, 54111013, 109112008, 116097005, 104112016, 101115009, 100107006]

  lemma FieldTags(p: Primitives, r: Record, signature: Value)
    ensures var ms := FixedFieldsOf(p, r, signature);
            |ms| == 16 && forall i :: 0 <= i < 16 ==> ms[i].key != "" && Tag(ms[i].key) == FIELD_TAGS[i]
  {
  }

  lemma TagsDistinct()
    ensures forall i, j :: 0 <= i < j < 16 ==> FIELD_TAGS[i] != FIELD_TAGS[j]
  {
  }

  lemma OptionalTags()
    ensures Tag("recommendation_id") == 100114017 && Tag("refused_reason") == 110114014 && Tag("exit_code") == 101101009
  {
  }

  lemma FixedDistinct(p: Primitives, r: Record, signature: Value)
    ensures DistinctKeys(FixedFieldsOf(p, r, signature))
    ensures NewKeys(FixedFieldsOf(p, r, signature), "recommendation_id", "refused_reason", "exit_code")
  {
    FieldTags(p, r, signature);
    TagsDistinct();
    OptionalTags();
  }

  lemma FixedGood(p: Primitives, r: Record, signature: Value)
    requires GoodValue(signature)
    ensures Good(FixedFieldsOf(p, r, signature))
  {
    FixedDistinct(p, r, signature);
    PlatformGood(p, r.platform);
    AgentGood(r.agent);
  }

  lemma FieldsGood(p: Primitives, r: Record, signature: Value)
    requires GoodValue(signature)
    ensures Good(Fields(p, r, signature)) && GoodValue(Obj(Fields(p, r, signature)))
  {
    FixedDistinct(p, r, signature);
    FixedGood(p, r, signature);
    ThreeGood(FixedFieldsOf(p, r, signature), "recommendation_id", UuidOption(p, r.recommendationId),
              "refused_reason", RefusedOption(p, r.refusedReason), "exit_code", IntegerOption(r.exitCode));
    GoodObject(Fields(p, r, signature));
  }

  /** Hashing a record never fails. */
  lemma RecordHashes(p: Primitives, r: Record)
    ensures GoodValue(RecordValue(p, r)) && Canonicalize(RecordValue(p, r)).Ok? && ChainHash(p, r).Ok?
  {
    BytesSame(r.signature, r.signature);
    FieldsGood(p, r, Bytes(r.signature));
    CanonicalExactly(RecordValue(p, r));
  }

  /** Overwriting `signature` touches that field only. */
  lemma BlankedFields(p: Primitives, r: Record, signature: Value)
    ensures Put(Fields(p, r, signature), "signature", Str("")) == Fields(p, r, Str(""))
  {
    var ms := Fields(p, r, signature);
    FieldTags(p, r, signature);
    TagsDistinct();
    assert Tag("signature") == FIELD_TAGS[14];
    assert ms[14].key == "signature";
    forall j | 0 <= j < 14 ensures ms[j].key != "signature" {
      assert ms[j] == FixedFieldsOf(p, r, signature)[j];
    }
    PutAt(ms, 14, "signature", Str(""));
    assert FixedFieldsOf(p, r, signature)[14 := Member("signature", Str(""))] == FixedFieldsOf(p, r, Str(""));
  }

  lemma PreImageExists(p: Primitives, r: Record)
    ensures PreImage(p, r) == Canonicalize(Obj(Fields(p, r, Str("")))) && PreImage(p, r).Ok?
  {
    BlankedFields(p, r, Bytes(r.signature));
    FieldsGood(p, r, Str(""));
    CanonicalExactly(Obj(Fields(p, r, Str(""))));
  }

  // ---- The JSON form determines the record ----

  lemma PlatformSame(p: Primitives, a: Platform, b: Platform)
    requires Faithful(p)
    ensures Same(PlatformValue(p, a), PlatformValue(p, b)) <==> a == b
  {
    PlatformGood(p, a);
    var ms := [Member("os", Str(p.osName(a.os))), Member("version", Str(a.version)),
               Member("arch", Str(p.archName(a.arch)))];
    var ns := [Member("os", Str(p.osName(b.os))), Member("version", Str(b.version)),
               Member("arch", Str(p.archName(b.arch)))];
    PlatformKeys(ms);
    PlatformKeys(ns);
    FixedFields(ms, ns);
    if Same(PlatformValue(p, a), PlatformValue(p, b)) {
      Peel(ms, ns, "distro", if a.distro.None? then None else Some(Str(a.distro.value)),
           if b.distro.None? then None else Some(Str(b.distro.value)));
      assert Same(ms[0].value, ns[0].value) && Same(ms[1].value, ns[1].value) && Same(ms[2].value, ns[2].value);
    }
    if a == b {
      SameReflexive(PlatformValue(p, a));
    }
  }

  lemma AgentSame(a: AgentVersion, b: AgentVersion)
    ensures Same(AgentValue(a), AgentValue(b)) <==> a == b
  {
    AgentGood(a);
    var ms, ns := AgentValue(a).members, AgentValue(b).members;
    FixedFields(ms, ns);
    if Same(AgentValue(a), AgentValue(b)) {
      assert Same(ms[0].value, ns[0].value) && Same(ms[1].value, ns[1].value) && Same(ms[2].value, ns[2].value);
    }
    if a == b {
      SameReflexive(AgentValue(a));
    }
  }

  /** Equality of everything but the signature. */
  predicate SameContent(r: Record, t: Record) { r.(signature := []) == t.(signature := []) }

  ghost predicate Aligned(ms: seq<Member>, ns: seq<Member>)
  {
    |ms| == |ns| && forall i :: 0 <= i < |ms| ==> Same(ms[i].value, ns[i].value)
  }

  lemma FixedAligned(p: Primitives, r: Record, t: Record, sr: Value, st: Value)
    ensures Same(Obj(FixedFieldsOf(p, r, sr)), Obj(FixedFieldsOf(p, t, st))) <==>
              Aligned(FixedFieldsOf(p, r, sr), FixedFieldsOf(p, t, st))
  {
    FixedDistinct(p, r, sr);
    FixedFields(FixedFieldsOf(p, r, sr), FixedFieldsOf(p, t, st));
  }

  lemma FixedTexts(p: Primitives, r: Record, t: Record, sr: Value, st: Value)
    requires Aligned(FixedFieldsOf(p, r, sr), FixedFieldsOf(p, t, st))
    ensures p.uuidText(r.evidenceId) == p.uuidText(t.evidenceId) && p.uuidText(r.tenantId) == p.uuidText(t.tenantId)
    ensures p.uuidText(r.deviceId) == p.uuidText(t.deviceId) && r.schemaVersion == t.schemaVersion
    ensures p.uuidText(r.jobId) == p.uuidText(t.jobId) && p.actionName(r.action) == p.actionName(t.action)
    ensures r.argsCanonical == t.argsCanonical && p.timeText(r.startedAt) == p.timeText(t.startedAt)
  {
    var ms, ns := FixedFieldsOf(p, r, sr), FixedFieldsOf(p, t, st);
    assert Same(ms[0].value, ns[0].value) && Same(ms[1].value, ns[1].value);
    assert Same(ms[2].value, ns[2].value) && Same(ms[3].value, ns[3].value);
    assert Same(ms[4].value, ns[4].value) && Same(ms[5].value, ns[5].value);
    assert Same(ms[6].value, ns[6].value) && Same(ms[7].value, ns[7].value);
  }

  lemma {:induction false} MoreFixedTexts(p: Primitives, r: Record, t: Record, sr: Value, st: Value)
    requires Aligned(FixedFieldsOf(p, r, sr), FixedFieldsOf(p, t, st))
    ensures p.timeText(r.finishedAt) == p.timeText(t.finishedAt) && p.statusName(r.status) == p.statusName(t.status)
    ensures HexText(r.outputSha256) == HexText(t.outputSha256) &&
            Same(PlatformValue(p, r.platform), PlatformValue(p, t.platform))
    ensures Same(AgentValue(r.agent), AgentValue(t.agent)) && HexText(r.prevRecordHash) == HexText(t.prevRecordHash)
    ensures Same(sr, st) && r.keyId == t.keyId
  {
    var ms, ns := FixedFieldsOf(p, r, sr), FixedFieldsOf(p, t, st);
    assert Same(ms[8].value, ns[8].value) && Same(ms[9].value, ns[9].value);
    assert Same(ms[10].value, ns[10].value) && Same(ms[11].value, ns[11].value);
    assert Same(ms[12].value, ns[12].value) && Same(ms[13].value, ns[13].value);
    assert Same(ms[14].value, ns[14].value) && Same(ms[15].value, ns[15].value);
  }

  lemma FixedDetermine(p: Primitives, r: Record, t: Record, sr: Value, st: Value)
    requires Faithful(p)
    requires Same(Obj(FixedFieldsOf(p, r, sr)), Obj(FixedFieldsOf(p, t, st)))
    ensures Same(sr, st)
    ensures t == r.(recommendationId := t.recommendationId, refusedReason := t.refusedReason, exitCode := t.exitCode,
                    signature := t.signature)
  {
    FixedAligned(p, r, t, sr, st);
    FixedTexts(p, r, t, sr, st);
    MoreFixedTexts(p, r, t, sr, st);
    HexTextInjective(r.outputSha256, t.outputSha256);
    PlatformSame(p, r.platform, t.platform);
    AgentSame(r.agent, t.agent);
    HexTextInjective(r.prevRecordHash, t.prevRecordHash);
  }

  lemma FieldsPeel(p: Primitives, r: Record, t: Record, sr: Value, st: Value)
    requires Same(Obj(Fields(p, r, sr)), Obj(Fields(p, t, st)))
    ensures Same(Obj(FixedFieldsOf(p, r, sr)), Obj(FixedFieldsOf(p, t, st)))
    ensures SameOption(UuidOption(p, r.recommendationId), UuidOption(p, t.recommendationId))
    ensures SameOption(RefusedOption(p, r.refusedReason), RefusedOption(p, t.refusedReason))
    ensures SameOption(IntegerOption(r.exitCode), IntegerOption(t.exitCode))
  {
    FixedDistinct(p, r, sr);
    FixedDistinct(p, t, st);
    ThreePeel(FixedFieldsOf(p, r, sr), FixedFieldsOf(p, t, st),
              "recommendation_id", UuidOption(p, r.recommendationId), UuidOption(p, t.recommendationId),
              "refused_reason", RefusedOption(p, r.refusedReason), RefusedOption(p, t.refusedReason),
              "exit_code", IntegerOption(r.exitCode), IntegerOption(t.exitCode));
  }

  lemma OptionsDetermine(p: Primitives, r: Record, t: Record)
    requires Faithful(p)
    requires SameOption(UuidOption(p, r.recommendationId), UuidOption(p, t.recommendationId))
    requires SameOption(RefusedOption(p, r.refusedReason), RefusedOption(p, t.refusedReason))
    requires SameOption(IntegerOption(r.exitCode), IntegerOption(t.exitCode))
    ensures r.recommendationId == t.recommendationId && r.refusedReason == t.refusedReason && r.exitCode == t.exitCode
  {
  }

  lemma FieldsDetermine(p: Primitives, r: Record, t: Record, sr: Value, st: Value)
    requires Faithful(p)
    requires Same(Obj(Fields(p, r, sr)), Obj(Fields(p, t, st)))
    ensures SameContent(r, t) && Same(sr, st)
  {
    FieldsPeel(p, r, t, sr, st);
    FixedDetermine(p, r, t, sr, st);
    OptionsDetermine(p, r, t);
  }

  /** The canonical bytes of a record determine the record. */
  lemma RecordBytesInjective(p: Primitives, r: Record, t: Record)
    requires Faithful(p)
    requires Canonicalize(RecordValue(p, r)) == Canonicalize(RecordValue(p, t))
    ensures r == t
  {
    RecordHashes(p, r);
    RecordHashes(p, t);
    CanonicalIffSame(RecordValue(p, r), RecordValue(p, t));
    FieldsDetermine(p, r, t, Bytes(r.signature), Bytes(t.signature));
    BytesSame(r.signature, t.signature);
  }

  lemma PreImageOfContent(p: Primitives, r: Record, t: Record)
    requires SameContent(r, t)
    ensures PreImage(p, r) == PreImage(p, t)
  {
    PreImageExists(p, r);
    PreImageExists(p, t);
    assert Fields(p, r, Str("")) == Fields(p, r.(signature := []), Str(""));
    assert Fields(p, t, Str("")) == Fields(p, t.(signature := []), Str(""));
  }

  /**
   The signing pre-image covers every field except the signature: equal pre-images mean equal content, and
   conversely.
   */
  lemma PreImageIffContent(p: Primitives, r: Record, t: Record)
    requires Faithful(p)
    ensures PreImage(p, r) == PreImage(p, t) <==> SameContent(r, t)
  {
    if SameContent(r, t) {
      PreImageOfContent(p, r, t);
    } else if PreImage(p, r) == PreImage(p, t) {
      PreImageDetermines(p, r, t);
    }
  }

  lemma PreImageDetermines(p: Primitives, r: Record, t: Record)
    requires Faithful(p) && PreImage(p, r) == PreImage(p, t)
    ensures SameContent(r, t)
  {
    PreImageExists(p, r);
    PreImageExists(p, t);
    FieldsGood(p, r, Str(""));
    FieldsGood(p, t, Str(""));
    CanonicalIffSame(Obj(Fields(p, r, Str(""))), Obj(Fields(p, t, Str(""))));
    FieldsDetermine(p, r, t, Str(""), Str(""));
  }

  // ---- The chain ----

  /** The bytes that are hashed for a record, and their digest. */
  function BytesOf(p: Primitives, r: Record): seq<Byte>
  {
    RecordHashes(p, r);
    Canonicalize(RecordValue(p, r)).value
  }

  function HashOf(p: Primitives, r: Record): (h: Hash)
    ensures ChainHash(p, r) == Ok(h)
  {
    RecordHashes(p, r);
    p.sha256(BytesOf(p, r))
  }

  lemma BytesDetermine(p: Primitives, r: Record, t: Record)
    requires Faithful(p) && BytesOf(p, r) == BytesOf(p, t)
    ensures r == t
  {
    RecordHashes(p, r);
    RecordHashes(p, t);
    RecordBytesInjective(p, r, t);
  }

  function ChainScheme(p: Primitives): HashChain.Scheme<Record>
  {
    HashChain.Scheme(p.sha256, r => BytesOf(p, r), (r: Record) => r.prevRecordHash)
  }

  /** `records` were appended in this order to a chain whose head was `start`. */
  predicate ChainFrom(p: Primitives, start: Hash, records: seq<Record>)
  {
    HashChain.Linked(ChainScheme(p), start, records)
  }

  function ChainHead(p: Primitives, start: Hash, records: seq<Record>): Hash
  {
    HashChain.Head(ChainScheme(p), start, records)
  }

  lemma EncodingInjective(p: Primitives)
    requires Faithful(p)
    ensures HashChain.Injective(ChainScheme(p).encode)
  {
    forall r, t | ChainScheme(p).encode(r) == ChainScheme(p).encode(t) ensures r == t {
      BytesDetermine(p, r, t);
    }
  }

  /**
   Tamper evidence for evidence chains. Two chains from the same start that end in the same head are equal
   record for record; otherwise two of their records have different canonical bytes with one digest, or one
   of them hashes to the start. The verdict is computed, not merely claimed to exist.
   */
  lemma TamperEvidence(p: Primitives, start: Hash, a: seq<Record>, b: seq<Record>)
    returns (v: HashChain.Verdict<Record>)
    requires Faithful(p)
    requires ChainFrom(p, start, a) && ChainFrom(p, start, b)
    requires ChainHead(p, start, a) == ChainHead(p, start, b)
    ensures HashChain.Justified(ChainScheme(p), start, a, b, v)
  {
    EncodingInjective(p);
    v := HashChain.Compare(ChainScheme(p), start, a, b);
  }

  // ---- What a reader finds in a record ----

  lemma FieldRead(p: Primitives, r: Record, signature: Value, v: Value, i: nat, k: string, w: Value)
    requires Same(Obj(Fields(p, r, signature)), v) && i < 16 && FixedFieldsOf(p, r, signature)[i] == Member(k, w)
    ensures Holds(v, k, w)
  {
    assert Fields(p, r, signature)[i] == FixedFieldsOf(p, r, signature)[i];
    SameHolds(Fields(p, r, signature), v, i, k, w);
  }

  lemma SourceRead(p: Primitives, r: Record, signature: Value, v: Value)
    requires Same(Obj(Fields(p, r, signature)), v)
    ensures Holds(v, "evidence_id", Str(p.uuidText(r.evidenceId)))
    ensures Holds(v, "tenant_id", Str(p.uuidText(r.tenantId)))
  {
    FieldRead(p, r, signature, v, 0, "evidence_id", Str(p.uuidText(r.evidenceId)));
    FieldRead(p, r, signature, v, 1, "tenant_id", Str(p.uuidText(r.tenantId)));
  }

  lemma DeviceRead(p: Primitives, r: Record, signature: Value, v: Value)
    requires Same(Obj(Fields(p, r, signature)), v)
    ensures Holds(v, "device_id", Str(p.uuidText(r.deviceId)))
    ensures Holds(v, "schema_version", Num(Integer(r.schemaVersion)))
  {
    FieldRead(p, r, signature, v, 2, "device_id", Str(p.uuidText(r.deviceId)));
    FieldRead(p, r, signature, v, 3, "schema_version", Num(Integer(r.schemaVersion)));
  }

  lemma OrderRead(p: Primitives, r: Record, signature: Value, v: Value)
    requires Same(Obj(Fields(p, r, signature)), v)
    ensures Holds(v, "job_id", Str(p.uuidText(r.jobId)))
    ensures Holds(v, "action", Str(p.actionName(r.action)))
  {
    FieldRead(p, r, signature, v, 4, "job_id", Str(p.uuidText(r.jobId)));
    FieldRead(p, r, signature, v, 5, "action", Str(p.actionName(r.action)));
  }

  lemma ArgsRead(p: Primitives, r: Record, signature: Value, v: Value)
    requires Same(Obj(Fields(p, r, signature)), v)
    ensures Holds(v, "args_canonical", Str(r.argsCanonical))
  {
    FieldRead(p, r, signature, v, 6, "args_canonical", Str(r.argsCanonical));
  }

  lemma TimesRead(p: Primitives, r: Record, signature: Value, v: Value)
    requires Same(Obj(Fields(p, r, signature)), v)
    ensures Holds(v, "started_at", Str(p.timeText(r.startedAt)))
    ensures Holds(v, "finished_at", Str(p.timeText(r.finishedAt)))
  {
    FieldRead(p, r, signature, v, 7, "started_at", Str(p.timeText(r.startedAt)));
    FieldRead(p, r, signature, v, 8, "finished_at", Str(p.timeText(r.finishedAt)));
  }

  lemma OutcomeRead(p: Primitives, r: Record, signature: Value, v: Value)
    requires Same(Obj(Fields(p, r, signature)), v)
    ensures Holds(v, "status", Str(p.statusName(r.status)))
    ensures Holds(v, "output_sha256", Str(HexText(r.outputSha256)))
  {
    FieldRead(p, r, signature, v, 9, "status", Str(p.statusName(r.status)));
    FieldRead(p, r, signature, v, 10, "output_sha256", Str(HexText(r.outputSha256)));
  }

  lemma OriginRead(p: Primitives, r: Record, signature: Value, v: Value)
    requires Same(Obj(Fields(p, r, signature)), v)
    ensures Holds(v, "platform", PlatformValue(p, r.platform))
    ensures Holds(v, "agent", AgentValue(r.agent))
  {
    FieldRead(p, r, signature, v, 11, "platform", PlatformValue(p, r.platform));
    FieldRead(p, r, signature, v, 12, "agent", AgentValue(r.agent));
  }

  lemma LinkRead(p: Primitives, r: Record, signature: Value, v: Value)
    requires Same(Obj(Fields(p, r, signature)), v)
    ensures Holds(v, "prev_record_hash", Str(HexText(r.prevRecordHash)))
    ensures Holds(v, "signature", signature)
    ensures Holds(v, "key_id", Str(r.keyId))
  {
    FieldRead(p, r, signature, v, 13, "prev_record_hash", Str(HexText(r.prevRecordHash)));
    FieldRead(p, r, signature, v, 14, "signature", signature);
    FieldRead(p, r, signature, v, 15, "key_id", Str(r.keyId));
  }

  /** Every fixed field under its wire name. */
  ghost predicate FixedAreRead(p: Primitives, r: Record, signature: Value, v: Value)
  {
    && Holds(v, "evidence_id", Str(p.uuidText(r.evidenceId)))
    && Holds(v, "tenant_id", Str(p.uuidText(r.tenantId)))
    && Holds(v, "device_id", Str(p.uuidText(r.deviceId)))
    && Holds(v, "schema_version", Num(Integer(r.schemaVersion)))
    && Holds(v, "job_id", Str(p.uuidText(r.jobId)))
    && Holds(v, "action", Str(p.actionName(r.action)))
    && Holds(v, "args_canonical", Str(r.argsCanonical))
    && Holds(v, "started_at", Str(p.timeText(r.startedAt)))
    && Holds(v, "finished_at", Str(p.timeText(r.finishedAt)))
    && Holds(v, "status", Str(p.statusName(r.status)))
    && Holds(v, "output_sha256", Str(HexText(r.outputSha256)))
    && Holds(v, "platform", PlatformValue(p, r.platform))
    && Holds(v, "agent", AgentValue(r.agent))
    && Holds(v, "prev_record_hash", Str(HexText(r.prevRecordHash)))
    && Holds(v, "signature", signature)
    && Holds(v, "key_id", Str(r.keyId))
  }

  lemma FixedRead(p: Primitives, r: Record, signature: Value, v: Value)
    requires Same(Obj(Fields(p, r, signature)), v)
    ensures FixedAreRead(p, r, signature, v)
  {
    SourceRead(p, r, signature, v);
    DeviceRead(p, r, signature, v);
    OrderRead(p, r, signature, v);
    ArgsRead(p, r, signature, v);
    TimesRead(p, r, signature, v);
    OutcomeRead(p, r, signature, v);
    OriginRead(p, r, signature, v);
    LinkRead(p, r, signature, v);
  }

  lemma OptionsRead(p: Primitives, r: Record, signature: Value, v: Value)
    requires Same(Obj(Fields(p, r, signature)), v)
    ensures HoldsOption(v, "recommendation_id", UuidOption(p, r.recommendationId))
    ensures HoldsOption(v, "refused_reason", RefusedOption(p, r.refusedReason))
    ensures HoldsOption(v, "exit_code", IntegerOption(r.exitCode))
  {
    FixedDistinct(p, r, signature);
    ThreeRead(FixedFieldsOf(p, r, signature), "recommendation_id", UuidOption(p, r.recommendationId),
              "refused_reason", RefusedOption(p, r.refusedReason), "exit_code", IntegerOption(r.exitCode), v);
  }

  /** What a reader finds in the bytes that are hashed: every field of the record under its wire name. */
  lemma RecordReads(p: Primitives, r: Record) returns (bytes: seq<Byte>, v: Value)
    ensures ChainHash(p, r) == Ok(p.sha256(bytes)) && JsonText.ParseValue(bytes) == Some((v, []))
    ensures FixedAreRead(p, r, Bytes(r.signature), v)
    ensures HoldsOption(v, "recommendation_id", UuidOption(p, r.recommendationId))
    ensures HoldsOption(v, "refused_reason", RefusedOption(p, r.refusedReason))
    ensures HoldsOption(v, "exit_code", IntegerOption(r.exitCode))
  {
    RecordHashes(p, r);
    CanonicalReads(RecordValue(p, r));
    bytes, v := Canonicalize(RecordValue(p, r)).value, Sorted(RecordValue(p, r));
    FixedRead(p, r, Bytes(r.signature), v);
    OptionsRead(p, r, Bytes(r.signature), v);
  }

  /** And in the bytes that are signed: the same, with an empty string for the signature. */
  lemma RecordPreImageReads(p: Primitives, r: Record) returns (v: Value)
    ensures PreImage(p, r).Ok? && JsonText.ParseValue(PreImage(p, r).value) == Some((v, []))
    ensures FixedAreRead(p, r, Str(""), v)
    ensures HoldsOption(v, "recommendation_id", UuidOption(p, r.recommendationId))
    ensures HoldsOption(v, "refused_reason", RefusedOption(p, r.refusedReason))
    ensures HoldsOption(v, "exit_code", IntegerOption(r.exitCode))
  {
    BlankedFields(p, r, Bytes(r.signature));
    FieldsGood(p, r, Str(""));
    var blank := Obj(Fields(p, r, Str("")));
    CanonicalReads(blank);
    v := Sorted(blank);
    FixedRead(p, r, Str(""), v);
    OptionsRead(p, r, Str(""), v);
  }

  /** The nested objects, field by field. */
  lemma PlatformRead(p: Primitives, pl: Platform, v: Value)
    requires Same(PlatformValue(p, pl), v)
    ensures Holds(v, "os", Str(p.osName(pl.os))) && Holds(v, "version", Str(pl.version))
    ensures Holds(v, "arch", Str(p.archName(pl.arch)))
    ensures pl.distro.Some? ==> Holds(v, "distro", Str(pl.distro.value))
    ensures pl.distro.None? ==> v.Obj? && !HasKey(v.members, "distro")
  {
    var ms := PlatformValue(p, pl).members;
    SameHolds(ms, v, 0, "os", Str(p.osName(pl.os)));
    SameHolds(ms, v, 1, "version", Str(pl.version));
    SameHolds(ms, v, 2, "arch", Str(p.archName(pl.arch)));
    if pl.distro.Some? {
      SameHolds(ms, v, 3, "distro", Str(pl.distro.value));
    } else {
      PlatformKeys(ms);
      SameLacks(ms, v, "distro");
    }
  }

  lemma AgentRead(a: AgentVersion, v: Value)
    requires Same(AgentValue(a), v)
    ensures Holds(v, "version", Str(a.version)) && Holds(v, "build_sha", Str(a.buildSha))
    ensures Holds(v, "channel", Str(a.channel))
  {
    var ms := AgentValue(a).members;
    SameHolds(ms, v, 0, "version", Str(a.version));
    SameHolds(ms, v, 1, "build_sha", Str(a.buildSha));
    SameHolds(ms, v, 2, "channel", Str(a.channel));
  }
}
