/**
 From a signed job to an action result and a chained evidence record
 (crates/sda-device-control/src/router.rs:443-729, crates/sda-device-control/src/evidence.rs:131-262,
 crates/sda-device-control/src/action_result.rs:19-90).
 */
module JobProcessing {
  import opened Wrappers
  import opened Utf8
  import opened Json
  import opened JsonText
  import opened Types
  import opened Canonical
  import opened Hex
  import opened Evidence
  import opened SignedJob
  import opened Router
  import HashChain
  import Truncation
  import ProductionHooks
  import CanonicalWriter

  // ---- Action results ----

  datatype ActionResult = ActionResult(
    jobId: Uuid, tenantId: Uuid, deviceId: Uuid, schemaVersion: U16, action: ActionKind, status: ActionStatus,
    refusedReason: Option<JobRefused>, startedAt: int, finishedAt: int, exitCode: Option<I32>,
    output: Truncation.Text, outputTruncated: bool, evidenceId: Uuid)

  datatype ActionResultError =
    | ResultVersionUnsupported(version: int)
    | ResultBadTimeOrder
    | ResultMissingRefusedReason
    | ResultUnexpectedRefusedReason(status: ActionStatus)
    | RefusedHadSideEffect
    | OutputTooLarge(actual: nat, max: nat)

  /** `ActionResult::validate`: the first violated rule. */
  function CheckResult(r: ActionResult): Option<ActionResultError>
  {
    if r.schemaVersion != 1 then Some(ResultVersionUnsupported(r.schemaVersion))
    else if r.startedAt > r.finishedAt then Some(ResultBadTimeOrder)
    else if r.status == Refused && r.refusedReason.None? then Some(ResultMissingRefusedReason)
    else if r.status == Refused && r.startedAt != r.finishedAt then Some(RefusedHadSideEffect)
    else if r.status != Refused && r.refusedReason.Some? then Some(ResultUnexpectedRefusedReason(r.status))
    else if |r.output| > Truncation.OUTPUT_MAX_BYTES then Some(OutputTooLarge(|r.output|, Truncation.OUTPUT_MAX_BYTES))
    else None
  }

  /** A result is valid exactly if it has version 1, ordered times, a reason just when refused, and short output. */
  lemma CheckResultExactly(r: ActionResult)
    ensures CheckResult(r).None? <==>
            && r.schemaVersion == 1 && r.startedAt <= r.finishedAt && |r.output| <= 65536
            && (r.status == Refused <==> r.refusedReason.Some?) && (r.status == Refused ==> r.startedAt == r.finishedAt)
  {
  }

  /** Foreign pieces: primitives, decoders, and the `Debug` name of an action. */
  datatype Env = Env(p: Primitives, d: Decoders, debugName: ActionKind -> string)

  function BoundText(text: string): (r: (Truncation.Text, bool))
  {
    DecodeOfEncode(text);
    Truncation.BoundedIsStable(Encode(text));
    Truncation.Bounded(Encode(text))
  }

  /** What the router decided about a job that no executor ran. */
  datatype Outcome = Outcome(status: ActionStatus, reason: Option<JobRefused>, text: string)

  function Ack(env: Env, action: ActionKind): Outcome
  {
    Outcome(Skipped, None,
            "phase1_no_op_ack: action " + env.debugName(action) + " accepted but no executor wired in this build")
  }

  function Deferral(): Outcome
  {
    Outcome(Skipped, None, "outside_maintenance_window: deferred — job will retry on the next open window")
  }

  function Refusal(reason: JobRefused): Outcome { Outcome(Refused, Some(reason), "refused: " + RefusedName(reason)) }

  /** The skipped, deferred and refused results share this shape. */
  function Project(j: Job, now: int, evidenceId: Uuid, o: Outcome): ActionResult
  {
    var (output, truncated) := BoundText(o.text);
    ActionResult(j.jobId, j.tenantId, j.deviceId, 1, j.action, o.status, o.reason, now, now, None, output, truncated,
                 evidenceId)
  }

  // ---- Building a record ----

  /** `phase1_stub_signature`: the digest of the pre-image, twice. */
  function StubSignature(p: Primitives, preImage: seq<Byte>): seq<Byte> { p.sha256(preImage) + p.sha256(preImage) }

  /** A record's signature is the stub signature of its own pre-image. */
  predicate StubSigned(p: Primitives, r: Record)
  {
    PreImage(p, r).Ok? && r.signature == StubSignature(p, PreImage(p, r).value) && r.keyId == STUB_KEY_ID
  }

  datatype Context = Context(argsCanonical: string, outputFull: seq<Byte>, platform: Platform, agent: AgentVersion)

  function Draft(p: Primitives, j: Job, r: ActionResult, prev: Hash, ctx: Context): Record
  {
    Record(r.evidenceId, r.tenantId, r.deviceId, SCHEMA_VERSION, r.jobId, j.recommendationId, r.action,
           ctx.argsCanonical, r.startedAt, r.finishedAt, r.status, r.refusedReason, r.exitCode,
           p.sha256(ctx.outputFull), ctx.platform, ctx.agent,
           prev, [], STUB_KEY_ID)
  }

  /** Fill in the signature; it cannot be part of what is signed. */
  function Sign(p: Primitives, draft: Record): Result<Record, EvidenceError>
  {
    var preImage := PreImage(p, draft);
    if preImage.Err? then Err(CanonicalizeFailed(preImage.error))
    else Ok(draft.(signature := StubSignature(p, preImage.value)))
  }

  /** `build_signed_evidence_record`: sign the draft, then validate. */
  function BuildRecord(p: Primitives, j: Job, r: ActionResult, prev: Hash, ctx: Context): Result<Record, EvidenceError>
  {
    var signed := Sign(p, Draft(p, j, r, prev, ctx));
    if signed.Err? then signed
    else
      var check := CheckRecord(signed.value);
      if check.Some? then Err(check.value) else signed
  }

  /** Signing changes the signature only, and the signature is that of the signed record itself. */
  lemma SignSucceeds(p: Primitives, draft: Record)
    ensures Sign(p, draft).Ok? && SameContent(Sign(p, draft).value, draft)
    ensures draft.keyId == STUB_KEY_ID ==> StubSigned(p, Sign(p, draft).value)
  {
    PreImageExists(p, draft);
    PreImageOfContent(p, draft, Sign(p, draft).value);
  }

  /** Results with ordered times and a reason exactly when refused. */
  predicate Recordable(r: ActionResult)
  {
    r.startedAt <= r.finishedAt && (r.status == Refused <==> r.refusedReason.Some?)
  }

  /** What a record must say about the job and the result it was built from. */
  predicate Records(p: Primitives, record: Record, j: Job, r: ActionResult, prev: Hash, ctx: Context)
  {
    && CheckRecord(record).None? && record.schemaVersion == 1
    && record.prevRecordHash == prev && record.evidenceId == r.evidenceId && record.jobId == r.jobId
    && record.tenantId == r.tenantId && record.deviceId == r.deviceId && record.action == r.action
    && record.recommendationId == j.recommendationId
    && record.startedAt == r.startedAt && record.finishedAt == r.finishedAt && record.exitCode == r.exitCode
    && record.outputSha256 == p.sha256(ctx.outputFull) && record.argsCanonical == ctx.argsCanonical
    && record.status == r.status && record.refusedReason == r.refusedReason
    && record.platform == ctx.platform && record.agent == ctx.agent
  }

  /** Building succeeds for every recordable result, and the record is linked, valid and signed over its own content. */
  lemma BuildSucceeds(p: Primitives, j: Job, r: ActionResult, prev: Hash, ctx: Context)
    requires Recordable(r)
    ensures BuildRecord(p, j, r, prev, ctx).Ok?
    ensures Records(p, BuildRecord(p, j, r, prev, ctx).value, j, r, prev, ctx)
    ensures StubSigned(p, BuildRecord(p, j, r, prev, ctx).value)
  {
    SignSucceeds(p, Draft(p, j, r, prev, ctx));
  }

  // ---- The chain object ----

  class EvidenceChain {
    var lastChainHash: Option<Hash>

    constructor ()
      ensures NextPrevHash() == FIRST_RECORD_PREV_HASH == seq(32, _ => 0) && IsEmpty()
    {
      lastChainHash := None;
    }

    constructor WithLast(last: Hash)
      ensures NextPrevHash() == last && !IsEmpty()
    {
      lastChainHash := Some(last);
    }

    /** The hash the next record must store. */
    function NextPrevHash(): Hash
      reads this
    {
      if lastChainHash.Some? then lastChainHash.value else FIRST_RECORD_PREV_HASH
    }

    predicate IsEmpty()
      reads this
    {
      lastChainHash.None?
    }

    /** On success the record's digest is the new head; a record that cannot be hashed leaves the chain alone. */
    method Append(p: Primitives, record: Record) returns (r: Result<(), EvidenceError>)
      modifies this
      ensures match ChainHash(p, record)
              case Ok(h) => r.Ok? && lastChainHash == Some(h)
              case Err(e) => r == Err(CanonicalizeFailed(e)) && lastChainHash == old(lastChainHash)
    {
      var h := ChainHash(p, record);
      if h.Err? {
        return Err(CanonicalizeFailed(h.error));
      }
      lastChainHash := Some(h.value);
      return Ok(());
    }
  }

  // ---- Processing ----

  datatype WindowDecision = Execute | Defer | Refuse

  /** One call: the maintenance-window policy's decision is an input, `Execute` when no policy is consulted. */
  datatype Call = Call(
    job: Job, id: Identity, now: int, hooks: Hooks, window: WindowDecision, platform: Platform, agent: AgentVersion,
    evidenceId: Uuid)

  datatype Processed = Processed(actionResult: ActionResult, evidence: Record)

  /** `serde_json::Value::to_string`: compact JSON in stored order, floats included. */
  function CompactText(v: Value): (s: string)
    ensures Encode(s) == Print(v)
  {
    PrintIsUtf8(v);
    EncodeOfDecode(Print(v));
    Decode(Print(v)).value
  }

  /** The args as the record keeps them: canonical text, or the compact text where there is none. */
  function ArgsText(v: Value): string
  {
    var bytes := Canonicalize(v);
    if bytes.Ok? && Decode(bytes.value).Some? then Decode(bytes.value).value else CompactText(v)
  }

  function Judged(env: Env, window: WindowDecision, verdict: Result<JobArgs, JobRefused>, action: ActionKind): Outcome
  {
    match window
    case Execute =>
      (match verdict
       case Ok(_) => Ack(env, action)
       case Err(reason) => Refusal(reason))
    case Defer => Deferral()
    case Refuse => Refusal(OutsideWindow)
  }

  function Decide(env: Env, c: Call): Outcome
  {
    Judged(env, c.window, Validate(c.job, c.id, c.now, c.hooks, env.d), c.job.action)
  }

  function ResultOf(env: Env, c: Call): ActionResult { Project(c.job, c.now, c.evidenceId, Decide(env, c)) }

  function ContextOf(c: Call, r: ActionResult): Context
  {
    Context(ArgsText(c.job.args), r.output, c.platform, c.agent)
  }

  lemma ProjectionIsValid(j: Job, now: int, evidenceId: Uuid, o: Outcome)
    requires o.status == Refused <==> o.reason.Some?
    ensures var r := Project(j, now, evidenceId, o); Recordable(r) && CheckResult(r).None?
  {
    DecodeOfEncode(o.text);
    Truncation.BoundedIsStable(Encode(o.text));
  }

  /** Whatever is decided, the result passes its own validation and can be recorded. */
  lemma ResultIsValid(env: Env, c: Call)
    ensures Recordable(ResultOf(env, c)) && CheckResult(ResultOf(env, c)).None?
  {
    var o := Decide(env, c);
    assert o.status == Refused <==> o.reason.Some?;
    ProjectionIsValid(c.job, c.now, c.evidenceId, o);
  }

  /** The record a result leaves on a chain with this head. */
  function RecordOf(env: Env, head: Hash, c: Call, r: ActionResult): Record
    requires Recordable(r)
  {
    BuildSucceeds(env.p, c.job, r, head, ContextOf(c, r));
    BuildRecord(env.p, c.job, r, head, ContextOf(c, r)).value
  }

  /** The tail both entry points share. Taking the two results apart needs both to be `Ok`: neither `expect` fires. */
  method RecordResult(env: Env, c: Call, r: ActionResult, chain: EvidenceChain) returns (out: Processed)
    requires WellFormed(c.job.args) && Recordable(r)
    modifies chain
    ensures out == Processed(r, RecordOf(env, old(chain.NextPrevHash()), c, r))
    ensures !chain.IsEmpty() && chain.NextPrevHash() == HashOf(env.p, out.evidence)
  {
    var bytes := CanonicalWriter.CanonicalizeValue(c.job.args);
    var text := if bytes.Ok? then Decode(bytes.value) else None;
    var args := if text.Some? then text.value else CompactText(c.job.args);
    var ctx := Context(args, r.output, c.platform, c.agent);
    BuildSucceeds(env.p, c.job, r, chain.NextPrevHash(), ctx);
    var evidence := BuildRecord(env.p, c.job, r, chain.NextPrevHash(), ctx).value;
    ghost var h := HashOf(env.p, evidence);
    var appended := chain.Append(env.p, evidence);
    assert appended.Ok?;
    out := Processed(r, evidence);
  }

  /** What a call returns and appends, given the chain's head. */
  function Handled(env: Env, head: Hash, c: Call): Processed
  {
    ResultIsValid(env, c);
    Processed(ResultOf(env, c), RecordOf(env, head, c, ResultOf(env, c)))
  }

  method ProcessJob(env: Env, c: Call, chain: EvidenceChain) returns (out: Processed)
    requires WellFormed(c.job.args) && c.window == Execute
    modifies chain
    ensures out == Handled(env, old(chain.NextPrevHash()), c)
    ensures !chain.IsEmpty() && chain.NextPrevHash() == HashOf(env.p, out.evidence)
  {
    var validation := ValidateJob(c.job, c.id, c.now, c.hooks, env.d);
    var outcome := match validation
      case Ok(_) => Ack(env, c.job.action)
      case Err(reason) => Refusal(reason);
    ResultIsValid(env, c);
    out := RecordResult(env, c, Project(c.job, c.now, c.evidenceId, outcome), chain);
  }

  method ProcessJobWithWindowPolicy(env: Env, c: Call, chain: EvidenceChain) returns (out: Processed)
    requires WellFormed(c.job.args)
    modifies chain
    ensures out == Handled(env, old(chain.NextPrevHash()), c)
    ensures !chain.IsEmpty() && chain.NextPrevHash() == HashOf(env.p, out.evidence)
  {
    if c.window == Execute {
      out := ProcessJob(env, c, chain);
    } else {
      var outcome := if c.window == Defer then Deferral() else Refusal(OutsideWindow);
      ResultIsValid(env, c);
      out := RecordResult(env, c, Project(c.job, c.now, c.evidenceId, outcome), chain);
    }
  }

  // ---- Whole runs ----

  function EvidenceOf(out: seq<Processed>): (records: seq<Record>)
    ensures |records| == |out|
  {
    seq(|out|, i requires 0 <= i < |out| => out[i].evidence)
  }

  type Handler = (Hash, Call) -> Processed

  /** What this environment makes of a call that finds a head. */
  function HandledBy(env: Env): Handler { (h: Hash, c: Call) => Handled(env, h, c) }

  /** The head a chain has after some outcomes, having started at this one. */
  function HeadsFrom(p: Primitives, head: Hash): seq<Processed> -> Hash
  {
    (out: seq<Processed>) => ChainHead(p, head, EvidenceOf(out))
  }

  function EvidenceStep(step: Handler): (Hash, Call) -> Record { (h: Hash, c: Call) => step(h, c).evidence }

  /** What a sequence of calls returns, each call finding the head its predecessors left. */
  function Outcomes(heads: seq<Processed> -> Hash, step: Handler, calls: seq<Call>): (out: seq<Processed>)
    ensures |out| == |calls|
  {
    if calls == [] then []
    else
      var n := |calls| - 1;
      var before := Outcomes(heads, step, calls[..n]);
      before + [step(heads(before), calls[n])]
  }

  /** The records a sequence of calls leaves. */
  function Trail(env: Env, head: Hash, calls: seq<Call>): seq<Record>
  {
    HashChain.Produce(ChainScheme(env.p), EvidenceStep(HandledBy(env)), head, calls)
  }

  lemma EvidenceNext(out: seq<Processed>, x: Processed)
    ensures EvidenceOf(out + [x]) == EvidenceOf(out) + [x.evidence]
  {
  }

  lemma {:induction false} OutcomesLeaveRecords(p: Primitives, step: Handler, head: Hash, calls: seq<Call>)
    ensures EvidenceOf(Outcomes(HeadsFrom(p, head), step, calls))
         == HashChain.Produce(ChainScheme(p), EvidenceStep(step), head, calls)
  {
    if calls != [] {
      var n := |calls| - 1;
      OutcomesLeaveRecords(p, step, head, calls[..n]);
      var before := Outcomes(HeadsFrom(p, head), step, calls[..n]);
      EvidenceNext(before, step(ChainHead(p, head, EvidenceOf(before)), calls[n]));
    }
  }

  /** A record that is valid, signed over its own content, and says what happened in the call. */
  predicate Accounts(env: Env, c: Call, record: Record)
  {
    && Records(env.p, record, c.job, ResultOf(env, c), record.prevRecordHash, ContextOf(c, ResultOf(env, c)))
    && StubSigned(env.p, record)
  }

  lemma HandledAccounts(env: Env, head: Hash, c: Call)
    ensures Accounts(env, c, Handled(env, head, c).evidence) && Handled(env, head, c).evidence.prevRecordHash == head
    ensures Handled(env, head, c).evidence.evidenceId == Handled(env, head, c).actionResult.evidenceId == c.evidenceId
  {
    var r := ResultOf(env, c);
    ResultIsValid(env, c);
    BuildSucceeds(env.p, c.job, r, head, ContextOf(c, r));
  }

  /** A verdict as a result reports it: refused with a reason, or skipped without one. */
  predicate Reports(status: ActionStatus, reason: Option<JobRefused>, verdict: Option<JobRefused>)
  {
    reason == verdict && status == (if verdict.Some? then Refused else Skipped)
  }

  /** The text of a result. */
  function Said(refused: Option<JobRefused>, deferred: bool, actionName: string): string
  {
    if refused.Some? then "refused: " + RefusedName(refused.value)
    else if deferred then "outside_maintenance_window: deferred — job will retry on the next open window"
    else "phase1_no_op_ack: action " + actionName + " accepted but no executor wired in this build"
  }

  /** What the window policy, or else the validation, refuses a call for. */
  function RefusedFor(env: Env, c: Call): Option<JobRefused>
  {
    Refusing(c.window, Validate(c.job, c.id, c.now, c.hooks, env.d))
  }

  function Refusing(window: WindowDecision, verdict: Result<JobArgs, JobRefused>): Option<JobRefused>
  {
    if window == Refuse then Some(OutsideWindow)
    else if window == Execute && verdict.Err? then Some(verdict.error)
    else None
  }

  lemma JudgedExactly(env: Env, window: WindowDecision, verdict: Result<JobArgs, JobRefused>, action: ActionKind)
    ensures var o, refused := Judged(env, window, verdict, action), Refusing(window, verdict);
            Reports(o.status, o.reason, refused) && o.text == Said(refused, window == Defer, env.debugName(action))
  {
  }

  lemma ProjectedFields(j: Job, now: int, evidenceId: Uuid, o: Outcome)
    ensures var r := Project(j, now, evidenceId, o);
            && r.status == o.status && r.refusedReason == o.reason
            && r.jobId == j.jobId && r.tenantId == j.tenantId && r.deviceId == j.deviceId && r.action == j.action
            && r.startedAt == r.finishedAt == now && r.exitCode.None? && r.schemaVersion == 1
            && r.evidenceId == evidenceId
  {
  }

  lemma ResultExactly(env: Env, c: Call)
    ensures var r := ResultOf(env, c);
            && Reports(r.status, r.refusedReason, RefusedFor(env, c))
            && r.jobId == c.job.jobId && r.tenantId == c.job.tenantId && r.deviceId == c.job.deviceId
            && r.action == c.job.action && r.startedAt == r.finishedAt == c.now && r.exitCode.None?
            && r.schemaVersion == 1 && r.evidenceId == c.evidenceId
  {
    JudgedExactly(env, c.window, Validate(c.job, c.id, c.now, c.hooks, env.d), c.job.action);
    ProjectedFields(c.job, c.now, c.evidenceId, Decide(env, c));
  }

  /**
   What a call comes to, in the result and in the record alike: refused exactly if the window policy or the
   validation refuses, with that reason, and otherwise skipped; under the job's own ids, action and args, at the
   time of the call, on the head it found.
   */
  lemma HandledExactly(env: Env, head: Hash, c: Call)
    ensures var x := Handled(env, head, c);
            && Reports(x.actionResult.status, x.actionResult.refusedReason, RefusedFor(env, c))
            && Reports(x.evidence.status, x.evidence.refusedReason, RefusedFor(env, c))
            && x.evidence.jobId == x.actionResult.jobId == c.job.jobId
            && x.evidence.tenantId == x.actionResult.tenantId == c.job.tenantId
            && x.evidence.deviceId == x.actionResult.deviceId == c.job.deviceId
            && x.evidence.action == x.actionResult.action == c.job.action
            && x.evidence.startedAt == x.evidence.finishedAt == c.now
            && x.actionResult.startedAt == x.actionResult.finishedAt == c.now
            && x.evidence.evidenceId == x.actionResult.evidenceId == c.evidenceId
            && x.evidence.recommendationId == c.job.recommendationId && x.evidence.exitCode.None?
            && x.evidence.argsCanonical == ArgsText(c.job.args)
            && x.evidence.outputSha256 == env.p.sha256(x.actionResult.output)
            && x.evidence.platform == c.platform && x.evidence.agent == c.agent && x.evidence.prevRecordHash == head
  {
    var r := ResultOf(env, c);
    ResultIsValid(env, c);
    ResultExactly(env, c);
    BuildSucceeds(env.p, c.job, r, head, ContextOf(c, r));
  }

  /** The text of a result says what was decided, cut to the limit of outputs. */
  lemma OutputExactly(env: Env, c: Call)
    ensures (ResultOf(env, c).output, ResultOf(env, c).outputTruncated)
         == BoundText(Said(RefusedFor(env, c), c.window == Defer, env.debugName(c.job.action)))
  {
    JudgedExactly(env, c.window, Validate(c.job, c.id, c.now, c.hooks, env.d), c.job.action);
    ProjectedOutput(c.job, c.now, c.evidenceId, Decide(env, c));
  }

  lemma ProjectedOutput(j: Job, now: int, evidenceId: Uuid, o: Outcome)
    ensures var r := Project(j, now, evidenceId, o); (r.output, r.outputTruncated) == BoundText(o.text)
  {
  }

  /** The stub signature of a record is the digest of its own pre-image, twice. */
  lemma SignatureExactly(env: Env, head: Hash, c: Call)
    ensures var e := Handled(env, head, c).evidence;
            && PreImage(env.p, e).Ok? && |e.signature| == 64 && e.keyId == "sda-evidence-stub-phase1"
            && e.signature[..32] == env.p.sha256(PreImage(env.p, e).value) == e.signature[32..]
  {
    var r := ResultOf(env, c);
    ResultIsValid(env, c);
    BuildSucceeds(env.p, c.job, r, head, ContextOf(c, r));
  }

  lemma StepLinks(env: Env, head: Hash, c: Call)
    ensures ChainScheme(env.p).prev(EvidenceStep(HandledBy(env))(head, c)) == head
  {
    HandledAccounts(env, head, c);
  }

  lemma StepsLink(env: Env)
    ensures forall h, c :: ChainScheme(env.p).prev(EvidenceStep(HandledBy(env))(h, c)) == h
  {
    forall h, c ensures ChainScheme(env.p).prev(EvidenceStep(HandledBy(env))(h, c)) == h {
      StepLinks(env, h, c);
    }
  }

  lemma StepAccounts(env: Env, head: Hash, c: Call)
    ensures Accounts(env, c, EvidenceStep(HandledBy(env))(head, c))
  {
    HandledAccounts(env, head, c);
  }

  lemma TrailAccounts(env: Env, head: Hash, calls: seq<Call>, i: nat)
    requires i < |calls|
    ensures Accounts(env, calls[i], Trail(env, head, calls)[i])
  {
    var s, trail := ChainScheme(env.p), Trail(env, head, calls);
    HashChain.ProducedAt(s, EvidenceStep(HandledBy(env)), head, calls, i);
    StepAccounts(env, HashChain.Head(s, head, trail[..i]), calls[i]);
  }

  lemma TrailLinks(env: Env, head: Hash, calls: seq<Call>)
    ensures ChainFrom(env.p, head, Trail(env, head, calls))
  {
    StepsLink(env);
    HashChain.ProducedIsLinked(ChainScheme(env.p), EvidenceStep(HandledBy(env)), head, calls);
  }

  /** Every run, from any head, leaves one valid record per call, each linked to its predecessor. */
  lemma RunIsChained(env: Env, head: Hash, calls: seq<Call>)
    ensures |Trail(env, head, calls)| == |calls|
    ensures ChainFrom(env.p, head, Trail(env, head, calls))
    ensures forall i :: 0 <= i < |calls| ==> Accounts(env, calls[i], Trail(env, head, calls)[i])
  {
    TrailLinks(env, head, calls);
    forall i | 0 <= i < |calls| ensures Accounts(env, calls[i], Trail(env, head, calls)[i]) {
      TrailAccounts(env, head, calls, i);
    }
  }

  /** Names a call and the head it finds, at which two handlers are to be compared. */
  ghost predicate At(h: Hash, c: Call) { true }

  /** The handler is this environment's; used one named call at a time. */
  ghost predicate Handles(env: Env, step: Handler)
  {
    forall h, c {:trigger At(h, c)} :: At(h, c) ==> step(h, c) == Handled(env, h, c)
  }

  ghost predicate After(out: seq<Processed>, x: Processed) { true }

  /** One more outcome moves the head to the hash of its record. */
  ghost predicate Heads(p: Primitives, heads: seq<Processed> -> Hash)
  {
    forall out, x {:trigger After(out, x)} :: After(out, x) ==> heads(out + [x]) == HashOf(p, x.evidence)
  }

  lemma HeadMoves(p: Primitives, head: Hash, out: seq<Processed>, x: Processed)
    ensures HeadsFrom(p, head)(out + [x]) == HashOf(p, x.evidence)
  {
    EvidenceNext(out, x);
  }

  lemma HeadsMove(p: Primitives, head: Hash)
    ensures Heads(p, HeadsFrom(p, head))
  {
    forall out, x | After(out, x) ensures HeadsFrom(p, head)(out + [x]) == HashOf(p, x.evidence) {
      HeadMoves(p, head, out, x);
    }
  }

  method ProcessNext(env: Env, c: Call, chain: EvidenceChain, ghost heads: seq<Processed> -> Hash, ghost step: Handler,
                     ghost out: seq<Processed>)
    returns (x: Processed)
    requires WellFormed(c.job.args) && Heads(env.p, heads) && Handles(env, step)
    modifies chain
    ensures x == step(old(chain.NextPrevHash()), c)
    ensures chain.NextPrevHash() == heads(out + [x])
  {
    assert At(chain.NextPrevHash(), c);
    x := ProcessJobWithWindowPolicy(env, c, chain);
    assert After(out, x);
  }

  method ProcessEach(env: Env, calls: seq<Call>, chain: EvidenceChain, ghost heads: seq<Processed> -> Hash,
                     ghost step: Handler)
    returns (out: seq<Processed>)
    requires forall i :: 0 <= i < |calls| ==> WellFormed(calls[i].job.args)
    requires Heads(env.p, heads) && Handles(env, step) && chain.NextPrevHash() == heads([])
    modifies chain
    ensures out == Outcomes(heads, step, calls) && chain.NextPrevHash() == heads(out)
  {
    out := [];
    for n := 0 to |calls|
      invariant out == Outcomes(heads, step, calls[..n]) && chain.NextPrevHash() == heads(out)
    {
      var x := ProcessNext(env, calls[n], chain, heads, step, out);
      assert calls[..n + 1][..n] == calls[..n];
      out := out + [x];
    }
    assert calls[..|calls|] == calls;
  }

  lemma EnvironmentHandles(env: Env)
    ensures Handles(env, HandledBy(env))
  {
  }

  lemma OutcomesLeaveTrail(env: Env, head: Hash, calls: seq<Call>)
    ensures EvidenceOf(Outcomes(HeadsFrom(env.p, head), HandledBy(env), calls)) == Trail(env, head, calls)
  {
    OutcomesLeaveRecords(env.p, HandledBy(env), head, calls);
  }

  /**
   Jobs worked off one after the other on a chain object: the records are the trail, and the chain ends at its
   head.
   */
  method ProcessAll(env: Env, calls: seq<Call>, chain: EvidenceChain) returns (out: seq<Processed>)
    requires forall i :: 0 <= i < |calls| ==> WellFormed(calls[i].job.args)
    modifies chain
    ensures out == Outcomes(HeadsFrom(env.p, old(chain.NextPrevHash())), HandledBy(env), calls)
    ensures EvidenceOf(out) == Trail(env, old(chain.NextPrevHash()), calls)
    ensures chain.NextPrevHash() == ChainHead(env.p, old(chain.NextPrevHash()), EvidenceOf(out))
  {
    ghost var head := chain.NextPrevHash();
    HeadsMove(env.p, head);
    EnvironmentHandles(env);
    out := ProcessEach(env, calls, chain, HeadsFrom(env.p, head), HandledBy(env));
    OutcomesLeaveTrail(env, head, calls);
  }

  /** Two runs from one head that reach the same head left the same audit trail, or a digest was broken. */
  lemma RunsAreTamperEvident(env: Env, head: Hash, a: seq<Call>, b: seq<Call>) returns (v: HashChain.Verdict<Record>)
    requires Faithful(env.p)
    requires ChainHead(env.p, head, Trail(env, head, a)) == ChainHead(env.p, head, Trail(env, head, b))
    ensures HashChain.Justified(ChainScheme(env.p), head, Trail(env, head, a), Trail(env, head, b), v)
    ensures v.Identical? ==> |a| == |b|
  {
    RunIsChained(env, head, a);
    RunIsChained(env, head, b);
    v := TamperEvidence(env.p, head, Trail(env, head, a), Trail(env, head, b));
  }

  /** The stored args are the canonical text exactly when there is one: for float-free args. */
  lemma ArgsTextExactly(v: Value)
    ensures Encode(ArgsText(v)) == if FloatFree(v) then Print(Sorted(v)) else Print(v)
  {
    CanonicalExactly(v);
    if FloatFree(v) {
      CanonicalIsUtf8(v);
      EncodeOfDecode(Canonicalize(v).value);
    }
  }

  /** Canonical args can be read back from a record. */
  lemma ArgsReadBack(v: Value)
    requires WellFormed(v) && FloatFree(v)
    ensures ParseValue(Encode(ArgsText(v))) == Some((Sorted(v), []))
    ensures Canonicalize(v) == Ok(Encode(ArgsText(v)))
  {
    ArgsTextExactly(v);
    CanonicalExactly(v);
    CanonicalDecodes(v, []);
    assert Print(Sorted(v)) + [] == Print(Sorted(v));
  }

  /** A job a deployed agent accepts is recorded with canonical args, never with the fallback form. */
  lemma AcceptedArgsAreCanonical(env: Env, head: Hash, c: Call, crypto: ProductionHooks.Crypto,
                                 st: ProductionHooks.KeyState)
    requires WellFormed(c.job.args) && c.hooks == ProductionHooks.HooksOf(crypto, st)
    requires Validate(c.job, c.id, c.now, c.hooks, env.d).Ok?
    ensures Canonicalize(c.job.args) == Ok(Encode(Handled(env, head, c).evidence.argsCanonical))
  {
    HandledAccounts(env, head, c);
    ProductionHooks.AcceptedIsFloatFree(crypto, st, c.job, c.id, c.now, env.d);
    ArgsReadBack(c.job.args);
  }
}
