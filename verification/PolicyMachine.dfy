/**
 The application-control supervisor as a state machine on values: apply and rollback, with a one-step
 snapshot, a version floor and a backend that may refuse (crates/sda-app-control/src/enforce.rs:30-163,
 crates/sda-app-control/src/module.rs:95-229).
 */
module PolicyMachine {
  import opened Wrappers
  import opened AppPolicy
  import opened PolicyTrace

  datatype Config = Config(v: Verifier, trusted: Option<string>, mode: Mode)

  datatype Snapshot = Snapshot(signed: Option<SignedPolicy>, verified: Option<VerifiedPolicy>)

  const NOTHING := Snapshot(None, None)

  /** The enforce controller and, under `installed`, what the backend holds. */
  datatype Enforcer = Enforcer(current: Snapshot, rollback: Snapshot, installed: Option<Payload>)

  datatype State = State(
    monitored: Option<VerifiedPolicy>, log: seq<Decision>, enforcer: Enforcer, lastVersion: Option<U64>)

  /** A supervisor just built, over a backend that may hold a policy from before. */
  function Start(held: Option<Payload>): State { State(None, [], Enforcer(NOTHING, NOTHING, held), None) }

  datatype RollbackError = NoPrevious | RollbackRefused(error: PalError)

  datatype SupervisorError =
    | NoTrustedKey
    | Verification(error: VerificationError)
    | Refused(pal: PalError)
    | Rollback(why: RollbackError)
    | ModeMismatch(configured: Mode, policy: Mode)

  // ---- Operations ----

  /** The provider verifies again and asks the backend; `answer` is the backend's refusal, if any. */
  function Push(v: Verifier, signed: SignedPolicy, answer: Option<PalError>): Result<Payload, PalError>
  {
    match v.verify(signed)
    case Err(e) => Err(e)
    case Ok(payload) => if answer.Some? then Err(answer.value) else Ok(payload)
  }

  function EnforceApply(v: Verifier, e: Enforcer, signed: SignedPolicy, verified: VerifiedPolicy,
                        answer: Option<PalError>)
    : (Enforcer, Result<(), PalError>)
  {
    match Push(v, signed, answer)
    case Err(error) => (e, Err(error))
    case Ok(payload) =>
      var rollback := if e.current.signed.Some? && e.current.verified.Some? then e.current else e.rollback;
      (Enforcer(Snapshot(Some(signed), Some(verified)), rollback, Some(payload)), Ok(()))
  }

  function EnforceRollback(v: Verifier, e: Enforcer, answer: Option<PalError>)
    : (Enforcer, Result<VerifiedPolicy, RollbackError>)
  {
    if e.rollback.signed.None? || e.rollback.verified.None? then (e, Err(NoPrevious))
    else
      match Push(v, e.rollback.signed.value, answer)
      case Err(error) => (e, Err(RollbackRefused(error)))
      case Ok(payload) => (Enforcer(e.rollback, NOTHING, Some(payload)), Ok(e.rollback.verified.value))
  }

  /** What the supervisor checks before any controller sees the policy. */
  function Admitted(cfg: Config, floor: Option<U64>, signed: SignedPolicy): Result<VerifiedPolicy, SupervisorError>
  {
    if cfg.trusted.None? then Err(NoTrustedKey)
    else
      match Verified(cfg.v, signed, cfg.trusted.value, floor)
      case Err(e) => Err(Verification(e))
      case Ok(verified) =>
        if verified.payload.targetMode != cfg.mode && cfg.mode != Disabled
        then Err(ModeMismatch(cfg.mode, verified.payload.targetMode))
        else Ok(verified)
  }

  function Apply(cfg: Config, s: State, signed: SignedPolicy, answer: Option<PalError>)
    : (State, Result<VerifiedPolicy, SupervisorError>)
  {
    match Admitted(cfg, s.lastVersion, signed)
    case Err(e) => (s, Err(e))
    case Ok(verified) =>
      if cfg.mode != Enforce
      then (State(Some(verified), [], s.enforcer, Some(verified.payload.version)), Ok(verified))
      else
        var (enforcer, r) := EnforceApply(cfg.v, s.enforcer, signed, verified, answer);
        if r.Err? then (s.(enforcer := enforcer), Err(Refused(r.error)))
        else (s.(enforcer := enforcer, lastVersion := Some(verified.payload.version)), Ok(verified))
  }

  function RollBack(cfg: Config, s: State, answer: Option<PalError>): (State, Result<VerifiedPolicy, SupervisorError>)
  {
    if cfg.mode != Enforce then (s, Err(Rollback(NoPrevious)))
    else
      var (enforcer, r) := EnforceRollback(cfg.v, s.enforcer, answer);
      if r.Err? then (s.(enforcer := enforcer), Err(Rollback(r.error)))
      else (s.(enforcer := enforcer, lastVersion := Some(r.value.payload.version)), Ok(r.value))
  }

  /** Only a monitor takes observations, and it logs what it decides. */
  function Observe(cfg: Config, s: State, subject: string): (State, Option<Decision>)
  {
    if cfg.mode == Enforce then (s, None)
    else
      var d := Decide(s.monitored, subject);
      (s.(log := s.log + [d]), Some(d))
  }

  datatype Command =
    | ApplyPolicy(signed: SignedPolicy, answer: Option<PalError>)
    | RollbackPolicy(answer: Option<PalError>)
    | ObserveSubject(subject: string)

  function Step(cfg: Config, s: State, c: Command): (State, Event)
  {
    match c
    case ApplyPolicy(signed, answer) =>
      var (next, r) := Apply(cfg, s, signed, answer);
      (next, if r.Ok? then Applied(r.value.payload.version) else Failed)
    case RollbackPolicy(answer) =>
      var (next, r) := RollBack(cfg, s, answer);
      (next, if r.Ok? then RolledBack(r.value.payload.version) else Failed)
    case ObserveSubject(subject) =>
      var (next, d) := Observe(cfg, s, subject);
      (next, Observed(d))
  }

  /** The state after these commands, and what each of them came to. */
  function Run(cfg: Config, start: State, commands: seq<Command>): (State, seq<Event>)
  {
    if commands == [] then (start, [])
    else
      var n := |commands| - 1;
      var (s, t) := Run(cfg, start, commands[..n]);
      var (next, e) := Step(cfg, s, commands[n]);
      (next, t + [e])
  }

  // ---- The invariant ----

  /** Signed and verified form are both there and correspond, or both absent. */
  predicate Corresponds(cfg: Config, b: Snapshot)
  {
    match (b.signed, b.verified)
    case (None, None) => true
    case (Some(signed), Some(verified)) =>
      && cfg.trusted.Some? && Verified(cfg.v, signed, cfg.trusted.value, None) == Ok(verified)
      && verified.payload.targetMode == Enforce
    case _ => false
  }

  function VersionOf(p: Option<VerifiedPolicy>): Option<U64> { if p.None? then None else Some(p.value.payload.version) }

  /** The backend holds the current policy, or what it held before there was one. */
  predicate EnforceInvariant(cfg: Config, held: Option<Payload>, s: State)
  {
    && Corresponds(cfg, s.enforcer.current) && Corresponds(cfg, s.enforcer.rollback)
    && s.lastVersion == VersionOf(s.enforcer.current.verified)
    && s.enforcer.installed == (if s.enforcer.current.verified.None? then held
                                else Some(s.enforcer.current.verified.value.payload))
    && (s.enforcer.rollback.verified.Some? ==>
          && s.enforcer.current.verified.Some?
          && s.enforcer.rollback.verified.value.payload.version < s.enforcer.current.verified.value.payload.version)
  }

  /** Everything logged is what the policy in force decides. */
  predicate MonitorInvariant(held: Option<Payload>, s: State)
  {
    && s.enforcer == Start(held).enforcer && s.lastVersion == VersionOf(s.monitored)
    && forall d :: d in s.log ==> d == Decide(s.monitored, d.subject)
  }

  predicate Invariant(cfg: Config, held: Option<Payload>, s: State)
  {
    if cfg.mode == Enforce then s.monitored.None? && s.log == [] && EnforceInvariant(cfg, held, s)
    else MonitorInvariant(held, s)
  }

  /** A command that fails leaves everything as it was, in every state. */
  lemma FailureChangesNothing(cfg: Config, s: State, c: Command)
    ensures Step(cfg, s, c).1.Failed? ==> Step(cfg, s, c).0 == s
  {
  }

  /** The version floor, the payload and the hashes that decide about a bundle. */
  predicate Admissible(cfg: Config, floor: Option<U64>, signed: SignedPolicy)
  {
    && cfg.trusted.Some? && SameButCase(signed.signingKey, cfg.trusted.value) && cfg.v.verify(signed).Ok?
    && (floor.Some? ==> cfg.v.verify(signed).value.version > floor.value)
    && Distinct(Hashes(cfg.v, cfg.v.verify(signed).value.rules))
  }

  /** A bundle is applied exactly if it is admissible, meant for the configured mode, and not refused by the backend. */
  lemma AppliedExactly(cfg: Config, s: State, signed: SignedPolicy, answer: Option<PalError>)
    ensures Apply(cfg, s, signed, answer).1.Ok? <==>
            && Admissible(cfg, s.lastVersion, signed)
            && (cfg.v.verify(signed).value.targetMode == cfg.mode || cfg.mode == Disabled)
            && (cfg.mode == Enforce ==> answer.None?)
    ensures var (next, r) := Apply(cfg, s, signed, answer);
            r.Ok? ==>
              var payload := cfg.v.verify(signed).value;
              && r.value == VerifiedPolicy(payload, Hashes(cfg.v, payload.rules))
              && next.lastVersion == Some(payload.version)
              && (cfg.mode == Enforce ==>
                    && next.enforcer.installed == Some(payload) && next.monitored == s.monitored && next.log == s.log
                    && next.enforcer.current == Snapshot(Some(signed), Some(r.value)))
              && (cfg.mode != Enforce ==>
                    next.monitored == Some(r.value) && next.log == [] && next.enforcer == s.enforcer)
  {
    if cfg.trusted.Some? {
      VerifiedExactly(cfg.v, signed, cfg.trusted.value, s.lastVersion);
    }
  }

  /** Every refusal of a bundle has its reason, in this order: no key, verification, mode, backend. */
  lemma ApplyRefusedExactly(cfg: Config, s: State, signed: SignedPolicy, answer: Option<PalError>)
    ensures var r := Apply(cfg, s, signed, answer).1;
            && (cfg.trusted.None? ==> r == Err(NoTrustedKey))
            && (cfg.trusted.Some? ==>
                  match Verified(cfg.v, signed, cfg.trusted.value, s.lastVersion)
                  case Err(e) => r == Err(Verification(e))
                  case Ok(policy) =>
                    && (policy.payload.targetMode != cfg.mode && cfg.mode != Disabled ==>
                          r == Err(ModeMismatch(cfg.mode, policy.payload.targetMode)))
                    && (policy.payload.targetMode == Enforce && cfg.mode == Enforce && answer.Some? ==>
                          r == Err(Refused(answer.value))))
  {
    if cfg.trusted.Some? {
      VerifiedExactly(cfg.v, signed, cfg.trusted.value, s.lastVersion);
    }
  }

  lemma ApplyKeepsInvariant(cfg: Config, held: Option<Payload>, s: State, signed: SignedPolicy,
                            answer: Option<PalError>)
    requires Invariant(cfg, held, s)
    ensures Invariant(cfg, held, Apply(cfg, s, signed, answer).0)
  {
    if cfg.trusted.Some? {
      VerifiedExactly(cfg.v, signed, cfg.trusted.value, s.lastVersion);
    }
  }

  lemma RollbackKeepsInvariant(cfg: Config, held: Option<Payload>, s: State, answer: Option<PalError>)
    requires Invariant(cfg, held, s)
    ensures Invariant(cfg, held, RollBack(cfg, s, answer).0)
  {
    if s.enforcer.rollback.signed.Some? && cfg.trusted.Some? {
      VerifiedExactly(cfg.v, s.enforcer.rollback.signed.value, cfg.trusted.value, None);
    }
  }

  lemma StepKeepsInvariant(cfg: Config, held: Option<Payload>, s: State, c: Command)
    requires Invariant(cfg, held, s)
    ensures Invariant(cfg, held, Step(cfg, s, c).0)
  {
    match c
    case ApplyPolicy(signed, answer) => ApplyKeepsInvariant(cfg, held, s, signed, answer);
    case RollbackPolicy(answer) => RollbackKeepsInvariant(cfg, held, s, answer);
    case ObserveSubject(_) =>
  }

  /** The versions and the log in a state are those the outcomes so far account for. */
  predicate Accounted(cfg: Config, s: State, t: seq<Event>)
  {
    && Legal(t) && s.lastVersion == Floor(t)
    && (cfg.mode == Enforce ==> VersionOf(s.enforcer.rollback.verified) == Restorable(t))
    && s.log == Log(t)
  }

  lemma StepIsAccounted(cfg: Config, held: Option<Payload>, s: State, t: seq<Event>, c: Command)
    requires Invariant(cfg, held, s) && Accounted(cfg, s, t)
    ensures Accounted(cfg, Step(cfg, s, c).0, t + [Step(cfg, s, c).1])
  {
    var (next, e) := Step(cfg, s, c);
    assert (t + [e])[..|t|] == t;
    if c.ApplyPolicy? && cfg.trusted.Some? {
      VerifiedExactly(cfg.v, c.signed, cfg.trusted.value, s.lastVersion);
    }
  }

  /** In every reachable state the invariant holds, and every run's outcomes are legal. */
  lemma {:induction false} EveryRun(cfg: Config, held: Option<Payload>, commands: seq<Command>)
    ensures Invariant(cfg, held, Run(cfg, Start(held), commands).0)
    ensures Accounted(cfg, Run(cfg, Start(held), commands).0, Run(cfg, Start(held), commands).1) &&
            |Run(cfg, Start(held), commands).1| == |commands|
  {
    if commands != [] {
      var n := |commands| - 1;
      EveryRun(cfg, held, commands[..n]);
      var (s, t) := Run(cfg, Start(held), commands[..n]);
      StepKeepsInvariant(cfg, held, s, commands[n]);
      StepIsAccounted(cfg, held, s, t, commands[n]);
    }
  }

  /** Accounting for whole runs: rollbacks are fewer than applies, and two of them are never adjacent. */
  lemma RollbackAccounting(cfg: Config, held: Option<Payload>, commands: seq<Command>)
    ensures var t := Run(cfg, Start(held), commands).1;
            && (Applies(t) > 0 ==> Rollbacks(t) < Applies(t))
            && (Applies(t) == 0 ==> Rollbacks(t) == 0)
            && (forall i, j :: 0 <= i < j < |t| && t[i].RolledBack? && t[j].RolledBack? ==>
                  exists k :: i < k < j && t[k].Applied?)
  {
    var t := Run(cfg, Start(held), commands).1;
    EveryRun(cfg, held, commands);
    RollbacksBehindApplies(t);
    forall i, j | 0 <= i < j < |t| && t[i].RolledBack? && t[j].RolledBack?
      ensures exists k :: i < k < j && t[k].Applied?
    {
      var k := ApplyBetweenRollbacks(t, i, j);
    }
  }

  /**
   Versions over whole runs: with no rollback in between they strictly increase, a rollback takes the floor
   back to the version in force before the apply it undoes, and a low-water mark
   below the floor never falls.
   */
  lemma RunVersions(cfg: Config, held: Option<Payload>, commands: seq<Command>)
    ensures var t := Run(cfg, Start(held), commands).1;
            && (forall i, j :: 0 <= i < j < |t| && Succeeds(t[i]) && t[j].Applied? && NoRollbackWithin(t, i, j) ==>
                  t[i].version < t[j].version)
            && (forall j :: 0 <= j < |t| && t[j].RolledBack? ==>
                  exists k :: 0 <= k < j && t[k].Applied? && Floor(t[..k]) == Some(t[j].version) &&
                              t[j].version < t[k].version)
            && (forall i, j :: 0 <= i <= j <= |t| && Low(t[..i]).Some? ==>
                  && Low(t[..j]).Some? && Floor(t[..j]).Some?
                  && Low(t[..i]).value <= Low(t[..j]).value <= Floor(t[..j]).value)
  {
    var t := Run(cfg, Start(held), commands).1;
    EveryRun(cfg, held, commands);
    forall i, j | 0 <= i <= j <= |t| && Low(t[..i]).Some?
      ensures Low(t[..j]).Some? && Floor(t[..j]).Some?
      ensures Low(t[..i]).value <= Low(t[..j]).value <= Floor(t[..j]).value
    {
      LowWithin(t, i, j);
    }
    forall i, j | 0 <= i < j < |t| && Succeeds(t[i]) && t[j].Applied? && NoRollbackWithin(t, i, j)
      ensures t[i].version < t[j].version
    {
      VersionsIncrease(t, i, j);
    }
    forall j | 0 <= j < |t| && t[j].RolledBack?
      ensures exists k :: 0 <= k < j && t[k].Applied? && Floor(t[..k]) == Some(t[j].version) &&
                          t[j].version < t[k].version
    {
      var k := RollbackUndoesApply(t, j);
    }
  }

  /**
   Rolling back after an apply restores the policy, the backend and the floor that the apply displaced, exactly
   if this supervisor applied the policy displaced and the backend takes it back. What the backend held from
   before is not restored, and a refusal leaves the applied policy in force.
   */
  lemma RollbackUndoesApplied(cfg: Config, held: Option<Payload>, commands: seq<Command>, signed: SignedPolicy,
                              first: Option<PalError>, second: Option<PalError>)
    requires cfg.mode == Enforce
    ensures var s := Run(cfg, Start(held), commands).0;
            var (applied, r) := Apply(cfg, s, signed, first);
            r.Ok? ==>
              var (restored, back) := RollBack(cfg, applied, second);
              match (s.enforcer.current.verified, second)
              case (None, _) => back == Err(Rollback(NoPrevious)) && restored == applied
              case (Some(_), Some(refusal)) => back == Err(Rollback(RollbackRefused(refusal))) && restored == applied
              case (Some(displaced), None) =>
                back == Ok(displaced) && restored == s.(enforcer := s.enforcer.(rollback := NOTHING))
  {
    EveryRun(cfg, held, commands);
    var s := Run(cfg, Start(held), commands).0;
    if s.enforcer.current.signed.Some? && cfg.trusted.Some? {
      VerifiedExactly(cfg.v, s.enforcer.current.signed.value, cfg.trusted.value, None);
    }
  }
}
