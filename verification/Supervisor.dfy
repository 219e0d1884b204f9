/**
 The supervisor and its controllers as objects (crates/sda-app-control/src/enforce.rs:57-163,
 crates/sda-app-control/src/monitor.rs:14-104, crates/sda-app-control/src/module.rs:95-340). Clocks and
 events on the bus are not part of the state.
 */
module Supervisor {
  import opened Wrappers
  import opened AppPolicy
  import opened PolicyTrace
  import opened PolicyMachine

  // ---- Monitor mode ----

  class MonitorController {
    var policy: Option<VerifiedPolicy>
    var decisions: seq<Decision>

    constructor ()
      ensures policy.None? && decisions == []
    {
      policy, decisions := None, [];
    }

    method InstallPolicy(p: VerifiedPolicy)
      modifies this
      ensures policy == Some(p) && decisions == []
    {
      policy := Some(p);
      decisions := [];
    }

    method Observe(subject: string) returns (d: Decision)
      modifies this
      ensures d == Decide(policy, subject) && policy == old(policy) && decisions == old(decisions) + [d]
    {
      d := Decision(subject, None, None);
      if policy.Some? {
        var rules := policy.value.payload.rules;
        for i := 0 to |rules|
          invariant forall k :: 0 <= k < i ==> rules[k].subject != subject
          invariant d == Decision(subject, None, None)
        {
          if rules[i].subject == subject {
            d := Decision(subject, Some(rules[i].allow),
                          if i < |policy.value.ruleHashes| then Some(policy.value.ruleHashes[i]) else None);
            break;
          }
        }
      }
      decisions := decisions + [d];
    }
  }

  // ---- Enforce mode ----

  /** The OS backend behind the provider: it either installs exactly what it is given or changes nothing. */
  class Provider {
    var installed: Option<Payload>

    constructor ()
      ensures installed.None?
    {
      installed := None;
    }

    method ApplyPolicy(v: Verifier, signed: SignedPolicy, answer: Option<PalError>) returns (r: Result<(), PalError>)
      modifies this
      ensures match Push(v, signed, answer)
              case Ok(payload) => r == Ok(()) && installed == Some(payload)
              case Err(e) => r == Err(e) && installed == old(installed)
    {
      var payload := v.verify(signed);
      if payload.Err? {
        return Err(payload.error);
      }
      if answer.Some? {
        return Err(answer.value);
      }
      installed := Some(payload.value);
      return Ok(());
    }
  }

  class EnforceController {
    const provider: Provider
    var currentSigned: Option<SignedPolicy>
    var currentVerified: Option<VerifiedPolicy>
    var rollback: Snapshot

    constructor (provider: Provider)
      ensures this.provider == provider && State() == Enforcer(NOTHING, NOTHING, provider.installed)
    {
      this.provider := provider;
      currentSigned, currentVerified, rollback := None, None, NOTHING;
    }

    function State(): Enforcer
      reads this, provider
    {
      Enforcer(Snapshot(currentSigned, currentVerified), rollback, provider.installed)
    }

    method Apply(v: Verifier, signed: SignedPolicy, verified: VerifiedPolicy, answer: Option<PalError>)
      returns (r: Result<(), PalError>)
      modifies this, provider
      ensures (State(), r) == EnforceApply(v, old(State()), signed, verified, answer)
    {
      r := provider.ApplyPolicy(v, signed, answer);
      if r.Err? {
        return;
      }
      var prevSigned, prevVerified := currentSigned, currentVerified;
      currentSigned, currentVerified := None, None;
      if prevSigned.Some? && prevVerified.Some? {
        rollback := Snapshot(prevSigned, prevVerified);
      }
      currentSigned := Some(signed);
      currentVerified := Some(verified);
    }

    method Rollback(v: Verifier, answer: Option<PalError>) returns (r: Result<VerifiedPolicy, RollbackError>)
      modifies this, provider
      ensures (State(), r) == EnforceRollback(v, old(State()), answer)
    {
      if rollback.signed.None? || rollback.verified.None? {
        return Err(NoPrevious);
      }
      var signed, verified := rollback.signed, rollback.verified;
      var pushed := provider.ApplyPolicy(v, signed.value, answer);
      if pushed.Err? {
        return Err(RollbackRefused(pushed.error));
      }
      currentSigned := signed;
      currentVerified := verified;
      rollback := NOTHING;
      return Ok(verified.value);
    }
  }

  // ---- The supervisor ----

  class AppControlSupervisor {
    const cfg: Config
    const monitor: MonitorController?
    const enforce: EnforceController?
    var lastAppliedVersion: Option<U64>

    /** One controller, the one the mode calls for. */
    ghost predicate Valid()
    {
      if cfg.mode == Enforce then enforce != null && monitor == null else enforce == null && monitor != null
    }

    ghost function Parts(): set<object>
    {
      {this} + (if monitor == null then {} else {monitor})
             + (if enforce == null then {} else {enforce, enforce.provider})
    }

    ghost function Abstract(): State
      reads Parts()
    {
      State(if monitor == null then None else monitor.policy,
            if monitor == null then [] else monitor.decisions,
            if enforce == null then Start(None).enforcer else enforce.State(),
            lastAppliedVersion)
    }

    constructor (v: Verifier, trusted: Option<string>, mode: string, provider: Provider)
      ensures Valid() && cfg == Config(v, trusted, ParseMode(mode))
      ensures Abstract() == Start(if ParseMode(mode) == Enforce then provider.installed else None)
      ensures fresh(Parts() - {provider})
    {
      cfg := Config(v, trusted, ParseMode(mode));
      lastAppliedVersion := None;
      if ParseMode(mode) == Enforce {
        monitor := null;
        enforce := new EnforceController(provider);
      } else {
        monitor := new MonitorController();
        enforce := null;
      }
    }

    method ApplyPolicy(signed: SignedPolicy, answer: Option<PalError>)
      returns (r: Result<VerifiedPolicy, SupervisorError>)
      requires Valid()
      modifies Parts()
      ensures (Abstract(), r) == PolicyMachine.Apply(cfg, old(Abstract()), signed, answer)
    {
      if cfg.trusted.None? {
        return Err(NoTrustedKey);
      }
      var checked := VerifySignedPolicy(cfg.v, signed, cfg.trusted.value, lastAppliedVersion);
      if checked.Err? {
        return Err(Verification(checked.error));
      }
      var verified := checked.value;
      if verified.payload.targetMode != cfg.mode && cfg.mode != Disabled {
        return Err(ModeMismatch(cfg.mode, verified.payload.targetMode));
      }
      if monitor != null {
        monitor.InstallPolicy(verified);
      } else {
        var applied := enforce.Apply(cfg.v, signed, verified, answer);
        if applied.Err? {
          return Err(Refused(applied.error));
        }
      }
      lastAppliedVersion := Some(verified.payload.version);
      r := Ok(verified);
    }

    method Rollback(answer: Option<PalError>) returns (r: Result<VerifiedPolicy, SupervisorError>)
      requires Valid()
      modifies Parts()
      ensures (Abstract(), r) == RollBack(cfg, old(Abstract()), answer)
    {
      if enforce == null {
        return Err(SupervisorError.Rollback(NoPrevious));
      }
      var restored := enforce.Rollback(cfg.v, answer);
      if restored.Err? {
        return Err(SupervisorError.Rollback(restored.error));
      }
      lastAppliedVersion := Some(restored.value.payload.version);
      r := Ok(restored.value);
    }

    method Observe(subject: string) returns (d: Option<Decision>)
      requires Valid()
      modifies Parts()
      ensures (Abstract(), d) == PolicyMachine.Observe(cfg, old(Abstract()), subject)
    {
      if monitor == null {
        return None;
      }
      var decision := monitor.Observe(subject);
      d := Some(decision);
    }

    /** One turn of the command loop: errors are only logged. */
    method Execute(c: Command) returns (e: Event)
      requires Valid()
      modifies Parts()
      ensures (Abstract(), e) == Step(cfg, old(Abstract()), c)
    {
      match c
      case ApplyPolicy(signed, answer) =>
        var r := ApplyPolicy(signed, answer);
        e := if r.Ok? then Applied(r.value.payload.version) else Failed;
      case RollbackPolicy(answer) =>
        var r := Rollback(answer);
        e := if r.Ok? then RolledBack(r.value.payload.version) else Failed;
      case ObserveSubject(subject) =>
        var d := Observe(subject);
        e := Observed(d);
    }

    /** The command loop, over the commands received until the channel closes. */
    method Serve(commands: seq<Command>) returns (events: seq<Event>)
      requires Valid()
      modifies Parts()
      ensures (Abstract(), events) == Run(cfg, old(Abstract()), commands)
    {
      events := [];
      for n := 0 to |commands|
        invariant (Abstract(), events) == Run(cfg, old(Abstract()), commands[..n])
      {
        var e := Execute(commands[n]);
        assert commands[..n + 1][..n] == commands[..n];
        events := events + [e];
      }
      assert commands[..|commands|] == commands;
    }
  }
}
