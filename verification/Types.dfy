/**
 The shared enumerations and descriptors of the device-control schemas and their wire names
 (crates/sda-device-control/src/types.rs).
 */
module Types {

  /** Length, first and last character: enough to tell any two names of one schema apart. */
  function Tag(s: string): int
    requires s != ""
  {
    |s| + 1000 * (s[0] as int) + 1000000 * (s[|s| - 1] as int)
  }

  datatype ActionKind = InstallPackage | UpdatePackage | UninstallPackage | GrantJitAdmin
    | RevokeAdmin | RunScript | PushAppControlPolicy | StartRemoteSupport | EndRemoteSupport
    | QueryAdHoc | RemoteWipe | RemoteLock | EnterLostMode | ExitLostMode | EscrowRecoveryKey
    | InstallOsUpdate | ApplyConfigProfile | EnableDiskEncryption | EnableFirewall | SetScreenLock
    | IsolateHost | UnisolateHost

  function ActionName(a: ActionKind): (s: string)
    ensures s != ""
  {
    match a
    case InstallPackage => "install_package"
    case UpdatePackage => "update_package"
    case UninstallPackage => "uninstall_package"
    case GrantJitAdmin => "grant_jit_admin"
    case RevokeAdmin => "revoke_admin"
    case RunScript => "run_script"
    case PushAppControlPolicy => "push_app_control_policy"
    case StartRemoteSupport => "start_remote_support"
    case EndRemoteSupport => "end_remote_support"
    case QueryAdHoc => "query_ad_hoc"
    case RemoteWipe => "remote_wipe"
    case RemoteLock => "remote_lock"
    case EnterLostMode => "enter_lost_mode"
    case ExitLostMode => "exit_lost_mode"
    case EscrowRecoveryKey => "escrow_recovery_key"
    case InstallOsUpdate => "install_os_update"
    case ApplyConfigProfile => "apply_config_profile"
    case EnableDiskEncryption => "enable_disk_encryption"
    case EnableFirewall => "enable_firewall"
    case SetScreenLock => "set_screen_lock"
    case IsolateHost => "isolate_host"
    case UnisolateHost => "unisolate_host"
  }

  /** Last letter, first letter and length of the wire name, as a check on the table above. */
  function ActionTag(x: ActionKind): int
  {
    match x
    case InstallPackage => 101_105_015
    case UpdatePackage => 101_117_014
    case UninstallPackage => 101_117_017
    case GrantJitAdmin => 110_103_015
    case RevokeAdmin => 110_114_012
    case RunScript => 116_114_010
    case PushAppControlPolicy => 121_112_023
    case StartRemoteSupport => 116_115_020
    case EndRemoteSupport => 116_101_018
    case QueryAdHoc => 99_113_012
    case RemoteWipe => 101_114_011
    case RemoteLock => 107_114_011
    case EnterLostMode => 101_101_015
    case ExitLostMode => 101_101_014
    case EscrowRecoveryKey => 121_101_019
    case InstallOsUpdate => 101_105_017
    case ApplyConfigProfile => 101_097_020
    case EnableDiskEncryption => 110_101_022
    case EnableFirewall => 108_101_015
    case SetScreenLock => 107_115_015
    case IsolateHost => 116_105_012
    case UnisolateHost => 116_117_014
  }

  lemma ActionTagIs(x: ActionKind)
    ensures Tag(ActionName(x)) == ActionTag(x)
  {
  }

  lemma ActionNameInjective(a: ActionKind, b: ActionKind)
    requires ActionName(a) == ActionName(b)
    ensures a == b
  {
    ActionTagIs(a);
    ActionTagIs(b);
  }

  datatype ActionStatus = Success | Failure | Refused | Skipped

  function StatusName(st: ActionStatus): (s: string)
    ensures s != ""
  {
    match st
    case Success => "success"
    case Failure => "failure"
    case Refused => "refused"
    case Skipped => "skipped"
  }

  /** Last letter, first letter and length of the wire name, as a check on the table above. */
  function StatusTag(x: ActionStatus): int
  {
    match x
    case Success => 115_115_007
    case Failure => 101_102_007
    case Refused => 100_114_007
    case Skipped => 100_115_007
  }

  lemma StatusTagIs(x: ActionStatus)
    ensures Tag(StatusName(x)) == StatusTag(x)
  {
  }

  lemma StatusNameInjective(a: ActionStatus, b: ActionStatus)
    requires StatusName(a) == StatusName(b)
    ensures a == b
  {
    StatusTagIs(a);
    StatusTagIs(b);
  }

  datatype JobRefused = SchemaParseError | UnknownKeyId | BadSignature | Expired | TenantMismatch
    | DeviceMismatch | ActionNotPermitted | OutsideWindow | ArgsParseError | PreconditionFailed
    | NotImplemented | WipeRequiresDualControl | LocalKeyNotAuthorisedForAction

  function RefusedName(r: JobRefused): (s: string)
    ensures s != ""
  {
    match r
    case SchemaParseError => "schema_parse_error"
    case UnknownKeyId => "unknown_key_id"
    case BadSignature => "bad_signature"
    case Expired => "expired"
    case TenantMismatch => "tenant_mismatch"
    case DeviceMismatch => "device_mismatch"
    case ActionNotPermitted => "action_not_permitted"
    case OutsideWindow => "outside_window"
    case ArgsParseError => "args_parse_error"
    case PreconditionFailed => "precondition_failed"
    case NotImplemented => "not_implemented"
    case WipeRequiresDualControl => "wipe_requires_dual_control"
    case LocalKeyNotAuthorisedForAction => "local_key_not_authorised_for_action"
  }

  /** Last letter, first letter and length of the wire name, as a check on the table above. */
  function RefusedTag(x: JobRefused): int
  {
    match x
    case SchemaParseError => 114_115_018
    case UnknownKeyId => 100_117_014
    case BadSignature => 101_098_013
    case Expired => 100_101_007
    case TenantMismatch => 104_116_015
    case DeviceMismatch => 104_100_015
    case ActionNotPermitted => 100_097_020
    case OutsideWindow => 119_111_014
    case ArgsParseError => 114_097_016
    case PreconditionFailed => 100_112_019
    case NotImplemented => 100_110_015
    case WipeRequiresDualControl => 108_119_026
    case LocalKeyNotAuthorisedForAction => 110_108_035
  }

  lemma RefusedTagIs(x: JobRefused)
    ensures Tag(RefusedName(x)) == RefusedTag(x)
  {
  }

  lemma RefusedNameInjective(a: JobRefused, b: JobRefused)
    requires RefusedName(a) == RefusedName(b)
    ensures a == b
  {
    RefusedTagIs(a);
    RefusedTagIs(b);
  }

  datatype PlatformOs = Windows | Macos | Linux

  function OsName(o: PlatformOs): (s: string)
    ensures s != ""
  {
    match o
    case Windows => "windows"
    case Macos => "macos"
    case Linux => "linux"
  }

  lemma OsNameInjective(a: PlatformOs, b: PlatformOs)
    requires OsName(a) == OsName(b)
    ensures a == b
  {
    assert Tag(OsName(a)) == Tag(OsName(b));
  }

  datatype PlatformArch = X86_64 | Aarch64 | I686 | Armv7

  function ArchName(a: PlatformArch): (s: string)
    ensures s != ""
  {
    match a
    case X86_64 => "x86_64"
    case Aarch64 => "aarch64"
    case I686 => "i686"
    case Armv7 => "armv7"
  }

  lemma ArchNameInjective(a: PlatformArch, b: PlatformArch)
    requires ArchName(a) == ArchName(b)
    ensures a == b
  {
    assert Tag(ArchName(a)) == Tag(ArchName(b));
  }
}
