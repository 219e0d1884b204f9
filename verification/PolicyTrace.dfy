/**
 What the outcomes of a supervisor's commands can look like: the floor below which nothing is applied, the
 version a rollback would restore, and the decisions observed since the last apply.
 */
module PolicyTrace {
  import opened Wrappers
  import opened AppPolicy

  datatype Event =
    | Applied(version: U64)
    | RolledBack(version: U64)
    | Failed
    | Observed(decision: Option<Decision>)

  predicate Succeeds(e: Event) { e.Applied? || e.RolledBack? }

  /** The version of the last command that succeeded. */
  function Floor(t: seq<Event>): Option<U64>
  {
    if t == [] then None
    else
      match t[|t| - 1]
      case Applied(v) => Some(v)
      case RolledBack(v) => Some(v)
      case _ => Floor(t[..|t| - 1])
  }

  /** What an apply displaced and no rollback has restored since. */
  function Restorable(t: seq<Event>): Option<U64>
  {
    if t == [] then None
    else
      match t[|t| - 1]
      case Applied(_) => Floor(t[..|t| - 1])
      case RolledBack(_) => None
      case _ => Restorable(t[..|t| - 1])
  }

  /** The decisions observed since the last apply. */
  function Log(t: seq<Event>): seq<Decision>
  {
    if t == [] then []
    else
      match t[|t| - 1]
      case Applied(_) => []
      case Observed(Some(d)) => Log(t[..|t| - 1]) + [d]
      case _ => Log(t[..|t| - 1])
  }

  /** All decisions in a stretch of outcomes, in order. */
  function Decisions(t: seq<Event>): seq<Decision>
  {
    if t == [] then []
    else Decisions(t[..|t| - 1]) + match t[|t| - 1] case Observed(Some(d)) => [d] case _ => []
  }

  /** The log holds exactly what was decided since the last apply, or since the start if there was none. */
  lemma {:induction false} LogSinceApply(t: seq<Event>, k: nat)
    requires k <= |t| && (k > 0 ==> t[k - 1].Applied?) && forall i :: k <= i < |t| ==> !t[i].Applied?
    ensures Log(t) == Decisions(t[k..])
  {
    if k < |t| {
      var n := |t| - 1;
      LogSinceApply(t[..n], k);
      assert t[k..][..n - k] == t[..n][k..];
    }
  }

  predicate LegalNext(t: seq<Event>, e: Event)
  {
    match e
    case Applied(v) => Floor(t).Some? ==> Floor(t).value < v
    case RolledBack(v) => Restorable(t) == Some(v)
    case _ => true
  }

  predicate Legal(t: seq<Event>)
  {
    t == [] || (Legal(t[..|t| - 1]) && LegalNext(t[..|t| - 1], t[|t| - 1]))
  }

  lemma {:induction false} LegalAt(t: seq<Event>, j: nat)
    requires Legal(t) && j < |t|
    ensures Legal(t[..j]) && LegalNext(t[..j], t[j])
  {
    var n := |t| - 1;
    if j < n {
      LegalAt(t[..n], j);
      assert t[..n][..j] == t[..j];
    }
  }

  /** Whatever can be restored was displaced by the last success, an apply of a higher version. */
  lemma {:induction false} RestorableSince(t: seq<Event>) returns (k: nat)
    requires Legal(t) && Restorable(t).Some?
    ensures k < |t| && t[k].Applied? && (forall i :: k < i < |t| ==> !Succeeds(t[i]))
    ensures Floor(t[..k]) == Restorable(t) && Floor(t) == Some(t[k].version)
    ensures Restorable(t).value < t[k].version
  {
    var n := |t| - 1;
    if !Succeeds(t[n]) {
      k := RestorableSince(t[..n]);
      assert t[..n][..k] == t[..k];
    } else {
      k := n;
    }
  }

  /**
   A rollback that succeeds undoes the last success before it: that was an apply, and the version restored is
   the one in force just before that apply, so the floor drops.
   */
  lemma RollbackUndoesApply(t: seq<Event>, j: nat) returns (k: nat)
    requires Legal(t) && j < |t| && t[j].RolledBack?
    ensures k < j && t[k].Applied? && (forall i :: k < i < j ==> !Succeeds(t[i]))
    ensures Floor(t[..k]) == Some(t[j].version) && Floor(t[..j]) == Some(t[k].version) && t[j].version < t[k].version
  {
    LegalAt(t, j);
    k := RestorableSince(t[..j]);
    assert t[..j][..k] == t[..k];
    assert forall i :: k < i < j ==> t[..j][i] == t[i];
  }

  /** Two successful rollbacks always have a successful apply between them. */
  lemma ApplyBetweenRollbacks(t: seq<Event>, i: nat, j: nat) returns (k: nat)
    requires Legal(t) && i < j < |t| && t[i].RolledBack? && t[j].RolledBack?
    ensures i < k < j && t[k].Applied?
  {
    k := RollbackUndoesApply(t, j);
  }

  function Applies(t: seq<Event>): nat
  {
    if t == [] then 0 else Applies(t[..|t| - 1]) + if t[|t| - 1].Applied? then 1 else 0
  }

  function Rollbacks(t: seq<Event>): nat
  {
    if t == [] then 0 else Rollbacks(t[..|t| - 1]) + if t[|t| - 1].RolledBack? then 1 else 0
  }

  /** Rollbacks stay behind applies, by two while another rollback is possible. */
  lemma {:induction false} RollbacksBehindApplies(t: seq<Event>)
    requires Legal(t)
    ensures Applies(t) == 0 ==> Rollbacks(t) == 0 && Floor(t).None? && Restorable(t).None?
    ensures Applies(t) > 0 ==> Rollbacks(t) + (if Restorable(t).Some? then 1 else 0) < Applies(t)
  {
    if t != [] {
      RollbacksBehindApplies(t[..|t| - 1]);
    }
  }

  lemma {:induction false} FloorSince(t: seq<Event>, i: nat)
    requires Legal(t) && i < |t| && Succeeds(t[i]) && forall k :: i < k < |t| ==> !t[k].RolledBack?
    ensures Floor(t).Some? && Floor(t).value >= t[i].version
  {
    var n := |t| - 1;
    if i < n {
      assert forall k :: i < k < n ==> t[..n][k] == t[k];
      FloorSince(t[..n], i);
    }
  }

  predicate NoRollbackWithin(t: seq<Event>, i: int, j: int)
    requires 0 <= i <= j <= |t|
  {
    forall k :: i < k < j ==> !t[k].RolledBack?
  }

  /** With no rollback in between, every applied version is above the version applied or restored before. */
  lemma VersionsIncrease(t: seq<Event>, i: nat, j: nat)
    requires Legal(t) && i < j < |t| && Succeeds(t[i]) && t[j].Applied?
    requires NoRollbackWithin(t, i, j)
    ensures t[i].version < t[j].version
  {
    LegalAt(t, j);
    assert forall k :: i < k < j ==> t[..j][k] == t[k];
    FloorSince(t[..j], i);
  }

  /** The version below which not even a rollback goes. */
  function Low(t: seq<Event>): Option<U64> { if Restorable(t).Some? then Restorable(t) else Floor(t) }

  lemma LowBelowFloor(t: seq<Event>)
    requires Legal(t) && Low(t).Some?
    ensures Floor(t).Some? && Low(t).value <= Floor(t).value
  {
    if Restorable(t).Some? {
      var k := RestorableSince(t);
    }
  }

  /** The low-water mark never falls: nothing that follows takes the floor below an earlier one. */
  lemma {:induction false} LowNeverFalls(t: seq<Event>, i: nat)
    requires Legal(t) && i <= |t| && Low(t[..i]).Some?
    ensures Low(t).Some? && Floor(t).Some? && Low(t[..i]).value <= Low(t).value <= Floor(t).value
  {
    if i == |t| {
      assert t[..i] == t;
    } else {
      var n := |t| - 1;
      assert t[..n][..i] == t[..i];
      LowNeverFalls(t[..n], i);
    }
    LowBelowFloor(t);
  }

  lemma LowWithin(t: seq<Event>, i: nat, j: nat)
    requires Legal(t) && i <= j <= |t| && Low(t[..i]).Some?
    ensures Low(t[..j]).Some? && Floor(t[..j]).Some?
    ensures Low(t[..i]).value <= Low(t[..j]).value <= Floor(t[..j]).value
  {
    if j < |t| {
      LegalAt(t, j);
    } else {
      assert t[..j] == t;
    }
    assert t[..j][..i] == t[..i];
    LowNeverFalls(t[..j], i);
  }
}
