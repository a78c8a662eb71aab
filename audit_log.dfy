/** The AuditLog document and the newest-first order in which the log is read back. */
module AuditLog {
  import opened Common

  /** The actions the handlers record. */
  datatype Action = DeviceRegistered | AutoLockTriggered | AdminLock | AdminUnlock | ManualLock | DeviceWipe

  /** The stored `action` string; the schema requires it, and every action has a distinct, non-empty name. */
  function ActionName(a: Action): (s: string)
    ensures s != ""
  {
    match a
    case DeviceRegistered => "DEVICE_REGISTERED"
    case AutoLockTriggered => "AUTO_LOCK_TRIGGERED"
    case AdminLock => "ADMIN_LOCK"
    case AdminUnlock => "ADMIN_UNLOCK"
    case ManualLock => "MANUAL_LOCK"
    case DeviceWipe => "DEVICE_WIPE"
  }

  /** Distinct actions are stored under distinct names, so the stored string identifies the action. */
  lemma ActionNameInjective(a: Action, b: Action)
    ensures ActionName(a) == ActionName(b) ==> a == b
  {
  }

  /**
   * One entry. `performedBy == None` marks a system-triggered entry; `targetDevice` is the identifier of the
   * device the entry is about; `createdAt` is the creation timestamp the schema adds.
   */
  datatype AuditEntry = AuditEntry(
    action: Action,
    performedBy: Option<string>,
    targetDevice: string,
    reason: Option<string>,
    ipAddress: Option<string>,
    createdAt: int)

  /** An append-ordered log whose creation timestamps never decrease. */
  predicate Chronological(log: seq<AuditEntry>)
  {
    forall i, j :: 0 <= i < j < |log| ==> log[i].createdAt <= log[j].createdAt
  }

  /** The log read newest first: position `i` holds the `i`-th entry counted back from the latest append. */
  function NewestFirst(log: seq<AuditEntry>): (r: seq<AuditEntry>)
    ensures |r| == |log|
    ensures forall i :: 0 <= i < |log| ==> r[i] == log[|log| - 1 - i]
  {
    if log == [] then [] else [log[|log| - 1]] + NewestFirst(log[..|log| - 1])
  }

  /** Reading a chronological log newest first sorts it by `createdAt`, latest first (`sort({ createdAt: -1 })`). */
  lemma NewestFirstIsDescending(log: seq<AuditEntry>)
    requires Chronological(log)
    ensures forall i, j :: 0 <= i < j < |log| ==> NewestFirst(log)[i].createdAt >= NewestFirst(log)[j].createdAt
  {
  }

  /** Appending an entry puts it at the head of the newest-first view and shifts the rest by one. */
  lemma {:induction false} NewestFirstAppend(log: seq<AuditEntry>, e: AuditEntry)
    ensures NewestFirst(log + [e]) == [e] + NewestFirst(log)
  {
    var r := NewestFirst(log + [e]);
    assert r[0] == e;
    assert forall i :: 1 <= i < |r| ==> r[i] == NewestFirst(log)[i - 1];
  }
}
