/** The older administrator controller: `lockDevice` (a manual lock) and `wipeDevice`. */
module AdminController {
  import opened Common
  import opened DeviceModel
  import opened AuditLog
  import opened Store

  /** The `MANUAL_LOCK` entry: the administrator, the reason and the request address as given. */
  function ManualLockEntry(admin: string, deviceId: string, reason: Option<string>, ip: Option<string>, now: int): AuditEntry
  {
    AuditEntry(ManualLock, Some(admin), deviceId, reason, ip, now)
  }

  /**
   * `lockDevice`. An unknown identifier yields NotFound and changes nothing. Otherwise the device is locked
   * and its `lastComplianceCheck` refreshed, `isCompliant` untouched, and one `MANUAL_LOCK` entry appended.
   * When the device holds a socket, `enforce-lock` goes to it; without an io handle that send throws after
   * the update and the append, so the request fails with both still in place.
   */
  function LockDeviceSpec(db: Db, admin: string, deviceId: string, reason: Option<string>, ip: Option<string>,
                          io: bool, now: int): (s: Step)
    ensures deviceId !in db.devices <==> s.outcome.NotFound?
    ensures s.outcome.NotFound? ==> s.db == db
    ensures s.outcome.Done? || s.outcome.NotFound? || s.outcome.ServerError?
    ensures !s.outcome.NotFound? ==> deviceId in db.devices && deviceId in s.db.devices
    ensures !s.outcome.NotFound? ==>
      var d := s.db.devices[deviceId];
      && s.db.devices == db.devices[deviceId := d]
      && d.isLocked && d.lastComplianceCheck == Some(now)
      && d.isCompliant == db.devices[deviceId].isCompliant
      && d == db.devices[deviceId].(isLocked := true, lastComplianceCheck := Some(now))
      && s.db.audit == db.audit + [ManualLockEntry(admin, deviceId, reason, ip, now)]
      && s.db.sessions == db.sessions
      && (s.outcome.ServerError? <==> HasSocket(d) && !io)
      && s.db.outbox == db.outbox + (if HasSocket(d) && io then [Emission(d.socketId.value, EnforceLock(reason, None))] else [])
    ensures s.outcome.Done? ==> s.outcome.device == s.db.devices[deviceId]
    ensures KeyedById(db.devices) ==> KeyedById(s.db.devices)
  {
    if deviceId !in db.devices then
      Step(db, NotFound)
    else
      var device := db.devices[deviceId].(isLocked := true, lastComplianceCheck := Some(now));
      var logged := Append(Save(db, deviceId, device), ManualLockEntry(admin, deviceId, reason, ip, now));
      if !HasSocket(device) then Step(logged, Done(device))
      else if io then Step(Emit(logged, device.socketId.value, EnforceLock(reason, None)), Done(device))
      else Step(logged, ServerError)
  }

  /** `lockDevice` on the store. */
  method LockDevice(store: DeviceStore, admin: string, deviceId: string, reason: Option<string>, ip: Option<string>,
                    io: bool, now: int) returns (outcome: Outcome)
    requires store.Valid()
    modifies store
    ensures store.Valid()
    ensures var s := LockDeviceSpec(old(store.Snapshot()), admin, deviceId, reason, ip, io, now);
            store.Snapshot() == s.db && outcome == s.outcome
  {
    if deviceId !in store.devices {
      return NotFound;
    }
    var device := store.devices[deviceId].(isLocked := true, lastComplianceCheck := Some(now));
    store.devices := store.devices[deviceId := device];
    store.audit := store.audit + [ManualLockEntry(admin, deviceId, reason, ip, now)];
    if device.socketId.Some? && device.socketId.value != "" {
      if !io {
        return ServerError;
      }
      store.outbox := store.outbox + [Emission(device.socketId.value, EnforceLock(reason, None))];
    }
    outcome := Done(device);
  }

  /** The `DEVICE_WIPE` entry. */
  function WipeEntry(admin: string, deviceId: string, reason: Option<string>, ip: Option<string>, now: int): AuditEntry
  {
    AuditEntry(DeviceWipe, Some(admin), deviceId, reason, ip, now)
  }

  /**
   * `wipeDevice`. An unknown identifier yields NotFound: no entry, no deletion. Otherwise the `DEVICE_WIPE`
   * entry is appended first, `enforce-wipe` is sent when the device holds a socket, and then the record is
   * deleted, every other device staying as it was. Without an io handle the send throws before the
   * deletion: the entry stays and the record survives.
   */
  function WipeDeviceSpec(db: Db, admin: string, deviceId: string, reason: Option<string>, ip: Option<string>,
                          io: bool, now: int): (s: Step)
    ensures deviceId !in db.devices <==> s.outcome.NotFound?
    ensures s.outcome.NotFound? ==> s.db == db
    ensures s.outcome.Wiped? || s.outcome.NotFound? || s.outcome.ServerError?
    ensures !s.outcome.NotFound? ==> s.db.audit == db.audit + [WipeEntry(admin, deviceId, reason, ip, now)]
    ensures !s.outcome.NotFound? ==> s.db.sessions == db.sessions
    ensures s.outcome.ServerError? <==> deviceId in db.devices && HasSocket(db.devices[deviceId]) && !io
    ensures s.outcome.ServerError? ==> s.db.devices == db.devices && s.db.outbox == db.outbox
    ensures s.outcome.Wiped? ==>
      && deviceId in db.devices
      && deviceId !in s.db.devices
      && s.db.devices == db.devices - {deviceId}
      && s.db.outbox == db.outbox +
           (if HasSocket(db.devices[deviceId])
            then [Emission(db.devices[deviceId].socketId.value, EnforceWipe(reason))] else [])
    ensures KeyedById(db.devices) ==> KeyedById(s.db.devices)
  {
    if deviceId !in db.devices then
      Step(db, NotFound)
    else
      var device := db.devices[deviceId];
      var logged := Append(db, WipeEntry(admin, deviceId, reason, ip, now));
      if HasSocket(device) && !io then
        Step(logged, ServerError)
      else
        var told := if HasSocket(device) then Emit(logged, device.socketId.value, EnforceWipe(reason)) else logged;
        Step(told.(devices := db.devices - {deviceId}), Wiped)
  }

  /** `wipeDevice` on the store. */
  method WipeDevice(store: DeviceStore, admin: string, deviceId: string, reason: Option<string>, ip: Option<string>,
                    io: bool, now: int) returns (outcome: Outcome)
    requires store.Valid()
    modifies store
    ensures store.Valid()
    ensures var s := WipeDeviceSpec(old(store.Snapshot()), admin, deviceId, reason, ip, io, now);
            store.Snapshot() == s.db && outcome == s.outcome
  {
    if deviceId !in store.devices {
      return NotFound;
    }
    var device := store.devices[deviceId];
    store.audit := store.audit + [WipeEntry(admin, deviceId, reason, ip, now)];
    if device.socketId.Some? && device.socketId.value != "" {
      if !io {
        return ServerError;
      }
      store.outbox := store.outbox + [Emission(device.socketId.value, EnforceWipe(reason))];
    }
    store.devices := store.devices - {deviceId};
    outcome := Wiped;
  }
}
