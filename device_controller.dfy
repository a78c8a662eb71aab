/** The HTTP device handlers: registration, compliance reports and the owner's status lookup. */
module DeviceController {
  import opened Common
  import opened DeviceModel
  import opened AuditLog
  import opened Store

  /** The audit reason of a registration. */
  const RegistrationReason := "New device registration"

  /** The entry a fresh registration appends. */
  function RegistrationEntry(user: string, deviceId: string, now: int): AuditEntry
  {
    AuditEntry(DeviceRegistered, Some(user), deviceId, Some(RegistrationReason), None, now)
  }

  /**
   * `registerDevice`: an identifier already in the collection is answered with the stored record, whoever
   * asks, and nothing changes; otherwise exactly one record, owned by the caller, is added and exactly one
   * `DEVICE_REGISTERED` entry naming the caller is appended.
   */
  function RegisterDeviceSpec(db: Db, user: string, deviceId: string, model: Option<string>,
                              osVersion: Option<string>, appVersion: Option<string>, now: int): (s: Step)
    ensures deviceId in db.devices ==> s == Step(db, Existing(db.devices[deviceId]))
    ensures deviceId !in db.devices ==>
      && s.outcome.Created?
      && s.db.devices.Keys == db.devices.Keys + {deviceId}
      && (forall k :: k in db.devices ==> s.db.devices[k] == db.devices[k])
      && s.db.devices[deviceId] == s.outcome.device
      && s.db.audit == db.audit + [RegistrationEntry(user, deviceId, now)]
      && s.db.outbox == db.outbox && s.db.sessions == db.sessions
    ensures s.outcome.Created? ==>
      var d := s.outcome.device;
      && d.user == user && d.deviceId == deviceId
      && d.isCompliant && !d.isLocked && d.geofenceStatus == Inside
      && !d.isConnected && d.socketId == None && d.violations == [] && d.lockReason == None
      && d.lastComplianceCheck == Some(now) && d.lastSeen == None
      && d.model == (if model.Some? then model.value else "Unknown Device")
      && d.osVersion == (if osVersion.Some? then osVersion.value else "Unknown OS")
      && d.appVersion == (if appVersion.Some? then appVersion.value else "1.0.0")
    ensures s.outcome.Created? ==> s.outcome.device == NewDevice(user, deviceId, model, osVersion, appVersion, now)
    ensures KeyedById(db.devices) ==> KeyedById(s.db.devices)
  {
    if deviceId in db.devices then
      Step(db, Existing(db.devices[deviceId]))
    else
      var device := NewDevice(user, deviceId, model, osVersion, appVersion, now);
      Step(Append(Save(db, deviceId, device), RegistrationEntry(user, deviceId, now)), Created(device))
  }

  /** `registerDevice` on the store. */
  method RegisterDevice(store: DeviceStore, user: string, deviceId: string, model: Option<string>,
                        osVersion: Option<string>, appVersion: Option<string>, now: int) returns (outcome: Outcome)
    requires store.Valid()
    modifies store
    ensures store.Valid()
    ensures var s := RegisterDeviceSpec(old(store.Snapshot()), user, deviceId, model, osVersion, appVersion, now);
            store.Snapshot() == s.db && outcome == s.outcome
  {
    if deviceId in store.devices {
      return Existing(store.devices[deviceId]);
    }
    var device := NewDevice(user, deviceId, model, osVersion, appVersion, now);
    store.devices := store.devices[deviceId := device];
    store.audit := store.audit + [RegistrationEntry(user, deviceId, now)];
    outcome := Created(device);
  }

  /** The audit reason of an automatic lock: the joined violations, or a fixed text when that is empty. */
  function AutoLockReason(violations: seq<string>): string
  {
    JoinedOr(violations, "Compliance violation")
  }

  /** The entry a non-compliant HTTP report appends: no actor, the system triggered it. */
  function AutoLockEntry(deviceId: string, violations: seq<string>, now: int): AuditEntry
  {
    AuditEntry(AutoLockTriggered, None, deviceId, Some(AutoLockReason(violations)), None, now)
  }

  /**
   * `reportCompliance`. Without a device matching both `deviceId` and the caller nothing changes and the
   * result is NotFound. Otherwise the record takes the reported compliance, `isLocked` becomes its negation,
   * the violations are replaced by the reported list (default `[]`) and the geofence status by the reported
   * one (default inside); a non-compliant report appends exactly one system-triggered `AUTO_LOCK_TRIGGERED`
   * entry and, when an io handle exists and the device holds a socket, sends `enforce-lock` to that socket.
   */
  function ReportComplianceSpec(db: Db, user: string, deviceId: string, isCompliant: bool,
                                violations: Option<seq<string>>, geofenceStatus: Option<Geofence>,
                                io: bool, now: int): (s: Step)
    ensures !Owned(db.devices, user, deviceId) <==> s.outcome.NotFound?
    ensures s.outcome.NotFound? ==> s.db == db
    ensures s.outcome.Done? || s.outcome.NotFound?
    ensures s.outcome.Done? ==> deviceId in db.devices && deviceId in s.db.devices
    ensures s.outcome.Done? ==>
      var before := db.devices[deviceId];
      var d := s.db.devices[deviceId];
      && s.db.devices == db.devices[deviceId := d]
      && d == s.outcome.device
      && d.isCompliant == isCompliant && d.isLocked == !isCompliant
      && d.violations == (if violations.Some? then violations.value else [])
      && d.geofenceStatus == (if geofenceStatus.Some? then geofenceStatus.value else Inside)
      && d.lastComplianceCheck == Some(now)
      && d == before.(isCompliant := d.isCompliant, isLocked := d.isLocked, violations := d.violations,
                    geofenceStatus := d.geofenceStatus, lastComplianceCheck := d.lastComplianceCheck)
      && s.db.sessions == db.sessions
      && s.db.audit == db.audit + (if isCompliant then [] else [AutoLockEntry(deviceId, d.violations, now)])
      && s.db.outbox == db.outbox +
           (if !isCompliant && io && HasSocket(d)
            then [Emission(d.socketId.value, EnforceLock(Some(JoinedOr(d.violations, "Security policy violation")), Some(d.violations)))]
            else [])
    ensures KeyedById(db.devices) ==> KeyedById(s.db.devices)
  {
    if !Owned(db.devices, user, deviceId) then
      Step(db, NotFound)
    else
      var reported := if violations.Some? then violations.value else [];
      var device := db.devices[deviceId].(
        isCompliant := isCompliant,
        isLocked := !isCompliant,
        lastComplianceCheck := Some(now),
        geofenceStatus := if geofenceStatus.Some? then geofenceStatus.value else Inside,
        violations := reported);
      var saved := Save(db, deviceId, device);
      if isCompliant then
        Step(saved, Done(device))
      else
        var logged := Append(saved, AutoLockEntry(deviceId, reported, now));
        if io && HasSocket(device) then
          Step(Emit(logged, device.socketId.value,
                    EnforceLock(Some(JoinedOr(reported, "Security policy violation")), Some(reported))), Done(device))
        else
          Step(logged, Done(device))
  }

  /** `reportCompliance` on the store. */
  method ReportCompliance(store: DeviceStore, user: string, deviceId: string, isCompliant: bool,
                          violations: Option<seq<string>>, geofenceStatus: Option<Geofence>,
                          io: bool, now: int) returns (outcome: Outcome)
    requires store.Valid()
    modifies store
    ensures store.Valid()
    ensures var s := ReportComplianceSpec(old(store.Snapshot()), user, deviceId, isCompliant, violations, geofenceStatus, io, now);
            store.Snapshot() == s.db && outcome == s.outcome
  {
    if deviceId !in store.devices || store.devices[deviceId].user != user {
      return NotFound;
    }
    var reported := if violations.Some? then violations.value else [];
    var device := store.devices[deviceId].(
      isCompliant := isCompliant,
      isLocked := !isCompliant,
      lastComplianceCheck := Some(now),
      geofenceStatus := if geofenceStatus.Some? then geofenceStatus.value else Inside,
      violations := reported);
    store.devices := store.devices[deviceId := device];
    if !isCompliant {
      store.audit := store.audit + [AutoLockEntry(deviceId, reported, now)];
      if device.socketId.Some? && device.socketId.value != "" && io {
        var payload := EnforceLock(Some(JoinedOr(reported, "Security policy violation")), Some(reported));
        store.outbox := store.outbox + [Emission(device.socketId.value, payload)];
      }
    }
    outcome := Done(device);
  }

  /** The status fields `getDeviceStatus` returns; the projection drops `socketId`. */
  datatype StatusView = StatusView(
    deviceId: string,
    model: string,
    isCompliant: bool,
    isLocked: bool,
    geofenceStatus: Geofence,
    lastComplianceCheck: Option<int>)

  /** The status projection of a record. */
  function ViewOf(d: Device): StatusView
  {
    StatusView(d.deviceId, d.model, d.isCompliant, d.isLocked, d.geofenceStatus, d.lastComplianceCheck)
  }

  /**
   * `getDeviceStatus`: a read-only lookup of a device owned by the caller. NotFound (None) exactly when the
   * caller owns no device; otherwise the status of one of the caller's devices.
   */
  method GetDeviceStatus(store: DeviceStore, user: string) returns (r: Option<StatusView>)
    ensures r.None? <==> forall k :: k in store.devices ==> store.devices[k].user != user
    ensures r.Some? ==> exists k :: k in store.devices && store.devices[k].user == user && r.value == ViewOf(store.devices[k])
  {
    if exists k :: k in store.devices && store.devices[k].user == user {
      var k :| k in store.devices && store.devices[k].user == user;
      r := Some(ViewOf(store.devices[k]));
    } else {
      r := None;
    }
  }
}
