/**
 * The real-time handlers of a device connection: the token gate, `register-device`, `compliance-report`,
 * `heartbeat` and `disconnect`. Every handler answers the socket that sent the event.
 */
module DeviceSocket {
  import opened Common
  import opened DeviceModel
  import opened AuditLog
  import opened Store

  /**
   * The connection middleware: no token (or an empty one) and a token the verifier rejects both refuse the
   * connection, leaving the live sockets as they were, so no handler can ever run for it; a verified token
   * registers the socket under the user id it carries.
   */
  function ConnectSpec(db: Db, socketId: string, token: Option<string>, verify: string -> Option<string>): (s: Step)
    ensures s.outcome.Connected? <==> Truthy(token) && verify(token.value).Some?
    ensures !Truthy(token) ==> s == Step(db, NoToken)
    ensures Truthy(token) && verify(token.value).None? ==> s == Step(db, InvalidToken)
    ensures s.outcome.Connected? ==> s.db == db.(sessions := db.sessions[socketId := verify(token.value).value])
  {
    if !Truthy(token) then Step(db, NoToken)
    else
      match verify(token.value)
      case None => Step(db, InvalidToken)
      case Some(user) => Step(db.(sessions := db.sessions[socketId := user]), Connected)
  }

  /** The token gate on the store. */
  method Connect(store: DeviceStore, socketId: string, token: Option<string>, verify: string -> Option<string>)
    returns (outcome: Outcome)
    requires store.Valid()
    modifies store
    ensures store.Valid()
    ensures var s := ConnectSpec(old(store.Snapshot()), socketId, token, verify);
            store.Snapshot() == s.db && outcome == s.outcome
  {
    if token.None? || token.value == "" {
      return NoToken;
    }
    var claims := verify(token.value);
    if claims.None? {
      return InvalidToken;
    }
    store.sessions := store.sessions[socketId := claims.value];
    outcome := Connected;
  }

  /**
   * `register-device`: never creates a device. When the device `deviceId` belongs to the socket's user it is
   * bound to this socket (a newer socket replaces an older binding), marked connected and stamped, and the
   * socket is told its lock state; otherwise nothing changes and the socket receives `registration-error`.
   */
  function RegisterSpec(db: Db, socketId: string, deviceId: string, now: int): (s: Step)
    requires socketId in db.sessions
    ensures s.db.devices.Keys == db.devices.Keys && s.db.audit == db.audit && s.db.sessions == db.sessions
    ensures s.outcome.Done? <==> Owned(db.devices, db.sessions[socketId], deviceId)
    ensures s.outcome.Done? || s.outcome.NotFound?
    ensures s.outcome.NotFound? ==>
      s.db == db.(outbox := db.outbox + [Emission(socketId, RegistrationError)])
    ensures s.outcome.Done? ==>
      var d := s.db.devices[deviceId];
      && d == s.outcome.device
      && s.db.devices == db.devices[deviceId := d]
      && d.socketId == Some(socketId) && d.isConnected
      && d.lastSeen == Some(now) && d.lastComplianceCheck == Some(now)
      && d.isCompliant == db.devices[deviceId].isCompliant && d.isLocked == db.devices[deviceId].isLocked
      && d == db.devices[deviceId].(socketId := d.socketId, isConnected := true, lastSeen := d.lastSeen,
                                    lastComplianceCheck := d.lastComplianceCheck)
      && s.db.outbox == db.outbox + [Emission(socketId, RegistrationConfirmed(d.isLocked, d.isCompliant, d.lockReason))]
    ensures KeyedById(db.devices) ==> KeyedById(s.db.devices)
  {
    var user := db.sessions[socketId];
    if Owned(db.devices, user, deviceId) then
      var device := db.devices[deviceId].(
        socketId := Some(socketId),
        isConnected := true,
        lastSeen := Some(now),
        lastComplianceCheck := Some(now));
      Step(Emit(Save(db, deviceId, device), socketId,
                RegistrationConfirmed(device.isLocked, device.isCompliant, device.lockReason)), Done(device))
    else
      Step(Emit(db, socketId, RegistrationError), NotFound)
  }

  /** `register-device` on the store. */
  method Register(store: DeviceStore, socketId: string, deviceId: string, now: int) returns (outcome: Outcome)
    requires store.Valid() && socketId in store.sessions
    modifies store
    ensures store.Valid()
    ensures var s := RegisterSpec(old(store.Snapshot()), socketId, deviceId, now);
            store.Snapshot() == s.db && outcome == s.outcome
  {
    var user := store.sessions[socketId];
    if deviceId in store.devices && store.devices[deviceId].user == user {
      var device := store.devices[deviceId];
      device := device.(socketId := Some(socketId), isConnected := true);
      device := device.(lastSeen := Some(now), lastComplianceCheck := Some(now));
      store.devices := store.devices[deviceId := device];
      var status := RegistrationConfirmed(device.isLocked, device.isCompliant, device.lockReason);
      store.outbox := store.outbox + [Emission(socketId, status)];
      outcome := Done(device);
    } else {
      store.outbox := store.outbox + [Emission(socketId, RegistrationError)];
      outcome := NotFound;
    }
  }

  /** A `compliance-report` payload. */
  datatype Report = Report(
    isCompliant: bool,
    geofenceStatus: Option<Geofence>,
    violations: Option<seq<string>>,
    reason: Option<string>)

  /** The reported violations, `[]` when omitted. */
  function ReportedViolations(r: Report): seq<string>
  {
    if r.violations.Some? then r.violations.value else []
  }

  /** `report.reason || report.violations?.join(', ') || 'Compliance violation'`: never empty. */
  function SocketLockReason(r: Report): (reason: string)
    ensures reason != ""
    ensures Truthy(r.reason) ==> reason == r.reason.value
    ensures !Truthy(r.reason) && r.violations.None? ==> reason == "Compliance violation"
    ensures !Truthy(r.reason) && r.violations.Some? ==> reason == JoinedOr(r.violations.value, "Compliance violation")
  {
    if Truthy(r.reason) then r.reason.value
    else if r.violations.Some? then JoinedOr(r.violations.value, "Compliance violation")
    else "Compliance violation"
  }

  /** The entry a non-compliant socket report appends: no actor, the system triggered it. */
  function SocketAutoLockEntry(deviceId: string, r: Report, now: int): AuditEntry
  {
    AuditEntry(AutoLockTriggered, None, deviceId, Some(SocketLockReason(r)), None, now)
  }

  /**
   * `compliance-report`, acting on the one device of the socket's user. Without such a device nothing
   * changes and nothing is sent. Otherwise compliance, geofence status, violations and the two timestamps
   * are replaced; a non-compliant report sets `isLocked`, a compliant one leaves it alone (an administrator's
   * lock survives). A non-compliant report sends `enforce-lock` to the reporting socket and appends one
   * system-triggered `AUTO_LOCK_TRIGGERED` entry; every handled report is acknowledged with the new state.
   */
  function ReportSpec(db: Db, socketId: string, report: Report, now: int): (s: Step)
    requires KeyedById(db.devices)
    requires socketId in db.sessions && OwnsAtMostOne(db.devices, db.sessions[socketId])
    ensures s.outcome.Done? || s.outcome.NotFound?
    ensures s.outcome.NotFound? <==> forall k :: k in db.devices ==> db.devices[k].user != db.sessions[socketId]
    ensures s.outcome.NotFound? ==> s.db == db
    ensures s.outcome.Done? ==>
      var k := s.outcome.device.deviceId;
      && k in db.devices && db.devices[k].user == db.sessions[socketId]
      && s.db.devices == db.devices[k := s.outcome.device]
      && s.db.sessions == db.sessions
    ensures s.outcome.Done? ==>
      var d := s.outcome.device;
      var before := db.devices[d.deviceId];
      && d.isCompliant == report.isCompliant
      && d.isLocked == (!report.isCompliant || before.isLocked)
      && d.violations == ReportedViolations(report)
      && d.geofenceStatus == (if report.geofenceStatus.Some? then report.geofenceStatus.value else Inside)
      && d.lastComplianceCheck == Some(now) && d.lastSeen == Some(now)
      && d == before.(isCompliant := d.isCompliant, isLocked := d.isLocked, violations := d.violations,
                      geofenceStatus := d.geofenceStatus, lastComplianceCheck := d.lastComplianceCheck,
                      lastSeen := d.lastSeen)
      && s.db.audit == db.audit + (if report.isCompliant then [] else [SocketAutoLockEntry(d.deviceId, report, now)])
      && s.db.outbox == db.outbox
           + (if report.isCompliant then []
              else [Emission(socketId, EnforceLock(Some(Or(report.reason, "Security violation detected")),
                                                   Some(ReportedViolations(report))))])
           + [Emission(socketId, ComplianceAck(d.isCompliant, d.isLocked, d.geofenceStatus))]
    ensures KeyedById(s.db.devices)
  {
    match DeviceOf(db.devices, db.sessions[socketId])
    case None => Step(db, NotFound)
    case Some(k) =>
      var before := db.devices[k];
      var device := before.(
        isCompliant := report.isCompliant,
        isLocked := if !report.isCompliant then true else before.isLocked,
        lastComplianceCheck := Some(now),
        geofenceStatus := if report.geofenceStatus.Some? then report.geofenceStatus.value else Inside,
        violations := ReportedViolations(report),
        lastSeen := Some(now));
      var saved := Save(db, k, device);
      var enforced :=
        if report.isCompliant then saved
        else Append(Emit(saved, socketId, EnforceLock(Some(Or(report.reason, "Security violation detected")),
                                                      Some(ReportedViolations(report)))),
                    SocketAutoLockEntry(k, report, now));
      Step(Emit(enforced, socketId, ComplianceAck(device.isCompliant, device.isLocked, device.geofenceStatus)),
           Done(device))
  }

  /** `compliance-report` on the store. */
  method ComplianceReport(store: DeviceStore, socketId: string, report: Report, now: int) returns (outcome: Outcome)
    requires store.Valid() && socketId in store.sessions && OwnsAtMostOne(store.devices, store.sessions[socketId])
    modifies store
    ensures store.Valid()
    ensures var s := ReportSpec(old(store.Snapshot()), socketId, report, now);
            store.Snapshot() == s.db && outcome == s.outcome
  {
    var user := store.sessions[socketId];
    if !exists k :: k in store.devices && store.devices[k].user == user {
      return NotFound;
    }
    var k :| k in store.devices && store.devices[k].user == user;
    assert DeviceOf(store.devices, user) == Some(k);
    var before := store.devices[k];
    var device := before.(
      isCompliant := report.isCompliant,
      isLocked := if !report.isCompliant then true else before.isLocked,
      lastComplianceCheck := Some(now),
      geofenceStatus := if report.geofenceStatus.Some? then report.geofenceStatus.value else Inside,
      violations := ReportedViolations(report),
      lastSeen := Some(now));
    store.devices := store.devices[k := device];
    if !report.isCompliant {
      var lock := EnforceLock(Some(Or(report.reason, "Security violation detected")), Some(ReportedViolations(report)));
      store.outbox := store.outbox + [Emission(socketId, lock)];
      store.audit := store.audit + [SocketAutoLockEntry(k, report, now)];
    }
    store.outbox := store.outbox + [Emission(socketId, ComplianceAck(device.isCompliant, device.isLocked, device.geofenceStatus))];
    outcome := Done(device);
  }

  /**
   * `heartbeat`: stamps `lastSeen` on the device of this user bound to this socket, if there is one, and
   * nothing else; the socket is always acknowledged.
   */
  function HeartbeatSpec(db: Db, socketId: string, now: int): (s: Step)
    requires socketId in db.sessions && BoundAtMostOnce(db.devices, db.sessions[socketId], socketId)
    ensures s.outcome == Silent
    ensures s.db.audit == db.audit && s.db.sessions == db.sessions
    ensures s.db.outbox == db.outbox + [Emission(socketId, HeartbeatAck)]
    ensures s.db.devices.Keys == db.devices.Keys
    ensures forall k :: k in db.devices ==>
      s.db.devices[k] == if BoundTo(db.devices[k], db.sessions[socketId], socketId)
                         then db.devices[k].(lastSeen := Some(now)) else db.devices[k]
    ensures KeyedById(db.devices) ==> KeyedById(s.db.devices)
  {
    var user := db.sessions[socketId];
    var stamped :=
      match BoundDevice(db.devices, user, socketId)
      case None => db
      case Some(k) => Save(db, k, db.devices[k].(lastSeen := Some(now)));
    Step(Emit(stamped, socketId, HeartbeatAck), Silent)
  }

  /** `heartbeat` on the store. */
  method Heartbeat(store: DeviceStore, socketId: string, now: int)
    requires store.Valid() && socketId in store.sessions
    requires BoundAtMostOnce(store.devices, store.sessions[socketId], socketId)
    modifies store
    ensures store.Valid()
    ensures store.Snapshot() == HeartbeatSpec(old(store.Snapshot()), socketId, now).db
  {
    var user := store.sessions[socketId];
    if exists k :: k in store.devices && BoundTo(store.devices[k], user, socketId) {
      var k :| k in store.devices && BoundTo(store.devices[k], user, socketId);
      store.devices := store.devices[k := store.devices[k].(lastSeen := Some(now))];
    }
    store.outbox := store.outbox + [Emission(socketId, HeartbeatAck)];
  }

  /**
   * `disconnect`: the guarded unbind. Only the device of this user whose stored `socketId` is this very
   * socket is marked disconnected and loses its binding; a device already re-bound to a newer socket keeps
   * it. Compliance and lock state are never touched. The socket leaves the live set.
   */
  function DisconnectSpec(db: Db, socketId: string, now: int): (s: Step)
    requires socketId in db.sessions && BoundAtMostOnce(db.devices, db.sessions[socketId], socketId)
    ensures s.outcome == Silent
    ensures s.db.audit == db.audit && s.db.outbox == db.outbox
    ensures s.db.sessions == db.sessions - {socketId}
    ensures s.db.devices.Keys == db.devices.Keys
    ensures forall k :: k in db.devices ==>
      s.db.devices[k] == if BoundTo(db.devices[k], db.sessions[socketId], socketId)
                         then db.devices[k].(isConnected := false, lastSeen := Some(now), socketId := None)
                         else db.devices[k]
    ensures forall k :: k in db.devices ==>
      s.db.devices[k].isCompliant == db.devices[k].isCompliant && s.db.devices[k].isLocked == db.devices[k].isLocked
    ensures KeyedById(db.devices) ==> KeyedById(s.db.devices)
  {
    var user := db.sessions[socketId];
    var unbound :=
      match BoundDevice(db.devices, user, socketId)
      case None => db
      case Some(k) => Save(db, k, db.devices[k].(isConnected := false, lastSeen := Some(now), socketId := None));
    Step(unbound.(sessions := db.sessions - {socketId}), Silent)
  }

  /** `disconnect` on the store. */
  method Disconnect(store: DeviceStore, socketId: string, now: int)
    requires store.Valid() && socketId in store.sessions
    requires BoundAtMostOnce(store.devices, store.sessions[socketId], socketId)
    modifies store
    ensures store.Valid()
    ensures store.Snapshot() == DisconnectSpec(old(store.Snapshot()), socketId, now).db
  {
    var user := store.sessions[socketId];
    if exists k :: k in store.devices && BoundTo(store.devices[k], user, socketId) {
      var k :| k in store.devices && BoundTo(store.devices[k], user, socketId);
      var device := store.devices[k];
      device := device.(isConnected := false, lastSeen := Some(now));
      device := device.(socketId := None);
      store.devices := store.devices[k := device];
    }
    store.sessions := store.sessions - {socketId};
  }
}
