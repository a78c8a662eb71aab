/**
 * The state every device handler works on: the Device collection keyed by `deviceId`, the append-only
 * audit log, the real-time events the handlers emit (in emission order) and the authenticated live sockets.
 */
module Store {
  import opened Common
  import opened DeviceModel
  import opened AuditLog

  /** The payloads pushed to a device socket; timestamps in the payloads are not modelled. */
  datatype Event =
    | EnforceLock(reason: Option<string>, violations: Option<seq<string>>)
    | UnlockDevice
    | PingDevice(shouldPing: bool)
    | EnforceWipe(reason: Option<string>)
    | RegistrationConfirmed(isLocked: bool, isCompliant: bool, lockReason: Option<string>)
    | RegistrationError
    | ComplianceAck(isCompliant: bool, isLocked: bool, geofenceStatus: Geofence)
    | HeartbeatAck

  /** An event sent to the socket with the given id. */
  datatype Emission = Emission(socketId: string, event: Event)

  /**
   * The stored devices, the audit log, the events emitted so far, and the live sockets that passed the
   * token gate (socket id to the authenticated user id).
   */
  datatype Db = Db(
    devices: map<string, Device>,
    audit: seq<AuditEntry>,
    outbox: seq<Emission>,
    sessions: map<string, string>)

  /** What a handler reports back to its caller. */
  datatype Outcome =
    | Created(device: Device)
    | Existing(device: Device)
    | Done(device: Device)
    | Pinged
    | Wiped
    | Connected
    | Silent
    | NotFound
    | NotConnected
    | NoToken
    | InvalidToken
    | ServerError

  /** The state after a handler and the outcome it reports. */
  datatype Step = Step(db: Db, outcome: Outcome)

  /** `deviceId` is unique: each record sits under its own identifier, so there is at most one per identifier. */
  predicate KeyedById(devices: map<string, Device>)
  {
    forall k :: k in devices ==> devices[k].deviceId == k
  }

  /** The device `deviceId` exists and belongs to `user` (the filter `{ deviceId, user }`). */
  predicate Owned(devices: map<string, Device>, user: string, deviceId: string)
  {
    deviceId in devices && devices[deviceId].user == user
  }

  /** `user` owns at most one device, so a lookup by owner alone is determined. */
  predicate OwnsAtMostOne(devices: map<string, Device>, user: string)
  {
    forall a, b :: a in devices && b in devices && devices[a].user == user && devices[b].user == user ==> a == b
  }

  /** The filter `{ user, socketId }` matches at most one device. */
  predicate BoundAtMostOnce(devices: map<string, Device>, user: string, socketId: string)
  {
    forall a, b ::
      a in devices && b in devices && BoundTo(devices[a], user, socketId) && BoundTo(devices[b], user, socketId)
      ==> a == b
  }

  /** The device belongs to `user` and is bound to `socketId`. */
  predicate BoundTo(d: Device, user: string, socketId: string)
  {
    d.user == user && d.socketId == Some(socketId)
  }

  /** `Device.findOne({ user })` when the user owns at most one device. */
  function DeviceOf(devices: map<string, Device>, user: string): (r: Option<string>)
    requires OwnsAtMostOne(devices, user)
    ensures r.None? <==> forall k :: k in devices ==> devices[k].user != user
    ensures r.Some? ==> r.value in devices && devices[r.value].user == user
  {
    if exists k :: k in devices && devices[k].user == user then
      var k :| k in devices && devices[k].user == user; Some(k)
    else None
  }

  /** `Device.findOne({ user, socketId })` when at most one device matches. */
  function BoundDevice(devices: map<string, Device>, user: string, socketId: string): (r: Option<string>)
    requires BoundAtMostOnce(devices, user, socketId)
    ensures r.None? <==> forall k :: k in devices ==> !BoundTo(devices[k], user, socketId)
    ensures r.Some? ==> r.value in devices && BoundTo(devices[r.value], user, socketId)
  {
    if exists k :: k in devices && BoundTo(devices[k], user, socketId) then
      var k :| k in devices && BoundTo(devices[k], user, socketId); Some(k)
    else None
  }

  /** `db` with `event` sent to socket `socketId`. */
  function Emit(db: Db, socketId: string, event: Event): Db
  {
    db.(outbox := db.outbox + [Emission(socketId, event)])
  }

  /** `db` with `entry` appended to the audit log. */
  function Append(db: Db, entry: AuditEntry): Db
  {
    db.(audit := db.audit + [entry])
  }

  /** `db` with `d` stored under `deviceId` (a `save` or an update of the document with that identifier). */
  function Save(db: Db, deviceId: string, d: Device): Db
  {
    db.(devices := db.devices[deviceId := d])
  }

  /** The collection, the audit log, the emitted events and the live sockets as mutable state. */
  class DeviceStore {
    var devices: map<string, Device>
    var audit: seq<AuditEntry>
    var outbox: seq<Emission>
    var sessions: map<string, string>

    /** The current state as a value. */
    function Snapshot(): Db
      reads this
    {
      Db(devices, audit, outbox, sessions)
    }

    /** The collection invariant: each record sits under its own `deviceId`. */
    predicate Valid()
      reads this
    {
      KeyedById(devices)
    }

    /** An empty collection, an empty log, nothing emitted, no socket connected. */
    constructor ()
      ensures Valid()
      ensures Snapshot() == Db(map[], [], [], map[])
    {
      devices, audit, outbox, sessions := map[], [], [], map[];
    }
  }

  /**
   * `device.updateConnectionStatus(isConnected, socketId = null)` on a loaded document: sets the two
   * connection fields and saves; every other field of every device stays as it was.
   */
  method UpdateConnectionStatus(store: DeviceStore, deviceId: string, isConnected: bool, socketId: Option<string>)
    requires store.Valid() && deviceId in store.devices
    modifies store
    ensures store.Valid()
    ensures store.devices == old(store.devices)[deviceId := old(store.devices)[deviceId].(isConnected := isConnected, socketId := socketId)]
    ensures store.audit == old(store.audit) && store.outbox == old(store.outbox) && store.sessions == old(store.sessions)
  {
    var device := store.devices[deviceId];
    device := device.(isConnected := isConnected);
    device := device.(socketId := socketId);
    store.devices := store.devices[deviceId := device];
  }
}
