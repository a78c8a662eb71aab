/** The Device document: its fields, the schema defaults and the `isOnline` virtual. */
module DeviceModel {
  import opened Common

  /**
   * The schema's enum for `geofenceStatus`. `save` rejects any other value; `findOneAndUpdate` runs no
   * validators, so the socket report could store one, and the model takes the reported value to be one of the two.
   */
  datatype Geofence = Inside | Outside

  /** The window of the `isOnline` virtual, in milliseconds. */
  const OnlineWindowMs: int := 5 * 60 * 1000

  /**
   * One stored device. `deviceId` is the unique key of the collection; `user` is the owner's id.
   * Timestamps are milliseconds; `socketId == None` stands for both `null` and an unset field.
   */
  datatype Device = Device(
    user: string,
    deviceId: string,
    model: string,
    osVersion: string,
    appVersion: string,
    isCompliant: bool,
    isLocked: bool,
    isConnected: bool,
    socketId: Option<string>,
    lastComplianceCheck: Option<int>,
    lastSeen: Option<int>,
    geofenceStatus: Geofence,
    violations: seq<string>,
    lockReason: Option<string>)

  /**
   * A document built from the given values: the schema defaults fill every field the caller omits
   * (an explicitly given empty string is kept, as Mongoose applies defaults to `undefined` only).
   */
  function NewDevice(user: string, deviceId: string, model: Option<string>, osVersion: Option<string>,
                     appVersion: Option<string>, now: int): (d: Device)
    ensures d.user == user && d.deviceId == deviceId
    ensures d.isCompliant && !d.isLocked && !d.isConnected
    ensures d.socketId == None && d.violations == [] && d.lockReason == None
    ensures d.geofenceStatus == Inside && d.lastComplianceCheck == Some(now) && d.lastSeen == None
    ensures model.None? ==> d.model == "Unknown Device"
    ensures osVersion.None? ==> d.osVersion == "Unknown OS"
    ensures appVersion.None? ==> d.appVersion == "1.0.0"
    ensures model.Some? ==> d.model == model.value
    ensures osVersion.Some? ==> d.osVersion == osVersion.value
    ensures appVersion.Some? ==> d.appVersion == appVersion.value
  {
    Device(user, deviceId,
           if model.Some? then model.value else "Unknown Device",
           if osVersion.Some? then osVersion.value else "Unknown OS",
           if appVersion.Some? then appVersion.value else "1.0.0",
           true, false, false, None, Some(now), None, Inside, [], None)
  }

  /** `if (device.socketId)`: the device holds a (non-empty) socket binding. */
  predicate HasSocket(d: Device)
  {
    Truthy(d.socketId)
  }

  /** The `isOnline` virtual: the last compliance check lies strictly inside the last five minutes. */
  predicate IsOnline(d: Device, now: int)
  {
    d.lastComplianceCheck.Some? && d.lastComplianceCheck.value > now - OnlineWindowMs
  }

  /** A device checked at time `t` is online until just before `t + 300000` ms, and from then on offline. */
  lemma OnlineWindow(d: Device, t: int, now: int)
    requires d.lastComplianceCheck == Some(t)
    ensures IsOnline(d, now) <==> now < t + 300000
    ensures !IsOnline(d, t + 300000)
  {
  }

  /** A document without `lastComplianceCheck` is never online. */
  lemma NeverCheckedIsOffline(d: Device, now: int)
    requires d.lastComplianceCheck.None?
    ensures !IsOnline(d, now)
  {
  }
}
