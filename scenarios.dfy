/**
 * Runs of several handlers on one store: what the device registry, the socket handlers and the
 * administrator routes do together.
 */
module Scenarios {
  import opened Common
  import opened DeviceModel
  import opened AuditLog
  import opened Store
  import DeviceController
  import AdminRoutes
  import DeviceSocket
  import DeviceRoutes

  /**
   * Registration, a non-compliant HTTP report, an administrator lock, a compliant HTTP report and an
   * administrator unlock. The HTTP report recomputes `isLocked` from compliance alone, so the compliant
   * report lifts the administrator's lock before any unlock.
   */
  lemma HttpRunLiftsAdminLock(db: Db, user: string, admin: string, deviceId: string, io: bool,
                              t0: int, t1: int, t2: int, t3: int, t4: int)
    requires deviceId !in db.devices
    ensures
      var s1 := DeviceController.RegisterDeviceSpec(db, user, deviceId, None, None, None, t0);
      var s2 := DeviceController.ReportComplianceSpec(s1.db, user, deviceId, false, Some(["root-detected"]), None, io, t1);
      var s3 := AdminRoutes.LockSpec(s2.db, admin, deviceId, Some("manual review"), io, t2);
      var s4 := DeviceController.ReportComplianceSpec(s3.db, user, deviceId, true, Some([]), None, io, t3);
      var s5 := AdminRoutes.UnlockSpec(s4.db, admin, deviceId, io, t4);
      && s2.outcome.Done? && s2.outcome.device.isLocked && !s2.outcome.device.isCompliant
      && s3.outcome.Done? && s3.outcome.device.isLocked
      && s4.outcome.Done? && !s4.outcome.device.isLocked && s4.outcome.device.isCompliant
      && s5.outcome.Done? && !s5.outcome.device.isLocked && s5.outcome.device.isCompliant
  {
    var s1 := DeviceController.RegisterDeviceSpec(db, user, deviceId, None, None, None, t0);
    var s2 := DeviceController.ReportComplianceSpec(s1.db, user, deviceId, false, Some(["root-detected"]), None, io, t1);
    var s3 := AdminRoutes.LockSpec(s2.db, admin, deviceId, Some("manual review"), io, t2);
    assert Owned(s1.db.devices, user, deviceId) by {
      assert s1.outcome.Created? && s1.db.devices[deviceId] == s1.outcome.device;
    }
    assert Owned(s3.db.devices, user, deviceId) by {
      assert s2.db.devices[deviceId].user == user;
    }
  }

  /** An HTTP report on an owned device keeps it owned and appends an entry exactly when non-compliant. */
  lemma ReportStep(db: Db, user: string, deviceId: string, isCompliant: bool, violations: seq<string>,
                   io: bool, now: int)
    requires Owned(db.devices, user, deviceId)
    ensures var s := DeviceController.ReportComplianceSpec(db, user, deviceId, isCompliant, Some(violations), None, io, now);
      && Owned(s.db.devices, user, deviceId)
      && s.db.audit == db.audit + (if isCompliant then [] else [DeviceController.AutoLockEntry(deviceId, violations, now)])
  {
    var s := DeviceController.ReportComplianceSpec(db, user, deviceId, isCompliant, Some(violations), None, io, now);
    assert s.db.devices[deviceId].user == user;
  }

  /** An administrator lock keeps the device owned by the same user. */
  lemma LockStep(db: Db, admin: string, user: string, deviceId: string, reason: Option<string>, io: bool, now: int)
    requires Owned(db.devices, user, deviceId)
    ensures var s := AdminRoutes.LockSpec(db, admin, deviceId, reason, io, now);
      && Owned(s.db.devices, user, deviceId)
      && s.db.audit == db.audit + [AdminRoutes.AdminLockEntry(admin, deviceId, reason, now)]
  {
  }

  /** Registering a new identifier makes the caller its owner and appends the registration entry. */
  lemma RegisterStep(db: Db, user: string, deviceId: string, now: int)
    requires deviceId !in db.devices
    ensures var s := DeviceController.RegisterDeviceSpec(db, user, deviceId, None, None, None, now);
      && Owned(s.db.devices, user, deviceId)
      && s.db.audit == db.audit + [DeviceController.RegistrationEntry(user, deviceId, now)]
  {
    var s := DeviceController.RegisterDeviceSpec(db, user, deviceId, None, None, None, now);
    assert s.outcome.Created? && s.db.devices[deviceId] == s.outcome.device;
  }

  /** An administrator unlock of a stored device appends its entry. */
  lemma UnlockStep(db: Db, admin: string, deviceId: string, io: bool, now: int)
    requires deviceId in db.devices
    ensures AdminRoutes.UnlockSpec(db, admin, deviceId, io, now).db.audit
            == db.audit + [AdminRoutes.AdminUnlockEntry(admin, deviceId, now)]
  {
  }

  /** A non-compliant report followed by an administrator lock appends the automatic and the manual entry. */
  lemma ReportThenLock(db: Db, user: string, admin: string, deviceId: string, io: bool, t1: int, t2: int)
    requires Owned(db.devices, user, deviceId)
    ensures
      var s2 := DeviceController.ReportComplianceSpec(db, user, deviceId, false, Some(["root-detected"]), None, io, t1);
      var s3 := AdminRoutes.LockSpec(s2.db, admin, deviceId, Some("manual review"), io, t2);
      && Owned(s3.db.devices, user, deviceId)
      && s3.db.audit == db.audit + [DeviceController.AutoLockEntry(deviceId, ["root-detected"], t1),
                                    AdminRoutes.AdminLockEntry(admin, deviceId, Some("manual review"), t2)]
  {
    var s2 := DeviceController.ReportComplianceSpec(db, user, deviceId, false, Some(["root-detected"]), None, io, t1);
    ReportStep(db, user, deviceId, false, ["root-detected"], io, t1);
    LockStep(s2.db, admin, user, deviceId, Some("manual review"), io, t2);
  }

  /** A compliant report followed by an administrator unlock appends only the unlock entry. */
  lemma ReportThenUnlock(db: Db, user: string, admin: string, deviceId: string, io: bool, t3: int, t4: int)
    requires Owned(db.devices, user, deviceId)
    ensures
      var s4 := DeviceController.ReportComplianceSpec(db, user, deviceId, true, Some([]), None, io, t3);
      var s5 := AdminRoutes.UnlockSpec(s4.db, admin, deviceId, io, t4);
      s5.db.audit == db.audit + [AdminRoutes.AdminUnlockEntry(admin, deviceId, t4)]
  {
    var s4 := DeviceController.ReportComplianceSpec(db, user, deviceId, true, Some([]), None, io, t3);
    ReportStep(db, user, deviceId, true, [], io, t3);
    UnlockStep(s4.db, admin, deviceId, io, t4);
  }

  /** The same run leaves one log entry per action: registration, automatic lock, lock, unlock. */
  lemma HttpRunAuditTrail(db: Db, user: string, admin: string, deviceId: string, io: bool,
                          t0: int, t1: int, t2: int, t3: int, t4: int, s1: Step, s3: Step, s5: Step)
    requires deviceId !in db.devices
    requires s1 == DeviceController.RegisterDeviceSpec(db, user, deviceId, None, None, None, t0)
    requires s3 == AdminRoutes.LockSpec(
      DeviceController.ReportComplianceSpec(s1.db, user, deviceId, false, Some(["root-detected"]), None, io, t1).db,
      admin, deviceId, Some("manual review"), io, t2)
    requires s5 == AdminRoutes.UnlockSpec(
      DeviceController.ReportComplianceSpec(s3.db, user, deviceId, true, Some([]), None, io, t3).db,
      admin, deviceId, io, t4)
    ensures s5.db.audit == db.audit + [DeviceController.RegistrationEntry(user, deviceId, t0),
                                       DeviceController.AutoLockEntry(deviceId, ["root-detected"], t1),
                                       AdminRoutes.AdminLockEntry(admin, deviceId, Some("manual review"), t2),
                                       AdminRoutes.AdminUnlockEntry(admin, deviceId, t4)]
  {
    RegisterStep(db, user, deviceId, t0);
    ReportThenLock(s1.db, user, admin, deviceId, io, t1, t2);
    ReportThenUnlock(s3.db, user, admin, deviceId, io, t3, t4);
  }

  /**
   * An administrator lock followed by a compliant report over the device's socket: the socket handler
   * only ever sets `isLocked`, so the device is compliant again but stays locked.
   */
  lemma SocketReportKeepsAdminLock(db: Db, admin: string, deviceId: string, socketId: string,
                                   reason: Option<string>, io: bool, t1: int, t2: int)
    requires KeyedById(db.devices) && socketId in db.sessions
    requires OwnsAtMostOne(db.devices, db.sessions[socketId]) && Owned(db.devices, db.sessions[socketId], deviceId)
    ensures
      var s1 := AdminRoutes.LockSpec(db, admin, deviceId, reason, io, t1);
      && KeyedById(s1.db.devices) && socketId in s1.db.sessions
      && OwnsAtMostOne(s1.db.devices, s1.db.sessions[socketId])
      && var s2 := DeviceSocket.ReportSpec(s1.db, socketId, DeviceSocket.Report(true, None, None, None), t2);
         && s2.outcome.Done? && s2.outcome.device.deviceId == deviceId
         && s2.outcome.device.isLocked && s2.outcome.device.isCompliant
         && s2.db.audit == s1.db.audit
  {
    var s1 := AdminRoutes.LockSpec(db, admin, deviceId, reason, io, t1);
    var user := db.sessions[socketId];
    forall a, b | a in s1.db.devices && b in s1.db.devices && s1.db.devices[a].user == user && s1.db.devices[b].user == user
      ensures a == b
    {
      assert db.devices[a].user == user && db.devices[b].user == user;
    }
    assert s1.db.devices[deviceId].user == user;
  }

  /**
   * An administrator lock and unlock of a compliant device leave it unlocked but non-compliant, because
   * the lock route clears `isCompliant` and the unlock route does not restore it.
   */
  lemma LockUnlockLeavesNonCompliant(db: Db, admin: string, deviceId: string, reason: Option<string>,
                                     io: bool, t1: int, t2: int)
    requires deviceId in db.devices && db.devices[deviceId].isCompliant
    ensures
      var s1 := AdminRoutes.LockSpec(db, admin, deviceId, reason, io, t1);
      var s2 := AdminRoutes.UnlockSpec(s1.db, admin, deviceId, io, t2);
      && s2.outcome.Done? && !s2.outcome.device.isLocked && !s2.outcome.device.isCompliant
      && s2.db.audit == db.audit + [AdminRoutes.AdminLockEntry(admin, deviceId, reason, t1),
                                    AdminRoutes.AdminUnlockEntry(admin, deviceId, t2)]
  {
    var s1 := AdminRoutes.LockSpec(db, admin, deviceId, reason, io, t1);
    assert s1.outcome.Done?;
  }

  /** Every non-compliant HTTP report is audited, not only the first one after a compliant state. */
  lemma RepeatedReportsAuditEach(db: Db, user: string, deviceId: string, v1: seq<string>, v2: seq<string>,
                                 io: bool, t1: int, t2: int)
    requires Owned(db.devices, user, deviceId)
    ensures
      var s1 := DeviceController.ReportComplianceSpec(db, user, deviceId, false, Some(v1), None, io, t1);
      var s2 := DeviceController.ReportComplianceSpec(s1.db, user, deviceId, false, Some(v2), None, io, t2);
      && s2.outcome.Done?
      && s2.db.audit == db.audit + [DeviceController.AutoLockEntry(deviceId, v1, t1),
                                    DeviceController.AutoLockEntry(deviceId, v2, t2)]
  {
    var s1 := DeviceController.ReportComplianceSpec(db, user, deviceId, false, Some(v1), None, io, t1);
    assert s1.db.devices[deviceId].user == user;
  }

  /**
   * A device re-registered from a second socket of the same user, followed by the late disconnect of the
   * first socket: the guarded unbind leaves the newer binding in place.
   */
  lemma StaleDisconnectKeepsNewBinding(db: Db, deviceId: string, s1: string, s2: string, t1: int, t2: int, t3: int)
    requires KeyedById(db.devices)
    requires s1 in db.sessions && s2 in db.sessions && s1 != s2
    requires db.sessions[s1] == db.sessions[s2] && Owned(db.devices, db.sessions[s1], deviceId)
    requires OwnsAtMostOne(db.devices, db.sessions[s1])
    ensures
      var r1 := DeviceSocket.RegisterSpec(db, s1, deviceId, t1);
      var r2 := DeviceSocket.RegisterSpec(r1.db, s2, deviceId, t2);
      && s1 in r2.db.sessions && BoundAtMostOnce(r2.db.devices, r2.db.sessions[s1], s1)
      && var r3 := DeviceSocket.DisconnectSpec(r2.db, s1, t3);
         && r3.db.devices[deviceId].socketId == Some(s2)
         && r3.db.devices[deviceId].isConnected
         && s2 in r3.db.sessions && s1 !in r3.db.sessions
  {
    var user := db.sessions[s1];
    var r1 := DeviceSocket.RegisterSpec(db, s1, deviceId, t1);
    var r2 := DeviceSocket.RegisterSpec(r1.db, s2, deviceId, t2);
    assert r1.db.devices[deviceId].user == user;
    assert forall k :: k in r1.db.devices ==> r1.db.devices[k].user == db.devices[k].user;
    assert forall k :: k in r2.db.devices ==> r2.db.devices[k].user == r1.db.devices[k].user;
    forall a, b | a in r2.db.devices && b in r2.db.devices && BoundTo(r2.db.devices[a], user, s1)
                  && BoundTo(r2.db.devices[b], user, s1)
      ensures a == b
    {
      assert db.devices[a].user == user && db.devices[b].user == user;
    }
    assert !BoundTo(r2.db.devices[deviceId], user, s1);
  }

  /**
   * The corrected report path: a body that passed the `/report` validator, decoded once and handed to the
   * report handler, stores the compliance Mongoose casts the raw value to, locks the device exactly when
   * that stored value is non-compliant and appends an `AUTO_LOCK_TRIGGERED` entry exactly then, as the
   * corrected effect promises.
   */
  lemma {:induction false} ValidatedReportLocksWhatItStores(body: DeviceRoutes.Body, db: Db, user: string, deviceId: string,
                                                            violations: Option<seq<string>>, geofenceStatus: Option<Geofence>,
                                                            io: bool, now: int)
    requires DeviceRoutes.ValidateReport(body).Next?
    requires Owned(db.devices, user, deviceId)
    ensures "isCompliant" in body && DeviceRoutes.BooleanLike(body["isCompliant"])
    ensures var v := body["isCompliant"];
            var e := DeviceRoutes.ReportEffectCorrected(v);
            var s := DeviceController.ReportComplianceSpec(db, user, deviceId, DeviceRoutes.DecodeCompliance(v),
                                                           violations, geofenceStatus, io, now);
            && s.outcome.Done? && deviceId in s.db.devices
            && s.db.devices[deviceId].isCompliant == DeviceRoutes.StoredBoolean(v) == e.storedCompliant
            && s.db.devices[deviceId].isLocked == !DeviceRoutes.StoredBoolean(v) == e.storedLocked
            && |s.db.audit| == |db.audit| + (if DeviceRoutes.StoredBoolean(v) then 0 else 1)
            && (|s.db.audit| > |db.audit| <==> e.autoLocks)
  {
    var v := body["isCompliant"];
    var c := DeviceRoutes.DecodeCompliance(v);
    var s := DeviceController.ReportComplianceSpec(db, user, deviceId, c, violations, geofenceStatus, io, now);
    assert s.outcome.Done?;
  }
}
