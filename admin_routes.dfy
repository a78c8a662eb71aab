/**
 * The administrator routes: lock, unlock and ping a device, the dashboard statistics, the paged
 * audit log and the device listing.
 */
module AdminRoutes {
  import opened Common
  import opened DeviceModel
  import opened AuditLog
  import opened Store
  import opened UserModel

  /** The `ADMIN_LOCK` entry: the administrator is the actor, the reason defaults to a fixed text. */
  function AdminLockEntry(admin: string, deviceId: string, reason: Option<string>, now: int): AuditEntry
  {
    AuditEntry(AdminLock, Some(admin), deviceId, Some(Or(reason, "Manual lock by admin")), None, now)
  }

  /**
   * `POST /devices/:deviceId/lock`. An unknown identifier changes nothing and yields NotFound. Otherwise the
   * device becomes locked and non-compliant with `lockReason` set to the given reason or a fixed text; one
   * `ADMIN_LOCK` entry is appended; `enforce-lock` is sent only when the io handle exists and the device
   * holds a socket, while the record and the log change either way.
   */
  function LockSpec(db: Db, admin: string, deviceId: string, reason: Option<string>, io: bool, now: int): (s: Step)
    ensures deviceId !in db.devices <==> s.outcome.NotFound?
    ensures s.outcome.NotFound? ==> s.db == db
    ensures s.outcome.Done? || s.outcome.NotFound?
    ensures s.outcome.Done? ==> deviceId in db.devices && deviceId in s.db.devices
    ensures s.outcome.Done? ==>
      var d := s.db.devices[deviceId];
      && d == s.outcome.device
      && s.db.devices == db.devices[deviceId := d]
      && d.isLocked && !d.isCompliant
      && d.lockReason == Some(if Truthy(reason) then reason.value else "Locked by administrator")
      && d == db.devices[deviceId].(isLocked := true, isCompliant := false, lockReason := d.lockReason)
      && s.db.audit == db.audit + [AdminLockEntry(admin, deviceId, reason, now)]
      && s.db.outbox == db.outbox +
           (if io && HasSocket(d)
            then [Emission(d.socketId.value, EnforceLock(Some(Or(reason, "Device locked by administrator")), None))]
            else [])
      && s.db.sessions == db.sessions
    ensures KeyedById(db.devices) ==> KeyedById(s.db.devices)
  {
    if deviceId !in db.devices then
      Step(db, NotFound)
    else
      var device := db.devices[deviceId].(
        isLocked := true,
        isCompliant := false,
        lockReason := Some(Or(reason, "Locked by administrator")));
      var logged := Append(Save(db, deviceId, device), AdminLockEntry(admin, deviceId, reason, now));
      if io && HasSocket(device) then
        Step(Emit(logged, device.socketId.value, EnforceLock(Some(Or(reason, "Device locked by administrator")), None)),
             Done(device))
      else
        Step(logged, Done(device))
  }

  /** The lock route on the store. */
  method Lock(store: DeviceStore, admin: string, deviceId: string, reason: Option<string>, io: bool, now: int)
    returns (outcome: Outcome)
    requires store.Valid()
    modifies store
    ensures store.Valid()
    ensures var s := LockSpec(old(store.Snapshot()), admin, deviceId, reason, io, now);
            store.Snapshot() == s.db && outcome == s.outcome
  {
    if deviceId !in store.devices {
      return NotFound;
    }
    var device := store.devices[deviceId];
    device := device.(isLocked := true);
    device := device.(isCompliant := false);
    device := device.(lockReason := Some(Or(reason, "Locked by administrator")));
    store.devices := store.devices[deviceId := device];
    store.audit := store.audit + [AdminLockEntry(admin, deviceId, reason, now)];
    if io && device.socketId.Some? && device.socketId.value != "" {
      var payload := EnforceLock(Some(Or(reason, "Device locked by administrator")), None);
      store.outbox := store.outbox + [Emission(device.socketId.value, payload)];
    }
    outcome := Done(device);
  }

  /** The `ADMIN_UNLOCK` entry. */
  function AdminUnlockEntry(admin: string, deviceId: string, now: int): AuditEntry
  {
    AuditEntry(AdminUnlock, Some(admin), deviceId, Some("Manual unlock by admin"), None, now)
  }

  /**
   * `POST /devices/:deviceId/unlock`. An unknown identifier changes nothing. Otherwise `isLocked` is cleared
   * and `lockReason` removed, `isCompliant` is left as it was, one `ADMIN_UNLOCK` entry is appended and
   * `unlock-device` is sent when the io handle exists and the device holds a socket.
   */
  function UnlockSpec(db: Db, admin: string, deviceId: string, io: bool, now: int): (s: Step)
    ensures deviceId !in db.devices <==> s.outcome.NotFound?
    ensures s.outcome.NotFound? ==> s.db == db
    ensures s.outcome.Done? || s.outcome.NotFound?
    ensures s.outcome.Done? ==> deviceId in db.devices && deviceId in s.db.devices
    ensures s.outcome.Done? ==>
      var d := s.db.devices[deviceId];
      && d == s.outcome.device
      && s.db.devices == db.devices[deviceId := d]
      && !d.isLocked && d.lockReason == None
      && d.isCompliant == db.devices[deviceId].isCompliant
      && d == db.devices[deviceId].(isLocked := false, lockReason := None)
      && s.db.audit == db.audit + [AdminUnlockEntry(admin, deviceId, now)]
      && s.db.outbox == db.outbox + (if io && HasSocket(d) then [Emission(d.socketId.value, UnlockDevice)] else [])
      && s.db.sessions == db.sessions
    ensures KeyedById(db.devices) ==> KeyedById(s.db.devices)
  {
    if deviceId !in db.devices then
      Step(db, NotFound)
    else
      var device := db.devices[deviceId].(isLocked := false, lockReason := None);
      var logged := Append(Save(db, deviceId, device), AdminUnlockEntry(admin, deviceId, now));
      if io && HasSocket(device) then
        Step(Emit(logged, device.socketId.value, UnlockDevice), Done(device))
      else
        Step(logged, Done(device))
  }

  /** The unlock route on the store. */
  method Unlock(store: DeviceStore, admin: string, deviceId: string, io: bool, now: int) returns (outcome: Outcome)
    requires store.Valid()
    modifies store
    ensures store.Valid()
    ensures var s := UnlockSpec(old(store.Snapshot()), admin, deviceId, io, now);
            store.Snapshot() == s.db && outcome == s.outcome
  {
    if deviceId !in store.devices {
      return NotFound;
    }
    var device := store.devices[deviceId];
    device := device.(isLocked := false);
    device := device.(lockReason := None);
    store.devices := store.devices[deviceId := device];
    store.audit := store.audit + [AdminUnlockEntry(admin, deviceId, now)];
    if io && device.socketId.Some? && device.socketId.value != "" {
      store.outbox := store.outbox + [Emission(device.socketId.value, UnlockDevice)];
    }
    outcome := Done(device);
  }

  /**
   * `POST /devices/:deviceId/ping`. Never changes a record or the log. Unknown identifier: NotFound.
   * A device that holds a socket and is connected (with the io handle present) gets `ping-device` with
   * `shouldPing` set; otherwise the route fails with "not connected" and nothing is sent.
   */
  function PingSpec(db: Db, deviceId: string, io: bool): (s: Step)
    ensures s.db.devices == db.devices && s.db.audit == db.audit && s.db.sessions == db.sessions
    ensures deviceId !in db.devices <==> s.outcome.NotFound?
    ensures s.outcome.Pinged? <==>
      deviceId in db.devices && io && HasSocket(db.devices[deviceId]) && db.devices[deviceId].isConnected
    ensures s.outcome.Pinged? || s.outcome.NotFound? || s.outcome.NotConnected?
    ensures s.outcome.Pinged? ==> s.db.outbox == db.outbox + [Emission(db.devices[deviceId].socketId.value, PingDevice(true))]
    ensures !s.outcome.Pinged? ==> s.db == db
  {
    if deviceId !in db.devices then
      Step(db, NotFound)
    else
      var device := db.devices[deviceId];
      if io && HasSocket(device) && device.isConnected then
        Step(Emit(db, device.socketId.value, PingDevice(true)), Pinged)
      else
        Step(db, NotConnected)
  }

  /** The ping route on the store. */
  method Ping(store: DeviceStore, deviceId: string, io: bool) returns (outcome: Outcome)
    modifies store
    ensures var s := PingSpec(old(store.Snapshot()), deviceId, io);
            store.Snapshot() == s.db && outcome == s.outcome
  {
    if deviceId !in store.devices {
      return NotFound;
    }
    var device := store.devices[deviceId];
    if io && device.socketId.Some? && device.socketId.value != "" && device.isConnected {
      store.outbox := store.outbox + [Emission(device.socketId.value, PingDevice(true))];
      outcome := Pinged;
    } else {
      outcome := NotConnected;
    }
  }

  // ---------------------------------------------------------------- statistics

  /** The identifiers of the devices that satisfy a condition. */
  function CompliantIds(devices: map<string, Device>): set<string>
  {
    set k | k in devices && devices[k].isCompliant
  }

  function NonCompliantIds(devices: map<string, Device>): set<string>
  {
    set k | k in devices && !devices[k].isCompliant
  }

  function LockedIds(devices: map<string, Device>): set<string>
  {
    set k | k in devices && devices[k].isLocked
  }

  function ConnectedIds(devices: map<string, Device>): set<string>
  {
    set k | k in devices && devices[k].isConnected
  }

  function OfflineIds(devices: map<string, Device>): set<string>
  {
    set k | k in devices && !devices[k].isConnected
  }

  /** A condition and its negation split the collection: the two counts add up to the total. */
  lemma {:induction false} SplitCount(devices: map<string, Device>, yes: set<string>, no: set<string>)
    requires yes <= devices.Keys && no <= devices.Keys
    requires yes !! no && yes + no == devices.Keys
    ensures |no| == |devices| - |yes|
  {
    assert |yes + no| == |yes| + |no|;
  }

  /** A subset is no larger than its superset. */
  lemma {:induction false} SubsetCount(a: set<string>, b: set<string>)
    requires a <= b
    ensures |a| <= |b|
  {
    assert b == a + (b - a);
    assert |a + (b - a)| == |a| + |b - a|;
  }

  /** The device counters of `GET /stats`. */
  datatype DeviceStats = DeviceStats(total: nat, compliant: nat, nonCompliant: int, locked: nat, connected: nat, offline: int)

  /**
   * The device counters: `nonCompliant` and `offline` are computed by subtraction, and they are exactly
   * the numbers of non-compliant and of disconnected devices; none exceeds the total.
   */
  function Stats(devices: map<string, Device>): (s: DeviceStats)
    ensures s.total == |devices|
    ensures s.compliant == |CompliantIds(devices)| && s.locked == |LockedIds(devices)| && s.connected == |ConnectedIds(devices)|
    ensures s.nonCompliant == |NonCompliantIds(devices)| && s.offline == |OfflineIds(devices)|
    ensures s.compliant + s.nonCompliant == s.total && s.connected + s.offline == s.total
    ensures s.locked <= s.total && 0 <= s.nonCompliant && 0 <= s.offline
  {
    var total := |devices|;
    var compliant := |CompliantIds(devices)|;
    var locked := |LockedIds(devices)|;
    var connected := |ConnectedIds(devices)|;
    SplitCount(devices, CompliantIds(devices), NonCompliantIds(devices));
    SplitCount(devices, ConnectedIds(devices), OfflineIds(devices));
    SubsetCount(LockedIds(devices), devices.Keys);
    DeviceStats(total, compliant, total - compliant, locked, connected, total - connected)
  }

  /** The ten most recent audit entries, newest first (`recentAudits`). */
  function RecentAudits(audit: seq<AuditEntry>): (r: seq<AuditEntry>)
    ensures |r| == if |audit| < 10 then |audit| else 10
    ensures forall i :: 0 <= i < |r| ==> r[i] == audit[|audit| - 1 - i]
  {
    var newest := NewestFirst(audit);
    if |newest| <= 10 then newest else newest[..10]
  }

  /** The body of `GET /stats`: the device counters, the number of accounts and the recent audit entries. */
  datatype Dashboard = Dashboard(devices: DeviceStats, totalUsers: nat, recentAudits: seq<AuditEntry>)

  /**
   * The whole dashboard: the device counters of `Stats`, every account counted once in `totalUsers`,
   * and at most ten audit entries, the newest first.
   */
  function StatsPage(devices: map<string, Device>, users: seq<User>, audit: seq<AuditEntry>): (r: Dashboard)
    ensures r.devices.total == |devices| && r.devices.locked == |LockedIds(devices)|
    ensures r.devices.compliant + r.devices.nonCompliant == r.devices.total
    ensures r.devices.connected + r.devices.offline == r.devices.total
    ensures r.totalUsers == |users|
    ensures |r.recentAudits| == if |audit| < 10 then |audit| else 10
    ensures forall i :: 0 <= i < |r.recentAudits| ==> r.recentAudits[i] == audit[|audit| - 1 - i]
  {
    Dashboard(Stats(devices), |users|, RecentAudits(audit))
  }

  // ---------------------------------------------------------------- audit-log pages

  /** `Math.ceil(n / d)` for a positive divisor. */
  function CeilDiv(n: nat, d: nat): (q: nat)
    requires d >= 1
    ensures q * d >= n
    ensures q == 0 || (q - 1) * d < n
  {
    var q := (n + d - 1) / d;
    assert q * d + (n + d - 1) % d == n + d - 1;
    q
  }

  /** One page of `GET /audit-logs`. */
  datatype AuditPage = AuditPage(logs: seq<AuditEntry>, currentPage: int, totalPages: nat, totalLogs: nat)

  /** The entries of `xs` from position `skip` on, at most `limit` of them (`skip(...).limit(...)`). */
  function Window(xs: seq<AuditEntry>, skip: nat, limit: nat): (w: seq<AuditEntry>)
    ensures |w| <= limit
    ensures |w| == limit || skip + |w| >= |xs|
    ensures |w| == 0 || skip + |w| <= |xs|
    ensures forall i :: 0 <= i < |w| ==> w[i] == xs[skip + i]
  {
    if skip >= |xs| then []
    else if skip + limit >= |xs| then xs[skip..]
    else xs[skip..skip + limit]
  }

  /** The number of entries before page `page`. */
  function PageOffset(page: int, limit: int): (skip: nat)
    requires page >= 1 && limit >= 1
    ensures skip == (page - 1) * limit
  {
    MulMonotone(0, page - 1, limit);
    (page - 1) * limit
  }

  /**
   * The page `page` of `limit` entries: newest first, after skipping `(page - 1) * limit` entries; full
   * unless the log runs out; `totalPages` is the ceiling of the log size over `limit`. A page number below 1
   * asks for a negative skip, which the store rejects (None).
   */
  function AuditLogs(audit: seq<AuditEntry>, page: int, limit: int): (r: Option<AuditPage>)
    requires limit >= 1
    ensures r.None? <==> page < 1
    ensures r.Some? ==>
      var p := r.value;
      var skip := (page - 1) * limit;
      && p.totalLogs == |audit| && p.currentPage == page
      && |p.logs| <= limit
      && (|p.logs| == limit || skip + |p.logs| >= |audit|)
      && (|p.logs| == 0 || skip + |p.logs| <= |audit|)
      && (forall i :: 0 <= i < |p.logs| ==> p.logs[i] == audit[|audit| - 1 - (skip + i)])
      && p.totalPages * limit >= |audit|
      && (p.totalPages == 0 || (p.totalPages - 1) * limit < |audit|)
  {
    if page < 1 then None
    else
      var skip := PageOffset(page, limit);
      Some(AuditPage(Window(NewestFirst(audit), skip, limit), page, CeilDiv(|audit|, limit), |audit|))
  }

  /** Position `i` lies in block `i / limit` of `limit` positions, and the blocks up to `totalPages` cover `n`. */
  lemma {:induction false} BlockOf(i: nat, limit: int, n: nat, tp: nat)
    requires limit >= 1 && i < n
    requires tp * limit >= n
    ensures (i / limit) * limit <= i < (i / limit) * limit + limit
    ensures i - (i / limit) * limit == i % limit
    ensures i / limit + 1 <= tp
  {
    var q := i / limit;
    assert i == q * limit + i % limit;
    if tp <= q {
      MulMonotone(tp, q, limit);
    }
  }

  /** Multiplying by a non-negative factor keeps the order. */
  lemma {:induction false} MulMonotone(a: int, b: int, c: int)
    requires a <= b && c >= 0
    ensures a * c <= b * c
  {
    assert b * c - a * c == (b - a) * c;
  }

  /**
   * The pages partition the log: the entry at newest-first position `i` is on page `i / limit + 1`, at
   * index `i % limit`, and that page number is within `totalPages`.
   */
  lemma {:induction false} EntryOnItsPage(audit: seq<AuditEntry>, limit: int, i: nat)
    requires limit >= 1 && i < |audit|
    ensures var page := i / limit + 1;
            var r := AuditLogs(audit, page, limit);
            && r.Some? && i % limit < |r.value.logs|
            && r.value.logs[i % limit] == NewestFirst(audit)[i]
            && page <= r.value.totalPages
  {
    var page := i / limit + 1;
    var r := AuditLogs(audit, page, limit);
    var p := r.value;
    BlockOf(i, limit, |audit|, p.totalPages);
    var skip := (page - 1) * limit;
    assert skip == (i / limit) * limit;
    assert skip <= i < skip + limit;
    assert i - skip < |p.logs|;
    assert p.logs[i - skip] == audit[|audit| - 1 - i];
  }

  /** The defaults of `const { page = 1, limit = 50 } = req.query`. */
  const DefaultPage := 1
  const DefaultLimit := 50

  /**
   * `GET /audit-logs` from the query as sent: an absent `page` is 1 and an absent `limit` is 50. Without a
   * `page` the newest entries come first; without either, the page is the newest `min(50, total)` entries
   * and `totalPages` is the ceiling of the total over 50.
   */
  function AuditLogsQuery(audit: seq<AuditEntry>, page: Option<int>, limit: Option<int>): (r: Option<AuditPage>)
    requires limit.Some? ==> limit.value >= 1
    ensures r.None? <==> page.Some? && page.value < 1
    ensures r.Some? ==> r.value.currentPage == (if page.Some? then page.value else DefaultPage)
    ensures r.Some? ==> r.value.totalLogs == |audit| && |r.value.logs| <= |audit|
    ensures page.None? ==> r.Some? && forall i :: 0 <= i < |r.value.logs| ==> r.value.logs[i] == audit[|audit| - 1 - i]
    ensures limit.None? && r.Some? ==>
      && |r.value.logs| <= DefaultLimit
      && r.value.totalPages * DefaultLimit >= |audit|
      && (r.value.totalPages == 0 || (r.value.totalPages - 1) * DefaultLimit < |audit|)
    ensures page.None? && limit.None? ==>
      r.Some? && |r.value.logs| == (if |audit| < DefaultLimit then |audit| else DefaultLimit)
  {
    var p := if page.Some? then page.value else DefaultPage;
    var l := if limit.Some? then limit.value else DefaultLimit;
    AuditLogs(audit, p, l)
  }

  // ---------------------------------------------------------------- device listing

  /** `a` is at least as recent as `b` in `sort({ lastComplianceCheck: -1 })`; a missing date sorts last. */
  predicate AtLeastAsRecent(a: Option<int>, b: Option<int>)
  {
    b.None? || (a.Some? && a.value >= b.value)
  }

  /** Most recently checked first. */
  predicate SortedByRecency(xs: seq<Device>)
  {
    forall i, j :: 0 <= i < j < |xs| ==> AtLeastAsRecent(xs[i].lastComplianceCheck, xs[j].lastComplianceCheck)
  }

  /** A device at least as recent as every element of a sorted sequence can go in front of it. */
  lemma {:induction false} ConsSorted(x: Device, xs: seq<Device>)
    requires SortedByRecency(xs)
    requires forall i :: 0 <= i < |xs| ==> AtLeastAsRecent(x.lastComplianceCheck, xs[i].lastComplianceCheck)
    ensures SortedByRecency([x] + xs)
  {
    var r := [x] + xs;
    forall i, j | 0 <= i < j < |r| ensures AtLeastAsRecent(r[i].lastComplianceCheck, r[j].lastComplianceCheck) {
      assert r[j] == xs[j - 1];
      if i > 0 {
        assert r[i] == xs[i - 1];
      }
    }
  }

  /** A bound that holds for every element of `ys` and for `d` holds for every element of a permutation of them. */
  lemma {:induction false} BoundCarries(top: Option<int>, ys: seq<Device>, d: Device, rest: seq<Device>)
    requires multiset(rest) == multiset(ys) + multiset{d}
    requires AtLeastAsRecent(top, d.lastComplianceCheck)
    requires forall i :: 0 <= i < |ys| ==> AtLeastAsRecent(top, ys[i].lastComplianceCheck)
    ensures forall i :: 0 <= i < |rest| ==> AtLeastAsRecent(top, rest[i].lastComplianceCheck)
  {
    forall i | 0 <= i < |rest| ensures AtLeastAsRecent(top, rest[i].lastComplianceCheck) {
      assert rest[i] in multiset(rest);
      if rest[i] != d {
        assert rest[i] in multiset(ys);
        var k :| 0 <= k < |ys| && ys[k] == rest[i];
      }
    }
  }

  /** `d` placed into a recency-sorted sequence. */
  function Insert(d: Device, xs: seq<Device>): (r: seq<Device>)
    requires SortedByRecency(xs)
    ensures SortedByRecency(r)
    ensures |r| == |xs| + 1
    ensures multiset(r) == multiset(xs) + multiset{d}
  {
    if xs == [] then [d]
    else if AtLeastAsRecent(d.lastComplianceCheck, xs[0].lastComplianceCheck) then
      ConsSorted(d, xs);
      [d] + xs
    else
      var rest := Insert(d, xs[1..]);
      assert xs == [xs[0]] + xs[1..];
      BoundCarries(xs[0].lastComplianceCheck, xs[1..], d, rest);
      ConsSorted(xs[0], rest);
      [xs[0]] + rest
  }

  /** The documents in recency order: a permutation of the input, most recently checked first. */
  function SortByRecency(docs: seq<Device>): (r: seq<Device>)
    ensures SortedByRecency(r)
    ensures |r| == |docs|
    ensures multiset(r) == multiset(docs)
  {
    if docs == [] then []
    else
      assert docs == docs[..|docs| - 1] + [docs[|docs| - 1]];
      Insert(docs[|docs| - 1], SortByRecency(docs[..|docs| - 1]))
  }

  /** The owner fields of a listing row. */
  datatype OwnerSummary = OwnerSummary(rollNo: string, name: string, email: string)

  /** One row of `GET /devices`. */
  datatype ListedDevice = ListedDevice(
    deviceId: string,
    deviceModel: string,
    osVersion: string,
    appVersion: string,
    isCompliant: bool,
    isLocked: bool,
    isConnected: bool,
    geofenceStatus: Geofence,
    violations: seq<string>,
    lastChecked: Option<int>,
    user: OwnerSummary)

  /** `populate('user')` with the route's fallbacks for a missing owner or an empty owner field. */
  function OwnerOf(users: seq<User>, id: string): (o: OwnerSummary)
    ensures o.rollNo != "" && o.name != "" && o.email != ""
    ensures FindById(users, id).None? ==> o == OwnerSummary("Unknown", "Unknown User", "No email")
    ensures FindById(users, id).Some? ==>
      var u := users[FindById(users, id).value];
      && o.rollNo == (if u.rollNo != "" then u.rollNo else "Unknown")
      && o.name == (if u.name != "" then u.name else "Unknown User")
      && o.email == (if u.email != "" then u.email else "No email")
  {
    var found := FindById(users, id);
    if found.None? then OwnerSummary("Unknown", "Unknown User", "No email")
    else
      var u := users[found.value];
      OwnerSummary(Or(Some(u.rollNo), "Unknown"), Or(Some(u.name), "Unknown User"), Or(Some(u.email), "No email"))
  }

  /** One listing row: every descriptive string is filled (a stored non-empty value is kept as it is). */
  function Listed(d: Device, users: seq<User>): (e: ListedDevice)
    ensures e.deviceId == d.deviceId
    ensures e.deviceModel != "" && e.osVersion != "" && e.appVersion != ""
    ensures d.model != "" ==> e.deviceModel == d.model
    ensures d.osVersion != "" ==> e.osVersion == d.osVersion
    ensures d.appVersion != "" ==> e.appVersion == d.appVersion
    ensures d.model == "" ==> e.deviceModel == "Unknown Model"
    ensures d.osVersion == "" ==> e.osVersion == "Unknown OS"
    ensures d.appVersion == "" ==> e.appVersion == "1.0.0"
    ensures e.user == OwnerOf(users, d.user)
    ensures e.isCompliant == d.isCompliant && e.isLocked == d.isLocked && e.isConnected == d.isConnected
    ensures e.geofenceStatus == d.geofenceStatus && e.violations == d.violations
    ensures e.lastChecked == d.lastComplianceCheck
  {
    ListedDevice(
      d.deviceId,
      Or(Some(d.model), "Unknown Model"),
      Or(Some(d.osVersion), "Unknown OS"),
      Or(Some(d.appVersion), "1.0.0"),
      d.isCompliant, d.isLocked, d.isConnected, d.geofenceStatus, d.violations,
      d.lastComplianceCheck,
      OwnerOf(users, d.user))
  }

  /** Rows for a sequence of documents, in order. */
  function ListAll(docs: seq<Device>, users: seq<User>): (r: seq<ListedDevice>)
    ensures |r| == |docs|
    ensures forall i :: 0 <= i < |docs| ==> r[i] == Listed(docs[i], users)
  {
    if docs == [] then [] else [Listed(docs[0], users)] + ListAll(docs[1..], users)
  }

  /** Two sequences with the same multiset hold the same elements. */
  lemma {:induction false} SameElements(a: seq<Device>, b: seq<Device>, i: nat)
    requires multiset(a) == multiset(b) && i < |a|
    ensures exists j :: 0 <= j < |b| && b[j] == a[i]
  {
    assert a[i] in multiset(a);
    assert a[i] in b;
  }

  /** Each row of a permutation of the documents comes from some document. */
  lemma {:induction false} RowsFromDocs(docs: seq<Device>, sorted: seq<Device>, users: seq<User>, r: seq<ListedDevice>)
    requires multiset(sorted) == multiset(docs) && r == ListAll(sorted, users)
    ensures forall i :: 0 <= i < |r| ==> exists j :: 0 <= j < |docs| && r[i] == Listed(docs[j], users)
  {
    forall i | 0 <= i < |r| ensures exists j :: 0 <= j < |docs| && r[i] == Listed(docs[j], users) {
      SameElements(sorted, docs, i);
      var j :| 0 <= j < |docs| && docs[j] == sorted[i];
      assert r[i] == Listed(docs[j], users);
    }
  }

  /** Each document has its row among the rows of a permutation of the documents. */
  lemma {:induction false} DocsHaveRows(docs: seq<Device>, sorted: seq<Device>, users: seq<User>, r: seq<ListedDevice>)
    requires multiset(sorted) == multiset(docs) && r == ListAll(sorted, users)
    ensures forall j :: 0 <= j < |docs| ==> exists i :: 0 <= i < |r| && r[i] == Listed(docs[j], users)
  {
    forall j | 0 <= j < |docs| ensures exists i :: 0 <= i < |r| && r[i] == Listed(docs[j], users) {
      SameElements(docs, sorted, j);
      var i :| 0 <= i < |sorted| && sorted[i] == docs[j];
      assert r[i] == Listed(docs[j], users);
    }
  }

  /** Rows of recency-sorted documents are sorted by `lastChecked`. */
  lemma {:induction false} RowsSorted(sorted: seq<Device>, users: seq<User>)
    requires SortedByRecency(sorted)
    ensures var r := ListAll(sorted, users);
            forall i, j :: 0 <= i < j < |r| ==> AtLeastAsRecent(r[i].lastChecked, r[j].lastChecked)
  {
    var r := ListAll(sorted, users);
    forall i, j | 0 <= i < j < |r| ensures AtLeastAsRecent(r[i].lastChecked, r[j].lastChecked) {
      assert r[i].lastChecked == sorted[i].lastComplianceCheck;
      assert r[j].lastChecked == sorted[j].lastComplianceCheck;
    }
  }

  /** No two documents of `docs` carry the same `deviceId`. */
  predicate DistinctIds(docs: seq<Device>)
  {
    forall i, j :: 0 <= i < j < |docs| ==> docs[i].deviceId != docs[j].deviceId
  }

  /** `docs` holds every stored document exactly once, each under the identifier it is stored by. */
  predicate ListsStore(docs: seq<Device>, devices: map<string, Device>)
  {
    && |docs| == |devices|
    && (forall k :: k in devices ==> exists j :: 0 <= j < |docs| && docs[j].deviceId == k)
    && (forall j :: 0 <= j < |docs| ==> docs[j].deviceId in devices && devices[docs[j].deviceId] == docs[j])
    && DistinctIds(docs)
  }

  /** Removing a stored identifier removes exactly one entry. */
  lemma RemoveOne(devices: map<string, Device>, k: string)
    requires k in devices
    ensures |devices - {k}| + 1 == |devices|
  {
    var rest := devices - {k};
    assert devices.Keys == rest.Keys + {k} && k !in rest.Keys;
    assert |devices.Keys| == |rest.Keys| + 1;
  }

  /** Each document of the longer listing sits under its own identifier. */
  lemma ConsStored(devices: map<string, Device>, k: string, tail: seq<Device>)
    requires KeyedById(devices) && k in devices
    requires forall j :: 0 <= j < |tail| ==> tail[j].deviceId in devices - {k} && (devices - {k})[tail[j].deviceId] == tail[j]
    ensures var docs := [devices[k]] + tail;
      forall j :: 0 <= j < |docs| ==> docs[j].deviceId in devices && devices[docs[j].deviceId] == docs[j]
  {
    var docs := [devices[k]] + tail;
    forall j | 0 <= j < |docs| ensures docs[j].deviceId in devices && devices[docs[j].deviceId] == docs[j] {
      if j > 0 { assert docs[j] == tail[j - 1]; }
    }
  }

  /** The longer listing holds every stored document. */
  lemma ConsCovers(devices: map<string, Device>, k: string, tail: seq<Device>)
    requires KeyedById(devices) && k in devices
    requires forall k' :: k' in devices - {k} ==> exists j :: 0 <= j < |tail| && tail[j].deviceId == k'
    ensures var docs := [devices[k]] + tail;
      forall k' :: k' in devices ==> exists j :: 0 <= j < |docs| && docs[j].deviceId == k'
  {
    var docs := [devices[k]] + tail;
    forall k' | k' in devices ensures exists j :: 0 <= j < |docs| && docs[j].deviceId == k' {
      if k' == k {
        assert docs[0].deviceId == k';
      } else {
        assert k' in devices - {k};
        var j :| 0 <= j < |tail| && tail[j].deviceId == k';
        assert docs[j + 1] == tail[j];
      }
    }
  }

  /** The front document's identifier is not stored among the others, so identifiers stay distinct. */
  lemma ConsDistinct(devices: map<string, Device>, k: string, tail: seq<Device>)
    requires KeyedById(devices) && k in devices && DistinctIds(tail)
    requires forall j :: 0 <= j < |tail| ==> tail[j].deviceId in devices - {k}
    ensures DistinctIds([devices[k]] + tail)
  {
    var docs := [devices[k]] + tail;
    forall i, j | 0 <= i < j < |docs| ensures docs[i].deviceId != docs[j].deviceId {
      assert docs[j] == tail[j - 1];
      if i > 0 { assert docs[i] == tail[i - 1]; }
    }
  }

  /** Putting a stored document in front of a listing of the others lists the whole store. */
  lemma ListsStoreCons(devices: map<string, Device>, k: string, tail: seq<Device>)
    requires KeyedById(devices) && k in devices
    requires ListsStore(tail, devices - {k})
    ensures ListsStore([devices[k]] + tail, devices)
  {
    RemoveOne(devices, k);
    ConsStored(devices, k, tail);
    ConsCovers(devices, k, tail);
    ConsDistinct(devices, k, tail);
  }

  /** `Device.find()`: every stored document once, in an order the store does not promise. */
  ghost function Documents(devices: map<string, Device>): (docs: seq<Device>)
    requires KeyedById(devices)
    ensures ListsStore(docs, devices)
    decreases |devices|
  {
    if devices == map[] then []
    else
      var k :| k in devices;
      var rest := devices - {k};
      assert devices.Keys == rest.Keys + {k} && k !in rest.Keys;
      var tail := Documents(rest);
      ListsStoreCons(devices, k, tail);
      [devices[k]] + tail
  }

  /** A sequence of pairwise different documents holds each document at most once. */
  lemma {:induction false} CountAtMostOne(s: seq<Device>, x: Device)
    requires DistinctIds(s)
    ensures multiset(s)[x] <= 1
  {
    if s != [] {
      assert s == [s[0]] + s[1..];
      assert DistinctIds(s[1..]) by {
        forall i, j | 0 <= i < j < |s[1..]| ensures s[1..][i].deviceId != s[1..][j].deviceId {
          assert s[1..][i] == s[i + 1] && s[1..][j] == s[j + 1];
        }
      }
      CountAtMostOne(s[1..], x);
      if s[0] == x {
        assert x !in s[1..] by {
          forall j | 0 <= j < |s[1..]| ensures s[1..][j] != x {
            assert s[1..][j] == s[j + 1];
          }
        }
      }
    }
  }

  /** A permutation of documents with distinct identifiers has distinct identifiers. */
  lemma DistinctIdsPermuted(docs: seq<Device>, a: seq<Device>)
    requires DistinctIds(docs) && multiset(a) == multiset(docs)
    ensures DistinctIds(a)
  {
    forall i, j | 0 <= i < j < |a| ensures a[i].deviceId != a[j].deviceId {
      if a[i].deviceId == a[j].deviceId {
        SameElements(a, docs, i);
        SameElements(a, docs, j);
        var p :| 0 <= p < |docs| && docs[p] == a[i];
        var q :| 0 <= q < |docs| && docs[q] == a[j];
        assert p == q;
        var x := a[i];
        assert a == a[..i] + [x] + a[i + 1..j] + [x] + a[j + 1..];
        assert multiset(a)[x] >= 2;
        CountAtMostOne(docs, x);
        assert false;
      }
    }
  }

  /** A permutation of a listing of the store lists the store. */
  lemma ListsStorePermuted(devices: map<string, Device>, docs: seq<Device>, a: seq<Device>)
    requires ListsStore(docs, devices) && multiset(a) == multiset(docs)
    ensures ListsStore(a, devices)
  {
    assert |a| == |multiset(a)| == |multiset(docs)| == |docs|;
    forall k | k in devices ensures exists j :: 0 <= j < |a| && a[j].deviceId == k {
      var i :| 0 <= i < |docs| && docs[i].deviceId == k;
      SameElements(docs, a, i);
    }
    forall j | 0 <= j < |a| ensures a[j].deviceId in devices && devices[a[j].deviceId] == a[j] {
      SameElements(a, docs, j);
    }
    DistinctIdsPermuted(docs, a);
  }

  /** Rows of documents with distinct identifiers have distinct identifiers. */
  lemma {:induction false} RowsDistinct(sorted: seq<Device>, users: seq<User>)
    requires DistinctIds(sorted)
    ensures var r := ListAll(sorted, users); forall i, j :: 0 <= i < j < |r| ==> r[i].deviceId != r[j].deviceId
  {
    var r := ListAll(sorted, users);
    forall i, j | 0 <= i < j < |r| ensures r[i].deviceId != r[j].deviceId {
      assert r[i].deviceId == sorted[i].deviceId && r[j].deviceId == sorted[j].deviceId;
    }
  }

  /** The document at position `i` has its row at position `i`. */
  lemma RowAt(docs: seq<Device>, users: seq<User>, d: Device, i: int)
    requires 0 <= i < |docs| && docs[i] == d
    ensures var r := ListAll(docs, users); exists j :: 0 <= j < |r| && r[j] == Listed(d, users)
  {
    assert ListAll(docs, users)[i] == Listed(d, users);
  }

  /** A stored device has a row in a listing of the store. */
  lemma StoredHasRow(devices: map<string, Device>, sorted: seq<Device>, users: seq<User>, k: string)
    requires ListsStore(sorted, devices) && k in devices
    ensures var r := ListAll(sorted, users); exists i :: 0 <= i < |r| && r[i] == Listed(devices[k], users)
  {
    var i :| 0 <= i < |sorted| && sorted[i].deviceId == k;
    RowAt(sorted, users, devices[k], i);
  }

  /** Every stored device has a row in a listing of the store. */
  lemma StoredHaveRows(devices: map<string, Device>, sorted: seq<Device>, users: seq<User>)
    requires ListsStore(sorted, devices)
    ensures var r := ListAll(sorted, users);
      forall k :: k in devices ==> exists i :: 0 <= i < |r| && r[i] == Listed(devices[k], users)
  {
    forall k | k in devices
      ensures exists i :: 0 <= i < |ListAll(sorted, users)| && ListAll(sorted, users)[i] == Listed(devices[k], users)
    {
      StoredHasRow(devices, sorted, users, k);
    }
  }

  /** Every row of a listing of the store is the view of the stored device it names. */
  lemma RowsAreStored(devices: map<string, Device>, sorted: seq<Device>, users: seq<User>)
    requires ListsStore(sorted, devices)
    ensures var r := ListAll(sorted, users);
      forall i :: 0 <= i < |r| ==> r[i].deviceId in devices && r[i] == Listed(devices[r[i].deviceId], users)
  {
  }

  /** The rows of a listing of the store: every stored device has exactly one, and each is its view. */
  lemma ListingOfStore(devices: map<string, Device>, sorted: seq<Device>, users: seq<User>, r: seq<ListedDevice>)
    requires ListsStore(sorted, devices) && r == ListAll(sorted, users)
    ensures
      && |r| == |devices|
      && (forall k :: k in devices ==> exists i :: 0 <= i < |r| && r[i] == Listed(devices[k], users))
      && (forall i :: 0 <= i < |r| ==> r[i].deviceId in devices && r[i] == Listed(devices[r[i].deviceId], users))
      && (forall i, j :: 0 <= i < j < |r| ==> r[i].deviceId != r[j].deviceId)
  {
    StoredHaveRows(devices, sorted, users);
    RowsAreStored(devices, sorted, users);
    RowsDistinct(sorted, users);
  }

  /**
   * `GET /devices`: one row per stored document, most recently checked first, every row being the
   * filled-in view of some document and every document having its row.
   */
  function ListDevices(docs: seq<Device>, users: seq<User>): (r: seq<ListedDevice>)
    ensures |r| == |docs|
    ensures forall i, j :: 0 <= i < j < |r| ==> AtLeastAsRecent(r[i].lastChecked, r[j].lastChecked)
    ensures exists sorted :: multiset(sorted) == multiset(docs) && r == ListAll(sorted, users)
  {
    var sorted := SortByRecency(docs);
    RowsSorted(sorted, users);
    ListAll(sorted, users)
  }

  /** Every row of `GET /devices` is the view of some document. */
  lemma ListDevicesRowsFromDocs(docs: seq<Device>, users: seq<User>)
    ensures var r := ListDevices(docs, users);
      forall i :: 0 <= i < |r| ==> exists j :: 0 <= j < |docs| && r[i] == Listed(docs[j], users)
  {
    var sorted := SortByRecency(docs);
    RowsFromDocs(docs, sorted, users, ListDevices(docs, users));
  }

  /** Every document has its row in `GET /devices`. */
  lemma ListDevicesDocsHaveRows(docs: seq<Device>, users: seq<User>)
    ensures var r := ListDevices(docs, users);
      forall j :: 0 <= j < |docs| ==> exists i :: 0 <= i < |r| && r[i] == Listed(docs[j], users)
  {
    var sorted := SortByRecency(docs);
    DocsHaveRows(docs, sorted, users, ListDevices(docs, users));
  }

  /**
   * `GET /devices` over the store: as many rows as stored devices, every stored device with its row, every row
   * the view of the stored device it names, and no two rows for the same device.
   */
  lemma StoredDevicesListedOnce(devices: map<string, Device>, users: seq<User>)
    requires KeyedById(devices)
    ensures var r := ListDevices(Documents(devices), users);
      && |r| == |devices|
      && (forall k :: k in devices ==> exists i :: 0 <= i < |r| && r[i] == Listed(devices[k], users))
      && (forall i :: 0 <= i < |r| ==> r[i].deviceId in devices && r[i] == Listed(devices[r[i].deviceId], users))
      && (forall i, j :: 0 <= i < j < |r| ==> r[i].deviceId != r[j].deviceId)
  {
    var docs := Documents(devices);
    var sorted := SortByRecency(docs);
    assert ListDevices(docs, users) == ListAll(sorted, users);
    ListsStorePermuted(devices, docs, sorted);
    ListingOfStore(devices, sorted, users, ListDevices(docs, users));
  }
}
