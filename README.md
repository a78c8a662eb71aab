# Device lock and compliance backend — a Dafny model

The system is the backend of a campus device-management service. Students install a mobile app, which registers the phone and then reports its compliance: whether the device is rooted, whether it is inside the geofence, and which violations it found. The server does three things with those reports:

- It keeps one `Device` document per `deviceId` and locks non-compliant devices.
- It writes an `AuditLog` entry for every registration and every automatic or manual lock, unlock and wipe.
- It pushes real-time commands (`enforce-lock`, `unlock-device`, `ping-device`, `enforce-wipe`) to the device's Socket.IO connection.

Administrators lock, unlock, ping and wipe devices, read dashboard statistics and page through the audit log. Users register and log in through two controller variants and one in-memory router.

## How the model is built

**The store.** Every device handler works on one store, `Store.DeviceStore`, a class with four fields:

- `devices`, a map from `deviceId` to `Device`. The identifier is unique (`Store.KeyedById`).
- `audit`, an append-only sequence of `AuditEntry`.
- `outbox`, the sequence of real-time events emitted so far, each with the socket it went to.
- `sessions`, the sockets that passed the token gate, mapped to the authenticated user id.

**Handlers and their step functions.** Each handler is a `method` that changes the store. It is proved against a pure step function (`...Spec`), which maps the state before to the state after plus the outcome. That step function carries the properties. Each handler variant in the source stays a separate member, because the variants disagree:

- The HTTP report recomputes `isLocked`; the socket report only sets it.
- One admin lock clears `isCompliant`; the other does not.

**Inputs from outside the model:**

- The clock is a `now` parameter.
- Whether a Socket.IO handle is present is an `io` parameter.
- JWT verification and signing, and bcrypt hashing and comparison, are function-typed parameters.
- New document ids are parameters.

**Mongoose behaviour.** The model encodes these rules of the database layer:

- An absent filter value is sent as `null` and matches no stored document.
- `required` rejects an empty string.
- A default applies only to an omitted field.

The user side has two parts:

- `UserModel.UserCollection` (a class over `seq<User>`) is the MongoDB users collection, shared by both auth controllers.
- `AuthRoutes.UserList` is the in-memory `users` array of the stand-alone auth router.

`Scenarios` proves properties of runs made of several handlers.

## Model

| member | source | states |
|---|---|---|
| Common.JoinedOr | src/controllers/deviceController.js:88 | `violations.join(', ') \|\| fallback` is never empty. It is the fallback exactly when the join is empty (no violations, or one empty string), and the joined text otherwise. |
| Common.JoinIsEmpty | src/controllers/deviceController.js:88 | A join with a non-empty separator is empty exactly when it joins nothing or a single empty string. |
| DeviceModel.NewDevice | src/models/Device.js:16-60 | A new document has the owner and identifier given. It defaults to compliant, unlocked, disconnected, no socket, no violations, no lock reason and geofence inside. `model`, `osVersion` and `appVersion` take the given value, or else `'Unknown Device'`, `'Unknown OS'` and `'1.0.0'`. |
| DeviceModel.OnlineWindow | src/models/Device.js:76-80 | A device checked at `t` is online exactly while `now < t + 300000`. The boundary itself counts as offline (strict comparison). |
| DeviceModel.NeverCheckedIsOffline | src/models/Device.js:77 | A document without `lastComplianceCheck` is never online. |
| AuditLog.ActionName | src/models/AuditLog.js:4 | Every stored action name is non-empty, as the schema requires. |
| AuditLog.ActionNameInjective | src/models/AuditLog.js:4 | Distinct actions get distinct stored names. |
| AuditLog.NewestFirst | src/routes/admin.js:304-305 | The newest-first view has the log's length; position `i` holds the `i`-th entry counted back from the latest append. |
| AuditLog.NewestFirstIsDescending | src/models/AuditLog.js:9 | For a log whose timestamps never decrease, the newest-first view is sorted by `createdAt`, latest first. |
| AuditLog.NewestFirstAppend | src/routes/admin.js:305 | Appending an entry puts it at the head of the newest-first view and shifts the rest. |
| Store.DeviceOf | src/sockets/deviceSocket.js:82-83 | `findOne({ user })`, for a user who owns at most one device: None exactly when the user owns no device, and otherwise a device of that user. |
| Store.BoundDevice | src/sockets/deviceSocket.js:144-145 | `{ user, socketId }` lookup: None exactly when no device of the user is bound to the socket, and otherwise that device. |
| Store.DeviceStore.constructor | src/models/Device.js:10-15 | An empty store: no devices, no audit entries, nothing emitted, no sockets; the identifiers are keyed. |
| Store.UpdateConnectionStatus | src/models/Device.js:83-87 | Sets `isConnected` and `socketId` (None when omitted) on one device. Every other field and every other device is unchanged, as are the log and the outbox. |
| DeviceController.RegisterDeviceSpec | src/controllers/deviceController.js:12-40 | An existing `deviceId` is answered with the stored record, whoever asks, and nothing changes. Otherwise exactly one device is added, owned by the caller (compliant, unlocked, geofence inside, no socket, no violations), other devices are untouched, and exactly one `DEVICE_REGISTERED` entry naming the caller is appended. The new record is `NewDevice` of the request: model, OS and app version as sent or their defaults, and `lastComplianceCheck` set to now. |
| DeviceController.RegisterDevice | src/controllers/deviceController.js:6-55 | The store after `registerDevice` is the registration step's state, and the result is its outcome. |
| DeviceController.ReportComplianceSpec | src/controllers/deviceController.js:58-99 | NotFound, with nothing changed, exactly when no device matches both `deviceId` and the caller. Otherwise: `isCompliant` is the reported value and `isLocked` its negation. `violations` is replaced by the reported list (default `[]`) and the geofence by the reported one (default inside). Nothing else changes. A non-compliant report appends one system-triggered `AUTO_LOCK_TRIGGERED` entry with the joined reason, and a compliant one appends none. `enforce-lock` is sent only when the report is non-compliant, the io handle exists and the device holds a socket. |
| DeviceController.ReportCompliance | src/controllers/deviceController.js:58-120 | The store after `reportCompliance` is the report step's state, and the result is its outcome. |
| DeviceController.GetDeviceStatus | src/controllers/deviceController.js:123-134 | A read-only lookup: NotFound exactly when the caller owns no device, and otherwise the status view of one of the caller's devices. |
| AdminRoutes.LockSpec | src/routes/admin.js:77-111 | An unknown identifier gives NotFound with nothing changed. Otherwise the device becomes locked and non-compliant, with `lockReason` set to the given reason or `'Locked by administrator'`; no other field changes. One `ADMIN_LOCK` entry is appended, with the admin as actor and the reason defaulting to `'Manual lock by admin'`. `enforce-lock` is sent only with an io handle and a socket; the record and the log change either way. |
| AdminRoutes.Lock | src/routes/admin.js:69-132 | The store after the lock route is the lock step's state. |
| AdminRoutes.UnlockSpec | src/routes/admin.js:141-173 | An unknown identifier gives NotFound with nothing changed. Otherwise `isLocked` becomes false and `lockReason` None, while `isCompliant` and every other field stay. One `ADMIN_UNLOCK` entry is appended. `unlock-device` is sent only with an io handle and a socket. |
| AdminRoutes.Unlock | src/routes/admin.js:135-193 | The store after the unlock route is the unlock step's state. |
| AdminRoutes.PingSpec | src/routes/admin.js:202-246 | Never changes a device, the log or the sessions. NotFound exactly for an unknown identifier. `ping-device{shouldPing: true}` is sent exactly when there is an io handle and the device holds a socket and is connected; otherwise the result is "not connected" and nothing is sent. |
| AdminRoutes.Ping | src/routes/admin.js:196-255 | The store after the ping route is the ping step's state. |
| AdminRoutes.Stats | src/routes/admin.js:260-278 | `total`, `compliant`, `locked` and `connected` are the sizes of the collection and of the sets of compliant, locked and connected devices. `nonCompliant` and `offline`, computed by subtraction, equal the numbers of non-compliant and of disconnected devices. Each pair adds up to the total, and no counter is negative or above the total. |
| AdminRoutes.StatsPage | src/routes/admin.js:258-282 | The dashboard carries the device counters, `users.total` equal to the number of accounts, and at most ten audit entries, the newest first. |
| AdminRoutes.SplitCount | src/routes/admin.js:278 | A condition and its negation split the collection, so the two counts add up to the total. |
| AdminRoutes.RecentAudits | src/routes/admin.js:266-268 | At most ten entries, the newest first. |
| AdminRoutes.CeilDiv | src/routes/admin.js:318 | `Math.ceil(n / d)`: the smallest `q` with `q * d >= n`. |
| AdminRoutes.Window | src/routes/admin.js:306-307 | `skip(s).limit(l)`: at most `l` entries; full unless the input runs out; entry `i` is input entry `s + i`. |
| AdminRoutes.AuditLogs | src/routes/admin.js:302-319 | A page holds at most `limit` entries, newest first, after skipping `(page - 1) * limit`, and is full unless the log runs out. `totalLogs` is the log size and `totalPages` is `ceil(total / limit)`. A page below 1 is refused. |
| AdminRoutes.AuditLogsQuery | src/routes/admin.js:302-319 | The query as sent: an absent `page` is 1 and an absent `limit` is 50. Without a `page`, the newest entries come first; without either, the reply holds the newest `min(50, total)` entries and `totalPages` is `ceil(total / 50)`. |
| AdminRoutes.EntryOnItsPage | src/routes/admin.js:302-318 | The pages partition the log: the entry at newest-first position `i` is on page `i / limit + 1`, at index `i % limit`, and that page is within `totalPages`. |
| AdminRoutes.Insert | src/routes/admin.js:27 | Inserting into a recency-sorted list keeps it sorted and adds exactly that element (multiset). |
| AdminRoutes.SortByRecency | src/routes/admin.js:27 | `sort({ lastComplianceCheck: -1 })`: the result is a permutation of the documents, most recently checked first, with never-checked documents last. |
| AdminRoutes.OwnerOf | src/routes/admin.js:45-49 | A missing owner gives exactly `'Unknown'`, `'Unknown User'` and `'No email'`. A found owner keeps each non-empty roll number, name and e-mail, and an empty one gets that fallback. No field is ever empty. |
| AdminRoutes.Listed | src/routes/admin.js:33-52 | A row keeps the identifier, the flags, the geofence, the violations and the last check. The model, OS and app version are never empty: a stored non-empty value is kept, and an empty one becomes `'Unknown Model'`, `'Unknown OS'` or `'1.0.0'`. The owner is the one `OwnerOf` describes. |
| AdminRoutes.ListAll | src/routes/admin.js:33 | `devices.map(...)`: one row per document, in order. |
| AdminRoutes.ListDevices | src/routes/admin.js:25-52 | `GET /devices` has one row per document, sorted by last check, latest first. The rows are the filled-in views of a permutation of the documents. |
| AdminRoutes.ListDevicesRowsFromDocs | src/routes/admin.js:25-52 | Every row is the filled-in view of some document. |
| AdminRoutes.ListDevicesDocsHaveRows | src/routes/admin.js:25-52 | Every document has its row. |
| AdminRoutes.Documents | src/routes/admin.js:25 | `Device.find()` returns every stored device once, each under the identifier it is stored by, with no two documents sharing an identifier. |
| AdminRoutes.StoredDevicesListedOnce | src/routes/admin.js:21-52 | Over the stored collection, `GET /devices` has as many rows as stored devices. Every stored device has a row, every row is the view of the stored device it names, and no device has two rows. |
| DeviceSocket.ConnectSpec | src/sockets/deviceSocket.js:8-23 | The connection is accepted exactly when the token is present and verifies. Without a token, or with one that fails, the result is NoToken or InvalidToken and the state is unchanged, so no handler can run for that socket. An accepted socket is registered under the token's user. |
| DeviceSocket.Connect | src/sockets/deviceSocket.js:7-24 | The store after the gate is the gate step's state. |
| DeviceSocket.RegisterSpec | src/sockets/deviceSocket.js:35-62 | Never creates or deletes a device and never writes the log. When the device belongs to the socket's user, it is bound to this socket, marked connected and stamped, its compliance and lock stay, and `registration-confirmed` carries its lock state. Otherwise nothing changes except `registration-error` sent to the socket. |
| DeviceSocket.Register | src/sockets/deviceSocket.js:30-71 | The store after `register-device` is the registration step's state. |
| DeviceSocket.SocketLockReason | src/sockets/deviceSocket.js:114 | The audit reason is never empty. It is the given reason, else the joined violations, else `'Compliance violation'`. |
| DeviceSocket.ReportSpec | src/sockets/deviceSocket.js:82-131 | Without a device of the socket's user: nothing changes and nothing is sent. Otherwise: compliance, geofence, violations and both timestamps are replaced. `isLocked` becomes `!isCompliant \|\| old isLocked`, so a compliant report never lifts a lock. A non-compliant report sends `enforce-lock` to this socket and appends one system-triggered `AUTO_LOCK_TRIGGERED` entry. Every handled report is acknowledged with the new state. |
| DeviceSocket.ComplianceReport | src/sockets/deviceSocket.js:74-139 | The store after `compliance-report` is the report step's state. |
| DeviceSocket.HeartbeatSpec | src/sockets/deviceSocket.js:144-151 | Only `lastSeen` changes, and only on the device of this user bound to this socket. Compliance, locks, the log and the sessions are untouched, and the socket is acknowledged. |
| DeviceSocket.Heartbeat | src/sockets/deviceSocket.js:142-155 | The store after `heartbeat` is the heartbeat step's state. |
| DeviceSocket.DisconnectSpec | src/sockets/deviceSocket.js:177-183 | Only a device of this user whose stored `socketId` is this socket is marked disconnected and loses its binding; a device bound to another socket keeps it. Compliance and lock are never touched. |
| DeviceSocket.Disconnect | src/sockets/deviceSocket.js:175-190 | The store after `disconnect` is the disconnect step's state. |
| AdminController.LockDeviceSpec | src/controller/adminController.js:18-39 | An unknown identifier gives NotFound with no entry. Otherwise `isLocked` becomes true and `lastComplianceCheck` is refreshed, `isCompliant` stays, and one `MANUAL_LOCK` entry with the admin, reason and ip is appended. `enforce-lock` goes to the socket when there is one. Without an io handle that send throws after the update and the append. |
| AdminController.LockDevice | src/controller/adminController.js:14-45 | The store after `lockDevice` is the lock step's state. |
| AdminController.WipeDeviceSpec | src/controller/adminController.js:51-70 | An unknown identifier gives NotFound: no entry and no deletion. Otherwise the `DEVICE_WIPE` entry is appended and `enforce-wipe` goes to the socket when there is one. Then the device is deleted and every other device stays as it was. If the send throws, the device survives. |
| AdminController.WipeDevice | src/controller/adminController.js:47-74 | The store after `wipeDevice` is the wipe step's state. |
| DeviceRoutes.Errors | src/routes/device.js:22-30 | For a single rule, the list is empty when it passes and is its message when it fails. No messages exactly when every rule passes, and as many as the rules exactly when every rule fails. |
| DeviceRoutes.ErrorsAppend | src/routes/device.js:22-30 | The messages of two rule lists run one after the other are the first list's messages followed by the second's, so the messages come one per failed rule, in rule order. |
| DeviceRoutes.Validate | src/routes/device.js:22-32 | `next` is called exactly when there is no error; otherwise 400 with every message. |
| DeviceRoutes.ValidateRegister | src/routes/device.js:39-42 | A register request passes exactly when `deviceId` is present and non-empty and `model`, `osVersion` and `appVersion` are each absent or a string. A bad `deviceId` yields "Device ID is required" first. |
| DeviceRoutes.ValidateReport | src/routes/device.js:53-56 | A report passes exactly when `deviceId` is present and non-empty, `isCompliant` is boolean-like, `violations` is absent or an array, and `geofenceStatus` is absent or inside/outside. |
| DeviceRoutes.StringFalseEscapesLock | src/controllers/deviceController.js:66-67 | The report `{deviceId: "phone-1", isCompliant: "false"}` passes validation, yet as written it is stored non-compliant, unlocked and without an auto-lock entry. |
| DeviceRoutes.DecodeCompliance | src/routes/device.js:54 | The accepted values that mean compliant are exactly `true`, `1`, `"true"` and `"1"`. |
| DeviceRoutes.ReportEffectCorrected | src/controllers/deviceController.js:66-83 | With one decoded flag, the stored compliance is the same as in the code, and a stored non-compliant report is always locked and always takes the auto-lock path. |
| DeviceRoutes.AsWrittenDiffersOnlyOnStrings | src/controllers/deviceController.js:66-83 | The code as written and the corrected handling disagree exactly on the strings `"false"` and `"0"`. |
| AuthRoutes.IndexOf | src/routes/auth.js:12 | The first occurrence: None exactly when the character is absent, and otherwise an index holding it with none before. |
| AuthRoutes.ValidEmailSound | src/routes/auth.js:11-14 | Every address the scan accepts matches `^[^\s@]+@[^\s@]+\.[^\s@]+$`. |
| AuthRoutes.ValidEmailComplete | src/routes/auth.js:11-14 | Every address the regular expression matches is accepted by the scan. |
| AuthRoutes.ValidEmailIsRegex | src/routes/auth.js:11-14 | The scan accepts exactly the language of the regular expression. |
| AuthRoutes.RegisterCheck | src/routes/auth.js:24-59 | Each rejection happens exactly when the earlier checks pass and its own fails, in this order: missing field, bad e-mail, password under 6 UTF-16 code units, e-mail taken, roll number taken. |
| AuthRoutes.Utf16Length | src/routes/auth.js:38 | The JavaScript length lies between the character count and twice it. It equals the character count exactly when every character is in the Basic Multilingual Plane. |
| AuthRoutes.AstralPasswordIsLongEnough | src/routes/auth.js:38 | Three emoji measure 6, so they pass the length check. |
| AuthRoutes.AppendKeepsContactsUnique | src/routes/auth.js:46-74 | Appending a user whose e-mail and roll number are new keeps both unique. |
| AuthRoutes.UserList.constructor | src/routes/auth.js:8 | The module starts with an empty list, which trivially has unique contacts. |
| AuthRoutes.Register | src/routes/auth.js:17-99 | On a rejection the list is unchanged and the reply is 400 with the check's message. Otherwise exactly one `student` with the hashed password is appended, and the reply is 201 with a token and the public fields. The list keeps unique e-mails and roll numbers. |
| AuthRoutes.FindLogin | src/routes/auth.js:125 | The first user whose roll number or e-mail equals the identifier, or None exactly when there is no such user. |
| AuthRoutes.Login | src/routes/auth.js:117-169 | 400 exactly when the identifier or the password is missing. Success exactly when the first matching user's digest matches, and then the reply is 200 with that user's token and public fields. When both are present, every failure is 401 "Invalid credentials". |
| AuthRoutes.RegisteredUserCanLogIn | src/routes/auth.js:64-143 | After registration, a user logs in with their own roll number and the password they registered with, provided no earlier user has that roll number as e-mail. |
| AuthRoutes.ShadowedLoginMissesNewUser | src/routes/auth.js:125 | When the new roll number is an earlier user's e-mail, login with it resolves to an earlier user, and the new user never gets its own session that way. |
| AuthRoutes.ListUsers | src/routes/auth.js:180-192 | `count` is the number of users, and each user appears once, in order, with their public fields and no password. |
| UserModel.ParseRole | src/models/User.js:8 | The enum accepts exactly `student` and `admin`. |
| UserModel.FindByRollNo | src/controllers/authController.js:73 | `findOne({ rollNo })`: the first user with that roll number, or None exactly when there is none. |
| UserModel.FindById | src/middleware/adminAuth.js:20 | `findById`: a user with that id, or None exactly when there is none. |
| UserModel.SaveUser | src/models/User.js:4-9 | A save succeeds exactly when roll number, name, e-mail and digest are non-empty, the role is in the enum, and the roll number, e-mail and id are new. The saved user is active and satisfies the required validators. The unique keys are preserved. |
| UserModel.Digest | src/controllers/authController.js:33 | There is a digest exactly when a password was given. |
| UserModel.UserCollection.constructor | src/models/User.js:4-9 | An empty collection, which is valid. |
| UserModel.AppendKeepsKeysUnique | src/models/User.js:4-6 | Adding a user whose roll number, e-mail and id are new keeps the unique indexes. |
| AuthController.RegisterSpec | src/controllers/authController.js:13-55 | 400 with nothing created exactly when a user with that roll number or e-mail exists. Otherwise success exactly when the save succeeds: one active user is appended with `name = username` and role `role \|\| 'student'`, and the reply is 201 with a token and the public fields. When there is no clash and the save fails, the reply is 500 and nothing is created. The collection stays valid. |
| AuthController.Register | src/controllers/authController.js:5-64 | The collection after `register` is the registration step's collection, and the reply is its reply. |
| AuthController.Login | src/controllers/authController.js:73-116 | An unknown roll number gives 401 invalid credentials, and an inactive account 401 inactive, whatever the password. Success exactly when the account is active and the password matches; the reply is then 200 with that user's token and public fields. For an active account, an absent password gives 500 (the comparison throws), and a mismatch gives 401 invalid credentials. |
| AuthController.RegisteredUserCanLogIn | src/controllers/authController.js:29-116 | A freshly registered user logs in with their roll number and password, and gets back the same public fields the registration returned. |
| AuthController.GetMe | src/controllers/authController.js:128-148 | 404 exactly when no user has the id; otherwise that user's public fields (no password) and `isActive`. |
| LegacyAuthController.RegisterSpec | src/controller/authController.js:9-27 | 400 with nothing created exactly when a user with that roll number or e-mail exists. Otherwise success exactly when the save succeeds: one active user with role `role \|\| 'student'` is appended, and the reply echoes the request's own fields. When there is no clash and the save fails, the reply is 500 and nothing is created. |
| LegacyAuthController.Register | src/controller/authController.js:5-31 | The collection after `register` is the registration step's collection, and the reply is its reply. |
| LegacyAuthController.DefaultedRoleIsNotEchoed | src/controller/authController.js:19-26 | With no role in the request, a student is stored but the response carries no role. |
| LegacyAuthController.Login | src/controller/authController.js:37-50 | One combined 401 exactly for an unknown roll number or an inactive account. Success exactly when the account is active and the password matches. For an active account, an absent password gives 500 (the comparison throws), and a mismatch gives 401 "Invalid credentials". |
| AdminAuth.Authorize | src/middleware/adminAuth.js:12-49 | 401 exactly without a user id. 500 exactly when the lookup throws. 404 exactly when no user has the id. 403 exactly when that user is not an admin. `next` exactly when the user exists and is an admin. |
| AdminAuth.NextIffAdmin | src/middleware/adminAuth.js:30-41 | With unique ids, `next` is called exactly when the id belongs to an administrator. |
| Scenarios.HttpRunLiftsAdminLock | src/controllers/deviceController.js:66-67 | Register, non-compliant report, admin lock, compliant HTTP report: the compliant report leaves the device unlocked before any unlock, and the unlock that follows finds it unlocked and compliant. |
| Scenarios.HttpRunAuditTrail | src/controllers/deviceController.js:35-89 | The same run appends exactly `DEVICE_REGISTERED`, `AUTO_LOCK_TRIGGERED`, `ADMIN_LOCK` and `ADMIN_UNLOCK`, in that order. |
| Scenarios.SocketReportKeepsAdminLock | src/sockets/deviceSocket.js:86 | After an admin lock, a compliant socket report makes the device compliant but leaves it locked, and appends nothing. |
| Scenarios.LockUnlockLeavesNonCompliant | src/routes/admin.js:89-154 | Admin lock then unlock of a compliant device leaves it unlocked but non-compliant, with exactly the two entries appended. |
| Scenarios.RepeatedReportsAuditEach | src/controllers/deviceController.js:83-89 | Two non-compliant HTTP reports in a row append two `AUTO_LOCK_TRIGGERED` entries, one each. |
| Scenarios.ValidatedReportLocksWhatItStores | src/controllers/deviceController.js:58-89 | For a body the validator accepts and a device the user owns, the corrected report stores the validated flag as `isCompliant` and its negation as `isLocked`, and appends an audit entry exactly when it stores non-compliance, as `ReportEffectCorrected` describes. |
| Scenarios.StaleDisconnectKeepsNewBinding | src/sockets/deviceSocket.js:177-183 | After a device re-binds from a second socket, the late disconnect of the first socket leaves it connected and bound to the second. |

## Behaviours of the code worth knowing

The model follows the code in each of these, and the named lemmas state them:

- **No ownership conflict.** `src/controllers/deviceController.js:12-19` looks the identifier up without the user, so registering an identifier owned by someone else returns the existing record with 200.
- **Audit on every report.** `src/controllers/deviceController.js:83-89` audits every non-compliant HTTP report, not only a compliant-to-non-compliant transition (`Scenarios.RepeatedReportsAuditEach`).
- **A stored lock flag.** `isLocked` is a stored field (`src/models/Device.js:32-35`) that each handler writes; it is not derived from compliance and an administrator's decision.
- **The HTTP report lifts admin locks.** `src/controllers/deviceController.js:67` writes `isLocked: !isCompliant`, so a compliant HTTP report clears an administrator's lock (`Scenarios.HttpRunLiftsAdminLock`); only the socket report (`src/sockets/deviceSocket.js:86`) keeps it.
- **A roll number can be shadowed by an e-mail.** Registration compares the new e-mail only with e-mails and the new roll number only with roll numbers (`src/routes/auth.js:46-59`). Login matches the identifier against both (`src/routes/auth.js:125`) and takes the first match. A user whose roll number is an earlier user's e-mail therefore cannot log in with its roll number (`AuthRoutes.ShadowedLoginMissesNewUser`).
- **The admin lock clears compliance.** `src/routes/admin.js:89-90` also clears `isCompliant`, which the unlock at `src/routes/admin.js:153` does not restore (`Scenarios.LockUnlockLeavesNonCompliant`).

## Left out

- **Not part of this model:**
  - The HTTP and Socket.IO transport.
  - Console logging.
  - The `ioInstance`/`setIO` wiring.
  - The `req.io` middleware.
  - `src/server.js`.
  - The auth middleware that sets `req.user`. Its result is the `user` or `userId` parameter.
- **Handle and response details:**
  - Whether an io handle exists is a parameter.
  - Timestamps inside event payloads are not modelled.
  - Response bodies are reduced to outcomes and the fields the contracts speak of.
- **The ping route:**
  - The 30-second auto-stop timer is left out (timers and asynchrony).
  - The `ping-response` broadcast to every client is left out.
- **Query details:**
  - `populate`, `lean` and `select` projections are left out.
  - The owner fields in `getDeviceStatus` are left out.
  - `recentAudits` references are left out.
  - The `createdAt`/`updatedAt` fields of documents are left out.
  - `lastChecked` falling back to `updatedAt` is left out.
- **Sequential steps.** Every handler is one sequential step; concurrent requests and the atomicity of `findOneAndUpdate` are not modelled.
- **Crypto and ids:**
  - JWT signing and verification are uninterpreted functions, so token expiry and claims layout are not modelled.
  - bcrypt's salt is not modelled.
  - `generateToken` is not part of this model.
- **`targetDevice`:** the AuditLog schema references the device's `_id`; the model records the device's `deviceId`, which identifies it equally.
- **`lastSeen`:** the socket handlers write `lastSeen`, a field the Device schema does not declare. Mongoose strict mode would drop it; the model keeps it as a field.
- **`lastLocation`:** the float location fields are never used in logic and are left out.
- **The listing in the older admin controller.** `src/controller/adminController.js:5-12` only returns the collection and is left out.
- **Request field types.** Request fields reach the controllers as strings, booleans or lists, and the validator's value model covers JSON strings, numbers, booleans, arrays, objects and null. Two simplifications:
  - `notEmpty()` on an array or object is approximated by element count or by "non-empty".
  - Number-to-string conversions are not modelled.
- **Failures that are parameters or absent:**
  - A database failure in the admin middleware is the `lookupFails` parameter.
  - Database failures in the other handlers are not modelled, so their 500 branches are absent.
  - The exceptions that are modelled are the ones the code itself provokes: the send without an io handle, and `bcrypt` on an absent password.
- DeviceSocket.ReportSpec: requires that the socket's user owns at most one device. `findOneAndUpdate({ user })` then picks a determined document; with several devices per user, which one is updated is not modelled.
- DeviceSocket.ReportSpec: takes the payload as already typed: `isCompliant` a Boolean, `geofenceStatus` one of the two enum values. The socket handler (`src/sockets/deviceSocket.js:84-101`) runs no validator. A string `"false"` or `"0"` is cast to `false` when stored while `!report.isCompliant` is `false`, so the device is stored non-compliant with no lock, no `enforce-lock` and no audit entry (the same defect as the one under Findings). An absent `isCompliant` locks and audits. `findOneAndUpdate` runs no schema validators, so a `geofenceStatus` outside the enum would be stored. None of these payloads is modelled.
- DeviceSocket.HeartbeatSpec: requires that at most one device of the user is bound to the socket, for the same reason.
- DeviceSocket.DisconnectSpec: requires that at most one device of the user is bound to the socket, for the same reason.
- DeviceSocket.RegisterSpec: requires that the socket passed the token gate, which the middleware guarantees for every handler.
- AdminRoutes.AuditLogs: requires `limit >= 1`; `AdminRoutes.AuditLogsQuery` applies the defaults for an absent `page` or `limit`. A zero, negative or non-numeric `limit`, or a non-numeric `page`, gives values that depend on JavaScript's number coercion and MongoDB's treatment of `limit(0)`; those are not modelled.
- AuditLog.NewestFirstIsDescending: requires a log whose `createdAt` never decreases. The handlers take the clock as a free parameter `now`, so no handler is proved to keep that order. The newest-first view orders entries with equal timestamps by reverse append order; MongoDB's `sort({ createdAt: -1 })` leaves the order of ties unspecified.
- AuthRoutes.RegisterCheck: counts the password length in UTF-16 code units, as JavaScript's `.length` does (`AuthRoutes.Utf16Length`); no other string in the model is measured.
- AdminRoutes.AuditLogsQuery: requires a present `limit` to be at least 1, for the same reason as `AdminRoutes.AuditLogs`; query values arrive as strings and their numeric coercion is not modelled.
- DeviceModel.IsOnline: uses integer milliseconds; `Date` comparison on invalid dates is not modelled.

## Findings

| source | as written | input that shows it | evidently intended | confidence | as-written member | corrected member |
|---|---|---|---|---|---|---|
| src/controllers/deviceController.js:66-83 | The validator accepts `"false"` and `"0"` as booleans. Mongoose stores them as `false`, but `isLocked: !isCompliant` and `if (!isCompliant)` test the raw string, which is truthy. | `POST /report` with `{ "deviceId": "phone-1", "isCompliant": "false" }` | The stored compliance flag drives the lock and the auto-lock: a device stored as non-compliant is locked and audited. | not executed | DeviceRoutes.StringFalseEscapesLock | Scenarios.ValidatedReportLocksWhatItStores |

`DeviceController.ReportComplianceSpec` and the rest of the store model take `isCompliant` as the one decoded Boolean, which is the corrected behaviour. The discrepancy is stated at the boundary between the validator and the controller.
