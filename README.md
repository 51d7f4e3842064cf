# Device and user registration bookkeeping

This project models the identity layer of a HospitalRun client: `src/boot/Device.js` and
`src/boot/User.js`.

A **Device** keeps four pieces of state:
- a three-level registration table `registrations[organization][deviceId][userName] = {keystore?, catalog?}`;
- the active user;
- a keystore handle, created at most once;
- the last login, persisted in `localStorage`.

A **User** carries an `id`, a `name`, an `organization`, a `rev`, a `meta` record and its own Device. Its id is
the composite `${organization}_${deviceId}_${name}`. The only local database the code creates is
the keystore, named `${id}_keystore`. At start-up the Device parses the names of the existing
databases back into users to rebuild its table. A name is filed in the `.keystore` slot if it contains
`keystore`, and in the `.catalog` slot if it contains `catalog`. No catalog database is ever created:
the Device's `catalog` field keeps its initial null.

Layout:
- `js_values.dfy` (module `JsValues`): JavaScript values. A value is `undefined`, `null` or a string.
  The module defines truthiness, `String(v)`, `s.match(t)` for a plain pattern, and `split`
  with its inverse `Join`.
- `device_registry.dfy` (module `DeviceRegistry`): pure specifications for Device. They cover
  the table and what one registration does to it, the registration loop of `init`, the
  database-name parser, and the rules of `setKeyStore`.
- `user_identity.dfy` (module `UserIdentity`): `generateId`, and its round trip through the
  database-name parser.
- `boot.dfy` (module `Boot`): the classes `Device` and `User`. They refer to each other, so they
  share one module. Their methods change fields in place. Each method is proved against the
  functions above.

Modelling choices:
- Object keys and template literals turn `undefined` and `null` into the strings `"undefined"`
  and `"null"` (`ToStr`). So a User that logs in without registering keeps the constructor's `null`
  organization and is filed under the key `"null"`.
- A thrown error is an `Outcome` value, `Throw(message)`, with the source's exact messages.
  Every state change made before the throw stays in place, as it does in JavaScript.
- `localStorage` is the Device field `storedLogin`. The Device constructor receives the value
  persisted by an earlier session.
- Only non-empty strings count as truthy.

Quirks of the code that the model keeps:
- Without a database string, the current catalog's name is written into the `.keystore` slot.
- Registration reads the keystore handle before `setKeyStore` runs. So the keystore created by a
  login is not recorded in the table by that same login.
- The entry is keyed by the Device's own `id`, not by the user's `device.id`.
- `generateId` falls back to `'HostpitalRun'`. `register` defaults to `'HospitalRun'`, and only
  when the organization is undefined, whether absent or passed as `undefined`. An explicit `''`
  or `null` organization is therefore filed under `""` or `"null"`, while the id says
  `HostpitalRun`.
- `canReadKeystore` passes on an existing sentinel document only when that document has no
  `meta`. The document the probe writes always carries the user's `meta`, which is an object for every
  User. So the keystore of a user who registered before fails the probe when probed again,
  and `register` then throws `'Cannot read from the keystore!'`.
- The activation guard tests `typeof user.id !== 'undefined'`. A `null` id passes it, and
  `setKeyStore` then throws.

Two further facts about the code:
- `loginWithSecret` never probes the keystore: the probe at `src/boot/User.js:82-87` is commented
  out. So any truthy secret activates the user.
- The only errors the code throws are the two in `setKeyStore` (`src/boot/Device.js:93` and `:95`)
  and the one in `register` (`src/boot/User.js:110`).

## Model

| member | source | states |
|---|---|---|
| JsValues.Split | src/boot/Device.js:232 | `split('_')` returns at least one piece, no piece contains `_`, and joining the pieces with `_` gives back the input |
| JsValues.SplitWithoutSeparator | src/boot/Device.js:232 | a name without `_` splits into itself alone |
| JsValues.SplitAtFirstSeparator | src/boot/Device.js:232 | the first piece is exactly what precedes the first `_`, and the rest splits on its own |
| JsValues.ContainsSuffix | src/boot/Device.js:128 | a name ending in `keystore` matches `'keystore'` |
| DeviceRegistry.Record | src/boot/Device.js:125-143 | with a truthy database string, the string goes into `.keystore` if it contains `keystore` (else `.keystore` keeps its value), and into `.catalog` if it contains `catalog` (else `.catalog` keeps its value); without one, `.keystore` becomes the catalog's name if there is a catalog, else the keystore's name if there is a keystore, else stays; `.catalog` is never written on that path |
| DeviceRegistry.Register | src/boot/Device.js:111-144 | afterwards the entry `[org][deviceId][name]` exists and holds Record's result; every other entry is unchanged; no organization, device or user key is removed; every other organization's map is unchanged, and under the user's organization the only device key added is the registering one, while the other devices' maps are unchanged |
| DeviceRegistry.DeserializeUser | src/boot/Device.js:231-239 | the organization is always a `_`-free prefix of the name; the device id and the name are `_`-free pieces or undefined; a name with no `_` gives `(name, undefined, undefined)` |
| DeviceRegistry.RegisterAllKeepsEntry | src/boot/Device.js:209-213 | the registration loop of `init` removes no entry |
| DeviceRegistry.RegisterAllOtherDevices | src/boot/Device.js:209-213 | the loop leaves the entries under every other device id unchanged |
| DeviceRegistry.RegisterAllRegistersEvery | src/boot/Device.js:209-213 | after the loop, every listed database has an entry for its parsed organization and name, under the device's own id |
| DeviceRegistry.RegisterAllRecordsKeystore | src/boot/Device.js:203-224 | after the loop, a listed name containing `keystore` is the `.keystore` value under its parsed organization and name and the device's id, unless a later listed name for the same user writes that slot again |
| DeviceRegistry.SetKeyStoreOutcome | src/boot/Device.js:91-95 | `setKeyStore` throws the missing-username error exactly when there is no active user or its name or id is falsy, and otherwise throws the missing-secret error exactly when the secret is falsy |
| DeviceRegistry.KeyStoreAfter | src/boot/Device.js:97-102 | past the guards there is always a keystore; an existing one is kept; a new one is named `user.id + '_keystore'` |
| DeviceRegistry.KeyStoreAfterIdempotent | src/boot/Device.js:98-102 | a second `setKeyStore` leaves the keystore of the first unchanged |
| UserIdentity.ComposeId | src/boot/User.js:56-58 | the id is a truthy string that starts with the organization or its `'HostpitalRun'` fallback |
| UserIdentity.ComposeIdSplits | src/boot/User.js:56-58 | when the organization, device id and name parts contain no `_`, splitting the id (plus any suffix) on `_` gives those parts in order |
| UserIdentity.PartsRoundTrip | src/boot/Device.js:231-239 | parsing `o_d_n_keystore`, where o, d and n contain no `_`, gives organization o, device id d and name n exactly |
| UserIdentity.KeystoreNameRoundTrip | src/boot/User.js:56-58 | parsing `generateId() + '_keystore'` with `deserializeUserFromDatabaseString` gives the organization, device id and name as `generateId` spelled them (fallbacks included), provided none contains `_` |
| UserIdentity.KeystoreNameRecoversUser | src/boot/User.js:56-58 | for a set organization and name and any device id, all free of `_`, the round trip recovers them exactly |
| UserIdentity.ExistingKeystoreRegistered | src/boot/Device.js:221-224 | registering a user's keystore database as an existing database stores its name in that user's `.keystore` slot, under the registering device's own id, whatever device id the name carries |
| Boot.StoredLogin | src/boot/Device.js:74-77 | the persisted last login is the given name when it is truthy, and `''` for null, undefined or empty |
| Boot.Device.constructor | src/boot/Device.js:8-72 | a new Device has a null id, no user, an empty table and no keystore or catalog; it reads the persisted last login |
| Boot.Device.SetLastLogin | src/boot/Device.js:74-81 | the getter afterwards returns the given name, or `''` when the name was null or empty |
| Boot.Device.CanReadKeystore | src/boot/Device.js:160-197 | the probe fails without a keystore or an active user (the TypeError is caught) and on any read error other than `not_found`; an existing sentinel passes exactly when it has no `meta`; a missing one passes exactly when it is written and reads back with a `meta` |
| Boot.Device.SetKeyStore | src/boot/Device.js:91-103 | the outcome is SetKeyStoreOutcome of the active user and the secret; on success the keystore is KeyStoreAfter the old one; on a throw the keystore is unchanged; nothing else changes |
| Boot.Device.EnsureEntry | src/boot/Device.js:112-123 | the organization, device and user keys exist afterwards; a new user gets an empty entry; an existing entry is kept |
| Boot.Device.RegisterUserToDevice | src/boot/Device.js:111-154 | the table becomes Register of the old table, keyed by the user's organization and name and this device's id, with the old keystore's and the catalog's names. The user, keystore and last login change only when the user's id is not undefined and the secret is truthy. In that case the user becomes active; on success the keystore is created if missing and the last login is the user's name |
| Boot.Device.RegisterExistingDatabase | src/boot/Device.js:221-224 | the table becomes RegisterDatabase of the old one; nothing else changes |
| Boot.Device.Init | src/boot/Device.js:203-215 | sets the id, meta and database list, and the table becomes RegisterAll over the list in order; the user, keystore, catalog and last login are unchanged |
| Boot.User.constructor | src/boot/User.js:10-40 | id, name and organization are null, rev is undefined, there is no device, meta is `{null, null}` |
| Boot.User.Parsed | src/boot/Device.js:234-238 | the record built from a database name has the parsed organization and name and no id |
| Boot.User.Init | src/boot/User.js:46-50 | the user owns a new Device initialised with the fingerprint, components and database list, with no user, keystore or catalog; the name becomes the persisted last login when that is truthy, and otherwise keeps its prior value |
| Boot.User.GenerateId | src/boot/User.js:56-58 | the id is a truthy string that starts with the organization or its `'HostpitalRun'` fallback; when organization, device id and name (after fallbacks) contain no `_`, the id's keystore name parses back to exactly those three |
| Boot.User.Logout | src/boot/User.js:63-72 | id, name and rev become null and the device persists `''`; organization, meta and device are untouched |
| Boot.User.LoginWithSecret | src/boot/User.js:79-88 | the id becomes `generateId()` and the device table records the user. With a truthy secret the device's user is this user, and the login passes exactly when the name is truthy; when it passes, the keystore exists and the last login is the name. With a falsy secret nothing but the table changes. The device's id, catalog, meta and database list never change |
| Boot.User.Register | src/boot/User.js:97-111 | name, organization (default `'HospitalRun'` only when the argument is undefined, absent or passed as `undefined`) and `id == generateId()` are set. The outcome is the missing-username error when the secret is truthy and the name falsy; otherwise `'Cannot read from the keystore!'` exactly when the probe fails on the store's answer; otherwise success. On the missing-username error the keystore and the last login are unchanged. A keystore created here parses back to the user's organization, device id and name. The device's id, catalog, meta and database list do not change |
| Boot.ReloadAfterLogout | src/boot/User.js:46-50 | after a logout, a new session's `init` reads `''` and leaves the new user's name null |

## Left out

- getDeviceFingerprint (src/boot/Device.js:245-256): it relies on a third-party fingerprint library and hash. The fingerprint id and its components are inputs of `Device.Init`.
- `PouchDB.allDbs()`, `new PouchDB(...)` and `.crypto(secret)`: these are storage and encryption calls into a library. The database list is an input. A handle is known only by its name, and the secret given to `.crypto` is not recorded.
- Boot.Device.CanReadKeystore: the store's reads and writes are library calls, so what they return is an input, a `SentinelRead`. A read-back that fails after a successful write leaves the source's promise unsettled, and the model has no case for it. The probe's writes to the active user's `meta` and `rev` are not modelled.
- Boot.User.Register: does not model the `meta`/`rev` update that the probe makes on a first read, for the reason above.
- `async`/`await`: every operation runs to completion in order. A rejected promise is an `Outcome` value.
- `console.log` calls: output only.
- Keys inherited from `Object.prototype` are not modelled. For example, an organization named `constructor` is already "defined" on a plain object, so the source would not create its entry.
- Values other than `undefined`, `null` and strings are not modelled as names, organizations, ids or secrets.
- Calling `generateId`, `logout`, `loginWithSecret` or `register` before `init` makes the source throw a TypeError, because `device` is null. Those methods require a device instead.
- Boot.User.Parsed: the plain record keeps no device id, because `registerUserToDevice` never reads it. The parsed device id is still part of `DeserializeUser`'s result.
- `String.prototype.match` is modelled as a substring test. Both patterns the source uses, `keystore` and `catalog`, are free of regular-expression metacharacters.
- `localStorage` is shared by every Device in a browser. Here it is a Device field, seeded by the constructor.
- src/boot/vue-pouch.js, src/router/index.js and src/router/routes.js are not part of this model. They hold framework plugin wiring, a navigation guard and a static route table.
