/** The pure side of Device: the three-level registration table
    `registrations[organization][deviceId][userName] = {keystore?, catalog?}`,
    what one registration does to it, how a database name is read back as a
    user, and the keystore rule of setKeyStore. */
module DeviceRegistry {
  import opened JsValues

  /** The database paths recorded for one user on one device. */
  datatype Entry = Entry(keystore: Option<string>, catalog: Option<string>)

  /** The `{}` that registerUserToDevice creates for a user seen for the first time. */
  const EmptyEntry := Entry(None, None)

  /** The registration table, every key already turned into the string
      JavaScript uses as a property name. */
  type Table = map<string, map<string, map<string, Entry>>>

  /** A database handle (a PouchDB instance), known only by its name. */
  datatype Handle = Handle(name: string)

  /** `h && h.name`: the handle's name when there is a handle and its name is non-empty. */
  function NameOf(h: Option<Handle>): Option<string> {
    if h.Some? && h.value.name != "" then Some(h.value.name) else None
  }

  /** The entry of a user on a device, if the table has one. */
  function Lookup(t: Table, org: string, device: string, name: string): Option<Entry> {
    if org in t && device in t[org] && name in t[org][device] then Some(t[org][device][name]) else None
  }

  /** What registerUserToDevice writes into a user's entry `e`: with a truthy
      database string, that string goes to each slot whose word it contains;
      without one, the current keystore's name and then the current catalog's
      name both go into the keystore slot, so the catalog name wins and the
      catalog slot is never written. */
  function Record(e: Entry, databaseString: JsVal, keystore: Option<string>, catalog: Option<string>): (r: Entry)
    ensures Truthy(databaseString) && Contains(databaseString.s, "keystore") ==> r.keystore == Some(databaseString.s)
    ensures Truthy(databaseString) && Contains(databaseString.s, "catalog") ==> r.catalog == Some(databaseString.s)
    ensures Truthy(databaseString) && !Contains(databaseString.s, "keystore") ==> r.keystore == e.keystore
    ensures Truthy(databaseString) && !Contains(databaseString.s, "catalog") ==> r.catalog == e.catalog
    ensures !Truthy(databaseString) ==> r.catalog == e.catalog
    ensures !Truthy(databaseString) && catalog.Some? ==> r.keystore == catalog
    ensures !Truthy(databaseString) && catalog.None? && keystore.Some? ==> r.keystore == keystore
    ensures !Truthy(databaseString) && catalog.None? && keystore.None? ==> r == e
  {
    if Truthy(databaseString) then
      var e1 := if Contains(databaseString.s, "keystore") then e.(keystore := Some(databaseString.s)) else e;
      if Contains(databaseString.s, "catalog") then e1.(catalog := Some(databaseString.s)) else e1
    else
      var e1 := if keystore.Some? then e.(keystore := keystore) else e;
      if catalog.Some? then e1.(keystore := catalog) else e1
  }

  /** The entry a registration starts from: the existing one, or a fresh empty one. */
  function EntryOrEmpty(t: Table, org: string, device: string, name: string): Entry {
    var found := Lookup(t, org, device, name);
    if found.Some? then found.value else EmptyEntry
  }

  /** The table after registerUserToDevice's bookkeeping for user `name` of
      organization `org` on the device whose own id is `device`: that user's
      entry exists and holds Record's result, every other entry is as it was,
      no key is removed, and the only keys added are that organization, that
      device under it and that user under them. */
  function Register(t: Table, org: string, device: string, name: string,
                    databaseString: JsVal, keystore: Option<string>, catalog: Option<string>): (r: Table)
    ensures Lookup(r, org, device, name) == Some(Record(EntryOrEmpty(t, org, device, name), databaseString, keystore, catalog))
    ensures forall o, d, n :: (o != org || d != device || n != name) ==> Lookup(r, o, d, n) == Lookup(t, o, d, n)
    ensures r.Keys == t.Keys + {org}
    ensures forall o :: o in t && o != org ==> r[o] == t[o]
    ensures r[org].Keys == (if org in t then t[org].Keys else {}) + {device}
    ensures org in t ==> forall d :: d in t[org] && d != device ==> r[org][d] == t[org][d]
    ensures forall o :: o in t ==> t[o].Keys <= r[o].Keys
    ensures forall o, d :: o in t && d in t[o] ==> t[o][d].Keys <= r[o][d].Keys
  {
    SetEntry(t, org, device, name, Record(EntryOrEmpty(t, org, device, name), databaseString, keystore, catalog))
  }

  /** The table with a user's entry set to `e`, creating the organization and
      device keys when they are missing. */
  function SetEntry(t: Table, org: string, device: string, name: string, e: Entry): Table {
    var devices := if org in t then t[org] else map[];
    var users := if device in devices then devices[device] else map[];
    t[org := devices[device := users[name := e]]]
  }

  /** The plain record `{organization, device: {id}, name}` that
      deserializeUserFromDatabaseString builds. */
  datatype ParsedUser = ParsedUser(organization: JsVal, deviceId: JsVal, name: JsVal)

  /** `ss[i]`: the piece, or undefined past the end. */
  function Piece(ss: seq<string>, i: nat): JsVal {
    if i < |ss| then Str(ss[i]) else Undefined
  }

  /** deserializeUserFromDatabaseString: pieces 0, 1 and 2 of the name split on `_`. */
  function DeserializeUser(databaseString: string): (p: ParsedUser)
    ensures p.organization.Str? && p.organization.s <= databaseString && '_' !in p.organization.s
    ensures p.deviceId.Str? ==> '_' !in p.deviceId.s
    ensures p.name.Str? ==> '_' !in p.name.s && p.deviceId.Str?
    ensures '_' !in databaseString ==> p == ParsedUser(Str(databaseString), Undefined, Undefined)
  {
    var ss := Split(databaseString, '_');
    assert ss[0] <= databaseString by {
      if '_' !in databaseString { SplitWithoutSeparator(databaseString, '_'); } else { PrefixOfJoin(ss, '_'); }
    }
    ParsedUser(Piece(ss, 0), Piece(ss, 1), Piece(ss, 2))
  }

  lemma PrefixOfJoin(pieces: seq<string>, sep: char)
    requires |pieces| >= 1
    ensures pieces[0] <= Join(pieces, sep)
  {
  }

  /** The (organization, user name) keys under which a database name is registered. */
  function CellOf(databaseString: string): (string, string) {
    var p := DeserializeUser(databaseString);
    (ToStr(p.organization), ToStr(p.name))
  }

  /** registerExistingDatabase on the device whose own id is `device`. */
  function RegisterDatabase(t: Table, device: string, keystore: Option<string>, catalog: Option<string>,
                            databaseString: string): Table
  {
    var cell := CellOf(databaseString);
    Register(t, cell.0, device, cell.1, Str(databaseString), keystore, catalog)
  }

  /** The registration loop of Device.init: every name of `dbs`, in order. */
  function RegisterAll(t: Table, device: string, keystore: Option<string>, catalog: Option<string>,
                       dbs: seq<string>): Table
    decreases |dbs|
  {
    if dbs == [] then t
    else RegisterDatabase(RegisterAll(t, device, keystore, catalog, dbs[..|dbs| - 1]), device, keystore, catalog, dbs[|dbs| - 1])
  }

  /** Whether registering this existing database writes its user's keystore slot. */
  predicate WritesKeystore(databaseString: string, keystore: Option<string>, catalog: Option<string>) {
    if databaseString != "" then Contains(databaseString, "keystore") else keystore.Some? || catalog.Some?
  }

  /** Whether the table has an entry for the user a database name belongs to. */
  predicate Registered(t: Table, device: string, databaseString: string) {
    var cell := CellOf(databaseString);
    Lookup(t, cell.0, device, cell.1).Some?
  }

  /** The registration loop removes no entry. */
  lemma {:induction false} RegisterAllKeepsEntry(t: Table, device: string, keystore: Option<string>,
                                                  catalog: Option<string>, dbs: seq<string>,
                                                  o: string, d: string, n: string)
    requires Lookup(t, o, d, n).Some?
    ensures Lookup(RegisterAll(t, device, keystore, catalog, dbs), o, d, n).Some?
    decreases |dbs|
  {
    if dbs != [] {
      RegisterAllKeepsEntry(t, device, keystore, catalog, dbs[..|dbs| - 1], o, d, n);
    }
  }

  /** The registration loop leaves the entries of every other device as they were. */
  lemma {:induction false} RegisterAllOtherDevices(t: Table, device: string, keystore: Option<string>,
                                                    catalog: Option<string>, dbs: seq<string>,
                                                    o: string, d: string, n: string)
    requires d != device
    ensures Lookup(RegisterAll(t, device, keystore, catalog, dbs), o, d, n) == Lookup(t, o, d, n)
    decreases |dbs|
  {
    if dbs != [] {
      RegisterAllOtherDevices(t, device, keystore, catalog, dbs[..|dbs| - 1], o, d, n);
    }
  }

  /** After the registration loop every listed database has an entry for
      the user it names, under the device's own id. */
  lemma {:induction false} RegisterAllRegistersEvery(t: Table, device: string, keystore: Option<string>,
                                                      catalog: Option<string>, dbs: seq<string>, i: nat)
    requires i < |dbs|
    ensures Registered(RegisterAll(t, device, keystore, catalog, dbs), device, dbs[i])
  {
    var init := dbs[..i];
    var cell := CellOf(dbs[i]);
    assert dbs[..i + 1][..i] == init;
    var after := RegisterAll(t, device, keystore, catalog, dbs[..i + 1]);
    assert Lookup(after, cell.0, device, cell.1).Some?;
    RegisterAllSuffixKeepsEntry(t, device, keystore, catalog, dbs, i + 1, cell.0, device, cell.1);
  }

  /** Registering the names after the first `k` removes no entry the first `k` made. */
  lemma {:induction false} RegisterAllSuffixKeepsEntry(t: Table, device: string, keystore: Option<string>,
                                                        catalog: Option<string>, dbs: seq<string>, k: nat,
                                                        o: string, d: string, n: string)
    requires k <= |dbs|
    requires Lookup(RegisterAll(t, device, keystore, catalog, dbs[..k]), o, d, n).Some?
    ensures Lookup(RegisterAll(t, device, keystore, catalog, dbs), o, d, n).Some?
    decreases |dbs| - k
  {
    if k < |dbs| {
      assert dbs[..k + 1][..k] == dbs[..k];
      RegisterAllSuffixKeepsEntry(t, device, keystore, catalog, dbs, k + 1, o, d, n);
    } else {
      assert dbs[..k] == dbs;
    }
  }

  /** After the registration loop, a listed name containing `keystore` is the
      keystore path of the user it names, under the device's own id, unless a
      later name of the same user writes that slot again. */
  lemma RegisterAllRecordsKeystore(t: Table, device: string, keystore: Option<string>,
                                   catalog: Option<string>, dbs: seq<string>, i: nat)
    requires i < |dbs| && Contains(dbs[i], "keystore")
    requires forall j :: i < j < |dbs| && CellOf(dbs[j]) == CellOf(dbs[i]) ==> !WritesKeystore(dbs[j], keystore, catalog)
    ensures var found := Lookup(RegisterAll(t, device, keystore, catalog, dbs), CellOf(dbs[i]).0, device, CellOf(dbs[i]).1);
            found.Some? && found.value.keystore == Some(dbs[i])
  {
    var cell := CellOf(dbs[i]);
    assert dbs[..i + 1][..i] == dbs[..i];
    var after := RegisterAll(t, device, keystore, catalog, dbs[..i + 1]);
    assert Lookup(after, cell.0, device, cell.1).value.keystore == Some(dbs[i]);
    RegisterAllSuffixKeepsKeystore(t, device, keystore, catalog, dbs, i + 1, cell, Some(dbs[i]));
  }

  /** Registering the names after the first `k` keeps a user's keystore slot
      when none of them writes it. */
  lemma {:induction false} RegisterAllSuffixKeepsKeystore(t: Table, device: string, keystore: Option<string>,
                                                           catalog: Option<string>, dbs: seq<string>, k: nat,
                                                           cell: (string, string), path: Option<string>)
    requires k <= |dbs|
    requires forall j :: k <= j < |dbs| && CellOf(dbs[j]) == cell ==> !WritesKeystore(dbs[j], keystore, catalog)
    requires var found := Lookup(RegisterAll(t, device, keystore, catalog, dbs[..k]), cell.0, device, cell.1);
             found.Some? && found.value.keystore == path
    ensures var found := Lookup(RegisterAll(t, device, keystore, catalog, dbs), cell.0, device, cell.1);
            found.Some? && found.value.keystore == path
    decreases |dbs| - k
  {
    if k < |dbs| {
      assert dbs[..k + 1][..k] == dbs[..k];
      assert dbs[..k + 1][k] == dbs[k];
      var before := RegisterAll(t, device, keystore, catalog, dbs[..k]);
      RegisterDatabaseKeepsKeystore(before, device, keystore, catalog, dbs[k], cell, path);
      RegisterAllSuffixKeepsKeystore(t, device, keystore, catalog, dbs, k + 1, cell, path);
    } else {
      assert dbs[..k] == dbs;
    }
  }

  /** One registration keeps a user's keystore slot unless it writes that very slot. */
  lemma RegisterDatabaseKeepsKeystore(t: Table, device: string, keystore: Option<string>, catalog: Option<string>,
                                      databaseString: string, cell: (string, string), path: Option<string>)
    requires CellOf(databaseString) == cell ==> !WritesKeystore(databaseString, keystore, catalog)
    requires var found := Lookup(t, cell.0, device, cell.1); found.Some? && found.value.keystore == path
    ensures var found := Lookup(RegisterDatabase(t, device, keystore, catalog, databaseString), cell.0, device, cell.1);
            found.Some? && found.value.keystore == path
  {
    if CellOf(databaseString) == cell {
      assert EntryOrEmpty(t, cell.0, device, cell.1).keystore == path;
    }
  }

  /** The message setKeyStore throws without a usable active user. */
  const NoUsername := "Musts have a Username to create a Keystore"
  /** The message setKeyStore throws without a secret. */
  const NoSecret := "Cannot create Keystore without a KeystoreSecret"

  /** The completion of an operation that may throw. */
  datatype Outcome = Pass | Throw(message: string)

  /** setKeyStore's two guards, in order: an active user with a truthy name
      and id, then a truthy secret. */
  function SetKeyStoreOutcome(hasIdentity: bool, secret: JsVal): (r: Outcome)
    ensures r == Throw(NoUsername) <==> !hasIdentity
    ensures r == Throw(NoSecret) <==> hasIdentity && !Truthy(secret)
    ensures r == Pass <==> hasIdentity && Truthy(secret)
  {
    if !hasIdentity then Throw(NoUsername)
    else if !Truthy(secret) then Throw(NoSecret)
    else Pass
  }

  /** The name of a user's keystore database: `${userId}_keystore`. */
  function KeystoreName(userId: string): string {
    userId + "_keystore"
  }

  /** The keystore after setKeyStore passes its guards: a new one named after
      the user id when there was none, otherwise the existing one. */
  function KeyStoreAfter(current: Option<Handle>, userId: string): (r: Option<Handle>)
    ensures r.Some?
    ensures current.Some? ==> r == current
    ensures current.None? ==> r.value.name == KeystoreName(userId)
  {
    if current.None? then Some(Handle(KeystoreName(userId))) else current
  }

  /** A keystore is created at most once: a second setKeyStore, for whatever
      user, keeps the first one. */
  lemma KeyStoreAfterIdempotent(current: Option<Handle>, firstId: string, secondId: string)
    ensures KeyStoreAfter(KeyStoreAfter(current, firstId), secondId) == KeyStoreAfter(current, firstId)
  {
  }
}
