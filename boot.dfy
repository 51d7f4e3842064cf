/** The two stateful classes of the boot code. A Device owns the registration
    table, the active user, the keystore handle and the persisted last login;
    a User owns its identity fields and its Device. They refer to each other,
    so they share this module. */
module Boot {
  import opened JsValues
  import opened DeviceRegistry
  import opened UserIdentity

  /** The message register throws when the keystore probe fails. */
  const CannotReadKeystore := "Cannot read from the keystore!"

  /** A user's `meta`: `{firstName, lastName}`. */
  datatype Meta = Meta(firstName: JsVal, lastName: JsVal)

  /** The text the lastLogin setter persists: `user || ''`. */
  function StoredLogin(v: JsVal): (r: string)
    ensures Truthy(v) ==> r == v.s
    ensures !Truthy(v) ==> r == ""
  {
    Or(v, "")
  }

  /** What canReadKeystore gets back from the keystore when it reads the
      sentinel document stored under the user's id. The store is a library
      call, so these are inputs:
      - `Existing(hasMeta)`: the document is there, and `hasMeta` says whether
        it has a `meta` key;
      - `Missing(written, readBackHasMeta)`: the read failed with `not_found`.
        `written` says whether writing `{_id, meta}` succeeded, and
        `readBackHasMeta` whether reading the document back shows a `meta`;
      - `ReadError`: the read failed with any other error. */
  datatype SentinelRead = Existing(hasMeta: bool) | Missing(written: bool, readBackHasMeta: bool) | ReadError

  /** The guard of registerUserToDevice's activation step: the user's id is
      not undefined (null passes) and the secret is truthy. */
  predicate Activates(userId: JsVal, secret: JsVal) {
    userId != Undefined && Truthy(secret)
  }

  class Device {
    /** The device fingerprint; null until init. */
    var id: JsVal
    /** The active user. */
    var user: User?
    var registrations: Table
    var keystore: Option<Handle>
    /** Never assigned by the boot code, but read by registerUserToDevice. */
    var catalog: Option<Handle>
    /** The `user` item of localStorage; None when it was never written. */
    var storedLogin: Option<string>
    /** The fingerprint components; unset until init. */
    var meta: Option<map<string, string>>
    /** The names of the existing local databases; unset until init. */
    var databases: Option<seq<string>>

    /** A new Device in a browser whose localStorage holds `persisted`. */
    constructor (persisted: Option<string>)
      ensures id == Null && user == null && registrations == map[]
      ensures keystore == None && catalog == None
      ensures storedLogin == persisted && meta == None && databases == None
    {
      id := Null;
      user := null;
      registrations := map[];
      keystore := None;
      catalog := None;
      storedLogin := persisted;
      meta := None;
      databases := None;
    }

    /** The lastLogin getter: the persisted text, or null (None) if there is none. */
    function LastLogin(): Option<string>
      reads this
    {
      storedLogin
    }

    /** The lastLogin setter. */
    method SetLastLogin(v: JsVal)
      modifies this`storedLogin
      ensures LastLogin() == Some(StoredLogin(v))
    {
      storedLogin := Some(StoredLogin(v));
    }

    /** There is an active user with a truthy name and id. */
    predicate HasIdentity()
      reads this, user
    {
      user != null && Truthy(user.name) && Truthy(user.id)
    }

    /** setKeyStore: after its two guards, creates the keystore named after
        the active user's id unless one exists. */
    method SetKeyStore(secret: JsVal) returns (outcome: Outcome)
      modifies this`keystore
      ensures outcome == SetKeyStoreOutcome(HasIdentity(), secret)
      ensures outcome == Pass ==> keystore == KeyStoreAfter(old(keystore), user.id.s)
      ensures outcome != Pass ==> keystore == old(keystore)
    {
      if user == null || !Truthy(user.name) || !Truthy(user.id) {
        return Throw(NoUsername);
      }
      if !Truthy(secret) {
        return Throw(NoSecret);
      }
      if keystore == None {
        keystore := Some(Handle(KeystoreName(user.id.s)));
      }
      outcome := Pass;
    }

    /** The keystore probe canReadKeystore, given what the store returns. It
        fails without a keystore or an active user, because the TypeError is
        caught. An existing sentinel passes only when it has NO `meta`. A
        missing one passes when it is written and reads back with a `meta`.
        Any other read error fails. */
    function CanReadKeystore(probe: SentinelRead): (r: bool)
      reads this
      ensures r ==> keystore.Some? && user != null
      ensures keystore.Some? && user != null && probe.Existing? ==> (r <==> !probe.hasMeta)
      ensures keystore.Some? && user != null && probe.Missing? ==> (r <==> probe.written && probe.readBackHasMeta)
      ensures probe.ReadError? ==> !r
    {
      keystore.Some? && user != null &&
      match probe
      case Existing(hasMeta) => !hasMeta
      case Missing(written, readBackHasMeta) => written && readBackHasMeta
      case ReadError => false
    }

    /** registerUserToDevice: records `u` in the table under this device's own
        id, then makes `u` the active user when its id is defined and the
        secret truthy. */
    method RegisterUserToDevice(u: User, secret: JsVal, databaseString: JsVal) returns (outcome: Outcome)
      modifies this
      ensures id == old(id) && catalog == old(catalog) && meta == old(meta) && databases == old(databases)
      ensures registrations == Register(old(registrations), ToStr(u.organization), ToStr(id), ToStr(u.name),
                                        databaseString, NameOf(old(keystore)), NameOf(catalog))
      ensures !Activates(u.id, secret) ==>
                outcome == Pass && user == old(user) && keystore == old(keystore) && storedLogin == old(storedLogin)
      ensures Activates(u.id, secret) ==>
                user == u && outcome == SetKeyStoreOutcome(Truthy(u.name) && Truthy(u.id), secret)
      ensures Activates(u.id, secret) && outcome == Pass ==>
                keystore == KeyStoreAfter(old(keystore), u.id.s) && LastLogin() == Some(u.name.s)
      ensures outcome != Pass ==> keystore == old(keystore) && storedLogin == old(storedLogin)
    {
      var org, dev, name := ToStr(u.organization), ToStr(id), ToStr(u.name);
      ghost var start := EntryOrEmpty(registrations, org, dev, name);
      EnsureEntry(org, dev, name);

      var entry := registrations[org][dev][name];
      if Truthy(databaseString) {
        if Contains(databaseString.s, "keystore") {
          entry := entry.(keystore := Some(databaseString.s));
        }
        if Contains(databaseString.s, "catalog") {
          entry := entry.(catalog := Some(databaseString.s));
        }
      } else {
        if NameOf(keystore).Some? {
          entry := entry.(keystore := NameOf(keystore));
        }
        if NameOf(catalog).Some? {
          entry := entry.(keystore := NameOf(catalog));
        }
      }
      assert entry == Record(start, databaseString, NameOf(keystore), NameOf(catalog));
      PutAfterSetEntry(old(registrations), org, dev, name, start, entry);
      registrations := Put(registrations, org, dev, name, entry);

      outcome := Pass;
      if u.id != Undefined && Truthy(secret) {
        user := u;
        outcome := SetKeyStore(secret);
        if outcome == Pass {
          SetLastLogin(u.name);
        }
      }
    }

    /** The first step of registerUserToDevice: the organization, device and
        user keys exist afterwards, a missing user getting an empty entry. */
    method EnsureEntry(org: string, dev: string, name: string)
      modifies this`registrations
      ensures registrations == SetEntry(old(registrations), org, dev, name, EntryOrEmpty(old(registrations), org, dev, name))
    {
      ghost var devices := if org in registrations then registrations[org] else map[];
      ghost var users := if dev in devices then devices[dev] else map[];
      ghost var start := EntryOrEmpty(registrations, org, dev, name);
      if org !in registrations {
        registrations := registrations[org := map[]];
      }
      assert registrations == old(registrations)[org := devices];
      if dev !in registrations[org] {
        registrations := registrations[org := registrations[org][dev := map[]]];
      } else {
        assert devices[dev := users] == devices;
      }
      assert registrations == old(registrations)[org := devices[dev := users]];
      if name !in registrations[org][dev] {
        assert Lookup(old(registrations), org, dev, name) == None;
        assert registrations[org] == devices[dev := users] && registrations[org][dev] == users;
        registrations := Put(registrations, org, dev, name, EmptyEntry);
        assert devices[dev := users][dev := users[name := EmptyEntry]] == devices[dev := users[name := EmptyEntry]];
      } else {
        assert Lookup(old(registrations), org, dev, name) == Some(users[name]);
        assert users[name := start] == users;
      }
    }

    /** registerExistingDatabase: registers the user a database name names,
        with no secret, so only the table changes. */
    method RegisterExistingDatabase(databaseString: string)
      modifies this
      ensures registrations == RegisterDatabase(old(registrations), ToStr(id), NameOf(keystore), NameOf(catalog), databaseString)
      ensures id == old(id) && user == old(user) && keystore == old(keystore) && catalog == old(catalog)
      ensures storedLogin == old(storedLogin) && meta == old(meta) && databases == old(databases)
    {
      var parsed := new User.Parsed(DeserializeUser(databaseString));
      var _ := RegisterUserToDevice(parsed, Undefined, Str(databaseString));
    }

    /** init with the fingerprint (id and components) and the list of
        existing databases given: registers every listed database in order. */
    method Init(fingerprint: string, components: map<string, string>, allDbs: seq<string>)
      modifies this
      ensures id == Str(fingerprint) && meta == Some(components) && databases == Some(allDbs)
      ensures registrations == RegisterAll(old(registrations), fingerprint, NameOf(keystore), NameOf(catalog), allDbs)
      ensures user == old(user) && keystore == old(keystore) && catalog == old(catalog) && storedLogin == old(storedLogin)
    {
      id := Str(fingerprint);
      meta := Some(components);
      databases := Some(allDbs);
      if |allDbs| > 0 {
        var i := 0;
        while i < |allDbs|
          invariant 0 <= i <= |allDbs|
          invariant registrations == RegisterAll(old(registrations), fingerprint, NameOf(keystore), NameOf(catalog), allDbs[..i])
          invariant id == Str(fingerprint) && meta == Some(components) && databases == Some(allDbs)
          invariant user == old(user) && keystore == old(keystore) && catalog == old(catalog)
          invariant storedLogin == old(storedLogin)
        {
          assert allDbs[..i + 1][..i] == allDbs[..i];
          RegisterExistingDatabase(allDbs[i]);
          i := i + 1;
        }
        assert allDbs[..i] == allDbs;
      }
    }
  }

  /** The table with the entry at an existing path replaced. */
  function Put(t: Table, org: string, device: string, name: string, e: Entry): Table
    requires org in t && device in t[org]
  {
    t[org := t[org][device := t[org][device][name := e]]]
  }

  /** Overwriting an entry just set replaces it. */
  lemma PutAfterSetEntry(t: Table, org: string, device: string, name: string, first: Entry, second: Entry)
    ensures var u := SetEntry(t, org, device, name, first);
            org in u && device in u[org] && Put(u, org, device, name, second) == SetEntry(t, org, device, name, second)
  {
    var devices := if org in t then t[org] else map[];
    var users := if device in devices then devices[device] else map[];
    assert users[name := first][name := second] == users[name := second];
    assert devices[device := users[name := first]][device := users[name := second]] == devices[device := users[name := second]];
  }

  class User {
    /** `${organization}_${device.id}_${name}`, or null. */
    var id: JsVal
    var name: JsVal
    var organization: JsVal
    /** Never set by the constructor, so undefined until logout. */
    var rev: JsVal
    var device: Device?
    var meta: Meta

    constructor ()
      ensures id == Null && name == Null && organization == Null && rev == Undefined
      ensures device == null && meta == Meta(Null, Null)
    {
      id := Null;
      name := Null;
      organization := Null;
      rev := Undefined;
      device := null;
      meta := Meta(Null, Null);
    }

    /** The plain record `{organization, device: {id}, name}` built from a
        database name: it has no id. Its device id is not kept, since
        registerUserToDevice never reads it. */
    constructor Parsed(p: ParsedUser)
      ensures id == Undefined && organization == p.organization && name == p.name
      ensures rev == Undefined && device == null && meta == Meta(Undefined, Undefined)
    {
      id := Undefined;
      name := p.name;
      organization := p.organization;
      rev := Undefined;
      device := null;
      meta := Meta(Undefined, Undefined);
    }

    /** init: a new Device in a browser whose localStorage holds `persisted`,
        initialised with the fingerprint and database list given; the name
        becomes the last login when that is truthy. */
    method Init(persisted: Option<string>, fingerprint: string, components: map<string, string>, allDbs: seq<string>)
      modifies this`device, this`name
      ensures fresh(device)
      ensures device.id == Str(fingerprint) && device.user == null && device.keystore == None && device.catalog == None
      ensures device.meta == Some(components) && device.databases == Some(allDbs)
      ensures device.registrations == RegisterAll(map[], fingerprint, None, None, allDbs)
      ensures device.LastLogin() == persisted
      ensures name == (if persisted.Some? && persisted.value != "" then Str(persisted.value) else old(name))
    {
      device := new Device(persisted);
      device.Init(fingerprint, components, allDbs);
      var last := device.LastLogin();
      name := if last.Some? && last.value != "" then Str(last.value) else name;
    }

    /** generateId: a truthy id that starts with the organization (or its
        fallback) and whose keystore name parses back to the organization,
        device id and name it was made from, when none contains `_`. */
    function GenerateId(): (r: string)
      reads this, device
      requires device != null
      ensures Truthy(Str(r)) && Or(organization, IdFallbackOrganization) <= r
      ensures '_' !in Or(organization, IdFallbackOrganization) && '_' !in ToStr(device.id) && '_' !in Or(name, IdFallbackName) ==>
                DeserializeUser(KeystoreName(r))
                == ParsedUser(Str(Or(organization, IdFallbackOrganization)), Str(ToStr(device.id)), Str(Or(name, IdFallbackName)))
    {
      var id := ComposeId(organization, device.id, name);
      assert '_' !in Or(organization, IdFallbackOrganization) && '_' !in ToStr(device.id) && '_' !in Or(name, IdFallbackName) ==>
               DeserializeUser(KeystoreName(id))
               == ParsedUser(Str(Or(organization, IdFallbackOrganization)), Str(ToStr(device.id)), Str(Or(name, IdFallbackName))) by {
        if '_' !in Or(organization, IdFallbackOrganization) && '_' !in ToStr(device.id) && '_' !in Or(name, IdFallbackName) {
          KeystoreNameRoundTrip(organization, device.id, name);
        }
      }
      id
    }

    /** logout: clears id, name and rev and persists an empty last login. */
    method Logout()
      requires device != null
      modifies this`id, this`name, this`rev, device`storedLogin
      ensures id == Null && name == Null && rev == Null
      ensures device.LastLogin() == Some("")
    {
      id := Null;
      name := Null;
      rev := Null;
      device.SetLastLogin(Null);
    }

    /** loginWithSecret: sets the id, then registers this user to its device
        with the secret. */
    method LoginWithSecret(secret: JsVal) returns (outcome: Outcome)
      requires device != null
      modifies this`id, device
      ensures id == Str(ComposeId(organization, device.id, name))
      ensures device.id == old(device.id) && device.catalog == old(device.catalog)
      ensures device.meta == old(device.meta) && device.databases == old(device.databases)
      ensures device.registrations == DeviceRegistry.Register(old(device.registrations), ToStr(organization), ToStr(device.id), ToStr(name),
                                               Undefined, NameOf(old(device.keystore)), NameOf(device.catalog))
      ensures !Truthy(secret) ==> outcome == Pass && device.user == old(device.user)
      ensures Truthy(secret) ==> device.user == this && (outcome == Pass <==> Truthy(name))
      ensures Truthy(secret) && !Truthy(name) ==> outcome == Throw(NoUsername)
      ensures Truthy(secret) && outcome == Pass ==>
                device.keystore == KeyStoreAfter(old(device.keystore), id.s) && device.LastLogin() == Some(name.s)
      ensures !Truthy(secret) || outcome != Pass ==>
                device.keystore == old(device.keystore) && device.LastLogin() == old(device.LastLogin())
    {
      id := Str(GenerateId());
      outcome := device.RegisterUserToDevice(this, secret, Undefined);
    }

    /** register: sets name, organization (default "HospitalRun") and id,
        registers this user to its device with the secret, then requires the
        keystore probe to pass. */
    method Register(newName: JsVal, secret: JsVal, newOrganization: JsVal, probe: SentinelRead) returns (outcome: Outcome)
      requires device != null
      modifies this`id, this`name, this`organization, device
      ensures name == newName
      ensures organization == (if newOrganization == Undefined then Str(DefaultOrganization) else newOrganization)
      ensures id == Str(ComposeId(organization, device.id, name))
      ensures device.id == old(device.id) && device.catalog == old(device.catalog)
      ensures device.meta == old(device.meta) && device.databases == old(device.databases)
      ensures device.registrations == DeviceRegistry.Register(old(device.registrations), ToStr(organization), ToStr(device.id), ToStr(name),
                                               Undefined, NameOf(old(device.keystore)), NameOf(device.catalog))
      ensures Truthy(secret) ==> device.user == this
      ensures !Truthy(secret) ==>
                device.user == old(device.user) && device.keystore == old(device.keystore) &&
                device.LastLogin() == old(device.LastLogin())
      ensures outcome == if Truthy(secret) && !Truthy(name) then Throw(NoUsername)
                         else if !device.CanReadKeystore(probe) then Throw(CannotReadKeystore)
                         else Pass
      ensures Truthy(secret) && Truthy(name) ==>
                device.keystore == KeyStoreAfter(old(device.keystore), id.s) && device.LastLogin() == Some(name.s)
      ensures Truthy(secret) && !Truthy(name) ==>
                device.keystore == old(device.keystore) && device.LastLogin() == old(device.LastLogin())
      ensures Truthy(secret) && Truthy(name) && old(device.keystore).None? &&
              '_' !in Or(organization, IdFallbackOrganization) && '_' !in ToStr(device.id) && '_' !in name.s ==>
                DeserializeUser(device.keystore.value.name)
                == ParsedUser(Str(Or(organization, IdFallbackOrganization)), Str(ToStr(device.id)), name)
    {
      name := newName;
      organization := if newOrganization == Undefined then Str(DefaultOrganization) else newOrganization;
      id := Str(GenerateId());
      outcome := device.RegisterUserToDevice(this, secret, Undefined);
      if outcome != Pass {
        return;
      }
      if !device.CanReadKeystore(probe) {
        outcome := Throw(CannotReadKeystore);
      }
      if Truthy(secret) && Truthy(name) && old(device.keystore).None? &&
         '_' !in Or(organization, IdFallbackOrganization) && '_' !in ToStr(device.id) && '_' !in name.s {
        KeystoreNameRoundTrip(organization, device.id, name);
      }
    }
  }

  /** A logout followed by a new session in the same browser: the empty last
      login that logout persists does not become the new user's name. */
  method ReloadAfterLogout(u: User, fingerprint: string, components: map<string, string>, allDbs: seq<string>)
    returns (next: User)
    requires u.device != null
    modifies u`id, u`name, u`rev, u.device`storedLogin
    ensures u.name == Null && u.device.LastLogin() == Some("")
    ensures fresh(next) && next.name == Null && next.id == Null && next.device != null && next.device.LastLogin() == Some("")
  {
    u.Logout();
    next := new User();
    next.Init(u.device.LastLogin(), fingerprint, components, allDbs);
  }
}
