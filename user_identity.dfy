/** The composite user id `${organization}_${deviceId}_${name}` of
    User.generateId, and how it reads back through Device's database-name
    parser. */
module UserIdentity {
  import opened JsValues
  import opened DeviceRegistry

  /** generateId's fallback organization, spelled as in the source. */
  const IdFallbackOrganization := "HostpitalRun"
  /** generateId's fallback user name. */
  const IdFallbackName := "Public"
  /** register's default organization, spelled correctly there. */
  const DefaultOrganization := "HospitalRun"

  /** generateId for the given organization, device id and name. */
  function ComposeId(organization: JsVal, deviceId: JsVal, name: JsVal): (id: string)
    ensures Truthy(Str(id))
    ensures Or(organization, IdFallbackOrganization) <= id
  {
    Or(organization, IdFallbackOrganization) + "_" + ToStr(deviceId) + "_" + Or(name, IdFallbackName)
  }

  /** The three parts of an id split apart again, when none contains `_`. */
  lemma ComposeIdSplits(organization: JsVal, deviceId: JsVal, name: JsVal, suffix: string)
    requires '_' !in Or(organization, IdFallbackOrganization)
    requires '_' !in ToStr(deviceId)
    requires '_' !in Or(name, IdFallbackName)
    ensures Split(ComposeId(organization, deviceId, name) + suffix, '_')
            == [Or(organization, IdFallbackOrganization), ToStr(deviceId)] + Split(Or(name, IdFallbackName) + suffix, '_')
  {
    var o, d, n := Or(organization, IdFallbackOrganization), ToStr(deviceId), Or(name, IdFallbackName);
    assert ComposeId(organization, deviceId, name) + suffix == o + ['_'] + (d + ['_'] + (n + suffix));
    SplitAtFirstSeparator(o, d + ['_'] + (n + suffix), '_');
    SplitAtFirstSeparator(d, n + suffix, '_');
  }

  /** A keystore database name built from three `_`-free parts parses back
      to exactly those parts. */
  lemma PartsRoundTrip(o: string, d: string, n: string)
    requires '_' !in o && '_' !in d && '_' !in n
    ensures DeserializeUser(o + "_" + d + "_" + n + "_keystore") == ParsedUser(Str(o), Str(d), Str(n))
  {
    var path := o + "_" + d + "_" + n + "_keystore";
    assert path == o + ['_'] + (d + ['_'] + (n + ['_'] + "keystore"));
    SplitWithoutSeparator("keystore", '_');
    SplitAtFirstSeparator(n, "keystore", '_');
    SplitAtFirstSeparator(d, n + ['_'] + "keystore", '_');
    SplitAtFirstSeparator(o, d + ['_'] + (n + ['_'] + "keystore"), '_');
    var ss := Split(path, '_');
    assert ss == [o, d, n, "keystore"];
    assert path[|o|] == '_';
  }

  /** Round trip: the keystore database named after a user's id parses back
      to that user's organization, device id and name (each after
      generateId's fallbacks), provided none of them contains `_`. */
  lemma KeystoreNameRoundTrip(organization: JsVal, deviceId: JsVal, name: JsVal)
    requires '_' !in Or(organization, IdFallbackOrganization)
    requires '_' !in ToStr(deviceId)
    requires '_' !in Or(name, IdFallbackName)
    ensures DeserializeUser(KeystoreName(ComposeId(organization, deviceId, name)))
            == ParsedUser(Str(Or(organization, IdFallbackOrganization)), Str(ToStr(deviceId)), Str(Or(name, IdFallbackName)))
  {
    var o, d, n := Or(organization, IdFallbackOrganization), ToStr(deviceId), Or(name, IdFallbackName);
    assert KeystoreName(ComposeId(organization, deviceId, name)) == o + "_" + d + "_" + n + "_keystore";
    PartsRoundTrip(o, d, n);
  }

  /** For a user whose organization, device id and name are set and free of
      `_`, the round trip recovers them exactly. */
  lemma KeystoreNameRecoversUser(organization: string, deviceId: string, name: string)
    requires organization != "" && name != ""
    requires '_' !in organization && '_' !in deviceId && '_' !in name
    ensures DeserializeUser(KeystoreName(ComposeId(Str(organization), Str(deviceId), Str(name))))
            == ParsedUser(Str(organization), Str(deviceId), Str(name))
  {
    KeystoreNameRoundTrip(Str(organization), Str(deviceId), Str(name));
  }

  /** Registering a user's keystore database as an existing database puts
      its name in that user's keystore slot, under the registering device's
      own id whatever device id the name carries. */
  lemma ExistingKeystoreRegistered(t: Table, device: string, keystore: Option<string>, catalog: Option<string>,
                                   organization: JsVal, deviceId: JsVal, name: JsVal)
    requires '_' !in Or(organization, IdFallbackOrganization)
    requires '_' !in ToStr(deviceId)
    requires '_' !in Or(name, IdFallbackName)
    ensures var path := KeystoreName(ComposeId(organization, deviceId, name));
            var found := Lookup(RegisterDatabase(t, device, keystore, catalog, path),
                                Or(organization, IdFallbackOrganization), device, Or(name, IdFallbackName));
            found.Some? && found.value.keystore == Some(path)
  {
    var path := KeystoreName(ComposeId(organization, deviceId, name));
    KeystoreNameRoundTrip(organization, deviceId, name);
    ContainsSuffix(ComposeId(organization, deviceId, name) + "_", "keystore");
    assert path == ComposeId(organization, deviceId, name) + "_" + "keystore";
  }
}
