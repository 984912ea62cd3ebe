/**
 * The persisted configuration: its default contents, the removal-confirmation threshold
 * and the migration `load_config` applies to a file written by an older firmware.
 * Reading and writing the JSON file are not modelled: the file's parsed contents are an
 * input and a call to `save_config` is an output.
 */
module Config {
  import opened Wrappers

  /** A JSON value as found in the configuration file. */
  datatype Value = Str(s: string) | Int(n: int) | Bool(b: bool) | Null

  type ConfigMap = map<string, Value>

  /** Consecutive misses after which a slot is confirmed empty. */
  const NFC_MAX_READ_FAILURES: nat := 200

  /** Keys of the default configuration, in the order the source lists them. */
  const DEFAULT_KEYS: seq<string> := [
    "wifi_ssid", "wifi_pass", "nfc_mqtt_topic_base", "mqtt_broker", "mqtt_port",
    "mqtt_user", "mqtt_pass", "mqtt_client_id", "mqtt_topic_temp", "mqtt_topic_humidity"
  ]

  const DEFAULT_CONFIG: ConfigMap := map[
    "wifi_ssid" := Str(""),
    "wifi_pass" := Str(""),
    "nfc_mqtt_topic_base" := Str("ams_sensor/nfc"),
    "mqtt_broker" := Str(""),
    "mqtt_port" := Int(1883),
    "mqtt_user" := Str(""),
    "mqtt_pass" := Str(""),
    "mqtt_client_id" := Str("ams-sensor"),
    "mqtt_topic_temp" := Str("ams_sensor/temperature"),
    "mqtt_topic_humidity" := Str("ams_sensor/humidity")
  ]

  /** Keys of earlier firmware versions that loading removes. */
  const LEGACY_KEYS: seq<string> := ["webhook_url", "nfc_mqtt_enabled", "dht_mqtt_enabled", "mqtt_enabled"]

  lemma {:induction false} DefaultKeysAreDefaultConfig()
    ensures forall k :: k in DEFAULT_CONFIG <==> k in DEFAULT_KEYS
    ensures forall k :: k in LEGACY_KEYS ==> k !in DEFAULT_CONFIG
  {
  }

  lemma {:induction false} DefaultKeysDistinct()
    ensures forall i, j :: 0 <= i < j < |DEFAULT_KEYS| ==> DEFAULT_KEYS[i] != DEFAULT_KEYS[j]
  {
  }

  /** The configuration `load_config` returns for a file that parsed to `loaded`. */
  function Migrate(loaded: ConfigMap): (r: ConfigMap)
    ensures forall k :: k in DEFAULT_CONFIG ==> k in r
    ensures forall k :: k in loaded && k !in LEGACY_KEYS ==> k in r && r[k] == loaded[k]
    ensures forall k :: k in DEFAULT_CONFIG && k !in loaded ==> r[k] == DEFAULT_CONFIG[k]
    ensures forall k :: k in LEGACY_KEYS ==> k !in r
    ensures forall k :: k in r ==> k in loaded || k in DEFAULT_CONFIG
  {
    DefaultKeysAreDefaultConfig();
    (DEFAULT_CONFIG + loaded) - set k | k in LEGACY_KEYS
  }

  /** Whether loading `loaded` changes it, which is when `load_config` writes the file back. */
  predicate NeedsMigration(loaded: ConfigMap) {
    (exists k :: k in DEFAULT_KEYS && k !in loaded) || (exists k :: k in LEGACY_KEYS && k in loaded)
  }

  /**
   * `load_config`: `file` is the parsed configuration file, None when it is missing or
   * not valid JSON. Returns the configuration and what was handed to `save_config`, if anything.
   */
  method LoadConfig(file: Option<ConfigMap>) returns (config: ConfigMap, saved: Option<ConfigMap>)
    ensures file.None? ==> config == DEFAULT_CONFIG && saved == Some(DEFAULT_CONFIG)
    ensures file.Some? ==> config == Migrate(file.value)
    ensures file.Some? ==> (saved.Some? <==> NeedsMigration(file.value))
    ensures saved.Some? ==> saved.value == config
  {
    if file.None? {
      return DEFAULT_CONFIG, Some(DEFAULT_CONFIG);
    }
    var loaded := file.value;
    DefaultKeysAreDefaultConfig();
    var merged, added := AddMissingDefaults(loaded, DEFAULT_KEYS, DEFAULT_CONFIG);
    var removed;
    config, removed := DropLegacyKeys(merged, LEGACY_KEYS);
    MigrateCharacterized(loaded, merged, config);
    MigrationDetected(loaded, merged, config);
    if added || removed {
      saved := Some(config);
    } else {
      saved := None;
    }
  }

  /**
   * The first loop of `load_config`, over `keys` (the default keys): every key the file lacks
   * gets its value from `defaults`.
   */
  method AddMissingDefaults(loaded: ConfigMap, keys: seq<string>, defaults: ConfigMap) returns (config: ConfigMap, migrated: bool)
    requires forall j :: 0 <= j < |keys| ==> keys[j] in defaults
    ensures forall k :: k in config <==> k in loaded || k in keys
    ensures forall k :: k in config ==> config[k] == if k in loaded then loaded[k] else defaults[k]
    ensures migrated <==> config.Keys != loaded.Keys
  {
    config := loaded;
    migrated := false;
    for i := 0 to |keys|
      invariant forall k :: k in config <==> k in loaded || k in keys[..i]
      invariant forall k :: k in config ==> config[k] == if k in loaded then loaded[k] else defaults[k]
      invariant migrated <==> config.Keys != loaded.Keys
    {
      var key := keys[i];
      if key !in config {
        config := config[key := defaults[key]];
        migrated := true;
      }
    }
    assert keys[..|keys|] == keys;
  }

  /** The second loop of `load_config`, over `legacy` (the legacy keys): each one is deleted. */
  method DropLegacyKeys(merged: ConfigMap, legacy: seq<string>) returns (config: ConfigMap, migrated: bool)
    ensures forall k :: k in config <==> k in merged && k !in legacy
    ensures forall k :: k in config ==> config[k] == merged[k]
    ensures migrated <==> config.Keys != merged.Keys
  {
    config := merged;
    migrated := false;
    for i := 0 to |legacy|
      invariant forall k :: k in config <==> k in merged && k !in legacy[..i]
      invariant forall k :: k in config ==> config[k] == merged[k]
      invariant migrated <==> config.Keys != merged.Keys
    {
      var key := legacy[i];
      if key in config {
        config := config - {key};
        migrated := true;
      }
    }
    assert legacy[..|legacy|] == legacy;
  }

  /** `Migrate` is the only map with the key set and values the two loops of `load_config` produce. */
  lemma {:induction false} MigrateCharacterized(loaded: ConfigMap, merged: ConfigMap, config: ConfigMap)
    requires forall k :: k in merged <==> k in loaded || k in DEFAULT_KEYS
    requires forall k :: k in merged ==> merged[k] == if k in loaded then loaded[k] else DEFAULT_CONFIG[k]
    requires forall k :: k in config <==> k in merged && k !in LEGACY_KEYS
    requires forall k :: k in config ==> config[k] == merged[k]
    ensures config == Migrate(loaded)
  {
    DefaultKeysAreDefaultConfig();
    var m := Migrate(loaded);
    assert config.Keys == m.Keys;
    forall k | k in config
      ensures config[k] == m[k]
    {
      if k in loaded {
        assert config[k] == loaded[k];
      } else {
        assert config[k] == DEFAULT_CONFIG[k];
      }
    }
  }

  /** The two loops of `load_config` change the key set exactly when the file needs migrating. */
  lemma {:induction false} MigrationDetected(loaded: ConfigMap, merged: ConfigMap, config: ConfigMap)
    requires forall k :: k in merged <==> k in loaded || k in DEFAULT_KEYS
    requires forall k :: k in config <==> k in merged && k !in LEGACY_KEYS
    ensures NeedsMigration(loaded) <==> merged.Keys != loaded.Keys || config.Keys != merged.Keys
  {
    if !NeedsMigration(loaded) {
      assert merged.Keys == loaded.Keys;
      assert config.Keys == merged.Keys;
    } else if k :| k in DEFAULT_KEYS && k !in loaded {
      assert k in merged.Keys;
    } else {
      var k :| k in LEGACY_KEYS && k in loaded;
      assert k in merged.Keys && k !in config.Keys;
    }
  }

  /** Loading what loading produced changes nothing and writes nothing. */
  lemma {:induction false} MigrateIdempotent(loaded: ConfigMap)
    ensures Migrate(Migrate(loaded)) == Migrate(loaded)
    ensures !NeedsMigration(Migrate(loaded))
  {
    DefaultKeysAreDefaultConfig();
    var m := Migrate(loaded);
    assert Migrate(m) == m;
  }

  /** A file that already holds every default key and no legacy key is returned as it is. */
  lemma {:induction false} MigrateUpToDate(loaded: ConfigMap)
    requires !NeedsMigration(loaded)
    ensures Migrate(loaded) == loaded
  {
    DefaultKeysAreDefaultConfig();
  }
}
