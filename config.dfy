/** The two persisted documents, the configuration (`config.json`) and the
    snapshot cache (`mods_cache.json`), and the way the engine reads them:
    a missing, empty or unparseable file falls back to a default, and the
    configuration's keys are read with Python's `dict.get` defaults and
    truthiness. */
module Config {
  import opened Records

  /** A JSON value as `json.loads` returns it (floats are not modelled). */
  datatype Json =
    | JNull
    | JBool(b: bool)
    | JNum(n: int)
    | JStr(s: string)
    | JArray(items: seq<Json>)
    | JObject(fields: map<string, Json>)

  /** The configuration dictionary. */
  type Config = map<string, Json>

  /** A persisted document: absent, present but empty, blank or not valid
      JSON (`json.loads` raises on all three, so the blank test before it
      changes nothing), or a parsed value. */
  datatype Stored<T> = Missing | Unreadable | Written(value: T)

  /** Python truthiness of a JSON value. */
  predicate Truthy(v: Json)
  {
    match v
    case JNull => false
    case JBool(b) => b
    case JNum(n) => n != 0
    case JStr(s) => s != ""
    case JArray(items) => items != []
    case JObject(fields) => fields != map[]
  }

  /** `config.get(key, default)`. */
  function Get(c: Config, key: string, default: Json): Json
  {
    if key in c then c[key] else default
  }

  /** The configuration `load_config` falls back to. */
  function DefaultConfig(): Config
  {
    map[
      "minecraft_dir" := JStr(""),
      "java_path" := JStr("java"),
      "ram_min" := JStr("2G"),
      "ram_max" := JStr("4G"),
      "last_check" := JStr(""),
      "auto_sync" := JBool(true)
    ]
  }

  /** `load_config`: the stored configuration, or the default one. */
  function LoadConfig(f: Stored<Config>): Config
  {
    if f.Written? then f.value else DefaultConfig()
  }

  /** `load_mods_cache`: the stored snapshot, or the empty one. */
  function LoadModsCache(f: Stored<Cache>): Cache
  {
    if f.Written? then f.value else map[]
  }

  /** `if config.get('auto_sync', True)`. */
  predicate AutoSync(c: Config)
  {
    Truthy(Get(c, "auto_sync", JBool(true)))
  }

  /** `config.get('minecraft_dir', '')` as a path, "" when it is unset or
      falsy. */
  function Destination(c: Config): string
  {
    var v := Get(c, "minecraft_dir", JStr(""));
    if v.JStr? then v.s else ""
  }

  /** A missing, empty or corrupt configuration file reads as the default:
      auto-sync on, no destination, every documented key present. */
  lemma LoadConfigFallback(f: Stored<Config>)
    requires !f.Written?
    ensures LoadConfig(f).Keys == {"minecraft_dir", "java_path", "ram_min", "ram_max", "last_check", "auto_sync"}
    ensures AutoSync(LoadConfig(f)) && Destination(LoadConfig(f)) == ""
    ensures Get(LoadConfig(f), "java_path", JNull) == JStr("java")
    ensures Get(LoadConfig(f), "ram_min", JNull) == JStr("2G") && Get(LoadConfig(f), "ram_max", JNull) == JStr("4G")
    ensures Get(LoadConfig(f), "last_check", JNull) == JStr("")
  {
  }

  /** Stamping `last_check` after a check, then reading the file back,
      changes no other setting: the next check syncs, or not, to the same
      destination. */
  lemma StampKeepsSettings(f: Stored<Config>, now: string)
    ensures var c := LoadConfig(f);
      var stamped := LoadConfig(Written(c["last_check" := JStr(now)]));
      && stamped.Keys == c.Keys + {"last_check"}
      && (forall k | k in c && k != "last_check" :: stamped[k] == c[k])
      && Get(stamped, "last_check", JNull) == JStr(now)
      && AutoSync(stamped) == AutoSync(c)
      && Destination(stamped) == Destination(c)
  {
  }
}
