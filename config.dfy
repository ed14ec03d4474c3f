/**
 * The tool's configuration: built-in defaults, overridden key by key by the
 * `irename` section of the configuration file when that file could be read.
 */
module Configuration {
  import opened Wrappers

  /** A configuration value: the built-in flags are Python booleans, everything read from the file is a string. */
  datatype Value = Flag(flag: bool) | Text(text: string)

  /** Python truthiness of an optional value: `None`, `False` and `''` are false. */
  predicate Truthy(v: Option<Value>): (b: bool)
    ensures b <==> v != None && v != Some(Flag(false)) && v != Some(Text(""))
  {
    match v
    case None => false
    case Some(Flag(b)) => b
    case Some(Text(s)) => s != ""
  }

  /** One INI section as `configparser` presents it: option names to string values. */
  type Section = map<string, string>

  /** A configuration file that `configparser` read: section names to sections. */
  type IniFile = map<string, Section>

  type Environment = map<string, string>

  const SectionName: string := "irename"

  /** `os.environ.get('EDITOR', os.environ.get('VISUAL', 'vim'))`. */
  function DefaultEditor(env: Environment): (editor: string)
    ensures "EDITOR" in env ==> editor == env["EDITOR"]
    ensures "EDITOR" !in env && "VISUAL" in env ==> editor == env["VISUAL"]
    ensures "EDITOR" !in env && "VISUAL" !in env ==> editor == "vim"
  {
    if "EDITOR" in env then env["EDITOR"]
    else if "VISUAL" in env then env["VISUAL"]
    else "vim"
  }

  /** The five settings `get_config` starts from. */
  function Defaults(env: Environment): (d: map<string, Value>)
    ensures d.Keys == {"editor", "editor_arguments", "force", "interactive", "verbose"}
    ensures d["editor"] == Text(DefaultEditor(env))
    ensures forall k | k in d && k != "editor" :: !Truthy(Some(d[k]))
  {
    map[
      "editor" := Text(DefaultEditor(env)),
      "editor_arguments" := Text(""),
      "force" := Flag(false),
      "interactive" := Flag(false),
      "verbose" := Flag(false)
    ]
  }

  /** The section's options laid over the defaults, as strings. */
  function Overlay(defaults: map<string, Value>, section: Section): (m: map<string, Value>)
    ensures m.Keys == defaults.Keys + section.Keys
    ensures forall k | k in section :: m[k] == Text(section[k])
    ensures forall k | k in defaults && k !in section :: m[k] == defaults[k]
  {
    map k | k in defaults.Keys + section.Keys :: if k in section then Text(section[k]) else defaults[k]
  }

  datatype ConfigError = MissingSection

  /** `dict.get(key, default)`, which `Config.get` and `parse_args` both rely on. */
  function Lookup(data: map<string, Value>, key: string, default: Option<Value>): (r: Option<Value>)
    ensures key in data ==> r == Some(data[key])
    ensures key !in data ==> r == default
  {
    if key in data then Some(data[key]) else default
  }

  /** What `get_config` produces: `None` stands for a file that could not be read. */
  function ConfigData(file: Option<IniFile>, env: Environment): Result<map<string, Value>, ConfigError> {
    match file
    case None => Success(Defaults(env))
    case Some(ini) =>
      if SectionName !in ini then Failure(MissingSection)
      else Success(Overlay(Defaults(env), ini[SectionName]))
  }

  /** The `Config` object: a dictionary updated in place by `set`. */
  class Config {
    var data: map<string, Value>

    constructor ()
      ensures data == map[]
    {
      data := map[];
    }

    /** `set(key, value)`. */
    method Set(key: string, value: Value)
      modifies this
      ensures data == old(data)[key := value]
    {
      data := data[key := value];
    }

    /** `get(key, default)`. */
    function Get(key: string, default: Option<Value>): (v: Option<Value>)
      reads this
      ensures key in data ==> v == Some(data[key])
      ensures key !in data ==> v == default
    {
      Lookup(data, key, default)
    }
  }

  /** The options of `section` whose names are in `keys`. */
  function Restrict(section: Section, keys: set<string>): (r: Section)
    ensures r.Keys == section.Keys * keys
    ensures forall k | k in r :: r[k] == section[k]
  {
    map k | k in section && k in keys :: section[k]
  }

  /** Setting one more option of the section extends the overlay by that option. */
  lemma OverlayOneMore(defaults: map<string, Value>, section: Section, done: set<string>, key: string)
    requires key in section
    ensures Overlay(defaults, Restrict(section, done))[key := Text(section[key])] ==
            Overlay(defaults, Restrict(section, done + {key}))
  {
    var lhs := Overlay(defaults, Restrict(section, done))[key := Text(section[key])];
    var rhs := Overlay(defaults, Restrict(section, done + {key}));
    assert lhs.Keys == rhs.Keys;
    forall k | k in lhs ensures lhs[k] == rhs[k] {
    }
  }

  /** `get_config(path)`, with the file already handed over by `configparser` (or `None` if it was not read). */
  method GetConfig(file: Option<IniFile>, env: Environment) returns (r: Result<Config, ConfigError>)
    ensures r.Success? <==> ConfigData(file, env).Success?
    ensures r.Success? ==> fresh(r.value) && r.value.data == ConfigData(file, env).value
  {
    var cfg := new Config();
    cfg.Set("editor", Text(DefaultEditor(env)));
    cfg.Set("editor_arguments", Text(""));
    cfg.Set("force", Flag(false));
    cfg.Set("interactive", Flag(false));
    cfg.Set("verbose", Flag(false));
    assert cfg.data == Defaults(env);
    if file.None? {
      return Success(cfg);
    }
    var ini := file.value;
    if SectionName !in ini {
      return Failure(MissingSection);
    }
    LayOver(cfg, ini[SectionName]);
    r := Success(cfg);
  }

  /** The loop of `get_config` that copies every option of the section into `cfg`. */
  method LayOver(cfg: Config, section: Section)
    modifies cfg
    ensures cfg.data == Overlay(old(cfg.data), section)
  {
    ghost var defaults := cfg.data;
    var pending := section.Keys;
    ghost var done: set<string> := {};
    assert Restrict(section, done) == map[];
    assert Overlay(defaults, map[]) == defaults;
    while pending != {}
      invariant pending == section.Keys - done
      invariant cfg.data == Overlay(defaults, Restrict(section, done))
      decreases pending
    {
      var key :| key in pending;
      OverlayOneMore(defaults, section, done, key);
      cfg.Set(key, Text(section[key]));
      pending := pending - {key};
      done := done + {key};
    }
    assert Restrict(section, done) == section;
  }

  // ---------------------------------------------------------------------
  // Properties of get_config

  /** A configuration file that could not be read yields exactly the defaults. */
  lemma UnreadFileGivesDefaults(env: Environment)
    ensures ConfigData(None, env) == Success(Defaults(env))
    ensures Defaults(env).Keys == {"editor", "editor_arguments", "force", "interactive", "verbose"}
    ensures Defaults(env)["editor"] == Text(DefaultEditor(env))
    ensures Defaults(env)["editor_arguments"] == Text("")
    ensures !Truthy(Some(Defaults(env)["force"]))
    ensures !Truthy(Some(Defaults(env)["interactive"]))
    ensures !Truthy(Some(Defaults(env)["verbose"]))
  {
  }

  /** A file that was read but has no `irename` section is an error, whatever else it holds. */
  lemma MissingSectionIsError(ini: IniFile, env: Environment)
    ensures ConfigData(Some(ini), env).Failure? <==> SectionName !in ini
  {
  }

  /**
   * Otherwise every option of the section overrides the default of the same
   * name, the other defaults stay, and nothing else is added.
   */
  lemma SectionOverridesDefaults(ini: IniFile, env: Environment, key: string)
    requires SectionName in ini
    ensures var m := ConfigData(Some(ini), env).value;
      && (key in ini[SectionName] ==> key in m && m[key] == Text(ini[SectionName][key]))
      && (key !in ini[SectionName] ==> (key in m <==> key in Defaults(env)))
      && (key !in ini[SectionName] && key in Defaults(env) ==> m[key] == Defaults(env)[key])
  {
  }

  /**
   * Values from the file are strings, and every non-empty string is true:
   * `force = no` in the file turns `force` on.
   */
  lemma FileFlagsAreStrings(env: Environment)
    ensures var ini := map[SectionName := map["force" := "no"]];
      Truthy(Some(ConfigData(Some(ini), env).value["force"]))
  {
    var ini := map[SectionName := map["force" := "no"]];
    assert ConfigData(Some(ini), env).value["force"] == Text("no");
  }
}
