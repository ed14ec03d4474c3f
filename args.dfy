/**
 * `parse_args`: the command line as `argparse` hands it over, with the
 * configuration supplying the default of every option that was not given,
 * the default file set used when no file was named, and the file list sorted.
 */
module Arguments {
  import opened Wrappers
  import opened Configuration
  import opened Ordering

  /** What was given on the command line: `None` or `false` for an option that was not. */
  datatype CommandLine = CommandLine(
    editor: Option<string>,            // --editor, -e
    editorArguments: Option<string>,   // --editor-arguments, -c
    verbose: bool,                     // --verbose, -v
    interactive: bool,                 // --interactive, -i
    force: bool,                       // --force, -f
    files: seq<string>)

  /** The parsed `args` namespace; an option's value is whatever its default was when it was not given. */
  datatype Args = Args(
    editor: Option<Value>,
    editorArguments: Option<Value>,
    verbose: Option<Value>,
    interactive: Option<Value>,
    force: Option<Value>,
    files: seq<string>)

  datatype UsageError = NoFiles

  /** A `store_true` option: `True` when given, otherwise its default. */
  function StoreTrue(given: bool, default: Option<Value>): (v: Option<Value>)
    ensures Truthy(v) <==> given || Truthy(default)
  {
    if given then Some(Flag(true)) else default
  }

  /** A string option: the given string, otherwise its default. */
  function StoreString(given: Option<string>, default: Option<Value>): (v: Option<Value>)
    ensures given.Some? ==> v == Some(Text(given.value))
    ensures given.None? ==> v == default
  {
    if given.Some? then Some(Text(given.value)) else default
  }

  /**
   * `parse_args(argv, defaults)`, where `globbed` is what globbing the current directory
   * returns. The default of `--editor-arguments` is looked up under the
   * key `editor-arguments`.
   */
  function ParseArgs(cli: CommandLine, defaults: map<string, Value>, globbed: seq<string>): (r: Result<Args, UsageError>)
    ensures r.Failure? <==> cli.files == [] && globbed == []
    ensures r.Success? ==> Sorted(r.value.files)
    ensures r.Success? ==> multiset(r.value.files) == multiset(if cli.files != [] then cli.files else globbed)
    ensures r.Success? ==> (Truthy(r.value.verbose) <==> cli.verbose || Truthy(Lookup(defaults, "verbose", None)))
    ensures r.Success? ==> (Truthy(r.value.interactive) <==> cli.interactive || Truthy(Lookup(defaults, "interactive", None)))
    ensures r.Success? ==> (Truthy(r.value.force) <==> cli.force || Truthy(Lookup(defaults, "force", None)))
  {
    var files := if cli.files != [] then cli.files else globbed;
    if files == [] then Failure(NoFiles)
    else Success(Args(
      StoreString(cli.editor, Lookup(defaults, "editor", None)),
      StoreString(cli.editorArguments, Lookup(defaults, "editor-arguments", None)),
      StoreTrue(cli.verbose, Lookup(defaults, "verbose", None)),
      StoreTrue(cli.interactive, Lookup(defaults, "interactive", None)),
      StoreTrue(cli.force, Lookup(defaults, "force", None)),
      Sort(files)))
  }

  /**
   * The editor arguments from the configuration never reach the editor
   * unless the file spells the option `editor-arguments`: `get_config`
   * stores `editor_arguments`, which `parse_args` does not look up.
   */
  lemma ConfiguredEditorArguments(cli: CommandLine, file: Option<IniFile>, env: Environment, globbed: seq<string>)
    requires cli.editorArguments.None?
    requires ConfigData(file, env).Success?
    requires ParseArgs(cli, ConfigData(file, env).value, globbed).Success?
    ensures ParseArgs(cli, ConfigData(file, env).value, globbed).value.editorArguments ==
      (if file.Some? && "editor-arguments" in file.value[SectionName]
       then Some(Text(file.value[SectionName]["editor-arguments"]))
       else None)
  {
    var m := ConfigData(file, env).value;
    if file.Some? {
      assert SectionName in file.value;
      SectionOverridesDefaults(file.value, env, "editor-arguments");
    }
    assert "editor-arguments" !in Defaults(env);
  }

  /** An editor given with `-e` wins over the configured one, which wins over the environment. */
  lemma EditorPrecedence(cli: CommandLine, file: Option<IniFile>, env: Environment, globbed: seq<string>)
    requires ConfigData(file, env).Success?
    requires ParseArgs(cli, ConfigData(file, env).value, globbed).Success?
    ensures ParseArgs(cli, ConfigData(file, env).value, globbed).value.editor ==
      (if cli.editor.Some? then Some(Text(cli.editor.value))
       else if file.Some? && "editor" in file.value[SectionName] then Some(Text(file.value[SectionName]["editor"]))
       else Some(Text(DefaultEditor(env))))
  {
    if file.Some? {
      SectionOverridesDefaults(file.value, env, "editor");
    }
  }

  /** The files are the named ones, or the globbed ones when none was named, in ascending order. */
  lemma FilesAreSorted(cli: CommandLine, defaults: map<string, Value>, globbed: seq<string>)
    requires cli.files != [] || globbed != []
    ensures ParseArgs(cli, defaults, globbed).value.files == Sort(if cli.files != [] then cli.files else globbed)
  {
  }
}
