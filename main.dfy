/**
 * `main()`: configuration, arguments, the edit session, the line-count
 * check and the reconciliation pass, as one run of the tool.
 */
module Irename {
  import opened Wrappers
  import opened Text
  import opened FileSystem
  import opened Configuration
  import opened Ordering
  import opened Arguments
  import opened EditBuffer
  import opened Reconciler

  /** How a run ends: its exit status and the world it leaves. */
  datatype Exit = Exit(code: int, world: World)

  /** The traceback of the uncaught `ConfigError` ends with this line. */
  const ConfigErrorMessage: string := "ConfigError: Missing 'irename' section in config file"
  /** `p.error` prints the usage and this line, and exits with status 2. */
  const NoFilesMessage: string := "error: Can't find any files"
  const LineCountMessage: string := "Number of lines does not match"

  function Complain(w: World, message: string): World {
    w.(events := w.events + [Complained(message)])
  }

  /** The pass's policy: the truth values of `args.force`, `args.interactive` and `args.verbose`. */
  function PolicyOf(args: Args): (p: Policy)
    ensures p.force <==> Truthy(args.force)
    ensures p.interactive <==> Truthy(args.interactive)
    ensures p.verbose <==> Truthy(args.verbose)
  {
    Policy(Truthy(args.force), Truthy(args.interactive), Truthy(args.verbose))
  }

  /**
   * A whole run. `edit` is the editing session: it maps the buffer written
   * to the temporary file to the text found there once the editor exits.
   */
  function Run(file: Option<IniFile>, env: Environment, cli: CommandLine, globbed: seq<string>,
               edit: string -> string, w: World): Exit
  {
    match ConfigData(file, env)
    case Failure(_) => Exit(1, Complain(w, ConfigErrorMessage))
    case Success(defaults) =>
      match ParseArgs(cli, defaults, globbed)
      case Failure(_) => Exit(2, Complain(w, NoFilesMessage))
      case Success(args) =>
        var newNames := ReadCandidates(edit(Join(args.files)));
        if |args.files| != |newNames| then Exit(1, Complain(w, LineCountMessage))
        else
          var o := Reconciled(PolicyOf(args), w, args.files, newNames);
          Exit(if o.status.Done? then 0 else 1, o.world)
  }

  /** `main()`. */
  method IrenameMain(file: Option<IniFile>, env: Environment, cli: CommandLine, globbed: seq<string>,
                     edit: string -> string, w0: World) returns (e: Exit)
    ensures e == Run(file, env, cli, globbed, edit, w0)
  {
    var config := GetConfig(file, env);
    if config.Failure? {
      return Exit(1, Complain(w0, ConfigErrorMessage));
    }
    var parsed := ParseArgs(cli, config.value.data, globbed);
    if parsed.Failure? {
      return Exit(2, Complain(w0, NoFilesMessage));
    }
    var args := parsed.value;
    var newNames := ReadCandidates(edit(Join(args.files)));
    if |args.files| != |newNames| {
      return Exit(1, Complain(w0, LineCountMessage));
    }
    var o := Reconcile(PolicyOf(args), w0, args.files, newNames);
    e := Exit(if o.status.Done? then 0 else 1, o.world);
  }

  // ---------------------------------------------------------------------
  // Properties of a run

  /** Each setting of the pass is on exactly when its flag was given or the configuration turns it on. */
  lemma ParsedPolicy(cli: CommandLine, defaults: map<string, Value>, globbed: seq<string>)
    requires ParseArgs(cli, defaults, globbed).Success?
    ensures PolicyOf(ParseArgs(cli, defaults, globbed).value) == Policy(
      cli.force || Truthy(Lookup(defaults, "force", None)),
      cli.interactive || Truthy(Lookup(defaults, "interactive", None)),
      cli.verbose || Truthy(Lookup(defaults, "verbose", None)))
  {
  }

  /** A configuration file without an `irename` section stops the run before anything is read or changed. */
  lemma ConfigErrorStopsRun(ini: IniFile, env: Environment, cli: CommandLine, globbed: seq<string>,
                            edit: string -> string, w: World)
    requires SectionName !in ini
    ensures Run(Some(ini), env, cli, globbed, edit, w) == Exit(1, Complain(w, ConfigErrorMessage))
  {
  }

  /** With no file named and none found, the run is a usage error and touches nothing. */
  lemma NoFilesStopsRun(file: Option<IniFile>, env: Environment, cli: CommandLine, edit: string -> string, w: World)
    requires ConfigData(file, env).Success? && cli.files == []
    ensures Run(file, env, cli, [], edit, w) == Exit(2, Complain(w, NoFilesMessage))
  {
  }

  /**
   * When the edited text has a different number of lines than there are
   * files, the run exits with status 1 and an error message, before any
   * prompt and any change to the filesystem.
   */
  lemma LineCountMismatchChangesNothing(file: Option<IniFile>, env: Environment, cli: CommandLine,
                                         globbed: seq<string>, edit: string -> string, w: World)
    requires ConfigData(file, env).Success?
    requires ParseArgs(cli, ConfigData(file, env).value, globbed).Success?
    requires var files := ParseArgs(cli, ConfigData(file, env).value, globbed).value.files;
      |ReadCandidates(edit(Join(files)))| != |files|
    ensures var e := Run(file, env, cli, globbed, edit, w);
      e.code == 1 && e.world.fs == w.fs && e.world.stdin == w.stdin &&
      e.world.events == w.events + [Complained(LineCountMessage)]
  {
  }

  /**
   * Saving the buffer unchanged, with or without a final newline, renames
   * nothing, asks nothing and exits with status 0, provided every path fits
   * on one line without surrounding whitespace (and, without the final
   * newline, some path is not empty: the empty path sorts first, so the
   * last line of the buffer is then not empty and is not lost).
   */
  lemma UnchangedBufferRenamesNothing(file: Option<IniFile>, env: Environment, cli: CommandLine,
                                       globbed: seq<string>, eol: bool, w: World)
    requires ConfigData(file, env).Success?
    requires cli.files != [] || globbed != []
    requires var chosen := if cli.files != [] then cli.files else globbed;
      forall i | 0 <= i < |chosen| :: OneLine(chosen[i]) && Trimmed(chosen[i])
    requires var chosen := if cli.files != [] then cli.files else globbed;
      !eol ==> exists i | 0 <= i < |chosen| :: chosen[i] != []
    ensures Run(file, env, cli, globbed, t => t + (if eol then "\n" else ""), w) == Exit(0, w)
  {
    var chosen := if cli.files != [] then cli.files else globbed;
    var args := ParseArgs(cli, ConfigData(file, env).value, globbed).value;
    SameElementsKeepLines(args.files, chosen);
    if !eol {
      LastPathNonEmpty(args.files, chosen);
    }
    UnchangedBufferIsIdentity(args.files, eol);
    IdentityEditIsNoop(PolicyOf(args), w, args.files);
  }

  /** A permutation of paths that each fit on one line is a list of such paths, and empty only if they were. */
  lemma SameElementsKeepLines(files: seq<string>, chosen: seq<string>)
    requires multiset(files) == multiset(chosen) && chosen != []
    requires forall i | 0 <= i < |chosen| :: OneLine(chosen[i]) && Trimmed(chosen[i])
    ensures files != []
    ensures forall i | 0 <= i < |files| :: OneLine(files[i]) && Trimmed(files[i])
  {
    assert chosen[0] in multiset(chosen);
    forall i | 0 <= i < |files| ensures OneLine(files[i]) && Trimmed(files[i]) {
      assert files[i] in multiset(chosen);
      var j :| 0 <= j < |chosen| && chosen[j] == files[i];
    }
  }

  lemma LastPathNonEmpty(files: seq<string>, chosen: seq<string>)
    requires multiset(files) == multiset(chosen) && Sorted(files)
    requires exists i | 0 <= i < |chosen| :: chosen[i] != []
    ensures files != [] && files[|files| - 1] != []
  {
    var i :| 0 <= i < |chosen| && chosen[i] != [];
    assert chosen[i] in multiset(files);
    SortedLastNonEmpty(files, chosen[i]);
  }

  /**
   * Stripping applies to every line, including lines the user did not touch:
   * a path with surrounding whitespace, saved unchanged, is renamed to its
   * stripped form.
   */
  lemma PaddedPathIsRenamed(env: Environment, e: Entry, stdin: seq<string>)
    ensures Run(None, env, CommandLine(None, None, false, false, false, [" a"]), [], t => t,
                World(map[" a" := e], stdin, []))
         == Exit(0, World(map["a" := e], stdin, [Moved(" a", "a")]))
  {
    var cli := CommandLine(None, None, false, false, false, [" a"]);
    var args := ParseArgs(cli, Defaults(env), []).value;
    assert Sort([" a"]) == [" a"];
    assert PolicyOf(args) == Policy(false, false, false);
    assert OneLine(" a");
    SingleLineReadsStripped(" a");
    PaddedStrip();
    PaddedMove(e, stdin);
  }

  lemma PaddedMove(e: Entry, stdin: seq<string>)
    ensures Reconciled(Policy(false, false, false), World(map[" a" := e], stdin, []), [" a"], ["a"])
         == Outcome(World(map["a" := e], stdin, [Moved(" a", "a")]), Done)
  {
    var fs := map[" a" := e];
    assert !Exists(fs, "a") && !IsDir(fs, "a");
    assert (fs - {" a"})["a" := e] == map["a" := e];
  }
}
