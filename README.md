# irename, modelled in Dafny

`irename` renames files in bulk through a text editor. It writes the list of
paths to a temporary file, one per line, opens the file in the user's
editor, reads the edited lines back and then walks the original paths and
the edited names in step. Each changed pair is renamed, possibly after a
prompt. The settings `force`, `interactive` and `verbose` come from the
command line, else from the `irename` section of `~/.irename.rc`, else from
built-in defaults.

This project models that core:

- `Configuration` (config.dfy): the `Config` dictionary class, `get_config`
  as a method that fills a `Config` object key by key, and `ConfigData`,
  the configuration it produces.
- `Arguments` (args.dfy): how `parse_args` takes its defaults from the
  configuration dictionary, how its `store_true` flags behave, the default
  file set when no file is named, and the sort of the file list.
- `EditBuffer` (buffer.dfy): the buffer written as `"\n".join(files)`, then
  read back in text mode (universal newlines), line by line, with every line
  stripped (`Text.Strip`, Python's `str.strip`).
- `Reconciler` (reconcile.dfy): the loop of `main()`. Its state is a
  `World`: the filesystem as a map from path to entry, the answers still
  unread on standard input, and the list of events so far. The events are
  the questions `input` writes (their text is `PromptText`), the
  "Renaming" line, error lines, removals and moves. An event carries its
  question or its pair of paths as data; `PromptText` and `RenamingLine`
  only record the text the terminal shows for them, and no property
  depends on that text. `ReconcilePair` runs one pair with the source's `agree` and `asked` flags. `Reconcile` is
  the loop. Each is proved equal to a specification function: `PairOutcome`
  states which single prompt a pair shows (`PromptFor`), and `Reconciled`
  folds the pairs in list order. The lemmas then state the tool's policy
  about these functions.
- `Irename` (main.dfy): one whole run (`Run`, implemented by `IrenameMain`).
  The order is configuration, arguments, edit session, line-count check,
  pass. The editor session is a parameter `edit`: a function from the text
  written to the temporary file to the text found there afterwards.

The model follows the code where its behaviour differs from what its
prompts and option names suggest:

- The rename prompt is labelled `(Y/n)`, but only `y` or `yes` in any case
  agrees. An empty answer therefore declines (`Text.IsYes`,
  `Reconciler.InteractivePrompt`).
- `parse_args` looks up `editor-arguments`, while `get_config` stores
  `editor_arguments`. So the configured editor arguments reach the editor
  only when the file spells the option with a dash
  (`Arguments.ConfiguredEditorArguments`).
- Values read from the file are strings, and Python treats any non-empty
  string as true. So `force = no` in the file turns `force` on
  (`Configuration.FileFlagsAreStrings`).
- Every line read back is stripped, including lines the user did not touch.
  A path with surrounding whitespace, such as ` a`, saved unchanged is
  therefore renamed to its stripped form `a`
  (`Irename.PaddedPathIsRenamed`).
- A missing section raises `ConfigError`, which nobody catches. The run
  ends with status 1 and a traceback, modelled as one error line.

## Model

| member | source | states |
|---|---|---|
| `Text.Strip` | irename/__main__.py:122 | the stripped line is the slice of the line after its leading whitespace, only whitespace follows it, and it has no whitespace at either end (Python's `isspace` set) |
| `Text.StripFramed` | irename/__main__.py:122 | whatever is framed by whitespace and has no whitespace at its ends is exactly what `strip()` returns |
| `Text.StripIdempotent` | irename/__main__.py:122 | stripping twice is stripping once |
| `Text.StripUnchangedIff` | irename/__main__.py:122 | `strip()` leaves a string unchanged exactly when it does not start or end with whitespace |
| `Text.StripNewline` | irename/__main__.py:122 | the newline that ends a line read from the file makes no difference to its stripped value |
| `Text.Lower` | irename/__main__.py:135 | `lower()` keeps the length, lowers each character in place, and leaves no ASCII capital |
| `Text.IsYes` | irename/__main__.py:135 | `answer.lower() in ('y', 'yes')` holds exactly for the ten case spellings of `y` and `yes` |
| `Text.EmptyAnswerDeclines` | irename/__main__.py:139 | the empty answer does not agree |
| `EditBuffer.Join` | irename/__main__.py:108 | the buffer is every path followed by a newline, except that the last path has none |
| `EditBuffer.Translate` | irename/__main__.py:121 | reading in text mode leaves no carriage return |
| `EditBuffer.TranslateCRLF` | irename/__main__.py:121 | a `\r\n` read in text mode becomes one `\n`, and the text before it is kept |
| `EditBuffer.TranslateCR` | irename/__main__.py:121 | a lone `\r`, with no `\n` after it, also becomes `\n` |
| `EditBuffer.CRLFBufferReadsSame` | irename/__main__.py:121-122 | a buffer an editor saves with `\r\n` line endings yields the same candidates as the one saved with `\n` endings |
| `EditBuffer.SplitLines` | irename/__main__.py:122 | iterating over the file yields lines that concatenate back to the text; none is empty, a newline can only end a line, and every line but the last ends with one |
| `EditBuffer.SplitConcat` | irename/__main__.py:122 | conversely, such lines are exactly what iterating over their concatenation yields |
| `EditBuffer.ReadCandidates` | irename/__main__.py:121-122 | one candidate per line of the edited text, each that line stripped, so none has surrounding whitespace |
| `EditBuffer.UnchangedBufferReadsBack` | irename/__main__.py:108-122 | reading back the buffer saved unchanged (with a final newline, or without one when the last path is not empty) yields the paths, each stripped, when no path contains a line break |
| `EditBuffer.UnchangedBufferIsIdentity` | irename/__main__.py:108-122 | for paths without line breaks or surrounding whitespace, the unchanged buffer yields the paths themselves |
| `EditBuffer.EmptyLastPathLosesLine` | irename/__main__.py:108-126 | any list of one-line paths whose last path is empty yields one candidate fewer than there are paths when saved unchanged without a final newline; after the sort of :95 the empty path comes first, so in a run this happens only when every path is empty (`Ordering.SortedLastNonEmpty`) |
| `EditBuffer.SingleLineReadsStripped` | irename/__main__.py:108-122 | a one-path buffer saved unchanged reads back as that path stripped |
| `Ordering.LessEqTotal` | irename/__main__.py:95 | any two strings are comparable under Python's ordering of strings |
| `Ordering.LessEqAntisymmetric` | irename/__main__.py:95 | strings that compare both ways are equal |
| `Ordering.LessEqTransitive` | irename/__main__.py:95 | the ordering is transitive |
| `Ordering.Insert` | irename/__main__.py:95 | inserting into a sorted list keeps it sorted and adds exactly that element |
| `Ordering.Sort` | irename/__main__.py:95 | `files.sort()` leaves a sorted permutation of the list |
| `Ordering.SortedPermutationUnique` | irename/__main__.py:95 | two sorted lists with the same elements are equal, so `Sort` agrees with `list.sort` whatever algorithm it uses |
| `Ordering.SortedLastNonEmpty` | irename/__main__.py:95 | the empty string sorts first: a sorted list holding a non-empty string ends in one |
| `Ordering.SortSorted` | irename/__main__.py:95 | sorting a sorted list changes nothing |
| `FileSystem.Exists` | irename/__main__.py:134 | `os.path.exists`: a path present in the filesystem; the empty path never exists |
| `FileSystem.IsDir` | irename/__main__.py:146 | `os.path.isdir`: a directory present in the filesystem, and so an existing path |
| `FileSystem.RemoveTree` | irename/__main__.py:146-147 | after `rmtree` the directory is gone and no other path changed |
| `FileSystem.Move` | irename/__main__.py:149 | the move succeeds exactly when the source exists (the empty path never does), the destination is not empty, and no directory is moved onto a file; afterwards the source is gone, the destination holds the source's entry, and no other path changed |
| `Configuration.DefaultEditor` | irename/__main__.py:50 | the editor is `EDITOR` if set, else `VISUAL` if set, else `vim` |
| `Configuration.Defaults` | irename/__main__.py:49-54 | the defaults are exactly the five keys; `editor` is the environment's editor, and every other default is false |
| `Configuration.Lookup` | irename/__main__.py:42 | `dict.get(key, default)`: the stored value when the key is present, the default otherwise |
| `Configuration.Truthy` | irename/__main__.py:134-143 | Python truthiness as `if` applies it to `args.force`, `args.interactive` and `args.verbose`: `None`, `False` and `''` are false, every other value is true |
| `Configuration.Overlay` | irename/__main__.py:62-63 | the keys are the defaults' and the section's; a section option overrides the default of the same name, and other defaults stay |
| `Configuration.Config.constructor` | irename/__main__.py:35-36 | a new `Config` holds an empty dictionary |
| `Configuration.Config.Set` | irename/__main__.py:38-39 | `set` binds the key to the value and leaves the other entries |
| `Configuration.Config.Get` | irename/__main__.py:41-42 | `get` returns the stored value, or the default when the key is absent |
| `Configuration.LayOver` | irename/__main__.py:62-63 | the loop over the section's options leaves the dictionary equal to the section laid over what it held |
| `Configuration.GetConfig` | irename/__main__.py:45-65 | `get_config` fails exactly when `ConfigData` does, and otherwise returns a new `Config` whose dictionary is `ConfigData`'s |
| `Configuration.UnreadFileGivesDefaults` | irename/__main__.py:49-57 | a file that could not be read yields exactly the five defaults: the environment's editor, empty editor arguments, and false `force`, `interactive` and `verbose` |
| `Configuration.MissingSectionIsError` | irename/__main__.py:59-60 | a file that was read is an error exactly when it has no `irename` section |
| `Configuration.SectionOverridesDefaults` | irename/__main__.py:62-63 | each option of the section overrides the default of the same name; any other key is present exactly when it is a default, with the default value |
| `Configuration.FileFlagsAreStrings` | irename/__main__.py:62-63 | `force = no` in the file makes `force` true |
| `Arguments.StoreTrue` | irename/__main__.py:77-82 | a `store_true` option is true exactly when it was given or its configured default is true |
| `Arguments.StoreString` | irename/__main__.py:73-76 | a string option is the given string, otherwise its default |
| `Arguments.ParseArgs` | irename/__main__.py:68-97 | the result is a usage error exactly when no file was named and none was found; otherwise the files are a sorted permutation of the named files (or the found ones when none was named), and each flag is true exactly when given or configured true |
| `Arguments.ConfiguredEditorArguments` | irename/__main__.py:75 | without `-c`, the editor arguments are the file's `editor-arguments` option when it has one, and `None` otherwise, whatever `editor_arguments` says |
| `Arguments.EditorPrecedence` | irename/__main__.py:73 | the editor is the one given with `-e`, else the configured one, else the environment's |
| `Arguments.FilesAreSorted` | irename/__main__.py:89-95 | the file list is the sorted named list, or the sorted found list when none was named |
| `Reconciler.PromptFor` | irename/__main__.py:132-140 | a pair shows a prompt exactly when `force` is off and the destination exists, or `interactive` is on; the overwrite question is the one shown exactly when its condition holds, so it takes precedence; both are about this pair's paths |
| `Reconciler.Input` | irename/__main__.py:135 | `input` writes the prompt, then consumes the first unread answer, or finds none |
| `Reconciler.ReconcilePair` | irename/__main__.py:129-149 | the flag-driven body of the loop computes exactly `PairOutcome` |
| `Reconciler.Reconcile` | irename/__main__.py:128-149 | the loop computes exactly `Reconciled`: pairs in list order, each on the world the earlier ones left, stopping at the first exception |
| `Reconciler.UnchangedPairSkipped` | irename/__main__.py:129-130 | a pair whose edited name equals the original changes nothing, prompts nothing and prints nothing |
| `Reconciler.Execute` | irename/__main__.py:142-149 | executing an agreed pair reads no answer, fails only with a move error for that pair, and for a changed pair succeeds exactly when the source exists, the destination is not empty, and no directory would land on a file |
| `Reconciler.ExecuteEffect` | irename/__main__.py:142-149 | an agreed pair removes a directory at the destination exactly when there is one, whatever `force` is; on success the source is gone, the destination holds the source's entry and no other path changed; the events are the optional line, the removal and the move in that order; a failed move keeps the removal |
| `Reconciler.OverwritePromptTakesPrecedence` | irename/__main__.py:134-140 | with `force` off and the destination present, only the overwrite prompt is shown and `interactive` makes no difference; one answer is consumed; declining changes nothing; agreeing executes without a line |
| `Reconciler.InteractivePrompt` | irename/__main__.py:138-139 | when no overwrite prompt applies and `interactive` is on, the rename prompt is shown and the pair goes ahead exactly when the answer is `y` or `yes`; an empty answer leaves the filesystem unchanged |
| `Reconciler.NoPromptProceeds` | irename/__main__.py:132-144 | when neither prompt applies, no answer is read and the pair executes, announced exactly when `verbose` is on |
| `Reconciler.RenamingLineOnlyWithoutPrompt` | irename/__main__.py:143-144 | the "Renaming" line appears exactly for a changed pair in verbose mode that showed no prompt |
| `Reconciler.ForceReplacesDirectory` | irename/__main__.py:134-149 | with `force` on, `interactive` off and a directory at the destination, nothing is asked; the directory is removed and the source moved into its place (with `interactive` on, the rename question is still asked) |
| `Reconciler.PairFrame` | irename/__main__.py:132-149 | a pair reads at most one answer, only appends to the output, and changes no path other than its own two |
| `Reconciler.IdentityEditIsNoop` | irename/__main__.py:128-130 | when every name is unchanged the pass does nothing; run twice, it is a no-op both times |
| `Reconciler.ReconciledAppend` | irename/__main__.py:128-149 | the pass over a list is the pass over its first part followed, unless that failed, by the pass over the rest on the world it left |
| `Reconciler.ReconciledFrame` | irename/__main__.py:128-149 | the pass reads at most one answer per pair, in order, only appends to the output, and leaves every path that is neither an original nor an edited name as it was |
| `Reconciler.RenameOneOfTwo` | irename/__main__.py:128-149 | `[a.txt, b.txt]` edited to `[a.txt, c.txt]` with no flags moves only `b.txt` to `c.txt`, without a prompt |
| `Reconciler.SwapAsksThenLosesEntry` | irename/__main__.py:128-149 | swapping `x` and `y` asks to overwrite `y` at the first pair; agreeing then moves `y` back to `x` unasked, and the entry that was at `y` is lost |
| `Irename.PolicyOf` | irename/__main__.py:134-143 | the pass's `force`, `interactive` and `verbose` are the truth values of `args.force`, `args.interactive` and `args.verbose` |
| `Irename.ParsedPolicy` | irename/__main__.py:77-82 | after parsing, each setting of the pass is on exactly when its flag was given or its configured value is truthy |
| `Irename.IrenameMain` | irename/__main__.py:100-149 | `main()` computes exactly `Run`: configuration, arguments, edit session, line-count check, pass |
| `Irename.ConfigErrorStopsRun` | irename/__main__.py:103 | a file without an `irename` section ends the run with status 1 before anything else happens |
| `Irename.NoFilesStopsRun` | irename/__main__.py:89-93 | with no file named and none found the run ends with status 2 and touches nothing |
| `Irename.LineCountMismatchChangesNothing` | irename/__main__.py:124-126 | a line count that differs from the file count ends the run with status 1 and an error line, without any prompt or filesystem change |
| `Irename.UnchangedBufferRenamesNothing` | irename/__main__.py:106-130 | a buffer saved unchanged renames nothing, asks nothing and exits 0, for paths without line breaks or surrounding whitespace (and, when no final newline is added, with at least one path not empty) |
| `Irename.PaddedPathIsRenamed` | irename/__main__.py:108-149 | a file ` a` whose line is saved unchanged is moved to `a`, with status 0 |

## Left out

- The temporary file: its creation, the `atexit` cleanup that ignores every error, and the verbose message naming it (irename/__main__.py:14-27, 106-111). These are I/O plumbing. The model passes the written buffer straight to `edit`.
- Launching the editor and waiting for it, and the `shlex` splitting of the editor arguments (irename/__main__.py:113-119). This is process I/O and a library. A failure to launch the editor is not modelled.
- How `argparse` parses the command line, with `--version`, help and the usage text (irename/__main__.py:72-87). `CommandLine` is the parsed result. `p.error` is modelled as exit status 2 with one error line.
- The `glob` call for the default file set (irename/__main__.py:90). Its result is the parameter `globbed`.
- INI parsing by `configparser`. `IniFile` is what it hands over, with option names already normalised and the DEFAULT section already merged. A file that exists but does not parse, which raises an error outside `get_config`'s checks, is not modelled.
- Interpolation by `configparser` when a value is read (irename/__main__.py:63): `Overlay` takes the values as already interpolated. The `InterpolationSyntaxError` that a lone `%` raises is not modelled, and neither is `%%` reading as `%`.
- Reading the temporary file back (irename/__main__.py:121) cannot fail in the model, since `edit` is a total function. The error `open` raises when the editor removed the file is not modelled.
- Encodings: the buffer is written and read as text, and decoding is not modelled.
- The full Python traceback of an uncaught exception is modelled only as exit status 1, plus one error line for `ConfigError`.
- FileSystem.Move: models `shutil.move` only for a destination that is not a directory. This is the only case the loop produces, since it removes a directory destination first. The failure cases modelled are a missing source, an empty destination, and a directory moved onto an existing file. Permissions, cross-device moves and missing parent directories are not modelled.
- FileSystem.RemoveTree: `rmtree` never fails in the model.
- The namespace is flat. A directory's entry stands for everything below it. Paths that name the same file differently (`./a` and `a`) are different keys, and so are paths nested in a listed directory. Symbolic links are not modelled.
- Text.Lower: lowers ASCII letters only (`Text.LowerChar`). No other character lowers to `y`, `e` or `s`, so the agreement test is exact.
