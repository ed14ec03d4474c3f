/**
 * The rename-reconciliation pass: the original paths and the edited names
 * are walked in step, and each changed pair is skipped, confirmed through
 * one prompt, or moved, on a filesystem that earlier pairs have already
 * changed.
 */
module Reconciler {
  import opened Wrappers
  import opened Text
  import opened FileSystem

  /** What the pass shows on standard output and error, and what it does to the filesystem, in order. */
  datatype Event =
    | Asked(prompt: Prompt)          // `input` writes `PromptText(prompt)`
    | Announced(src: Path, dst: Path) // `print` writes `RenamingLine(src, dst)`
    | Complained(message: string)    // a line on standard error
    | Removed(path: Path)            // `shutil.rmtree(path)`
    | Moved(src: Path, dst: Path)    // `shutil.move(src, dst)`

  /** The filesystem, the answers still unread on standard input, and everything emitted so far. */
  datatype World = World(fs: FS, stdin: seq<string>, events: seq<Event>)

  datatype Failure =
    | EndOfInput                                     // `input()` raises EOFError
    | MoveFailed(src: Path, dst: Path, error: MoveError)

  /** A pass either finishes or is cut short by an exception nobody catches. */
  datatype Status = Done | Aborted(failure: Failure)

  datatype Outcome = Outcome(world: World, status: Status)

  /** The resolved `--force`, `--interactive` and `--verbose` settings. */
  datatype Policy = Policy(force: bool, interactive: bool, verbose: bool)

  /** The two questions a pair can ask. */
  datatype Prompt = OverwriteQuestion(dst: Path) | RenameQuestion(src: Path, dst: Path)

  /** The text `input` writes for each question. */
  function PromptText(q: Prompt): string {
    match q
    case OverwriteQuestion(dst) => "Path '" + dst + "' already exists. Overwrite? (y/N) "
    case RenameQuestion(src, dst) => "Rename '" + src + "' -> '" + dst + "'? (Y/n) "
  }

  /** The line `print` writes before an unprompted rename in verbose mode. */
  function RenamingLine(src: Path, dst: Path): string {
    "Renaming " + src + " -> " + dst
  }

  /**
   * The one prompt a changed pair shows, if any: the overwrite question when
   * `force` is off and the destination exists, otherwise the rename question
   * when `interactive` is on.
   */
  function PromptFor(p: Policy, fs: FS, src: Path, dst: Path): (q: Option<Prompt>)
    ensures q.Some? <==> (!p.force && Exists(fs, dst)) || p.interactive
    ensures q.Some? ==> (q.value.OverwriteQuestion? <==> !p.force && Exists(fs, dst))
    ensures q.Some? ==> q.value.dst == dst && (q.value.RenameQuestion? ==> q.value.src == src)
  {
    if !p.force && Exists(fs, dst) then Some(OverwriteQuestion(dst))
    else if p.interactive then Some(RenameQuestion(src, dst))
    else None
  }

  /** `input(prompt)`: the prompt is written, then one line is consumed, or there is none left. */
  datatype Reply = Reply(world: World, answer: Option<string>)

  function Input(w: World, prompt: Prompt): (r: Reply)
    ensures r.world.events == w.events + [Asked(prompt)] && r.world.fs == w.fs
    ensures w.stdin == [] ==> r.answer == None && r.world.stdin == []
    ensures w.stdin != [] ==> r.answer == Some(w.stdin[0]) && r.world.stdin == w.stdin[1..]
  {
    var asked := w.(events := w.events + [Asked(prompt)]);
    if w.stdin == [] then Reply(asked, None)
    else Reply(asked.(stdin := w.stdin[1..]), Some(w.stdin[0]))
  }

  /**
   * An agreed pair: the "Renaming" line when it is to be announced, then
   * removal of a directory at the destination, then the move.
   */
  function Execute(w: World, src: Path, dst: Path, announce: bool): (o: Outcome)
    ensures o.world.stdin == w.stdin
    ensures o.status.Aborted? ==> o.status.failure.MoveFailed? && o.status.failure.src == src && o.status.failure.dst == dst
    ensures src != dst ==> (o.status.Done? <==> MoveSucceeds(w.fs, src, dst))
  {
    var w1 := if announce then w.(events := w.events + [Announced(src, dst)]) else w;
    var w2 := if IsDir(w1.fs, dst) then w1.(fs := RemoveTree(w1.fs, dst), events := w1.events + [Removed(dst)]) else w1;
    match Move(w2.fs, src, dst)
    case Failure(e) => Outcome(w2, Aborted(MoveFailed(src, dst, e)))
    case Success(fs') => Outcome(w2.(fs := fs', events := w2.events + [Moved(src, dst)]), Done)
  }

  /** What one (original, edited) pair does, stated by which prompt it shows. */
  function PairOutcome(p: Policy, w: World, src: Path, dst: Path): Outcome {
    if src == dst then Outcome(w, Done)
    else match PromptFor(p, w.fs, src, dst)
      case None => Execute(w, src, dst, p.verbose)
      case Some(q) =>
        var reply := Input(w, q);
        if reply.answer.None? then Outcome(reply.world, Aborted(EndOfInput))
        else if IsYes(reply.answer.value) then Execute(reply.world, src, dst, false)
        else Outcome(reply.world, Done)
  }

  /** The whole pass: pairs in list order, each on the world the previous ones left, stopping at the first failure. */
  function Reconciled(p: Policy, w: World, srcs: seq<Path>, dsts: seq<Path>): Outcome
    requires |srcs| == |dsts|
    decreases |srcs|
  {
    if srcs == [] then Outcome(w, Done)
    else
      var o := PairOutcome(p, w, srcs[0], dsts[0]);
      if o.status.Aborted? then o else Reconciled(p, o.world, srcs[1..], dsts[1..])
  }

  /** One iteration of the loop, with the `agree` and `asked` flags of the source. */
  method ReconcilePair(p: Policy, w0: World, src: Path, dst: Path) returns (o: Outcome)
    ensures o == PairOutcome(p, w0, src, dst)
  {
    if src == dst {
      return Outcome(w0, Done);
    }
    var w := w0;
    var agree := true;
    var asked := false;
    if !p.force && Exists(w.fs, dst) {
      var reply := Input(w, OverwriteQuestion(dst));
      w := reply.world;
      if reply.answer.None? {
        return Outcome(w, Aborted(EndOfInput));
      }
      agree := IsYes(reply.answer.value);
      asked := true;
    }
    if !asked && p.interactive {
      var reply := Input(w, RenameQuestion(src, dst));
      w := reply.world;
      if reply.answer.None? {
        return Outcome(w, Aborted(EndOfInput));
      }
      agree := IsYes(reply.answer.value);
      asked := true;
    }
    if agree {
      if !asked && p.verbose {
        w := w.(events := w.events + [Announced(src, dst)]);
      }
      if IsDir(w.fs, dst) {
        w := w.(fs := RemoveTree(w.fs, dst), events := w.events + [Removed(dst)]);
      }
      var moved := Move(w.fs, src, dst);
      if moved.Failure? {
        return Outcome(w, Aborted(MoveFailed(src, dst, moved.error)));
      }
      w := w.(fs := moved.value, events := w.events + [Moved(src, dst)]);
    }
    o := Outcome(w, Done);
  }

  /** `for old_name, new_name in zip(files, new_names)`, with the line counts already equal. */
  method Reconcile(p: Policy, w0: World, srcs: seq<Path>, dsts: seq<Path>) returns (o: Outcome)
    requires |srcs| == |dsts|
    ensures o == Reconciled(p, w0, srcs, dsts)
  {
    var w := w0;
    var i := 0;
    while i < |srcs|
      invariant 0 <= i <= |srcs|
      invariant Reconciled(p, w, srcs[i..], dsts[i..]) == Reconciled(p, w0, srcs, dsts)
    {
      var step := ReconcilePair(p, w, srcs[i], dsts[i]);
      assert srcs[i..][1..] == srcs[i + 1..] && dsts[i..][1..] == dsts[i + 1..];
      if step.status.Aborted? {
        return step;
      }
      w := step.world;
      i := i + 1;
    }
    o := Outcome(w, Done);
  }

  // ---------------------------------------------------------------------
  // Properties of one pair

  /** A pair whose edited name equals the original is skipped: no prompt, no line, no change. */
  lemma UnchangedPairSkipped(p: Policy, w: World, src: Path)
    ensures PairOutcome(p, w, src, src) == Outcome(w, Done)
  {
  }

  /** What `Move` needs of the filesystem it is given, stated before any directory is removed. */
  predicate MoveSucceeds(fs: FS, src: Path, dst: Path) {
    Exists(fs, src) && dst != "" && !(fs[src].kind == Dir && dst in fs && fs[dst].kind == File)
  }

  /** The events an agreed pair emits: the optional line, the removal, the move. */
  function ExecuteEvents(fs: FS, src: Path, dst: Path, announce: bool): seq<Event> {
    (if announce then [Announced(src, dst)] else [])
    + (if IsDir(fs, dst) then [Removed(dst)] else [])
    + (if MoveSucceeds(fs, src, dst) then [Moved(src, dst)] else [])
  }

  /** An agreed pair asks nothing, and prints the "Renaming" line exactly when it is announced. */
  lemma ExecuteEventsShape(fs: FS, src: Path, dst: Path, announce: bool)
    ensures Announced(src, dst) in ExecuteEvents(fs, src, dst, announce) <==> announce
    ensures forall e | e in ExecuteEvents(fs, src, dst, announce) :: !e.Asked?
  {
    var a := if announce then [Announced(src, dst)] else [];
    var b := (if IsDir(fs, dst) then [Removed(dst)] else []) + (if MoveSucceeds(fs, src, dst) then [Moved(src, dst)] else []);
    assert ExecuteEvents(fs, src, dst, announce) == a + b;
    assert forall e | e in b :: e.Removed? || e.Moved?;
  }

  /** Whatever is appended after a prefix is what follows it. */
  lemma Suffix<T>(a: seq<T>, b: seq<T>)
    ensures (a + b)[|a|..] == b
  {
  }

  /**
   * An agreed pair: a directory at the destination is removed (and only
   * then), the move succeeds exactly when `MoveSucceeds`, and afterwards the
   * source is gone, the destination holds the source's entry and no other
   * path changed. A removed directory stays removed when the move then fails.
   */
  lemma ExecuteEffect(w: World, src: Path, dst: Path, announce: bool)
    requires src != dst
    ensures Execute(w, src, dst, announce).world.stdin == w.stdin
    ensures Execute(w, src, dst, announce).status.Done? <==> MoveSucceeds(w.fs, src, dst)
    ensures Execute(w, src, dst, announce).world.events == w.events + ExecuteEvents(w.fs, src, dst, announce)
    ensures MoveSucceeds(w.fs, src, dst) ==>
      Execute(w, src, dst, announce).world.fs == (w.fs - {src})[dst := w.fs[src]]
    ensures !MoveSucceeds(w.fs, src, dst) ==>
      Execute(w, src, dst, announce).status.failure.MoveFailed? &&
      Execute(w, src, dst, announce).world.fs == (if IsDir(w.fs, dst) then w.fs - {dst} else w.fs)
  {
    var w1 := if announce then w.(events := w.events + [Announced(src, dst)]) else w;
    var w2 := if IsDir(w1.fs, dst) then w1.(fs := RemoveTree(w1.fs, dst), events := w1.events + [Removed(dst)]) else w1;
    if MoveSucceeds(w.fs, src, dst) {
      assert Move(w2.fs, src, dst).Success?;
      if IsDir(w.fs, dst) {
        assert (w2.fs - {src})[dst := w2.fs[src]] == (w.fs - {src})[dst := w.fs[src]];
      }
    }
  }

  /**
   * With `force` off and the destination present, only the overwrite prompt
   * is shown: the rename question never is (so `interactive` makes no
   * difference), one answer is consumed, declining leaves the filesystem
   * as it was, and agreeing executes the pair without a "Renaming" line.
   */
  lemma OverwritePromptTakesPrecedence(p: Policy, w: World, src: Path, dst: Path)
    requires src != dst && !p.force && Exists(w.fs, dst) && w.stdin != []
    ensures var o := PairOutcome(p, w, src, dst);
      var asked := World(w.fs, w.stdin[1..], w.events + [Asked(OverwriteQuestion(dst))]);
      && o == PairOutcome(p.(interactive := !p.interactive), w, src, dst)
      && (!IsYes(w.stdin[0]) ==> o == Outcome(asked, Done))
      && (IsYes(w.stdin[0]) ==> o == Execute(asked, src, dst, false))
      && Asked(RenameQuestion(src, dst)) !in o.world.events[|w.events|..]
  {
    var q := OverwriteQuestion(dst);
    var tail := if IsYes(w.stdin[0]) then ExecuteEvents(w.fs, src, dst, false) else [];
    OverwriteEvents(p, w, src, dst);
    ExecuteEventsShape(w.fs, src, dst, false);
    assert Asked(RenameQuestion(src, dst)) !in [Asked(q)] + tail by {
      assert forall e | e in [Asked(q)] + tail :: e == Asked(q) || e in tail;
    }
  }

  lemma OverwriteEvents(p: Policy, w: World, src: Path, dst: Path)
    requires src != dst && !p.force && Exists(w.fs, dst) && w.stdin != []
    ensures PairOutcome(p, w, src, dst).world.events[|w.events|..] ==
      [Asked(OverwriteQuestion(dst))] + (if IsYes(w.stdin[0]) then ExecuteEvents(w.fs, src, dst, false) else [])
  {
    var q := OverwriteQuestion(dst);
    var asked := World(w.fs, w.stdin[1..], w.events + [Asked(q)]);
    if IsYes(w.stdin[0]) {
      var tail := ExecuteEvents(w.fs, src, dst, false);
      ExecuteEffect(asked, src, dst, false);
      assert Execute(asked, src, dst, false).world.events == w.events + ([Asked(q)] + tail);
      Suffix(w.events, [Asked(q)] + tail);
    } else {
      Suffix(w.events, [Asked(q)]);
    }
  }

  /**
   * The rename question is asked only when no overwrite question was, and
   * `interactive` is on; the pair goes ahead exactly when the answer is
   * "y" or "yes" in any case, so an empty answer declines.
   */
  lemma InteractivePrompt(p: Policy, w: World, src: Path, dst: Path)
    requires src != dst && (p.force || !Exists(w.fs, dst)) && p.interactive && w.stdin != []
    ensures var o := PairOutcome(p, w, src, dst);
      var asked := World(w.fs, w.stdin[1..], w.events + [Asked(RenameQuestion(src, dst))]);
      && (!IsYes(w.stdin[0]) ==> o == Outcome(asked, Done))
      && (IsYes(w.stdin[0]) ==> o == Execute(asked, src, dst, false))
      && (w.stdin[0] == "" ==> o.world.fs == w.fs)
  {
    EmptyAnswerDeclines();
  }

  /**
   * When neither prompt applies the pair goes ahead without reading an
   * answer (`agree` starts true), announced by a "Renaming" line when
   * `verbose` is on.
   */
  lemma NoPromptProceeds(p: Policy, w: World, src: Path, dst: Path)
    requires src != dst && (p.force || !Exists(w.fs, dst)) && !p.interactive
    ensures PairOutcome(p, w, src, dst) == Execute(w, src, dst, p.verbose)
    ensures PairOutcome(p, w, src, dst).world.stdin == w.stdin
  {
    ExecuteEffect(w, src, dst, p.verbose);
  }

  lemma RenamingLineWithoutPrompt(p: Policy, w: World, src: Path, dst: Path)
    requires src != dst && PromptFor(p, w.fs, src, dst) == None
    ensures var o := PairOutcome(p, w, src, dst);
      |w.events| <= |o.world.events| &&
      (Announced(src, dst) in o.world.events[|w.events|..] <==> p.verbose)
  {
    ExecuteEffect(w, src, dst, p.verbose);
    ExecuteEventsShape(w.fs, src, dst, p.verbose);
    Suffix(w.events, ExecuteEvents(w.fs, src, dst, p.verbose));
  }

  lemma NoRenamingLineAfterPrompt(p: Policy, w: World, src: Path, dst: Path)
    requires src != dst && PromptFor(p, w.fs, src, dst).Some?
    ensures var o := PairOutcome(p, w, src, dst);
      |w.events| <= |o.world.events| &&
      Announced(src, dst) !in o.world.events[|w.events|..]
  {
    var o := PairOutcome(p, w, src, dst);
    var q := PromptFor(p, w.fs, src, dst).value;
    var reply := Input(w, q);
    assert PromptFor(p, w.fs, src, dst) == Some(q);
    if reply.answer.Some? && IsYes(reply.answer.value) {
      assert o == Execute(reply.world, src, dst, false);
      var tail := ExecuteEvents(w.fs, src, dst, false);
      ExecuteEffect(reply.world, src, dst, false);
      ExecuteEventsShape(w.fs, src, dst, false);
      assert o.world.events == w.events + ([Asked(q)] + tail);
      Suffix(w.events, [Asked(q)] + tail);
    } else {
      Suffix(w.events, [Asked(q)]);
    }
  }

  /** The "Renaming" line is printed exactly for a changed pair in verbose mode that showed no prompt. */
  lemma RenamingLineOnlyWithoutPrompt(p: Policy, w: World, src: Path, dst: Path)
    ensures var o := PairOutcome(p, w, src, dst);
      |w.events| <= |o.world.events| &&
      (Announced(src, dst) in o.world.events[|w.events|..] <==>
        src != dst && p.verbose && PromptFor(p, w.fs, src, dst) == None)
  {
    if src != dst {
      if PromptFor(p, w.fs, src, dst) == None {
        RenamingLineWithoutPrompt(p, w, src, dst);
      } else {
        NoRenamingLineAfterPrompt(p, w, src, dst);
      }
    }
  }

  /**
   * With `force` on the overwrite question is never asked; a directory at
   * the destination is removed and the source moved into its place.
   */
  lemma ForceReplacesDirectory(p: Policy, w: World, src: Path, dst: Path)
    requires p.force && !p.interactive && src != dst && dst != ""
    requires IsDir(w.fs, dst) && Exists(w.fs, src)
    ensures var o := PairOutcome(p, w, src, dst);
      && o.status == Done
      && o.world.stdin == w.stdin
      && o.world.fs == (w.fs - {src})[dst := w.fs[src]]
      && o.world.events == w.events
           + (if p.verbose then [Announced(src, dst)] else [])
           + [Removed(dst), Moved(src, dst)]
  {
    ExecuteEffect(w, src, dst, p.verbose);
  }

  /**
   * Every pair reads at most one answer, only appends to the output, and
   * changes no path other than its own two.
   */
  lemma PairFrame(p: Policy, w: World, src: Path, dst: Path)
    ensures var o := PairOutcome(p, w, src, dst);
      && (o.world.stdin == w.stdin || (w.stdin != [] && o.world.stdin == w.stdin[1..]))
      && |w.events| <= |o.world.events| && o.world.events[..|w.events|] == w.events
      && (forall q | q != src && q != dst :: (q in o.world.fs <==> q in w.fs) && (q in o.world.fs ==> o.world.fs[q] == w.fs[q]))
  {
    if src != dst {
      match PromptFor(p, w.fs, src, dst)
      case None =>
        ExecuteEffect(w, src, dst, p.verbose);
      case Some(q) =>
        var reply := Input(w, q);
        if reply.answer.Some? && IsYes(reply.answer.value) {
          ExecuteEffect(reply.world, src, dst, false);
        }
    }
  }

  // ---------------------------------------------------------------------
  // Properties of the whole pass

  /** Saving the buffer unchanged renames nothing, prompts for nothing and prints nothing. */
  lemma {:induction false} IdentityEditIsNoop(p: Policy, w: World, paths: seq<Path>)
    ensures Reconciled(p, w, paths, paths) == Outcome(w, Done)
    decreases |paths|
  {
    if paths != [] {
      UnchangedPairSkipped(p, w, paths[0]);
      IdentityEditIsNoop(p, w, paths[1..]);
    }
  }

  /**
   * The pass is strictly sequential: running a list is running its first
   * part and then, unless that failed, the rest on the world it left.
   */
  lemma {:induction false} ReconciledAppend(p: Policy, w: World, s1: seq<Path>, d1: seq<Path>, s2: seq<Path>, d2: seq<Path>)
    requires |s1| == |d1| && |s2| == |d2|
    ensures Reconciled(p, w, s1 + s2, d1 + d2) ==
      var o := Reconciled(p, w, s1, d1);
      if o.status.Aborted? then o else Reconciled(p, o.world, s2, d2)
    decreases |s1|
  {
    if s1 != [] {
      assert (s1 + s2)[0] == s1[0] && (d1 + d2)[0] == d1[0];
      assert (s1 + s2)[1..] == s1[1..] + s2 && (d1 + d2)[1..] == d1[1..] + d2;
      var o := PairOutcome(p, w, s1[0], d1[0]);
      if o.status.Done? {
        ReconciledAppend(p, o.world, s1[1..], d1[1..], s2, d2);
      }
    } else {
      assert s1 + s2 == s2 && d1 + d2 == d2;
    }
  }

  /**
   * `v` follows `w` after at most `n` pairs over these names: at most `n`
   * answers were read, in order; the output was only appended to; and every
   * path that is neither an original nor an edited name is as it was.
   */
  ghost predicate Follows(w: World, v: World, n: nat, srcs: seq<Path>, dsts: seq<Path>) {
    && |v.stdin| <= |w.stdin| && |w.stdin| - |v.stdin| <= n
    && v.stdin == w.stdin[|w.stdin| - |v.stdin|..]
    && |w.events| <= |v.events| && v.events[..|w.events|] == w.events
    && (forall q | q !in srcs && q !in dsts ::
          (q in v.fs <==> q in w.fs) && (q in v.fs ==> v.fs[q] == w.fs[q]))
  }

  lemma PairFollows(p: Policy, w: World, src: Path, dst: Path)
    ensures Follows(w, PairOutcome(p, w, src, dst).world, 1, [src], [dst])
  {
    PairFrame(p, w, src, dst);
    var v := PairOutcome(p, w, src, dst).world;
    assert v.stdin == w.stdin ==> v.stdin == w.stdin[|w.stdin| - |v.stdin|..];
  }

  lemma FollowsCompose(w: World, v: World, u: World, srcs: seq<Path>, dsts: seq<Path>)
    requires srcs != [] && dsts != []
    requires Follows(w, v, 1, [srcs[0]], [dsts[0]])
    requires Follows(v, u, |srcs| - 1, srcs[1..], dsts[1..])
    ensures Follows(w, u, |srcs|, srcs, dsts)
  {
    assert u.events[..|w.events|] == u.events[..|v.events|][..|w.events|];
    assert u.stdin == w.stdin[|w.stdin| - |u.stdin|..] by {
      assert v.stdin[|v.stdin| - |u.stdin|..] == w.stdin[|w.stdin| - |u.stdin|..];
    }
    forall q | q !in srcs && q !in dsts
      ensures (q in u.fs <==> q in w.fs) && (q in u.fs ==> u.fs[q] == w.fs[q])
    {
      assert q !in srcs[1..] && q !in dsts[1..];
      assert q !in [srcs[0]] && q !in [dsts[0]];
    }
  }

  lemma FollowsSelf(w: World, srcs: seq<Path>, dsts: seq<Path>)
    ensures Follows(w, w, |srcs|, srcs, dsts)
  {
    assert w.stdin[|w.stdin| - |w.stdin|..] == w.stdin;
    assert w.events[..|w.events|] == w.events;
  }

  lemma FollowsWeaken(w: World, v: World, srcs: seq<Path>, dsts: seq<Path>)
    requires srcs != [] && dsts != []
    requires Follows(w, v, 1, [srcs[0]], [dsts[0]])
    ensures Follows(w, v, |srcs|, srcs, dsts)
  {
    forall q | q !in srcs && q !in dsts
      ensures (q in v.fs <==> q in w.fs) && (q in v.fs ==> v.fs[q] == w.fs[q])
    {
      assert q !in [srcs[0]] && q !in [dsts[0]];
    }
  }

  /**
   * The whole pass reads at most one answer per pair, in order, only appends
   * to the output, and leaves every path that is neither an original nor an
   * edited name as it was.
   */
  lemma {:induction false} ReconciledFrame(p: Policy, w: World, srcs: seq<Path>, dsts: seq<Path>)
    requires |srcs| == |dsts|
    ensures Follows(w, Reconciled(p, w, srcs, dsts).world, |srcs|, srcs, dsts)
    decreases |srcs|
  {
    if srcs == [] {
      FollowsSelf(w, srcs, dsts);
    } else {
      var o1 := PairOutcome(p, w, srcs[0], dsts[0]);
      PairFollows(p, w, srcs[0], dsts[0]);
      if o1.status.Done? {
        ReconciledFrame(p, o1.world, srcs[1..], dsts[1..]);
        FollowsCompose(w, o1.world, Reconciled(p, o1.world, srcs[1..], dsts[1..]).world, srcs, dsts);
      } else {
        FollowsWeaken(w, o1.world, srcs, dsts);
      }
    }
  }

  // ---------------------------------------------------------------------
  // Worked examples

  /** ["a.txt", "b.txt"] edited to ["a.txt", "c.txt"] with no flags: only b.txt moves, and nothing is asked. */
  lemma RenameOneOfTwo(a: Entry, b: Entry, stdin: seq<string>)
    ensures var w := World(map["a.txt" := a, "b.txt" := b], stdin, []);
      Reconciled(Policy(false, false, false), w, ["a.txt", "b.txt"], ["a.txt", "c.txt"]) ==
      Outcome(World(map["a.txt" := a, "c.txt" := b], stdin, [Moved("b.txt", "c.txt")]), Done)
  {
    var p := Policy(false, false, false);
    var w := World(map["a.txt" := a, "b.txt" := b], stdin, []);
    assert ["a.txt", "b.txt"][1..] == ["b.txt"] && ["a.txt", "c.txt"][1..] == ["c.txt"];
    var fs' := (w.fs - {"b.txt"})["c.txt" := b];
    assert fs' == map["a.txt" := a, "c.txt" := b];
    assert "c.txt" !in w.fs;
    assert PairOutcome(p, w, "b.txt", "c.txt") == Outcome(World(fs', stdin, [Moved("b.txt", "c.txt")]), Done);
  }

  /**
   * Swapping "x" and "y" in the buffer: the first pair already finds "y" and
   * asks to overwrite it; agreeing moves x onto y, after which "x" is free,
   * so the second pair moves it back unasked. The entry that was at "y" is lost.
   */
  lemma SwapAsksThenLosesEntry(ex: Entry, ey: Entry)
    requires ex.kind == File && ey.kind == File
    ensures var w := World(map["x" := ex, "y" := ey], ["y"], []);
      Reconciled(Policy(false, false, false), w, ["x", "y"], ["y", "x"]) ==
      Outcome(World(map["x" := ex], [], [Asked(OverwriteQuestion("y")), Moved("x", "y"), Moved("y", "x")]), Done)
  {
    var p := Policy(false, false, false);
    var w := World(map["x" := ex, "y" := ey], ["y"], []);
    assert ["x", "y"][1..] == ["y"] && ["y", "x"][1..] == ["x"];
    assert IsYes("y");
    var w1 := World(map["y" := ex], [], [Asked(OverwriteQuestion("y")), Moved("x", "y")]);
    assert (w.fs - {"x"})["y" := ex] == map["y" := ex];
    assert PairOutcome(p, w, "x", "y") == Outcome(w1, Done);
    assert (w1.fs - {"y"})["x" := ex] == map["x" := ex];
    assert PairOutcome(p, w1, "y", "x") ==
      Outcome(World(map["x" := ex], [], [Asked(OverwriteQuestion("y")), Moved("x", "y"), Moved("y", "x")]), Done);
  }
}
