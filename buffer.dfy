/**
 * The edit buffer: the file list is written to the temporary file joined by
 * newlines, and after the editor exits the file is read back line by line
 * in text mode (universal newlines) and every line is stripped.
 */
module EditBuffer {
  import opened Text

  /**
   * `"\n".join(paths)`: every path followed by a newline, except that the
   * last one has none.
   */
  function Join(paths: seq<string>): (r: string)
    ensures paths != [] ==> r + "\n" == Concat(Terminated(paths))
  {
    if |paths| == 0 then ""
    else if |paths| == 1 then
      assert Terminated(paths) == [paths[0] + "\n"];
      paths[0]
    else
      var rest := Join(paths[1..]);
      assert Terminated(paths) == [paths[0] + "\n"] + Terminated(paths[1..]);
      assert ([paths[0] + "\n"] + Terminated(paths[1..]))[1..] == Terminated(paths[1..]);
      paths[0] + "\n" + rest
  }

  /** Text-mode reading turns "\r\n" and a lone "\r" into "\n". */
  function Translate(t: string): (r: string)
    ensures '\r' !in r
  {
    if t == [] then []
    else if t[0] == '\r' then
      if |t| > 1 && t[1] == '\n' then "\n" + Translate(t[2..]) else "\n" + Translate(t[1..])
    else [t[0]] + Translate(t[1..])
  }

  /** The length of the first line of `t`, its newline included. */
  function LineEnd(t: string): (k: nat)
    requires t != []
    ensures 0 < k <= |t|
    ensures '\n' !in t[..k - 1]
    ensures k < |t| ==> t[k - 1] == '\n'
  {
    if t[0] == '\n' || |t| == 1 then 1
    else
      var k := 1 + LineEnd(t[1..]);
      assert t[..k - 1] == [t[0]] + t[1..][..k - 2];
      k
  }

  function Concat(lines: seq<string>): string {
    if lines == [] then "" else lines[0] + Concat(lines[1..])
  }

  /**
   * A well-formed split: no line is empty, a newline can only be a line's
   * last character, and every line but the last ends with one.
   */
  predicate WellSplit(lines: seq<string>) {
    && (forall i | 0 <= i < |lines| :: lines[i] != [] && '\n' !in lines[i][..|lines[i]| - 1])
    && (forall i | 0 <= i < |lines| - 1 :: lines[i][|lines[i]| - 1] == '\n')
  }

  /** Iterating over a text file: the lines, each with its newline. */
  function SplitLines(t: string): (lines: seq<string>)
    ensures Concat(lines) == t
    ensures WellSplit(lines)
    decreases |t|
  {
    if t == [] then []
    else
      var k := LineEnd(t);
      var rest := SplitLines(t[k..]);
      assert t == t[..k] + t[k..];
      assert k < |t| ==> rest != [];
      WellSplitCons(t[..k], rest);
      [t[..k]] + rest
  }

  lemma WellSplitCons(l: string, rest: seq<string>)
    requires l != [] && '\n' !in l[..|l| - 1]
    requires rest != [] ==> l[|l| - 1] == '\n'
    requires WellSplit(rest)
    ensures WellSplit([l] + rest)
    ensures Concat([l] + rest) == l + Concat(rest)
  {
    var lines := [l] + rest;
    assert lines[1..] == rest;
    assert forall i | 1 <= i < |lines| :: lines[i] == rest[i - 1];
  }

  lemma WellSplitTail(lines: seq<string>)
    requires lines != [] && WellSplit(lines)
    ensures WellSplit(lines[1..])
  {
    assert forall i | 0 <= i < |lines| - 1 :: lines[1..][i] == lines[i + 1];
  }

  /** `[name.strip() for name in fh]` over the text the editor left behind. */
  function ReadCandidates(edited: string): (names: seq<string>)
    ensures |names| == |SplitLines(Translate(edited))|
    ensures forall i | 0 <= i < |names| :: names[i] == Strip(SplitLines(Translate(edited))[i])
    ensures forall i | 0 <= i < |names| :: Trimmed(names[i])
  {
    var lines := SplitLines(Translate(edited));
    seq(|lines|, i requires 0 <= i < |lines| => Strip(lines[i]))
  }

  /** A path that fits on one line of the buffer. */
  predicate OneLine(p: string) {
    '\n' !in p && '\r' !in p
  }

  lemma {:induction false} TranslateUnchanged(t: string)
    requires '\r' !in t
    ensures Translate(t) == t
  {
    if t != [] {
      assert '\r' !in t[1..];
      TranslateUnchanged(t[1..]);
    }
  }

  /** Splitting is the inverse of concatenation on well-formed splits. */
  lemma {:induction false} SplitConcat(lines: seq<string>)
    requires WellSplit(lines)
    ensures SplitLines(Concat(lines)) == lines
  {
    if lines != [] {
      var l := lines[0];
      var t := Concat(lines);
      assert t == l + Concat(lines[1..]);
      LineEndOf(l, Concat(lines[1..]), |lines| == 1);
      assert t[..|l|] == l && t[|l|..] == Concat(lines[1..]);
      WellSplitTail(lines);
      SplitConcat(lines[1..]);
      assert lines == [l] + lines[1..];
    }
  }

  lemma LineEndOf(l: string, rest: string, last: bool)
    requires l != [] && '\n' !in l[..|l| - 1]
    requires last ==> rest == []
    requires !last ==> l[|l| - 1] == '\n'
    ensures LineEnd(l + rest) == |l|
  {
    var t := l + rest;
    var k := LineEnd(t);
    assert t[..|l|] == l;
  }

  /** The buffer's lines, each with the newline the editor may keep after it. */
  function Terminated(paths: seq<string>): (lines: seq<string>)
    ensures |lines| == |paths|
  {
    seq(|paths|, i requires 0 <= i < |paths| => paths[i] + "\n")
  }

  lemma {:induction false} JoinTerminated(paths: seq<string>)
    requires paths != []
    ensures paths[|paths| - 1] != [] ==>
      Join(paths) == Concat(Terminated(paths[..|paths| - 1]) + [paths[|paths| - 1]])
  {
    if |paths| == 1 {
      assert Terminated(paths[..0]) + [paths[0]] == [paths[0]];
    } else {
      var tail := paths[1..];
      JoinTerminated(tail);
      assert Terminated(paths[..|paths| - 1]) + [paths[|paths| - 1]]
        == [paths[0] + "\n"] + (Terminated(tail[..|tail| - 1]) + [tail[|tail| - 1]]);
    }
  }

  /** The lines of a buffer saved unchanged, with or without a final newline. */
  function SavedLines(paths: seq<string>, eol: bool): (lines: seq<string>)
    requires paths != []
    ensures |lines| == |paths|
  {
    var n := |paths|;
    if eol then Terminated(paths) else Terminated(paths[..n - 1]) + [paths[n - 1]]
  }

  lemma SavedLineAt(paths: seq<string>, eol: bool, i: nat)
    requires i < |paths|
    ensures SavedLines(paths, eol)[i] == if eol || i < |paths| - 1 then paths[i] + "\n" else paths[i]
  {
  }

  lemma SavedLinesWellSplit(paths: seq<string>, eol: bool)
    requires paths != []
    requires forall i | 0 <= i < |paths| :: OneLine(paths[i])
    requires !eol ==> paths[|paths| - 1] != []
    ensures WellSplit(SavedLines(paths, eol))
  {
    var n := |paths|;
    var lines := SavedLines(paths, eol);
    forall i | 0 <= i < n
      ensures lines[i] != [] && '\n' !in lines[i][..|lines[i]| - 1]
      ensures i < n - 1 ==> lines[i][|lines[i]| - 1] == '\n'
    {
      assert OneLine(paths[i]);
      if eol || i < n - 1 {
        assert lines[i] == paths[i] + "\n";
        assert lines[i][..|lines[i]| - 1] == paths[i];
      } else {
        assert lines[i] == paths[i];
      }
    }
  }

  lemma SavedText(paths: seq<string>, eol: bool)
    requires paths != []
    requires !eol ==> paths[|paths| - 1] != []
    ensures Join(paths) + (if eol then "\n" else "") == Concat(SavedLines(paths, eol))
  {
    if !eol {
      SavedTextNoEol(paths, Join(paths));
    }
  }

  lemma SavedTextNoEol(paths: seq<string>, joined: string)
    requires paths != [] && paths[|paths| - 1] != []
    requires joined == Join(paths)
    ensures joined + "" == Concat(SavedLines(paths, false))
  {
    JoinTerminated(paths);
    assert joined + "" == joined;
  }

  lemma SavedLinesSplit(paths: seq<string>, eol: bool)
    requires paths != []
    requires forall i | 0 <= i < |paths| :: OneLine(paths[i])
    requires !eol ==> paths[|paths| - 1] != []
    ensures SplitLines(Translate(Join(paths) + (if eol then "\n" else ""))) == SavedLines(paths, eol)
  {
    var text := Join(paths) + (if eol then "\n" else "");
    SavedText(paths, eol);
    NoCarriageReturn(paths, eol);
    TranslateUnchanged(text);
    SavedLinesWellSplit(paths, eol);
    SplitConcat(SavedLines(paths, eol));
  }

  /** Stripping a saved line gives the path stripped, newline or not. */
  lemma StrippedSavedLines(paths: seq<string>, eol: bool)
    requires paths != []
    ensures forall i | 0 <= i < |paths| :: Strip(SavedLines(paths, eol)[i]) == Strip(paths[i])
  {
    forall i | 0 <= i < |paths| ensures Strip(SavedLines(paths, eol)[i]) == Strip(paths[i]) {
      SavedLineAt(paths, eol, i);
      if eol || i < |paths| - 1 {
        StripNewline(paths[i]);
      }
    }
  }

  /** Every path of the list, stripped. */
  function Stripped(paths: seq<string>): (r: seq<string>)
    ensures |r| == |paths|
  {
    seq(|paths|, i requires 0 <= i < |paths| => Strip(paths[i]))
  }

  lemma SameElements<T>(a: seq<T>, b: seq<T>)
    requires |a| == |b|
    requires forall i | 0 <= i < |a| :: a[i] == b[i]
    ensures a == b
  {
  }

  /**
   * Reading back a buffer the user saved unchanged gives the paths
   * themselves, stripped: with the trailing newline an editor may add, for
   * any paths, and without it when the last path is not empty.
   */
  lemma UnchangedBufferReadsBack(paths: seq<string>, eol: bool)
    requires paths != []
    requires forall i | 0 <= i < |paths| :: OneLine(paths[i])
    requires !eol ==> paths[|paths| - 1] != []
    ensures ReadCandidates(Join(paths) + (if eol then "\n" else "")) == Stripped(paths)
  {
    SavedLinesSplit(paths, eol);
    ReadBackLines(Join(paths) + (if eol then "\n" else ""), paths, eol);
  }

  lemma ReadBackLines(edited: string, paths: seq<string>, eol: bool)
    requires paths != []
    requires SplitLines(Translate(edited)) == SavedLines(paths, eol)
    ensures ReadCandidates(edited) == Stripped(paths)
  {
    StrippedSavedLines(paths, eol);
    CandidatesOf(edited, SavedLines(paths, eol), Stripped(paths));
  }

  /** The candidates are the stripped lines the text splits into. */
  lemma CandidatesOf(edited: string, lines: seq<string>, names: seq<string>)
    requires SplitLines(Translate(edited)) == lines
    requires |names| == |lines| && forall i | 0 <= i < |lines| :: names[i] == Strip(lines[i])
    ensures ReadCandidates(edited) == names
  {
    SameElements(ReadCandidates(edited), names);
  }

  lemma NoCarriageReturn(paths: seq<string>, eol: bool)
    requires paths != []
    requires forall i | 0 <= i < |paths| :: OneLine(paths[i])
    ensures '\r' !in Join(paths) + (if eol then "\n" else "")
  {
    JoinNoCarriageReturn(paths);
  }

  lemma {:induction false} JoinNoCarriageReturn(paths: seq<string>)
    requires forall i | 0 <= i < |paths| :: OneLine(paths[i])
    ensures '\r' !in Join(paths)
  {
    if |paths| > 1 {
      assert OneLine(paths[0]);
      JoinNoCarriageReturn(paths[1..]);
    } else if |paths| == 1 {
      assert OneLine(paths[0]);
    }
  }

  /** When every path is already stripped, the unchanged buffer reads back as the list itself. */
  lemma UnchangedBufferIsIdentity(paths: seq<string>, eol: bool)
    requires paths != []
    requires forall i | 0 <= i < |paths| :: OneLine(paths[i]) && Trimmed(paths[i])
    requires !eol ==> paths[|paths| - 1] != []
    ensures ReadCandidates(Join(paths) + (if eol then "\n" else "")) == paths
  {
    UnchangedBufferReadsBack(paths, eol);
    StrippedIdentity(paths);
  }

  lemma StrippedIdentity(paths: seq<string>)
    requires forall i | 0 <= i < |paths| :: Trimmed(paths[i])
    ensures Stripped(paths) == paths
  {
    forall i | 0 <= i < |paths| ensures Stripped(paths)[i] == paths[i] {
      StripUnchangedIff(paths[i]);
    }
    SameElements(Stripped(paths), paths);
  }

  /** Text-mode reading turns a "\r\n" after carriage-return-free text into one "\n". */
  lemma {:induction false} TranslateCRLF(a: string, b: string)
    requires '\r' !in a
    ensures Translate(a + "\r\n" + b) == a + "\n" + Translate(b)
  {
    var t := a + "\r\n" + b;
    if a == [] {
      assert t[0] == '\r' && t[1] == '\n' && t[2..] == b;
    } else {
      assert t[0] == a[0] && t[1..] == a[1..] + "\r\n" + b;
      assert '\r' !in a[1..];
      TranslateCRLF(a[1..], b);
      assert a + "\n" + Translate(b) == [a[0]] + (a[1..] + "\n" + Translate(b));
    }
  }

  /** A lone "\r", one that no "\n" follows, also reads as "\n". */
  lemma {:induction false} TranslateCR(a: string, b: string)
    requires '\r' !in a
    requires b == [] || b[0] != '\n'
    ensures Translate(a + "\r" + b) == a + "\n" + Translate(b)
  {
    var t := a + "\r" + b;
    if a == [] {
      assert t[0] == '\r' && t[1..] == b;
    } else {
      assert t[0] == a[0] && t[1..] == a[1..] + "\r" + b;
      assert '\r' !in a[1..];
      TranslateCR(a[1..], b);
      assert a + "\n" + Translate(b) == [a[0]] + (a[1..] + "\n" + Translate(b));
    }
  }

  /** The buffer as an editor that writes DOS line endings saves it. */
  function JoinCRLF(paths: seq<string>): string {
    if |paths| == 0 then ""
    else if |paths| == 1 then paths[0]
    else paths[0] + "\r\n" + JoinCRLF(paths[1..])
  }

  /**
   * Saved with "\r\n" line endings, the buffer reads back exactly as the
   * buffer saved with "\n" endings does.
   */
  lemma CRLFBufferReadsSame(paths: seq<string>, eol: bool)
    requires forall i | 0 <= i < |paths| :: OneLine(paths[i])
    ensures ReadCandidates(JoinCRLF(paths) + (if eol then "\r\n" else ""))
         == ReadCandidates(Join(paths) + (if eol then "\n" else ""))
  {
    var lf := Join(paths) + (if eol then "\n" else "");
    CRLFTranslate(paths, eol);
    JoinNoCarriageReturn(paths);
    assert '\r' !in lf;
    TranslateUnchanged(lf);
  }

  lemma {:induction false} CRLFTranslate(paths: seq<string>, eol: bool)
    requires forall i | 0 <= i < |paths| :: OneLine(paths[i])
    ensures Translate(JoinCRLF(paths) + (if eol then "\r\n" else ""))
         == Join(paths) + (if eol then "\n" else "")
  {
    var e, f := (if eol then "\r\n" else ""), (if eol then "\n" else "");
    if |paths| == 0 {
      if eol {
        assert [] + "\r\n" + [] == e;
        TranslateCRLF([], []);
      }
    } else if |paths| == 1 {
      assert OneLine(paths[0]);
      if eol {
        assert paths[0] + "\r\n" + [] == JoinCRLF(paths) + e;
        TranslateCRLF(paths[0], []);
      } else {
        assert JoinCRLF(paths) + e == paths[0] == Join(paths) + f;
        TranslateUnchanged(paths[0]);
      }
    } else {
      var p, tail := paths[0], paths[1..];
      assert OneLine(p);
      CRLFTranslate(tail, eol);
      CRLFStep(p, JoinCRLF(tail), Join(tail), e, f);
    }
  }

  lemma CRLFStep(p: string, crlf: string, lf: string, e: string, f: string)
    requires '\r' !in p
    requires Translate(crlf + e) == lf + f
    ensures Translate(p + "\r\n" + crlf + e) == p + "\n" + lf + f
  {
    assert p + "\r\n" + crlf + e == p + "\r\n" + (crlf + e);
    TranslateCRLF(p, crlf + e);
    assert p + "\n" + lf + f == p + "\n" + (lf + f);
  }

  /** Dropping a final empty path from the list drops the last separator. */
  lemma {:induction false} JoinLastEmpty(paths: seq<string>)
    requires |paths| >= 2 && paths[|paths| - 1] == []
    ensures Join(paths) == Join(paths[..|paths| - 1]) + "\n"
  {
    if |paths| == 2 {
      assert paths[1..] == [[]];
      assert paths[..1] == [paths[0]];
    } else {
      var tail := paths[1..];
      JoinLastEmpty(tail);
      var pre := paths[..|paths| - 1];
      assert pre[0] == paths[0] && pre[1..] == tail[..|tail| - 1];
    }
  }

  /**
   * The buffer of a list whose last path is empty, saved unchanged and
   * without a final newline, reads back one line short, so the line count
   * no longer matches.
   */
  lemma EmptyLastPathLosesLine(paths: seq<string>)
    requires paths != [] && paths[|paths| - 1] == []
    requires forall i | 0 <= i < |paths| :: OneLine(paths[i])
    ensures |ReadCandidates(Join(paths))| == |paths| - 1
  {
    if |paths| == 1 {
      assert Join(paths) == [];
    } else {
      var pre := paths[..|paths| - 1];
      JoinLastEmpty(paths);
      assert forall i | 0 <= i < |pre| :: pre[i] == paths[i];
      SavedLinesSplit(pre, true);
    }
  }

  /** A single untouched line reads back stripped, whitespace around it included. */
  lemma SingleLineReadsStripped(p: string)
    requires OneLine(p) && p != []
    ensures ReadCandidates(Join([p])) == [Strip(p)]
  {
    var paths := [p];
    UnchangedBufferReadsBack(paths, false);
    assert Join(paths) + "" == Join(paths);
    assert |Stripped(paths)| == 1 && Stripped(paths)[0] == Strip(p);
    SameElements(Stripped(paths), [Strip(p)]);
  }
}
