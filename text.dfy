/**
 * The string operations the tool applies to edited lines and to answers:
 * Python's `str.strip()` (with its notion of whitespace, `str.isspace`),
 * `str.lower()` and the agreement test `answer.lower() in ('y', 'yes')`.
 */
module Text {

  /** Python's `str.isspace` for a single character. */
  predicate IsSpace(c: char) {
    || c == ' '
    || ('\t' <= c <= '\r')                 // \t \n \v \f \r
    || ('\U{1C}' <= c <= '\U{1F}')        // file, group, record and unit separators
    || c == '\U{85}' || c == '\U{A0}' || c == '\U{1680}'
    || ('\U{2000}' <= c <= '\U{200A}')
    || c == '\U{2028}' || c == '\U{2029}' || c == '\U{202F}'
    || c == '\U{205F}' || c == '\U{3000}'
  }

  predicate AllSpace(s: string) {
    forall k | 0 <= k < |s| :: IsSpace(s[k])
  }

  /** A string that `strip()` leaves alone: empty, or non-whitespace at both ends. */
  predicate Trimmed(s: string) {
    s == [] || (!IsSpace(s[0]) && !IsSpace(s[|s| - 1]))
  }

  /** Only whitespace between indices `lo` (inclusive) and `hi` (exclusive). */
  predicate SpaceBetween(s: string, lo: nat, hi: nat)
    requires lo <= hi <= |s|
  {
    forall k | lo <= k < hi :: IsSpace(s[k])
  }

  /** How many leading whitespace characters `strip()` removes. */
  function Lead(s: string): (n: nat)
    ensures n <= |s| && SpaceBetween(s, 0, n)
    ensures n < |s| ==> !IsSpace(s[n])
  {
    if s != [] && IsSpace(s[0]) then 1 + Lead(s[1..]) else 0
  }

  /** How many trailing whitespace characters `strip()` removes. */
  function Trail(s: string): (n: nat)
    ensures n <= |s| && SpaceBetween(s, |s| - n, |s|)
    ensures n < |s| ==> !IsSpace(s[|s| - n - 1])
  {
    if s != [] && IsSpace(s[|s| - 1]) then 1 + Trail(s[..|s| - 1]) else 0
  }

  /**
   * `str.strip()`: the result is the slice of `s` that starts after its
   * leading whitespace, only whitespace follows it, and it neither starts
   * nor ends with whitespace.
   */
  function Strip(s: string): (r: string)
    ensures Trimmed(r)
    ensures Lead(s) + |r| <= |s| && s[Lead(s)..Lead(s) + |r|] == r
    ensures SpaceBetween(s, Lead(s) + |r|, |s|)
  {
    var i := Lead(s);
    var n := Trail(s[i..]);
    s[i..|s| - n]
  }

  /**
   * `strip()` is determined by its contract: whatever is framed by whitespace
   * on both sides and has no whitespace at its ends is what `strip()` returns.
   */
  lemma StripFramed(a: string, r: string, b: string)
    requires AllSpace(a) && AllSpace(b) && Trimmed(r)
    ensures Strip(a + r + b) == r
  {
    var s := a + r + b;
    assert forall k | 0 <= k < |a| :: s[k] == a[k];
    assert forall k | |a| + |r| <= k < |s| :: s[k] == b[k - |a| - |r|];
    if r == [] {
      assert AllSpace(s);
    } else {
      assert s[|a|] == r[0] && s[|a| + |r| - 1] == r[|r| - 1];
      assert s[|a|..|a| + |r|] == r;
    }
  }

  /** Stripping twice is stripping once. */
  lemma StripIdempotent(s: string)
    ensures Strip(Strip(s)) == Strip(s)
  {
    var r := Strip(s);
    assert [] + r + [] == r;
    StripFramed([], r, []);
  }

  /** `strip()` changes a string exactly when it starts or ends with whitespace. */
  lemma StripUnchangedIff(s: string)
    ensures Strip(s) == s <==> Trimmed(s)
  {
    if Trimmed(s) {
      assert [] + s + [] == s;
      StripFramed([], s, []);
    }
  }

  /** A line read from a file ends in its newline; stripping removes it. */
  lemma StripNewline(s: string)
    ensures Strip(s + "\n") == Strip(s)
  {
    var r := Strip(s);
    var i := Lead(s);
    var a, c := s[..i], s[i + |r|..];
    Pieces(s, i, i + |r|);
    Regroup(a, r, c, "\n");
    assert AllSpace(c + "\n") by {
      assert forall k | 0 <= k < |c| :: (c + "\n")[k] == s[i + |r| + k];
    }
    StripFramed(a, r, c + "\n");
  }

  lemma Pieces(s: string, i: nat, j: nat)
    requires i <= j <= |s|
    ensures s == s[..i] + s[i..j] + s[j..]
  {
  }

  lemma Regroup(a: string, r: string, c: string, d: string)
    ensures a + r + c + d == a + r + (c + d)
  {
  }

  /** `str.lower()` on the characters that can spell an agreement. */
  function LowerChar(c: char): (d: char)
    ensures 'A' <= c <= 'Z' ==> 'a' <= d <= 'z' && d as int == c as int + 32
    ensures !('A' <= c <= 'Z') ==> d == c
  {
    if 'A' <= c <= 'Z' then (c as int - 'A' as int + 'a' as int) as char else c
  }

  /** `str.lower()`: every ASCII capital becomes its small letter, and no capital is left. */
  function Lower(s: string): (r: string)
    ensures |r| == |s|
    ensures forall k | 0 <= k < |s| :: r[k] == LowerChar(s[k])
    ensures forall k | 0 <= k < |r| :: !('A' <= r[k] <= 'Z')
  {
    seq(|s|, k requires 0 <= k < |s| => LowerChar(s[k]))
  }

  /**
   * An answer to a prompt agrees when `answer.lower() in ('y', 'yes')`: only
   * the ten spellings of "y" and "yes" do; in particular the empty answer
   * declines, whatever default a prompt's label suggests.
   */
  predicate IsYes(answer: string): (yes: bool)
    ensures yes <==>
      (|answer| == 1 && answer[0] in "yY") ||
      (|answer| == 3 && answer[0] in "yY" && answer[1] in "eE" && answer[2] in "sS")
  {
    assert |answer| == 1 ==> Lower(answer)[0] == LowerChar(answer[0]);
    assert |answer| == 3 ==>
      Lower(answer)[0] == LowerChar(answer[0]) &&
      Lower(answer)[1] == LowerChar(answer[1]) &&
      Lower(answer)[2] == LowerChar(answer[2]);
    Lower(answer) == "y" || Lower(answer) == "yes"
  }

  lemma EmptyAnswerDeclines()
    ensures !IsYes("")
  {
  }

  lemma PaddedStrip()
    ensures Strip(" a") == "a"
  {
    assert " " + "a" + "" == " a";
    StripFramed(" ", "a", "");
  }
}
