/**
 * `args.files.sort()`: Python orders strings by comparing code points from
 * the left, a proper prefix coming first. The in-place sort is modelled as
 * the function that returns the sorted list.
 */
module Ordering {

  /** `a <= b` on Python strings. */
  predicate LessEq(a: string, b: string)
    decreases |a|
  {
    if a == [] then true
    else if b == [] then false
    else if a[0] != b[0] then a[0] < b[0]
    else LessEq(a[1..], b[1..])
  }

  lemma {:induction false} LessEqReflexive(a: string)
    ensures LessEq(a, a)
  {
    if a != [] {
      LessEqReflexive(a[1..]);
    }
  }

  lemma {:induction false} LessEqTotal(a: string, b: string)
    ensures LessEq(a, b) || LessEq(b, a)
    decreases |a|
  {
    if a != [] && b != [] && a[0] == b[0] {
      LessEqTotal(a[1..], b[1..]);
    }
  }

  lemma {:induction false} LessEqAntisymmetric(a: string, b: string)
    requires LessEq(a, b) && LessEq(b, a)
    ensures a == b
    decreases |a|
  {
    if a != [] && b != [] {
      LessEqAntisymmetric(a[1..], b[1..]);
      assert a == [a[0]] + a[1..] && b == [b[0]] + b[1..];
    }
  }

  lemma {:induction false} LessEqTransitive(a: string, b: string, c: string)
    requires LessEq(a, b) && LessEq(b, c)
    ensures LessEq(a, c)
    decreases |a|
  {
    if a != [] && b != [] && c != [] && a[0] == b[0] && b[0] == c[0] {
      LessEqTransitive(a[1..], b[1..], c[1..]);
    }
  }

  predicate Sorted(s: seq<string>) {
    forall i, j | 0 <= i < j < |s| :: LessEq(s[i], s[j])
  }

  /** The first element of a sorted list is below every element of it. */
  lemma SortedFirstIsLeast(s: seq<string>, e: string)
    requires Sorted(s) && e in s
    ensures LessEq(s[0], e)
  {
    var k :| 0 <= k < |s| && s[k] == e;
    if k == 0 {
      LessEqReflexive(e);
    }
  }

  /** The empty string sorts first: a sorted list ends in a non-empty string if it holds any. */
  lemma SortedLastNonEmpty(s: seq<string>, e: string)
    requires Sorted(s) && e in s && e != []
    ensures s[|s| - 1] != []
  {
    var k :| 0 <= k < |s| && s[k] == e;
    if k < |s| - 1 {
      assert LessEq(s[k], s[|s| - 1]);
    }
  }

  /** A least element put in front of a sorted list keeps it sorted. */
  lemma SortedCons(x: string, s: seq<string>)
    requires Sorted(s)
    requires forall j | 0 <= j < |s| :: LessEq(x, s[j])
    ensures Sorted([x] + s)
  {
    var r := [x] + s;
    assert forall j | 1 <= j < |r| :: r[j] == s[j - 1];
  }

  lemma SortedTail(s: seq<string>)
    requires Sorted(s) && s != []
    ensures Sorted(s[1..])
  {
    assert forall j | 0 <= j < |s| - 1 :: s[1..][j] == s[j + 1];
  }

  lemma MultisetCons(s: seq<string>)
    requires s != []
    ensures multiset(s) == multiset{s[0]} + multiset(s[1..])
  {
    assert s == [s[0]] + s[1..];
  }

  lemma BelowAll(x: string, s: seq<string>)
    requires Sorted(s) && s != [] && LessEq(x, s[0])
    ensures forall j | 0 <= j < |s| :: LessEq(x, s[j])
  {
    forall j | 0 <= j < |s| ensures LessEq(x, s[j]) {
      SortedFirstIsLeast(s, s[j]);
      LessEqTransitive(x, s[0], s[j]);
    }
  }

  lemma HeadBelowInserted(x: string, s: seq<string>, t: seq<string>)
    requires Sorted(s) && s != [] && !LessEq(x, s[0])
    requires multiset(t) == multiset(s[1..]) + multiset{x}
    ensures forall j | 0 <= j < |t| :: LessEq(s[0], t[j])
  {
    forall j | 0 <= j < |t| ensures LessEq(s[0], t[j]) {
      assert t[j] in multiset(t);
      if t[j] == x {
        LessEqTotal(x, s[0]);
      } else {
        assert t[j] in multiset(s[1..]);
        assert t[j] in s;
        SortedFirstIsLeast(s, t[j]);
      }
    }
  }

  /** Inserting into a sorted list keeps it sorted and adds exactly the one element. */
  function Insert(x: string, s: seq<string>): (r: seq<string>)
    requires Sorted(s)
    ensures Sorted(r)
    ensures multiset(r) == multiset(s) + multiset{x}
  {
    if s == [] then [x]
    else
      MultisetCons(s);
      if LessEq(x, s[0]) then
        BelowAll(x, s);
        SortedCons(x, s);
        [x] + s
      else
        SortedTail(s);
        var t := Insert(x, s[1..]);
        HeadBelowInserted(x, s, t);
        SortedCons(s[0], t);
        [s[0]] + t
  }

  /** `list.sort()` on strings: a sorted permutation of the input. */
  function Sort(s: seq<string>): (r: seq<string>)
    ensures Sorted(r)
    ensures multiset(r) == multiset(s)
  {
    if s == [] then []
    else
      assert s == [s[0]] + s[1..];
      Insert(s[0], Sort(s[1..]))
  }

  /**
   * There is only one sorted permutation of a list, so `Sort` returns what
   * `list.sort()` leaves, whatever algorithm computes it.
   */
  lemma {:induction false} SortedPermutationUnique(s: seq<string>, t: seq<string>)
    requires Sorted(s) && Sorted(t)
    requires multiset(s) == multiset(t)
    ensures s == t
  {
    if s == [] {
      assert |t| == |multiset(t)| == 0;
    } else {
      assert s[0] in multiset(t) && t != [];
      assert t[0] in multiset(s);
      SortedFirstIsLeast(t, s[0]);
      SortedFirstIsLeast(s, t[0]);
      LessEqAntisymmetric(s[0], t[0]);
      SameTail(s, t);
      SortedTail(s);
      SortedTail(t);
      SortedPermutationUnique(s[1..], t[1..]);
      assert s == [s[0]] + s[1..] && t == [t[0]] + t[1..];
    }
  }

  /** Lists with the same elements and the same head have tails with the same elements. */
  lemma SameTail(s: seq<string>, t: seq<string>)
    requires s != [] && t != [] && s[0] == t[0]
    requires multiset(s) == multiset(t)
    ensures multiset(s[1..]) == multiset(t[1..])
  {
    MultisetCons(s);
    MultisetCons(t);
    assert multiset(s[1..]) == multiset(s) - multiset{s[0]};
    assert multiset(t[1..]) == multiset(t) - multiset{t[0]};
  }

  /** Sorting is idempotent: an already sorted list is left as it is. */
  lemma SortSorted(s: seq<string>)
    requires Sorted(s)
    ensures Sort(s) == s
  {
    SortedPermutationUnique(Sort(s), s);
  }
}
