/**
 * The order in which `files.sort()` puts the matched paths (index.js:68):
 * JavaScript's default comparison of two strings, character code by
 * character code from the left, a proper prefix first. The specification
 * `SortPaths` and the in-place `SortInPlace` both produce the one sorted
 * permutation of their input.
 */
module Ordering {

  /** `a` sorts before `b` or equals it under the default string comparison. */
  predicate CodeUnitLe(a: string, b: string)
    decreases |a|
  {
    |a| == 0 || (|b| > 0 && (a[0] < b[0] || (a[0] == b[0] && CodeUnitLe(a[1..], b[1..]))))
  }

  lemma {:induction false} CodeUnitLeReflexive(a: string)
    ensures CodeUnitLe(a, a)
    decreases |a|
  {
    if |a| > 0 { CodeUnitLeReflexive(a[1..]); }
  }

  lemma {:induction false} CodeUnitLeAntisymmetric(a: string, b: string)
    requires CodeUnitLe(a, b) && CodeUnitLe(b, a)
    ensures a == b
    decreases |a|
  {
    if |a| > 0 {
      CodeUnitLeAntisymmetric(a[1..], b[1..]);
      assert a == [a[0]] + a[1..] && b == [b[0]] + b[1..];
    }
  }

  lemma {:induction false} CodeUnitLeTransitive(a: string, b: string, c: string)
    requires CodeUnitLe(a, b) && CodeUnitLe(b, c)
    ensures CodeUnitLe(a, c)
    decreases |a|
  {
    if |a| > 0 && a[0] == b[0] && b[0] == c[0] {
      CodeUnitLeTransitive(a[1..], b[1..], c[1..]);
    }
  }

  lemma {:induction false} CodeUnitLeTotal(a: string, b: string)
    ensures CodeUnitLe(a, b) || CodeUnitLe(b, a)
    decreases |a|
  {
    if |a| > 0 && |b| > 0 && a[0] == b[0] {
      CodeUnitLeTotal(a[1..], b[1..]);
    }
  }

  /** Ascending under the default string comparison. */
  predicate Sorted(s: seq<string>)
  {
    forall i, j :: 0 <= i < j < |s| ==> CodeUnitLe(s[i], s[j])
  }

  /** Puts `x` into the sorted `s` in front of the first element it does not follow. */
  function Insert(x: string, s: seq<string>): (r: seq<string>)
    requires Sorted(s)
    ensures Sorted(r)
    ensures multiset(r) == multiset(s) + multiset{x}
    decreases |s|
  {
    if s == [] then [x]
    else if CodeUnitLe(x, s[0]) then
      PrependBelowHead(x, s);
      [x] + s
    else
      CodeUnitLeTotal(x, s[0]);
      assert s == [s[0]] + s[1..];
      var tail := Insert(x, s[1..]);
      PrependBelowAll(s[0], x, s[1..], tail);
      [s[0]] + tail
  }

  /** A string that sorts before the head of a sorted sequence may go in front of it. */
  lemma PrependBelowHead(x: string, s: seq<string>)
    requires Sorted(s) && s != [] && CodeUnitLe(x, s[0])
    ensures Sorted([x] + s)
  {
    forall j | 0 <= j < |s| ensures CodeUnitLe(x, s[j]) {
      if j > 0 { CodeUnitLeTransitive(x, s[0], s[j]); }
    }
  }

  /**
   * The head `h` of a sorted sequence `[h] + rest` may go in front of any
   * sorted rearrangement of `rest` with one more string it sorts before.
   */
  lemma PrependBelowAll(h: string, x: string, rest: seq<string>, tail: seq<string>)
    requires Sorted([h] + rest) && CodeUnitLe(h, x)
    requires Sorted(tail) && multiset(tail) == multiset(rest) + multiset{x}
    ensures Sorted([h] + tail)
  {
    forall j | 0 <= j < |tail| ensures CodeUnitLe(h, tail[j]) {
      var y := tail[j];
      assert y in multiset(tail);
      if y != x {
        assert y in multiset(rest);
        var k :| 0 <= k < |rest| && rest[k] == y;
        var hr := [h] + rest;
        assert hr[0] == h && hr[k + 1] == y;
        assert CodeUnitLe(hr[0], hr[k + 1]);
      }
    }
  }

  /** The paths in ascending order: sorted, and a permutation of the input. */
  function SortPaths(s: seq<string>): (r: seq<string>)
    ensures Sorted(r)
    ensures multiset(r) == multiset(s)
    decreases |s|
  {
    if s == [] then []
    else
      assert s == [s[0]] + s[1..];
      Insert(s[0], SortPaths(s[1..]))
  }

  /** There is only one sorted arrangement of a multiset of strings. */
  lemma {:induction false} SortedUnique(a: seq<string>, b: seq<string>)
    requires Sorted(a) && Sorted(b)
    requires multiset(a) == multiset(b)
    ensures a == b
    decreases |a|
  {
    if a != [] {
      SortedSameHead(a, b);
      TailMultiset(a);
      TailMultiset(b);
      SortedTail(a);
      SortedTail(b);
      SortedUnique(a[1..], b[1..]);
      assert a == [a[0]] + a[1..] && b == [b[0]] + b[1..];
    }
  }

  /** Two sorted arrangements of one multiset start with the same string. */
  lemma SortedSameHead(a: seq<string>, b: seq<string>)
    requires Sorted(a) && Sorted(b)
    requires multiset(a) == multiset(b)
    requires a != []
    ensures b != [] && a[0] == b[0]
  {
    assert b != [] by { assert a[0] in multiset(b); }
    assert a[0] in multiset(b) && b[0] in multiset(a);
    var i :| 0 <= i < |b| && b[i] == a[0];
    var j :| 0 <= j < |a| && a[j] == b[0];
    if i > 0 { assert CodeUnitLe(b[0], a[0]); } else { CodeUnitLeReflexive(a[0]); }
    if j > 0 { assert CodeUnitLe(a[0], b[0]); } else { CodeUnitLeReflexive(b[0]); }
    CodeUnitLeAntisymmetric(a[0], b[0]);
  }

  lemma TailMultiset(a: seq<string>)
    requires a != []
    ensures multiset(a[1..]) == multiset(a) - multiset{a[0]}
  {
    assert a == [a[0]] + a[1..];
  }

  lemma SortedTail(a: seq<string>)
    requires Sorted(a) && a != []
    ensures Sorted(a[1..])
  {
  }

  /** Reordering the input does not change the sorted result. */
  lemma SortPathsDependsOnMultiset(s: seq<string>, t: seq<string>)
    requires multiset(s) == multiset(t)
    ensures SortPaths(s) == SortPaths(t)
  {
    SortedUnique(SortPaths(s), SortPaths(t));
  }

  /** Sorting sorted paths leaves them unchanged. */
  lemma SortPathsOfSorted(s: seq<string>)
    requires Sorted(s)
    ensures SortPaths(s) == s
  {
    SortedUnique(SortPaths(s), s);
  }

  /** The first `n` strings of `s` are in ascending order. */
  predicate SortedPrefix(s: seq<string>, n: nat)
    requires n <= |s|
  {
    forall k, l :: 0 <= k < l < n ==> CodeUnitLe(s[k], s[l])
  }

  /**
   * While `s[i]` sinks to place `j`: `s[..i + 1]` without position `j` is
   * ascending, and `s[j]` sorts before everything after it.
   */
  predicate Sinking(s: seq<string>, i: nat, j: nat)
    requires j <= i < |s|
  {
    (forall k, l :: 0 <= k < l <= i && k != j && l != j ==> CodeUnitLe(s[k], s[l])) &&
    (forall l :: j < l <= i ==> CodeUnitLe(s[j], s[l]))
  }

  lemma SinkingStart(s: seq<string>, i: nat)
    requires i < |s| && SortedPrefix(s, i)
    ensures Sinking(s, i, i)
  {
  }

  /** Swapping `s[j]` with a predecessor it sorts before moves the sinking string down one place. */
  lemma SinkingSwap(s: seq<string>, i: nat, j: nat)
    requires 0 < j <= i < |s| && Sinking(s, i, j)
    requires !CodeUnitLe(s[j - 1], s[j])
    ensures Sinking(s[j - 1 := s[j]][j := s[j - 1]], i, j - 1)
  {
    var t := s[j - 1 := s[j]][j := s[j - 1]];
    CodeUnitLeTotal(s[j - 1], s[j]);
    forall l | j - 1 < l <= i ensures CodeUnitLe(t[j - 1], t[l]) {
      if l > j { CodeUnitLeTransitive(s[j], s[j - 1], s[l]); }
    }
  }

  /** The sinking string has found its place: one more string is in order. */
  lemma SinkingDone(s: seq<string>, i: nat, j: nat)
    requires j <= i < |s| && Sinking(s, i, j)
    requires j == 0 || CodeUnitLe(s[j - 1], s[j])
    ensures SortedPrefix(s, i + 1)
  {
    forall k, l | 0 <= k < l <= i ensures CodeUnitLe(s[k], s[l]) {
      if l == j && k < j - 1 {
        CodeUnitLeTransitive(s[k], s[j - 1], s[j]);
      }
    }
  }

  /** `files.sort()`: sorts the array in place, by insertion. */
  method SortInPlace(a: array<string>)
    modifies a
    ensures a[..] == SortPaths(old(a[..]))
  {
    var i := 0;
    while i < a.Length
      invariant 0 <= i <= a.Length
      invariant SortedPrefix(a[..], i)
      invariant multiset(a[..]) == multiset(old(a[..]))
    {
      SinkingStart(a[..], i);
      var j := i;
      while j > 0 && !CodeUnitLe(a[j - 1], a[j])
        invariant 0 <= j <= i
        invariant Sinking(a[..], i, j)
        invariant multiset(a[..]) == multiset(old(a[..]))
      {
        SinkingSwap(a[..], i, j);
        ghost var before := a[..];
        a[j - 1], a[j] := a[j], a[j - 1];
        assert a[..] == before[j - 1 := before[j]][j := before[j - 1]];
        j := j - 1;
      }
      SinkingDone(a[..], i, j);
      i := i + 1;
    }
    SortedUnique(a[..], SortPaths(old(a[..])));
  }
}
