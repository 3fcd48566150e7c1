/** Searching and splitting strings. */
module Text {

  /** `c` does not occur in `s`. */
  ghost predicate Free(s: string, c: char) {
    forall i :: 0 <= i < |s| ==> s[i] != c
  }

  /** Position of the first `c` at or after `from`, or the length of `s`. */
  function Find(s: string, c: char, from: nat): nat
    requires from <= |s|
    decreases |s| - from
  {
    if from == |s| || s[from] == c then from else Find(s, c, from + 1)
  }

  ghost predicate IsFirst(s: string, c: char, from: nat, k: nat) {
    && from <= k <= |s|
    && (k < |s| ==> s[k] == c)
    && forall i :: from <= i < k ==> s[i] != c
  }

  lemma {:induction false} FindSound(s: string, c: char, from: nat)
    requires from <= |s|
    ensures IsFirst(s, c, from, Find(s, c, from))
    decreases |s| - from
  {
    if from < |s| && s[from] != c {
      FindSound(s, c, from + 1);
    }
  }

  lemma FindUnique(s: string, c: char, from: nat, k: nat)
    requires IsFirst(s, c, from, k)
    ensures Find(s, c, from) == k
  {
    FindSound(s, c, from);
  }

  /** At most `n` pieces of `s`, cut at the first occurrences of `c`. */
  function SplitOn(s: string, c: char, n: nat): seq<string>
    requires n > 0
    decreases n
  {
    FindSound(s, c, 0);
    var i := Find(s, c, 0);
    if n == 1 || i == |s| then [s] else [s[..i]] + SplitOn(s[i + 1..], c, n - 1)
  }

  lemma SplitLast(s: string, c: char, n: nat)
    requires n > 0 && Free(s, c)
    ensures SplitOn(s, c, n) == [s]
  {
    FindUnique(s, c, 0, |s|);
  }

  /** A separator after a piece that has none cuts there. */
  lemma SplitFirst(a: string, rest: string, c: char, n: nat)
    requires n > 1 && Free(a, c)
    ensures SplitOn(a + [c] + rest, c, n) == [a] + SplitOn(rest, c, n - 1)
  {
    var s := a + [c] + rest;
    assert s[|a|] == c;
    assert forall i :: 0 <= i < |a| ==> s[i] == a[i];
    FindUnique(s, c, 0, |a|);
    assert s[..|a|] == a && s[|a| + 1..] == rest;
  }

  /** More than one piece means that the first one was cut off at the first `c`. */
  lemma SplitCut(s: string, c: char, n: nat) returns (a: string, rest: string)
    requires n > 0 && |SplitOn(s, c, n)| > 1
    ensures n > 1 && s == a + [c] + rest && Free(a, c)
    ensures SplitOn(s, c, n) == [a] + SplitOn(rest, c, n - 1)
  {
    FindSound(s, c, 0);
    var i := Find(s, c, 0);
    a, rest := s[..i], s[i + 1..];
  }
}
