/** Fronts of sequences, sequences without repetition, sequences of sequences laid end to end,
    and counting in sequences. */
module Sequences {

  /** The first `n` elements, or all there are. */
  function Front<T>(s: seq<T>, n: nat): (r: seq<T>)
    ensures r <= s && |r| == if n < |s| then n else |s|
  {
    if n < |s| then s[..n] else s
  }

  ghost predicate Distinct<T>(s: seq<T>) {
    forall i, j :: 0 <= i < j < |s| ==> s[i] != s[j]
  }

  lemma {:induction false} DistinctCount<T>(s: seq<T>)
    requires Distinct(s)
    ensures |set x | x in s| == |s|
  {
    if s != [] {
      var k := |s| - 1;
      DistinctCount(s[..k]);
      assert (set x | x in s) == (set x | x in s[..k]) + {s[k]};
    }
  }

  function Flatten<T>(ss: seq<seq<T>>): seq<T> {
    if ss == [] then [] else Flatten(ss[..|ss| - 1]) + ss[|ss| - 1]
  }

  lemma {:induction false} FlattenMembers<T>(ss: seq<seq<T>>, x: T)
    ensures x in Flatten(ss) <==> exists b :: 0 <= b < |ss| && x in ss[b]
  {
    if ss != [] {
      var k := |ss| - 1;
      FlattenMembers(ss[..k], x);
      if b :| 0 <= b < |ss| && x in ss[b] {
        assert b < k ==> ss[..k][b] == ss[b];
      }
    }
  }

  function CountIf<T>(s: seq<T>, f: T -> bool): nat {
    if s == [] then 0 else CountIf(s[..|s| - 1], f) + if f(s[|s| - 1]) then 1 else 0
  }

  lemma CountStep<T>(s: seq<T>, i: nat, f: T -> bool)
    requires i < |s|
    ensures CountIf(s[..i + 1], f) == CountIf(s[..i], f) + if f(s[i]) then 1 else 0
  {
    assert s[..i + 1][..i] == s[..i];
  }

  lemma {:induction false} CountZero<T>(s: seq<T>, f: T -> bool)
    ensures CountIf(s, f) == 0 <==> forall x :: x in s ==> !f(x)
  {
    if s != [] {
      CountZero(s[..|s| - 1], f);
      assert s == s[..|s| - 1] + [s[|s| - 1]];
    }
  }

  lemma {:induction false} CountAll<T>(s: seq<T>, f: T -> bool)
    ensures CountIf(s, f) <= |s|
    ensures CountIf(s, f) == |s| <==> forall x :: x in s ==> f(x)
  {
    if s != [] {
      CountAll(s[..|s| - 1], f);
      assert s == s[..|s| - 1] + [s[|s| - 1]];
    }
  }

  /** Without repetition the count is the size of the set of what is counted. */
  lemma {:induction false} CountIsSize<T>(s: seq<T>, f: T -> bool, found: set<T>)
    requires Distinct(s) && forall x :: x in found <==> x in s && f(x)
    ensures CountIf(s, f) == |found|
  {
    if s != [] {
      var front, last := s[..|s| - 1], s[|s| - 1];
      assert s == front + [last];
      CountIsSize(front, f, found - {last});
    } else {
      assert found == {};
    }
  }
}
