/** Small facts about sequences, proved where nothing else is in scope:
    next to recursive definitions over sequences, deciding sequence
    equality by extensionality becomes expensive. */
module Seqs {

  lemma AppendAssoc<T>(a: seq<T>, b: seq<T>, c: seq<T>)
    ensures a + b + c == a + (b + c)
  {
  }

  /** No element occurs twice. */
  ghost predicate Distinct<T>(xs: seq<T>) {
    forall i, j :: 0 <= i < j < |xs| ==> xs[i] != xs[j]
  }

  /** The rest of a sequence without repetitions has none either, and does
      not contain its first element. */
  lemma DistinctTail<T>(xs: seq<T>)
    requires |xs| > 0 && Distinct(xs)
    ensures Distinct(xs[1..])
    ensures xs[0] !in xs[1..]
  {
    forall i, j | 0 <= i < j < |xs| - 1 ensures xs[1..][i] != xs[1..][j] {
      assert xs[1..][i] == xs[i + 1] && xs[1..][j] == xs[j + 1];
    }
  }

  /** The elements of a sequence are its first element and those of the
      rest. */
  lemma ElementsCons<T>(xs: seq<T>)
    requires |xs| > 0
    ensures (set x | x in xs) == {xs[0]} + (set x | x in xs[1..])
  {
    forall x ensures x in xs <==> x == xs[0] || x in xs[1..] {
      assert xs == [xs[0]] + xs[1..];
    }
  }

  /** A prefix of a prefix is a prefix, and what the longest sequence adds
      beyond the shortest is what the middle one adds followed by the rest. */
  lemma PrefixChain<T>(a: seq<T>, b: seq<T>, c: seq<T>)
    requires |a| <= |b| <= |c| && b[..|a|] == a && c[..|b|] == b
    ensures c[..|a|] == a
    ensures c[|a|..] == b[|a|..] + c[|b|..]
  {
    assert c[..|a|] == c[..|b|][..|a|];
  }

  lemma DistinctAppend<T>(a: seq<T>, b: seq<T>)
    requires Distinct(a) && Distinct(b)
    requires forall i :: 0 <= i < |a| ==> a[i] !in b
    ensures Distinct(a + b)
  {
    forall i, j | 0 <= i < j < |a + b| ensures (a + b)[i] != (a + b)[j] {
      if j < |a| {
      } else if i >= |a| {
        assert (a + b)[i] == b[i - |a|] && (a + b)[j] == b[j - |a|];
      } else {
        assert (a + b)[j] == b[j - |a|];
      }
    }
  }

  lemma ElementsAppend<T>(a: seq<T>, b: seq<T>)
    ensures (set x | x in a + b) == (set x | x in a) + (set x | x in b)
  {
  }

  lemma PrefixOfAppend<T>(a: seq<T>, b: seq<T>)
    ensures (a + b)[..|a|] == a
  {
  }

  lemma DistinctCons<T>(x: T, xs: seq<T>)
    requires x !in xs && Distinct(xs)
    ensures Distinct([x] + xs)
  {
    forall i, j | 0 <= i < j < |[x] + xs| ensures ([x] + xs)[i] != ([x] + xs)[j] {
      assert ([x] + xs)[j] == xs[j - 1];
      if i > 0 {
        assert ([x] + xs)[i] == xs[i - 1];
      }
    }
  }

  /** What a set loses to a sequence, taking the sequence's head first. */
  lemma MinusCons<T>(xs: seq<T>, s: set<T>)
    requires |xs| > 0
    ensures (s - {xs[0]}) - (set k | k in xs[1..]) == s - (set k | k in xs)
    ensures xs[0] !in s ==> s - (set k | k in xs[1..]) == s - (set k | k in xs)
  {
    ElementsCons(xs);
  }

  /** The pieces of `xss` one after the other. */
  function Concat<T>(xss: seq<seq<T>>): seq<T> {
    if |xss| == 0 then [] else xss[0] + Concat(xss[1..])
  }

  /** A slice of the second part of `a + b`. */
  lemma SliceOfAppend<T>(a: seq<T>, b: seq<T>, x: int, y: int)
    requires 0 <= x <= y <= |b|
    ensures (a + b)[|a| + x..|a| + y] == b[x..y]
  {
  }

  /** In a sequence without repetitions, an element sits at exactly one
      position. */
  lemma OnlyPosition<T>(xs: seq<T>, x: T) returns (i: int)
    requires Distinct(xs) && x in xs
    ensures 0 <= i < |xs| && xs[i] == x
    ensures forall j :: 0 <= j < |xs| && j != i ==> xs[j] != x
  {
    i :| 0 <= i < |xs| && xs[i] == x;
  }
}
