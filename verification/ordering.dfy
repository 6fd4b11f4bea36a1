/** The lexicographic order on strings that `list.sort()` uses for byte
    strings, and the sorted listing of a finite set of keys. */
module Ordering {
  import opened Seqs

  /** `a <= b` character by character, a proper prefix sorting first. */
  predicate LexLe(a: string, b: string)
    decreases |a|
  {
    |a| == 0 || (|b| > 0 && (a[0] < b[0] || (a[0] == b[0] && LexLe(a[1..], b[1..]))))
  }

  lemma {:induction false} LexLeReflexive(a: string)
    ensures LexLe(a, a)
    decreases |a|
  {
    if |a| > 0 {
      LexLeReflexive(a[1..]);
    }
  }

  lemma {:induction false} LexLeAntisymmetric(a: string, b: string)
    requires LexLe(a, b) && LexLe(b, a)
    ensures a == b
    decreases |a|
  {
    if |a| > 0 {
      LexLeAntisymmetric(a[1..], b[1..]);
      assert a == [a[0]] + a[1..] && b == [b[0]] + b[1..];
    }
  }

  lemma {:induction false} LexLeTransitive(a: string, b: string, c: string)
    requires LexLe(a, b) && LexLe(b, c)
    ensures LexLe(a, c)
    decreases |a|
  {
    if |a| > 0 && a[0] == b[0] && b[0] == c[0] {
      LexLeTransitive(a[1..], b[1..], c[1..]);
    }
  }

  lemma {:induction false} LexLeTotal(a: string, b: string)
    ensures LexLe(a, b) || LexLe(b, a)
    decreases |a|
  {
    if |a| > 0 && |b| > 0 && a[0] == b[0] {
      LexLeTotal(a[1..], b[1..]);
    }
  }

  lemma LexLeAntisymmetricAll()
    ensures forall a, b :: LexLe(a, b) && LexLe(b, a) ==> a == b
  {
    forall a, b | LexLe(a, b) && LexLe(b, a) ensures a == b {
      LexLeAntisymmetric(a, b);
    }
  }

  predicate IsLeast(m: string, s: set<string>) {
    m in s && forall y :: y in s ==> LexLe(m, y)
  }

  /** Every non-empty finite set of strings has a least element. */
  lemma {:induction false} LeastExists(s: set<string>) returns (m: string)
    requires s != {}
    ensures IsLeast(m, s)
    decreases |s|
  {
    var x :| x in s;
    if s == {x} {
      LexLeReflexive(x);
      m := x;
    } else {
      var m' := LeastExists(s - {x});
      LexLeTotal(x, m');
      if LexLe(x, m') {
        LexLeReflexive(x);
        forall y | y in s ensures LexLe(x, y) {
          if y != x {
            LexLeTransitive(x, m', y);
          }
        }
        m := x;
      } else {
        m := m';
      }
    }
  }

  lemma HasLeast(s: set<string>)
    requires s != {}
    ensures exists m :: IsLeast(m, s)
  {
    var m := LeastExists(s);
  }

  function Least(s: set<string>): (m: string)
    requires s != {}
    ensures m in s
    ensures forall y :: y in s ==> LexLe(m, y)
  {
    HasLeast(s);
    LexLeAntisymmetricAll();
    var m :| IsLeast(m, s);
    m
  }

  /** `a` sorts strictly before `b`. */
  predicate Before(a: string, b: string) {
    LexLe(a, b) && a != b
  }

  /** Each element sorts strictly before the next one. */
  predicate StrictlySorted(r: seq<string>) {
    forall i :: 0 < i < |r| ==> Before(r[i - 1], r[i])
  }

  /** In a strictly sorted list every element sorts before every later one. */
  lemma {:induction false} SortedPairwise(r: seq<string>, i: int, j: int)
    requires StrictlySorted(r) && 0 <= i < j < |r|
    ensures Before(r[i], r[j])
    decreases j - i
  {
    if j > i + 1 {
      SortedPairwise(r, i, j - 1);
      assert Before(r[j - 1], r[j]);
      LexLeTransitive(r[i], r[j - 1], r[j]);
      if r[i] == r[j] {
        LexLeAntisymmetric(r[i], r[j - 1]);
      }
    }
  }

  /** The elements of `s` in increasing order, each exactly once. */
  function SortedList(s: set<string>): (r: seq<string>)
    ensures |r| == |s|
    ensures forall x :: x in r <==> x in s
    ensures Distinct(r)
    ensures StrictlySorted(r)
    decreases |s|
  {
    if s == {} then []
    else
      var m := Least(s);
      [m] + SortedList(s - {m})
  }
}
