/** `str.replace(old, new)`: leftmost, non-overlapping substitution of every
    occurrence, including the special case of an empty pattern, which inserts
    the replacement before every character and at the end. */
module Replace {
  import opened Seqs

  /** `p` occurs in `s` starting at position `i`. */
  predicate OccursAt(s: string, p: string, i: nat) {
    i + |p| <= |s| && s[i..i + |p|] == p
  }

  predicate Contains(s: string, p: string) {
    exists i: nat | i <= |s| :: OccursAt(s, p, i)
  }

  /** `t` before every character of `s` and once more at the end. */
  function Interleave(s: string, t: string): (r: string)
    ensures |r| == Block(t, |s|) + |t|
    decreases |s|
  {
    if |s| == 0 then t else t + [s[0]] + Interleave(s[1..], t)
  }

  function ReplaceAll(s: string, p: string, t: string): (r: string)
    ensures |p| == 0 ==> |r| == Block(t, |s|) + |t|
    ensures |p| > 0 && |t| == |p| ==> |r| == |s|
    ensures |p| > 0 && |s| < |p| ==> r == s
    decreases |s|
  {
    if |p| == 0 then Interleave(s, t)
    else if |s| < |p| then s
    else if s[..|p|] == p then t + ReplaceAll(s[|p|..], p, t)
    else [s[0]] + ReplaceAll(s[1..], p, t)
  }

  /** Where the `i`-th copy of the replacement starts when the pattern is
      empty: each earlier character of `s` comes with one copy before it. */
  function Block(t: string, i: nat): nat {
    if i == 0 then 0 else Block(t, i - 1) + |t| + 1
  }

  /** Copy `i` starts after `i` characters and `i` earlier copies. */
  lemma {:induction false} BlockAt(t: string, i: nat)
    ensures Block(t, i) == i * (|t| + 1)
  {
    if i > 0 {
      BlockAt(t, i - 1);
    }
  }

  /** With an empty pattern, copy `i` of the replacement sits at
      `Block(t, i)`, and character `i` of `s` follows it. */
  lemma {:induction false} InterleaveAt(s: string, t: string, i: nat)
    requires i <= |s|
    ensures Block(t, i) + |t| + (|s| - i) <= |Interleave(s, t)|
    ensures Interleave(s, t)[Block(t, i)..Block(t, i) + |t|] == t
    ensures i < |s| ==> Interleave(s, t)[Block(t, i) + |t|] == s[i]
    decreases i
  {
    if i == 0 {
      InterleaveFirst(s, t);
    } else {
      InterleaveAt(s[1..], t, i - 1);
      InterleaveNext(s, t, i);
    }
  }

  lemma InterleaveFirst(s: string, t: string)
    ensures |s| + |t| <= |Interleave(s, t)|
    ensures Interleave(s, t)[..|t|] == t
    ensures |s| > 0 ==> Interleave(s, t)[|t|] == s[0]
  {
    InterleaveLong(s, t);
    if |s| > 0 {
      var rest := Interleave(s[1..], t);
      assert Interleave(s, t) == t + ([s[0]] + rest);
    }
  }

  /** Copy `i` of the replacement and what follows it, one character and one
      copy further on than in the interleaving of the rest of `s`. */
  lemma InterleaveNext(s: string, t: string, i: nat)
    requires 0 < i <= |s|
    requires Block(t, i - 1) + |t| + (|s| - i) <= |Interleave(s[1..], t)|
    requires Interleave(s[1..], t)[Block(t, i - 1)..Block(t, i - 1) + |t|] == t
    requires i < |s| ==> Interleave(s[1..], t)[Block(t, i - 1) + |t|] == s[1..][i - 1]
    ensures Block(t, i) + |t| + (|s| - i) <= |Interleave(s, t)|
    ensures Interleave(s, t)[Block(t, i)..Block(t, i) + |t|] == t
    ensures i < |s| ==> Interleave(s, t)[Block(t, i) + |t|] == s[i]
  {
    var head, rest := t + [s[0]], Interleave(s[1..], t);
    var b := Block(t, i - 1);
    assert Interleave(s, t) == head + rest;
    assert Block(t, i) == |head| + b;
    SliceOfAppend(head, rest, b, b + |t|);
    if i < |s| {
      assert (head + rest)[|head| + b + |t|] == rest[b + |t|];
    }
  }

  lemma {:induction false} InterleaveLong(s: string, t: string)
    ensures |s| + |t| <= |Interleave(s, t)|
    decreases |s|
  {
    if |s| > 0 {
      InterleaveLong(s[1..], t);
    }
  }

  /** The empty pattern: the replacement before every character of `s` and
      once more at the end; `ReplaceEmptyChars` places the characters of `s`
      in between. */
  lemma ReplaceEmptyPattern(s: string, t: string)
    ensures |ReplaceAll(s, "", t)| == Block(t, |s|) + |t|
    ensures forall i :: 0 <= i <= |s| ==>
      Block(t, i) + |t| <= |ReplaceAll(s, "", t)| && ReplaceAll(s, "", t)[Block(t, i)..Block(t, i) + |t|] == t
  {
    forall i | 0 <= i <= |s|
      ensures Block(t, i) + |t| <= |ReplaceAll(s, "", t)| && ReplaceAll(s, "", t)[Block(t, i)..Block(t, i) + |t|] == t
    {
      ReplaceEmptyAt(s, t, i);
    }
  }

  /** The empty pattern: character `i` of `s` follows copy `i` of the
      replacement. */
  lemma ReplaceEmptyChars(s: string, t: string)
    ensures forall i :: 0 <= i < |s| ==>
      Block(t, i) + |t| < |ReplaceAll(s, "", t)| && ReplaceAll(s, "", t)[Block(t, i) + |t|] == s[i]
  {
    forall i | 0 <= i < |s|
      ensures Block(t, i) + |t| < |ReplaceAll(s, "", t)| && ReplaceAll(s, "", t)[Block(t, i) + |t|] == s[i]
    {
      ReplaceEmptyAt(s, t, i);
    }
  }

  /** Copy `i` of the replacement, and character `i` after it, in the
      result for the empty pattern. */
  lemma ReplaceEmptyAt(s: string, t: string, i: nat)
    requires i <= |s|
    ensures Block(t, i) + |t| <= |ReplaceAll(s, "", t)| && ReplaceAll(s, "", t)[Block(t, i)..Block(t, i) + |t|] == t
    ensures i < |s| ==> Block(t, i) + |t| < |ReplaceAll(s, "", t)| && ReplaceAll(s, "", t)[Block(t, i) + |t|] == s[i]
  {
    assert ReplaceAll(s, "", t) == Interleave(s, t);
    InterleaveAt(s, t, i);
  }

  /** Replacing a pattern by itself changes nothing. */
  lemma {:induction false} ReplaceBySelf(s: string, p: string)
    ensures ReplaceAll(s, p, p) == s
    decreases |s|
  {
    if |p| == 0 {
      InterleaveEmpty(s);
    } else if |s| < |p| {
    } else if s[..|p|] == p {
      ReplaceBySelf(s[|p|..], p);
      assert s == p + s[|p|..];
    } else {
      ReplaceBySelf(s[1..], p);
      assert s == [s[0]] + s[1..];
    }
  }

  lemma {:induction false} InterleaveEmpty(s: string)
    ensures Interleave(s, "") == s
    decreases |s|
  {
    if |s| > 0 {
      InterleaveEmpty(s[1..]);
      assert s == [s[0]] + s[1..];
    }
  }

  /** A string in which the (non-empty) pattern never occurs is left as it
      is. */
  lemma {:induction false} ReplaceAbsent(s: string, p: string, t: string)
    requires |p| > 0 && !Contains(s, p)
    ensures ReplaceAll(s, p, t) == s
    decreases |s|
  {
    if |s| >= |p| {
      assert !OccursAt(s, p, 0);
      assert !Contains(s[1..], p) by {
        forall i: nat | i <= |s| - 1 && OccursAt(s[1..], p, i) ensures OccursAt(s, p, i + 1) {
          assert s[1..][i..i + |p|] == s[i + 1..i + 1 + |p|];
        }
      }
      ReplaceAbsent(s[1..], p, t);
      assert s == [s[0]] + s[1..];
    }
  }

  /** A one-character placeholder whose replacement does not contain it
      disappears from the result entirely: every occurrence was replaced. */
  lemma {:induction false} ReplaceCharEliminates(s: string, c: char, t: string)
    requires c !in t
    ensures c !in ReplaceAll(s, [c], t)
    decreases |s|
  {
    if |s| >= 1 {
      ReplaceCharEliminates(s[1..], c, t);
      assert s[1..] == s[|[c]|..];
    }
  }

  /** Unfolding `ReplaceAll` where the input starts with the pattern. */
  lemma ReplaceMatchStep(s: string, p: string, t: string)
    requires 0 < |p| <= |s| && s[..|p|] == p
    ensures ReplaceAll(s, p, t) == t + ReplaceAll(s[|p|..], p, t)
  {
  }

  /** Unfolding `ReplaceAll` where the input does not start with the pattern. */
  lemma ReplaceSkipStep(s: string, p: string, t: string)
    requires 0 < |p| <= |s| && s[..|p|] != p
    ensures ReplaceAll(s, p, t) == [s[0]] + ReplaceAll(s[1..], p, t)
  {
  }

  /** If the first `m` characters of `r` all belong to `p`, they were copied
      from the start of `u`. */
  predicate CopiedPrefix(u: string, r: string, p: string, m: nat) {
    m <= |r| && (forall k :: 0 <= k < m ==> r[k] in p) ==> m <= |u| && u[..m] == r[..m]
  }

  /** One character copied in front keeps a copied prefix copied, one
      character longer. */
  lemma ConsPrefix(u: string, rest: string, p: string, m: nat)
    requires 0 < m && 0 < |u| && CopiedPrefix(u[1..], rest, p, m - 1)
    ensures CopiedPrefix(u, [u[0]] + rest, p, m)
  {
    var r := [u[0]] + rest;
    if m <= |r| && (forall k :: 0 <= k < m ==> r[k] in p) {
      forall k | 0 <= k < m - 1 ensures rest[k] in p {
        assert rest[k] == r[k + 1];
      }
      assert u[..m] == [u[0]] + u[1..][..m - 1];
      assert r[..m] == [u[0]] + rest[..m - 1];
    }
  }

  /** When the replacement shares no character with the pattern, a prefix of
      the result made only of pattern characters was copied unchanged from
      the input: no replacement text can be part of it. */
  lemma {:induction false} KeptPrefix(u: string, p: string, t: string, m: nat)
    requires |p| > 0 && |t| > 0 && forall c :: c in t ==> c !in p
    ensures CopiedPrefix(u, ReplaceAll(u, p, t), p, m)
    decreases |u|
  {
    if m == 0 || |u| < |p| {
    } else if u[..|p|] == p {
      ReplaceMatchStep(u, p, t);
      assert (t + ReplaceAll(u[|p|..], p, t))[0] == t[0] && t[0] !in p;
    } else {
      ReplaceSkipStep(u, p, t);
      KeptPrefix(u[1..], p, t, m - 1);
      ConsPrefix(u, ReplaceAll(u[1..], p, t), p, m);
    }
  }

  /** A replacement sharing no character with the pattern, followed by text
      free of the pattern, is free of it too. */
  lemma PrependClean(t: string, rest: string, p: string)
    requires |p| > 0 && (forall c :: c in t ==> c !in p) && !Contains(rest, p)
    ensures !Contains(t + rest, p)
  {
    var r := t + rest;
    forall i: nat | i <= |r| ensures !OccursAt(r, p, i) {
      if i < |t| {
        assert r[i] == t[i] && t[i] !in p;
      } else if i + |p| <= |r| {
        assert !OccursAt(rest, p, i - |t|);
        SliceOfAppend(t, rest, i - |t|, i - |t| + |p|);
      }
    }
  }

  /** One character in front of text free of the pattern adds no
      occurrence except possibly at the very start. */
  lemma ConsClean(x: char, rest: string, p: string)
    requires !Contains(rest, p) && !OccursAt([x] + rest, p, 0)
    ensures !Contains([x] + rest, p)
  {
    var r := [x] + rest;
    forall i: nat | 1 <= i <= |r| && i + |p| <= |r| ensures !OccursAt(r, p, i) {
      assert !OccursAt(rest, p, i - 1);
      SliceOfAppend([x], rest, i - 1, i - 1 + |p|);
    }
  }

  /** Characters after the first of an occurrence at the start belong to
      the pattern. */
  lemma OccurrenceTail(r: string, p: string)
    ensures OccursAt(r, p, 0) && |p| > 0 ==>
      |p| - 1 <= |r[1..]| && forall k :: 0 <= k < |p| - 1 ==> r[1..][k] in p
  {
    if OccursAt(r, p, 0) && |p| > 0 {
      forall k | 0 <= k < |p| - 1 ensures r[1..][k] in p {
        assert r[1..][k] == p[k + 1];
      }
    }
  }

  /** An input not starting with the pattern, one character in front of a
      rest whose leading pattern characters are copied from the input: the
      result does not start with the pattern either. */
  lemma PrefixMismatch(s: string, rest: string, p: string)
    requires 0 < |p| <= |s| && s[..|p|] != p && CopiedPrefix(s[1..], rest, p, |p| - 1)
    ensures !OccursAt([s[0]] + rest, p, 0)
  {
    var r, m := [s[0]] + rest, |p| - 1;
    if m <= |rest| && forall k :: 0 <= k < m ==> rest[k] in p {
      assert s[..|p|] == [s[0]] + s[1..][..m];
      assert r[..|p|] == [s[0]] + rest[..m];
    } else {
      assert r[1..] == rest;
      OccurrenceTail(r, p);
    }
  }

  /** Where the input does not start with the pattern, neither does the
      result: its first character is copied and the pattern characters after
      it are copied too. */
  lemma SkipStart(s: string, p: string, t: string)
    requires |p| > 0 && |t| > 0 && forall c :: c in t ==> c !in p
    requires |p| <= |s| && s[..|p|] != p
    ensures !OccursAt([s[0]] + ReplaceAll(s[1..], p, t), p, 0)
  {
    KeptPrefix(s[1..], p, t, |p| - 1);
    PrefixMismatch(s, ReplaceAll(s[1..], p, t), p);
  }

  /** Where the input does not start with the pattern, the result is free of
      it as soon as the result for the rest of the input is. */
  lemma SkipClean(s: string, p: string, t: string)
    requires |p| > 0 && |t| > 0 && forall c :: c in t ==> c !in p
    requires |p| <= |s| && s[..|p|] != p && !Contains(ReplaceAll(s[1..], p, t), p)
    ensures !Contains(ReplaceAll(s, p, t), p)
  {
    SkipStart(s, p, t);
    ConsClean(s[0], ReplaceAll(s[1..], p, t), p);
    ReplaceSkipStep(s, p, t);
  }

  /** Where the input starts with the pattern, the result is free of it as
      soon as the result for the rest of the input is. */
  lemma MatchClean(s: string, p: string, t: string)
    requires |p| > 0 && forall c :: c in t ==> c !in p
    requires |p| <= |s| && s[..|p|] == p && !Contains(ReplaceAll(s[|p|..], p, t), p)
    ensures !Contains(ReplaceAll(s, p, t), p)
  {
    ReplaceMatchStep(s, p, t);
    PrependClean(t, ReplaceAll(s[|p|..], p, t), p);
  }

  /** A placeholder of any length disappears from the result when the
      replacement is non-empty and shares no character with it. The
      replacement must be non-empty: replacing "ab" by "" in "aabb" leaves
      "ab", because the removal joins the parts around it. */
  lemma {:induction false} ReplaceEliminates(s: string, p: string, t: string)
    requires |p| > 0 && |t| > 0 && forall c :: c in t ==> c !in p
    ensures !Contains(ReplaceAll(s, p, t), p)
    decreases |s|
  {
    if |s| < |p| {
      assert forall i: nat | i <= |s| :: !OccursAt(s, p, i);
    } else if s[..|p|] == p {
      ReplaceEliminates(s[|p|..], p, t);
      MatchClean(s, p, t);
    } else {
      ReplaceEliminates(s[1..], p, t);
      SkipClean(s, p, t);
    }
  }
}
