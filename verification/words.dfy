/** `str.split()` with no separator: the maximal runs of non-whitespace
    characters, in order; leading, trailing and repeated whitespace produce
    no empty pieces. */
module Words {
  import opened Text
  import opened Seqs

  /** The number of non-whitespace characters at the front of `s`. */
  function WordLength(s: string): (n: nat)
    ensures n <= |s|
    ensures forall i :: 0 <= i < n ==> !IsSpace(s[i])
    ensures n < |s| ==> IsSpace(s[n])
    decreases |s|
  {
    if |s| == 0 || IsSpace(s[0]) then 0 else 1 + WordLength(s[1..])
  }

  predicate IsWord(w: string) {
    |w| > 0 && forall i :: 0 <= i < |w| ==> !IsSpace(w[i])
  }

  function SplitWords(s: string): (r: seq<string>)
    ensures forall k :: 0 <= k < |r| ==> IsWord(r[k])
    decreases |s|
  {
    if |s| == 0 then []
    else if IsSpace(s[0]) then SplitWords(s[1..])
    else
      var n := WordLength(s);
      [s[..n]] + SplitWords(s[n..])
  }

  /** The characters of `s` that are not whitespace, in order. */
  function NonSpace(s: string): string
    decreases |s|
  {
    if |s| == 0 then "" else (if IsSpace(s[0]) then "" else [s[0]]) + NonSpace(s[1..])
  }

  /** The words together hold exactly the non-whitespace characters of `s`:
      splitting loses only whitespace. */
  lemma {:induction false} SplitKeepsText(s: string)
    ensures Concat(SplitWords(s)) == NonSpace(s)
    decreases |s|
  {
    if |s| > 0 {
      if IsSpace(s[0]) {
        SplitKeepsText(s[1..]);
      } else {
        var n := WordLength(s);
        SplitKeepsText(s[n..]);
        NonSpaceOfWord(s, n);
        assert SplitWords(s)[1..] == SplitWords(s[n..]);
      }
    }
  }

  lemma {:induction false} NonSpaceOfWord(s: string, n: nat)
    requires n <= |s|
    requires forall i :: 0 <= i < n ==> !IsSpace(s[i])
    ensures NonSpace(s) == s[..n] + NonSpace(s[n..])
    decreases n
  {
    if n > 0 {
      var t := s[1..];
      NonSpaceOfWord(t, n - 1);
      assert t[n - 1..] == s[n..];
      assert s[..n] == [s[0]] + t[..n - 1];
      assert NonSpace(s) == [s[0]] + NonSpace(t);
      AppendAssoc([s[0]], t[..n - 1], NonSpace(s[n..]));
    }
  }

  /** Words joined by single spaces. */
  function JoinWords(ws: seq<string>): string {
    if |ws| == 0 then "" else if |ws| == 1 then ws[0] else ws[0] + " " + JoinWords(ws[1..])
  }

  /** Splitting undoes joining with spaces, for genuine words. */
  lemma {:induction false} SplitJoin(ws: seq<string>)
    requires forall k :: 0 <= k < |ws| ==> IsWord(ws[k])
    ensures SplitWords(JoinWords(ws)) == ws
    decreases |ws|
  {
    if |ws| == 1 {
      SplitWord(ws[0], "");
      assert ws[0] + "" == ws[0];
    } else if |ws| > 1 {
      var rest := JoinWords(ws[1..]);
      SplitJoin(ws[1..]);
      SplitWord(ws[0], " " + rest);
      AppendAssoc(ws[0], " ", rest);
      assert (" " + rest)[1..] == rest;
    }
  }

  /** A word followed by nothing or by whitespace splits off as one piece. */
  lemma SplitWord(w: string, tail: string)
    requires IsWord(w)
    requires |tail| == 0 || IsSpace(tail[0])
    ensures SplitWords(w + tail) == [w] + SplitWords(tail)
  {
    var s := w + tail;
    WordLengthOf(w, tail);
    assert s[..|w|] == w;
    assert s[|w|..] == tail;
  }

  lemma {:induction false} WordLengthOf(w: string, tail: string)
    requires forall i :: 0 <= i < |w| ==> !IsSpace(w[i])
    requires |tail| == 0 || IsSpace(tail[0])
    ensures WordLength(w + tail) == |w|
    decreases |w|
  {
    if |w| > 0 {
      WordLengthOf(w[1..], tail);
      assert (w + tail)[1..] == w[1..] + tail;
    } else {
      assert w + tail == tail;
    }
  }

  /** Leading whitespace, however long, produces no piece. */
  lemma {:induction false} SplitSkipsSpace(w: string, b: string)
    requires AllSpace(w)
    ensures SplitWords(w + b) == SplitWords(b)
    decreases |w|
  {
    if |w| > 0 {
      assert (w + b)[1..] == w[1..] + b;
      SplitSkipsSpace(w[1..], b);
    } else {
      assert w + b == b;
    }
  }

  /** Any non-empty run of whitespace separates words: what comes before it
      and what comes after it split independently. */
  lemma {:induction false} SplitAtSpace(a: string, w: string, b: string)
    requires |w| > 0 && AllSpace(w)
    ensures SplitWords(a + w + b) == SplitWords(a) + SplitWords(b)
    decreases |a|
  {
    var rest := w + b;
    AppendAssoc(a, w, b);
    if |a| == 0 {
      assert a + rest == rest;
      SplitSkipsSpace(w, b);
    } else if IsSpace(a[0]) {
      assert (a + rest)[1..] == a[1..] + rest;
      SplitAtSpace(a[1..], w, b);
      AppendAssoc(a[1..], w, b);
    } else {
      var n := WordLength(a);
      var more := a[n..] + rest;
      assert a + rest == a[..n] + more by {
        assert a == a[..n] + a[n..];
        AppendAssoc(a[..n], a[n..], rest);
      }
      WordLengthOf(a[..n], more);
      assert (a[..n] + more)[..n] == a[..n];
      assert (a[..n] + more)[n..] == more;
      SplitAtSpace(a[n..], w, b);
      AppendAssoc(a[n..], w, b);
      AppendAssoc([a[..n]], SplitWords(a[n..]), SplitWords(b));
    }
  }
}
