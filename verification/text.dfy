/** String primitives the configuration reader relies on: whitespace
    stripping, prefix tests, character search and slicing, each with the
    semantics of the host language's byte strings. */
module Text {

  /** The characters `str.strip()` removes: space, tab, newline, carriage
      return, vertical tab and form feed. */
  predicate IsSpace(c: char) {
    c == ' ' || c == '\t' || c == '\n' || c == '\r' || c == '\U{0B}' || c == '\U{0C}'
  }

  predicate AllSpace(s: string) {
    forall i :: 0 <= i < |s| ==> IsSpace(s[i])
  }

  /** Neither end of `s` is whitespace. */
  predicate Trimmed(s: string) {
    |s| == 0 || (!IsSpace(s[0]) && !IsSpace(s[|s| - 1]))
  }

  predicate StartsWith(s: string, prefix: string) {
    |prefix| <= |s| && s[..|prefix|] == prefix
  }

  /** Leading whitespace removed. */
  function LStrip(s: string): (r: string)
    ensures |r| <= |s|
    ensures |r| > 0 ==> !IsSpace(r[0])
    decreases |s|
  {
    if |s| > 0 && IsSpace(s[0]) then LStrip(s[1..]) else s
  }

  /** What `LStrip` removes is a run of whitespace at the front. */
  lemma {:induction false} LStripSuffix(s: string)
    ensures LStrip(s) == s[|s| - |LStrip(s)|..]
    ensures AllSpace(s[..|s| - |LStrip(s)|])
    decreases |s|
  {
    if |s| > 0 && IsSpace(s[0]) {
      LStripSuffix(s[1..]);
      var n := |s| - |LStrip(s)|;
      assert s[1..][|s| - 1 - |LStrip(s)|..] == s[n..];
      forall i | 0 <= i < n ensures IsSpace(s[..n][i]) {
        if i > 0 {
          assert s[..n][i] == s[1..][..n - 1][i - 1];
        }
      }
    }
  }

  /** Trailing whitespace removed (`str.rstrip()`). */
  function RStrip(s: string): (r: string)
    ensures |r| <= |s|
    ensures |r| > 0 ==> !IsSpace(r[|r| - 1])
    decreases |s|
  {
    if |s| > 0 && IsSpace(s[|s| - 1]) then RStrip(s[..|s| - 1]) else s
  }

  /** What `RStrip` removes is a run of whitespace at the end. */
  lemma {:induction false} RStripPrefix(s: string)
    ensures RStrip(s) == s[..|RStrip(s)|]
    ensures AllSpace(s[|RStrip(s)|..])
    decreases |s|
  {
    if |s| > 0 && IsSpace(s[|s| - 1]) {
      var t := s[..|s| - 1];
      RStripPrefix(t);
      var n := |RStrip(s)|;
      assert t[..n] == s[..n];
      forall i | n <= i < |s| ensures IsSpace(s[i]) {
        if i < |s| - 1 {
          assert s[i] == t[n..][i - n];
        }
      }
      assert forall i :: 0 <= i < |s| - n ==> s[n..][i] == s[n + i];
    }
  }

  /** Whitespace removed at both ends (`str.strip()`). */
  function Strip(s: string): (r: string)
    ensures Trimmed(r)
    ensures |r| <= |s|
  {
    var l := LStrip(s);
    var r := RStrip(l);
    RStripPrefix(l);
    assert |r| > 0 ==> r[0] == l[0];
    r
  }

  lemma LStripOfTrimmed(s: string)
    requires |s| == 0 || !IsSpace(s[0])
    ensures LStrip(s) == s
  {
  }

  lemma RStripOfTrimmed(s: string)
    requires |s| == 0 || !IsSpace(s[|s| - 1])
    ensures RStrip(s) == s
  {
  }

  /** Stripping leaves a trimmed string alone, so stripping is idempotent. */
  lemma StripOfTrimmed(s: string)
    requires Trimmed(s)
    ensures Strip(s) == s
  {
    LStripOfTrimmed(s);
    RStripOfTrimmed(s);
  }

  /** A string strips to nothing exactly when it is all whitespace. */
  lemma {:induction false} StripEmptyIffSpace(s: string)
    ensures Strip(s) == "" <==> AllSpace(s)
  {
    var l := LStrip(s);
    LStripSuffix(s);
    RStripPrefix(l);
    if !AllSpace(s) {
      var i :| 0 <= i < |s| && !IsSpace(s[i]);
      assert |l| > 0 by {
        if i < |s| - |l| {
          assert s[..|s| - |l|][i] == s[i];
        }
      }
    }
  }

  /** `Strip` keeps the middle of `s`: what it drops at either end is
      whitespace. */
  lemma StripMiddle(s: string)
    ensures exists i, j :: 0 <= i <= j <= |s| && Strip(s) == s[i..j] && AllSpace(s[..i]) && AllSpace(s[j..])
  {
    var l := LStrip(s);
    LStripSuffix(s);
    RStripPrefix(l);
    var i := |s| - |l|;
    var j := i + |RStrip(l)|;
    assert Strip(s) == RStrip(l);
    assert l[..|RStrip(l)|] == s[i..j];
    assert l[|RStrip(l)|..] == s[j..];
  }

  lemma AllSpaceCons(x: string)
    requires |x| > 0 && IsSpace(x[0])
    ensures AllSpace(x) <==> AllSpace(x[1..])
  {
    if AllSpace(x[1..]) {
      forall i | 0 < i < |x| ensures IsSpace(x[i]) {
        assert x[i] == x[1..][i - 1];
      }
    }
  }

  lemma {:induction false} LStripAppendNewline(x: string)
    ensures AllSpace(x) ==> LStrip(x + "\n") == ""
    ensures !AllSpace(x) ==> LStrip(x + "\n") == LStrip(x) + "\n"
    decreases |x|
  {
    var y := x + "\n";
    if |x| == 0 {
      assert y[1..] == "";
    } else if IsSpace(x[0]) {
      assert y[1..] == x[1..] + "\n";
      assert LStrip(y) == LStrip(y[1..]);
      assert LStrip(x) == LStrip(x[1..]);
      LStripAppendNewline(x[1..]);
      AllSpaceCons(x);
    } else {
      assert LStrip(y) == y;
    }
  }

  lemma RStripAppendNewline(y: string)
    ensures RStrip(y + "\n") == RStrip(y)
  {
    assert (y + "\n")[..|y + "\n"| - 1] == y;
  }

  /** A line read with its newline strips exactly like the bare line. */
  lemma StripAppendNewline(x: string)
    ensures Strip(x + "\n") == Strip(x)
  {
    LStripAppendNewline(x);
    if AllSpace(x) {
      StripEmptyIffSpace(x);
      assert RStrip("") == "";
    } else {
      RStripAppendNewline(LStrip(x));
    }
  }

  /** Index of the first `c` in `s`, or -1 (`str.find`). */
  function Find(s: string, c: char): (r: int)
    ensures -1 <= r < |s|
    ensures r == -1 <==> c !in s
    ensures r >= 0 ==> s[r] == c && c !in s[..r]
    decreases |s|
  {
    if |s| == 0 then -1
    else if s[0] == c then 0
    else
      var k := Find(s[1..], c);
      assert s[1..] == s[1..][..|s| - 1];
      if k == -1 then -1
      else
        assert s[..k + 1] == [s[0]] + s[1..][..k];
        k + 1
  }

  /** The first occurrence is where `Find` points. */
  lemma FindAt(s: string, c: char, i: nat)
    requires i < |s| && s[i] == c && c !in s[..i]
    ensures Find(s, c) == i
  {
  }

  /** Index of the last `c` in `s`, or -1 (`str.rfind`). */
  function RFind(s: string, c: char): (r: int)
    ensures -1 <= r < |s|
    ensures r == -1 <==> c !in s
    ensures r >= 0 ==> s[r] == c && c !in s[r + 1..]
    decreases |s|
  {
    if |s| == 0 then -1
    else if s[|s| - 1] == c then |s| - 1
    else
      var k := RFind(s[..|s| - 1], c);
      assert s == s[..|s| - 1] + [s[|s| - 1]];
      k
  }

  /** A slice bound as the host language normalises it: negative bounds
      count from the end, and every bound is clamped into `[0, n]`. */
  function SliceBound(i: int, n: nat): (r: nat)
    ensures r <= n
    ensures 0 <= i <= n ==> r == i
    ensures i > n ==> r == n
    ensures i < 0 && i + n >= 0 ==> r == i + n
    ensures i + n < 0 ==> r == 0
  {
    if i < 0 then (if i + n < 0 then 0 else i + n)
    else if i > n then n
    else i
  }

  /** `s[a:b]`, empty when the normalised bounds cross. */
  function PySlice(s: string, a: int, b: int): string {
    var lo := SliceBound(a, |s|);
    var hi := SliceBound(b, |s|);
    if lo <= hi then s[lo..hi] else ""
  }

  /** The text between the first `(` and the last `)` of a directive line,
      taken with the host language's slice rules. */
  function DirectiveArgument(s: string): string {
    PySlice(s, Find(s, '(') + 1, RFind(s, ')'))
  }

  /** A directive whose closing parenthesis is missing: `rfind` yields -1,
      which as a slice end drops the last character of the line. */
  lemma DirectiveArgumentUnclosed(name: string, x: string)
    requires '(' !in name && ')' !in name && ')' !in x
    ensures DirectiveArgument(name + "(" + x) == if |x| == 0 then "" else x[..|x| - 1]
  {
    var s := name + "(" + x;
    assert s[..|name|] == name;
    FindAt(s, '(', |name|);
    assert ')' !in s by {
      assert "(" == ['('];
    }
    if |x| > 0 {
      assert s[|name| + 1..|s| - 1] == x[..|x| - 1];
    }
  }

  /** A well-formed directive `name(x)`, where `name` has no parenthesis,
      yields exactly `x`, whatever `x` contains. */
  lemma DirectiveArgumentOf(name: string, x: string)
    requires '(' !in name
    ensures DirectiveArgument(name + "(" + x + ")") == x
  {
    var s := name + "(" + x + ")";
    assert s[|name|] == '(';
    assert s[..|name|] == name;
    assert Find(s, '(') == |name|;
    assert RFind(s, ')') == |s| - 1;
    assert s[|name| + 1..|s| - 1] == x;
  }
}
