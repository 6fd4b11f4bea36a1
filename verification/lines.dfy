/** Text files as lines: how a saved configuration is joined into one text,
    and how iterating over an open file cuts a text back into lines (each
    line keeps its newline; a final fragment without one is still a line). */
module Lines {
  import opened Text
  import opened Seqs

  /** `"\n".join(ls)`. */
  function JoinLines(ls: seq<string>): string
    decreases |ls|
  {
    if |ls| == 0 then "" else if |ls| == 1 then ls[0] else ls[0] + "\n" + JoinLines(ls[1..])
  }

  /** The lines file iteration yields for the text `t`. */
  function TextLines(t: string): (r: seq<string>)
    ensures forall i :: 0 <= i < |r| ==> |r[i]| > 0
    decreases |t|
  {
    if |t| == 0 then []
    else
      var k := Find(t, '\n');
      if k == -1 then [t] else [t[..k + 1]] + TextLines(t[k + 1..])
  }

  /** The lines put back together are the text. */
  lemma {:induction false} TextLinesConcat(t: string)
    ensures Concat(TextLines(t)) == t
    decreases |t|
  {
    if |t| > 0 {
      var line, rest := FirstLine(t);
      TextLinesConcat(rest);
      assert ([line] + TextLines(rest))[1..] == TextLines(rest);
    }
  }

  /** A newline ends each line but the last and occurs nowhere else in a
      line, so only the last line may lack one. */
  lemma {:induction false} TextLinesBreaks(t: string)
    ensures forall i :: 0 <= i < |TextLines(t)| ==> LineBody(TextLines(t)[i])
    ensures forall i :: 0 <= i < |TextLines(t)| - 1 ==> EndsLine(TextLines(t)[i])
    decreases |t|
  {
    if |t| > 0 {
      var line, rest := FirstLine(t);
      var ls := TextLines(rest);
      TextLinesBreaks(rest);
      forall i | 1 <= i < |TextLines(t)|
        ensures TextLines(t)[i] == ls[i - 1]
      {
      }
    }
  }

  /** The first line of a non-empty text and the text after it. */
  lemma FirstLine(t: string) returns (line: string, rest: string)
    requires |t| > 0
    ensures t == line + rest && |rest| < |t|
    ensures TextLines(t) == [line] + TextLines(rest)
    ensures LineBody(line) && (|rest| > 0 ==> EndsLine(line))
  {
    var k := Find(t, '\n');
    if k == -1 {
      line, rest := t, "";
      assert TextLines(t) == [t];
      assert t[..|t| - 1] <= t;
    } else {
      line, rest := t[..k + 1], t[k + 1..];
      assert line[..k] == t[..k];
    }
  }

  /** No newline before the last character. */
  predicate LineBody(l: string) {
    |l| > 0 && '\n' !in l[..|l| - 1]
  }

  predicate EndsLine(l: string) {
    |l| > 0 && l[|l| - 1] == '\n'
  }

  /** Every line but the last followed by its newline. */
  function Terminated(ls: seq<string>): (r: seq<string>)
    ensures |r| == |ls|
    decreases |ls|
  {
    if |ls| <= 1 then ls else [ls[0] + "\n"] + Terminated(ls[1..])
  }

  predicate SingleLine(l: string) {
    |l| > 0 && '\n' !in l
  }

  /** `TextLinesOfJoin` for any lines: a conclusion only when every line is
      a single non-empty line. */
  lemma JoinedLines(ls: seq<string>)
    ensures (forall i :: 0 <= i < |ls| ==> SingleLine(ls[i])) ==> TextLines(JoinLines(ls)) == Terminated(ls)
  {
    if forall i :: 0 <= i < |ls| ==> SingleLine(ls[i]) {
      TextLinesOfJoin(ls);
    }
  }

  /** Reading back a joined text yields the original lines, each but the last
      still carrying its newline, provided no line is empty or spans two. */
  lemma {:induction false} TextLinesOfJoin(ls: seq<string>)
    requires forall i :: 0 <= i < |ls| ==> SingleLine(ls[i])
    ensures TextLines(JoinLines(ls)) == Terminated(ls)
    decreases |ls|
  {
    if |ls| == 1 {
      assert Find(ls[0], '\n') == -1;
    } else if |ls| > 1 {
      var rest := JoinLines(ls[1..]);
      var t := ls[0] + "\n" + rest;
      assert t[|ls[0]|] == '\n';
      assert t[..|ls[0]|] == ls[0];
      assert Find(t, '\n') == |ls[0]|;
      assert t[..|ls[0]| + 1] == ls[0] + "\n";
      assert t[|ls[0]| + 1..] == rest;
      TextLinesOfJoin(ls[1..]);
    }
  }

  /** The newline a line keeps does not change its stripped text. */
  lemma {:induction false} TerminatedStrips(ls: seq<string>)
    ensures forall i :: 0 <= i < |ls| ==> Strip(Terminated(ls)[i]) == Strip(ls[i])
    decreases |ls|
  {
    if |ls| > 1 {
      TerminatedStrips(ls[1..]);
      StripAppendNewline(ls[0]);
      assert Terminated(ls)[0] == ls[0] + "\n";
      forall i | 1 <= i < |ls| ensures Strip(Terminated(ls)[i]) == Strip(ls[i]) {
        assert Terminated(ls)[i] == Terminated(ls[1..])[i - 1];
      }
    }
  }
}
