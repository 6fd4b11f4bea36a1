/** The scan of one configuration file (`readFile` without the recursion):
    each line is stripped and classified as the end marker, a comment, an
    INCLUDE or DEFAULT directive, or a `key=value` parameter; anything else
    is ignored. Comment lines are buffered and attached to the next stored
    key; include and default paths are collected for the caller. */
module IniRead {
  import opened Results
  import opened Text
  import opened IniState
  import opened Ordering
  import opened Seqs

  /** Where the scan of one file stands. */
  datatype Scan = Scan(
    ini: Ini,
    pending: seq<string>,        // comment lines not yet attached to a key
    includePaths: seq<string>,   // INCLUDE arguments in the order read
    defaultPaths: seq<string>)   // DEFAULT arguments in the order read

  /** The effect of one line: go on, stop reading the file, or fail. */
  datatype Step = Next(scan: Scan) | Stop | Fail(error: IniError)

  function Start(ini: Ini): Scan {
    Scan(ini, [], [], [])
  }

  /** A comment line's text: the marker dropped, trailing blanks trimmed. */
  function CommentText(s: string): string
    requires |s| > 0
  {
    RStrip(s[1..])
  }

  /** Store a newly read key, remembering its read position and, if comment
      lines precede it, those lines. */
  function StoreKey(ini: Ini, key: string, value: string, pending: seq<string>): Ini {
    ini.(params := ini.params[key := Str(value)],
         readOrder := ini.readOrder + [key],
         comments := if |pending| > 0 then ini.comments[key := pending] else ini.comments)
  }

  /** What a stripped line is. */
  datatype LineKind =
    | EndMarker
    | Comment(text: string)
    | IncludeDirective(path: string)
    | DefaultDirective(path: string)
    | Parameter(key: string, value: string)
    | Ignored

  /** Classify a stripped line, testing in the order the reader does. */
  function Classify(s: string): (k: LineKind)
    ensures k.EndMarker? <==> s == "END"
    ensures k.Comment? <==> |s| > 0 && s[0] == '#'
    ensures k.Parameter? ==> '=' in s && Trimmed(k.key) && Trimmed(k.value)
    ensures k.Ignored? ==> '=' !in s
  {
    if s == "END" then EndMarker
    else if StartsWith(s, "#") then Comment(CommentText(s))
    else if StartsWith(s, "INCLUDE(") then IncludeDirective(DirectiveArgument(s))
    else if StartsWith(s, "DEFAULT(") then DefaultDirective(DirectiveArgument(s))
    else if s != "" && Find(s, '=') >= 0 then
      var eq := Find(s, '=');
      Parameter(Strip(s[..eq]), Strip(s[eq + 1..]))
    else Ignored
  }

  /** The effect of one line, given what the line is. */
  function StepKind(sc: Scan, kind: LineKind, ifNotDefined: bool, filename: string): (r: Step)
    ensures r.Stop? <==> kind.EndMarker?
    ensures r.Fail? <==> kind.Parameter? && kind.key in sc.ini.params && !ifNotDefined
    ensures r.Fail? ==> r.error == DuplicateKey(kind.key, filename)
    ensures r.Next? && !kind.Comment? && !(kind.Parameter? && kind.key in sc.ini.params) ==> r.scan.pending == []
    ensures r.Next? ==> forall k :: k in sc.ini.params ==> k in r.scan.ini.params && r.scan.ini.params[k] == sc.ini.params[k]
  {
    match kind
    case EndMarker => Stop
    case Comment(text) =>
      // comment lines do not reset the buffer
      Next(sc.(pending := sc.pending + [text]))
    case IncludeDirective(path) =>
      Next(sc.(includePaths := sc.includePaths + [path], pending := []))
    case DefaultDirective(path) =>
      Next(sc.(defaultPaths := sc.defaultPaths + [path], pending := []))
    case Parameter(key, value) =>
      if key in sc.ini.params then
        // a tolerated duplicate skips the rest of the loop body, so the
        // comment buffer survives it
        if ifNotDefined then Next(sc) else Fail(DuplicateKey(key, filename))
      else
        Next(Scan(StoreKey(sc.ini, key, value, sc.pending), [], sc.includePaths, sc.defaultPaths))
    case Ignored =>
      Next(sc.(pending := []))
  }

  predicate IsPrefix(a: seq<string>, b: seq<string>) {
    |a| <= |b| && b[..|a|] == a
  }

  /** The keys `after` read beyond `before`. */
  function Added(before: Ini, after: Ini): seq<string>
    requires IsPrefix(before.readOrder, after.readOrder)
  {
    after.readOrder[|before.readOrder|..]
  }

  /** The parameter table only grows: old keys keep their values, every key
      of `added` is new, holds a string and is read once, and the new keys are
      exactly those of `added`. */
  ghost predicate TableGrows(p: map<string, Value>, added: seq<string>, p': map<string, Value>) {
    && Distinct(added)
    && (forall k :: k in added ==> k !in p)
    && p'.Keys == p.Keys + (set k | k in added)
    && (forall k :: k in p ==> p'[k] == p[k])
    && (forall k :: k in p' && k !in p ==> p'[k].Str?)
  }

  /** The table grows by the keys appended to the read order. */
  ghost predicate ParamsGrow(b: Ini, a: Ini) {
    IsPrefix(b.readOrder, a.readOrder) && TableGrows(b.params, Added(b, a), a.params)
  }

  /** Comments change only for newly read keys, and only to non-empty
      blocks. */
  predicate CommentsGrow(b: Ini, a: Ini)
    requires IsPrefix(b.readOrder, a.readOrder)
  {
    && (forall k :: k in b.comments && k !in Added(b, a) ==> k in a.comments && a.comments[k] == b.comments[k])
    && (forall k :: k in a.comments && (k !in b.comments || a.comments[k] != b.comments[k]) ==>
          k in Added(b, a) && |a.comments[k]| > 0)
  }

  /** What reading further lines may change, and how. */
  ghost predicate Grows(before: Scan, after: Scan) {
    && ParamsGrow(before.ini, after.ini)
    && CommentsGrow(before.ini, after.ini)
    && after.ini.includes == before.ini.includes
    && after.ini.defaults == before.ini.defaults
    && after.ini.originalFilename == before.ini.originalFilename
    && IsPrefix(before.includePaths, after.includePaths)
    && IsPrefix(before.defaultPaths, after.defaultPaths)
  }

  lemma GrowsReflexive(sc: Scan)
    ensures Grows(sc, sc)
  {
    assert Added(sc.ini, sc.ini) == [];
  }

  lemma StepGrows(sc: Scan, kind: LineKind, ifNotDefined: bool, filename: string)
    requires StepKind(sc, kind, ifNotDefined, filename).Next?
    ensures Grows(sc, StepKind(sc, kind, ifNotDefined, filename).scan)
  {
    var sc' := StepKind(sc, kind, ifNotDefined, filename).scan;
    match kind
    case Parameter(key, value) =>
      if key in sc.ini.params {
        GrowsReflexive(sc);
      } else {
        assert Added(sc.ini, sc'.ini) == [key];
      }
    case EndMarker =>
    case _ =>
      GrowsReflexive(sc);
  }

  lemma TableGrowsTransitive(p0: map<string, Value>, a1: seq<string>, p1: map<string, Value>,
                             a2: seq<string>, p2: map<string, Value>)
    requires TableGrows(p0, a1, p1) && TableGrows(p1, a2, p2)
    ensures TableGrows(p0, a1 + a2, p2)
  {
    forall i | 0 <= i < |a1| ensures a1[i] !in a2 {
      assert a1[i] in p1;
    }
    DistinctAppend(a1, a2);
    ElementsAppend(a1, a2);
    forall k | k in p2 && k !in p0 ensures p2[k].Str? {
      if k in p1 {
        assert p2[k] == p1[k];
      }
    }
  }

  lemma ParamsGrowTransitive(ax: Ini, ay: Ini, az: Ini)
    requires ParamsGrow(ax, ay) && ParamsGrow(ay, az)
    ensures ParamsGrow(ax, az)
    ensures Added(ax, az) == Added(ax, ay) + Added(ay, az)
  {
    PrefixChain(ax.readOrder, ay.readOrder, az.readOrder);
    TableGrowsTransitive(ax.params, Added(ax, ay), ay.params, Added(ay, az), az.params);
  }

  /** Growth depends only on the table and the read order. */
  lemma ParamsGrowSameTable(a: Ini, a': Ini, b: Ini, b': Ini)
    requires a'.params == a.params && a'.readOrder == a.readOrder
    requires b'.params == b.params && b'.readOrder == b.readOrder
    requires ParamsGrow(a, b)
    ensures ParamsGrow(a', b')
  {
    assert Added(a', b') == Added(a, b);
  }

  lemma GrowsTransitive(x: Scan, y: Scan, z: Scan)
    requires Grows(x, y) && Grows(y, z)
    ensures Grows(x, z)
  {
    ParamsGrowTransitive(x.ini, y.ini, z.ini);
    assert z.includePaths[..|x.includePaths|] == y.includePaths[..|x.includePaths|];
    assert z.defaultPaths[..|x.defaultPaths|] == y.defaultPaths[..|x.defaultPaths|];
  }

  /** Process classified lines until the end marker, the last line, or the
      first error. */
  function ScanKinds(sc: Scan, kinds: seq<LineKind>, ifNotDefined: bool, filename: string): (r: Result<Scan, IniError>)
    ensures r.Failure? ==> !ifNotDefined && r.error.DuplicateKey? && r.error.filename == filename
    ensures ifNotDefined ==> r.Success?
    decreases |kinds|
  {
    if |kinds| == 0 then Success(sc)
    else
      match StepKind(sc, kinds[0], ifNotDefined, filename)
      case Stop => Success(sc)
      case Fail(e) => Failure(e)
      case Next(sc') => ScanKinds(sc', kinds[1..], ifNotDefined, filename)
  }

  /** A successful scan only extends the state it started from. */
  lemma {:induction false} ScanKindsGrows(sc: Scan, kinds: seq<LineKind>, ifNotDefined: bool, filename: string)
    requires ScanKinds(sc, kinds, ifNotDefined, filename).Success?
    ensures Grows(sc, ScanKinds(sc, kinds, ifNotDefined, filename).value)
    decreases |kinds|
  {
    if |kinds| == 0 {
      GrowsReflexive(sc);
    } else {
      match StepKind(sc, kinds[0], ifNotDefined, filename)
      case Stop =>
        GrowsReflexive(sc);
      case Next(sc') =>
        StepGrows(sc, kinds[0], ifNotDefined, filename);
        ScanKindsGrows(sc', kinds[1..], ifNotDefined, filename);
        GrowsTransitive(sc, sc', ScanKinds(sc', kinds[1..], ifNotDefined, filename).value);
    }
  }

  function Classified(lines: seq<string>): seq<LineKind>
    decreases |lines|
  {
    if |lines| == 0 then [] else [Classify(Strip(lines[0]))] + Classified(lines[1..])
  }

  /** The scan of one file's lines (the loop of `readFile`). It fails only on
      a repeated key, and only when existing keys are not tolerated. */
  function ScanLines(sc: Scan, lines: seq<string>, ifNotDefined: bool, filename: string): (r: Result<Scan, IniError>)
    ensures r.Failure? ==> !ifNotDefined && r.error.DuplicateKey? && r.error.filename == filename
    ensures ifNotDefined ==> r.Success?
  {
    ScanKinds(sc, Classified(lines), ifNotDefined, filename)
  }

  lemma ScanLinesGrows(sc: Scan, lines: seq<string>, ifNotDefined: bool, filename: string)
    requires ScanLines(sc, lines, ifNotDefined, filename).Success?
    ensures Grows(sc, ScanLines(sc, lines, ifNotDefined, filename).value)
  {
    ScanKindsGrows(sc, Classified(lines), ifNotDefined, filename);
  }

  /** The effect of a single line. */
  function StepLine(sc: Scan, line: string, ifNotDefined: bool, filename: string): Step {
    StepKind(sc, Classify(Strip(line)), ifNotDefined, filename)
  }

  /** Classification is line by line. */
  lemma {:induction false} ClassifiedAppend(a: seq<string>, b: seq<string>)
    ensures Classified(a + b) == Classified(a) + Classified(b)
    decreases |a|
  {
    if |a| > 0 {
      assert (a + b)[1..] == a[1..] + b;
      ClassifiedAppend(a[1..], b);
    } else {
      assert a + b == b;
    }
  }

  lemma ClassifiedSingle(line: string)
    ensures Classified([line]) == [Classify(Strip(line))]
  {
    assert [line][1..] == [];
  }

  lemma NotEndMarker(s: string)
    requires |s| > 0 && s[0] != 'E'
    ensures s != "END"
  {
  }

  lemma ClassifyEnd()
    ensures Classify("END") == EndMarker
  {
  }

  /** Once the end marker is processed nothing further is. */
  lemma {:induction false} ScanKindsStopsAtEnd(sc: Scan, before: seq<LineKind>, after: seq<LineKind>,
                                               ifNotDefined: bool, filename: string)
    ensures ScanKinds(sc, before + [EndMarker] + after, ifNotDefined, filename)
         == ScanKinds(sc, before, ifNotDefined, filename)
    decreases |before|
  {
    var ks := before + [EndMarker] + after;
    if |before| == 0 {
      assert ks[0] == EndMarker;
    } else {
      assert ks[0] == before[0];
      assert ks[1..] == before[1..] + [EndMarker] + after;
      match StepKind(sc, before[0], ifNotDefined, filename)
      case Stop =>
      case Fail(_) =>
      case Next(sc') =>
        ScanKindsStopsAtEnd(sc', before[1..], after, ifNotDefined, filename);
    }
  }

  /** Nothing after a line whose stripped text is `END` is read. */
  lemma ScanStopsAtEnd(sc: Scan, before: seq<string>, endLine: string, after: seq<string>,
                       ifNotDefined: bool, filename: string)
    requires Strip(endLine) == "END"
    ensures ScanLines(sc, before + [endLine] + after, ifNotDefined, filename)
         == ScanLines(sc, before, ifNotDefined, filename)
  {
    ClassifiedAppend(before + [endLine], after);
    ClassifiedAppend(before, [endLine]);
    ClassifiedSingle(endLine);
    ClassifyEnd();
    ScanKindsStopsAtEnd(sc, Classified(before), Classified(after), ifNotDefined, filename);
  }

  /** A line that is not the end marker, a comment or a directive. */
  predicate PlainLine(s: string) {
    s != "END" && !StartsWith(s, "#") && !StartsWith(s, "INCLUDE(") && !StartsWith(s, "DEFAULT(")
  }

  lemma SplitAtFirstEquals(s: string, k0: string, v0: string)
    requires s == k0 + "=" + v0 && '=' !in k0
    ensures Find(s, '=') == |k0|
    ensures s[..|k0|] == k0 && s[|k0| + 1..] == v0
  {
    assert s[|k0|] == '=';
    assert s[..|k0|] == k0;
  }

  /** A parameter line splits at its first `=`: the key is the stripped text
      before it, the value the stripped text after it. */
  lemma ClassifyParameter(s: string, k0: string, v0: string)
    requires s == k0 + "=" + v0 && '=' !in k0 && PlainLine(s)
    ensures Classify(s) == Parameter(Strip(k0), Strip(v0))
  {
    SplitAtFirstEquals(s, k0, v0);
  }

  /** A new key is stored and appended to the read order, taking any pending
      comments; a repeated key fails the load, or is skipped when only
      missing keys are being filled in. */
  lemma KeyLine(sc: Scan, line: string, k0: string, v0: string, ifNotDefined: bool, filename: string)
    requires Strip(line) == k0 + "=" + v0 && '=' !in k0
    requires PlainLine(Strip(line))
    ensures var key, step := Strip(k0), StepLine(sc, line, ifNotDefined, filename);
      && (key !in sc.ini.params ==>
            && step.Next?
            && step.scan.ini.params == sc.ini.params[key := Str(Strip(v0))]
            && step.scan.ini.readOrder == sc.ini.readOrder + [key]
            && step.scan.pending == []
            && (|sc.pending| > 0 ==> step.scan.ini.comments == sc.ini.comments[key := sc.pending])
            && (|sc.pending| == 0 ==> step.scan.ini.comments == sc.ini.comments))
      && (key in sc.ini.params && ifNotDefined ==> step == Next(sc))
      && (key in sc.ini.params && !ifNotDefined ==> step == Fail(DuplicateKey(key, filename)))
  {
    ClassifyParameter(Strip(line), k0, v0);
    assert StepLine(sc, line, ifNotDefined, filename) == StepKind(sc, Parameter(Strip(k0), Strip(v0)), ifNotDefined, filename);
    StepParameter(sc, Strip(k0), Strip(v0), ifNotDefined, filename);
  }

  lemma StepParameter(sc: Scan, key: string, value: string, ifNotDefined: bool, filename: string)
    ensures var step := StepKind(sc, Parameter(key, value), ifNotDefined, filename);
      && (key !in sc.ini.params ==>
            && step.Next?
            && step.scan.ini.params == sc.ini.params[key := Str(value)]
            && step.scan.ini.readOrder == sc.ini.readOrder + [key]
            && step.scan.pending == []
            && (|sc.pending| > 0 ==> step.scan.ini.comments == sc.ini.comments[key := sc.pending])
            && (|sc.pending| == 0 ==> step.scan.ini.comments == sc.ini.comments))
      && (key in sc.ini.params && ifNotDefined ==> step == Next(sc))
      && (key in sc.ini.params && !ifNotDefined ==> step == Fail(DuplicateKey(key, filename)))
  {
  }

  /** A repeated key that is tolerated is skipped without clearing the
      comment buffer, so comments read before it carry over to the next new
      key. */
  lemma SkippedKeyKeepsPending(sc: Scan, key: string, value: string, rest: seq<LineKind>, filename: string)
    requires key in sc.ini.params
    ensures ScanKinds(sc, [Parameter(key, value)] + rest, true, filename) == ScanKinds(sc, rest, true, filename)
  {
    assert ([Parameter(key, value)] + rest)[1..] == rest;
  }

  /** A new key is stored with its text, appended to the read order and
      given the pending comments, and scanning goes on with the next line. */
  lemma NewKeyStored(sc: Scan, key: string, value: string, rest: seq<LineKind>, ifNotDefined: bool, filename: string)
    requires key !in sc.ini.params
    ensures ScanKinds(sc, [Parameter(key, value)] + rest, ifNotDefined, filename)
         == ScanKinds(Scan(StoreKey(sc.ini, key, value, sc.pending), [], sc.includePaths, sc.defaultPaths), rest, ifNotDefined, filename)
  {
    assert ([Parameter(key, value)] + rest)[1..] == rest;
  }

  /** A line with no `=` that is no comment, directive or end marker, blank
      lines included, adds nothing and drops pending comments. */
  lemma LineWithoutEquals(sc: Scan, line: string, ifNotDefined: bool, filename: string)
    requires PlainLine(Strip(line)) && '=' !in Strip(line)
    ensures StepLine(sc, line, ifNotDefined, filename) == Next(sc.(pending := []))
  {
    assert Classify(Strip(line)) == Ignored;
  }

  predicate CommentLine(l: string) {
    StartsWith(Strip(l), "#")
  }

  /** The texts a run of comment lines contributes. */
  function CommentBlock(cs: seq<string>): (r: seq<string>)
    requires forall i :: 0 <= i < |cs| ==> CommentLine(cs[i])
    ensures |r| == |cs|
    decreases |cs|
  {
    if |cs| == 0 then [] else
      assert CommentLine(cs[0]);
      [CommentText(Strip(cs[0]))] + CommentBlock(cs[1..])
  }

  function CommentKinds(texts: seq<string>): seq<LineKind>
    decreases |texts|
  {
    if |texts| == 0 then [] else [Comment(texts[0])] + CommentKinds(texts[1..])
  }

  lemma ClassifyComment(s: string)
    requires StartsWith(s, "#")
    ensures Classify(s) == Comment(CommentText(s))
  {
    NotEndMarker(s);
  }

  /** Only comment lines add to the comment buffer. Every other line that
      lets reading go on clears it, directives and blank lines included,
      except a repeated key that is skipped. */
  lemma PendingClearedUnlessComment(sc: Scan, line: string, ifNotDefined: bool, filename: string)
    ensures var s, step := Strip(line), StepLine(sc, line, ifNotDefined, filename);
      && (CommentLine(line) ==> step == Next(sc.(pending := sc.pending + [CommentText(s)])))
      && (var kept := Classify(s).Parameter? && Classify(s).key in sc.ini.params;
          step.Next? && !CommentLine(line) && !kept ==> step.scan.pending == [])
  {
    var s := Strip(line);
    if CommentLine(line) {
      ClassifyComment(s);
    } else {
      assert !Classify(s).Comment?;
    }
  }

  lemma {:induction false} ClassifiedComments(cs: seq<string>)
    requires forall i :: 0 <= i < |cs| ==> CommentLine(cs[i])
    ensures Classified(cs) == CommentKinds(CommentBlock(cs))
    decreases |cs|
  {
    if |cs| > 0 {
      ClassifyComment(Strip(cs[0]));
      ClassifiedComments(cs[1..]);
    }
  }

  /** Comments only accumulate: each adds its text to the buffer and nothing
      else changes. */
  lemma {:induction false} ScanComments(sc: Scan, texts: seq<string>, rest: seq<LineKind>, ifNotDefined: bool, filename: string)
    ensures ScanKinds(sc, CommentKinds(texts) + rest, ifNotDefined, filename)
         == ScanKinds(sc.(pending := sc.pending + texts), rest, ifNotDefined, filename)
    decreases |texts|
  {
    var ks := CommentKinds(texts) + rest;
    if |texts| == 0 {
      assert ks == rest;
      assert sc.pending + texts == sc.pending;
    } else {
      assert ks[0] == Comment(texts[0]);
      assert ks[1..] == CommentKinds(texts[1..]) + rest;
      var sc' := sc.(pending := sc.pending + [texts[0]]);
      ScanComments(sc', texts[1..], rest, ifNotDefined, filename);
      assert sc'.pending + texts[1..] == sc.pending + texts;
    }
  }

  /** A comment block followed by a new key, at the level of line kinds. */
  lemma ScanCommentsThenKey(sc: Scan, texts: seq<string>, key: string, value: string, ks: seq<LineKind>,
                            ifNotDefined: bool, filename: string)
    requires sc.pending == [] && key !in sc.ini.params
    ensures ScanKinds(sc, CommentKinds(texts) + ([Parameter(key, value)] + ks), ifNotDefined, filename)
         == ScanKinds(Scan(StoreKey(sc.ini, key, value, texts), [], sc.includePaths, sc.defaultPaths),
                      ks, ifNotDefined, filename)
  {
    var ks' := [Parameter(key, value)] + ks;
    ScanComments(sc, texts, ks', ifNotDefined, filename);
    assert sc.pending + texts == texts;
    assert ks'[0] == Parameter(key, value) && ks'[1..] == ks;
  }

  lemma ClassifiedCommentsThenKey(cs: seq<string>, line: string, k0: string, v0: string, rest: seq<string>)
    requires forall i :: 0 <= i < |cs| ==> CommentLine(cs[i])
    requires Strip(line) == k0 + "=" + v0 && '=' !in k0 && PlainLine(Strip(line))
    ensures Classified(cs + [line] + rest)
         == CommentKinds(CommentBlock(cs)) + ([Parameter(Strip(k0), Strip(v0))] + Classified(rest))
  {
    var kind := Parameter(Strip(k0), Strip(v0));
    calc {
      Classified(cs + [line] + rest);
      { ClassifiedAppend(cs + [line], rest); }
      Classified(cs + [line]) + Classified(rest);
      { ClassifiedAppend(cs, [line]); }
      Classified(cs) + Classified([line]) + Classified(rest);
      { ClassifiedSingle(line); ClassifyParameter(Strip(line), k0, v0); }
      Classified(cs) + [kind] + Classified(rest);
      { ClassifiedComments(cs); }
      CommentKinds(CommentBlock(cs)) + [kind] + Classified(rest);
    }
  }

  /** A block of comment lines directly before a new key becomes that key's
      comment entry, with each line's marker dropped and its end trimmed. */
  lemma CommentsAttachToKey(sc: Scan, cs: seq<string>, line: string, k0: string, v0: string, rest: seq<string>,
                            ifNotDefined: bool, filename: string)
    requires sc.pending == [] && |cs| > 0
    requires forall i :: 0 <= i < |cs| ==> CommentLine(cs[i])
    requires Strip(line) == k0 + "=" + v0 && '=' !in k0 && PlainLine(Strip(line))
    requires Strip(k0) !in sc.ini.params
    ensures ScanLines(sc, cs + [line] + rest, ifNotDefined, filename)
         == ScanLines(Scan(StoreKey(sc.ini, Strip(k0), Strip(v0), CommentBlock(cs)), [], sc.includePaths, sc.defaultPaths),
                      rest, ifNotDefined, filename)
    ensures StoreKey(sc.ini, Strip(k0), Strip(v0), CommentBlock(cs)).comments[Strip(k0)] == CommentBlock(cs)
  {
    ClassifiedCommentsThenKey(cs, line, k0, v0, rest);
    ScanCommentsThenKey(sc, CommentBlock(cs), Strip(k0), Strip(v0), Classified(rest), ifNotDefined, filename);
  }

  lemma DirectiveShape(name: string, x: string)
    requires |name| > 0 && !IsSpace(name[0]) && name[0] != '#' && name[0] != 'E' && '(' !in name
    ensures var s := name + "(" + x + ")";
      && Strip(s) == s
      && DirectiveArgument(s) == x
      && s != "END"
      && !StartsWith(s, "#")
      && StartsWith(s, name + "(")
  {
    var open := name + "(";
    var s := open + x + ")";
    assert s == open + (x + ")") by {
      AppendAssoc(open, x, ")");
    }
    assert StartsWith(s, open) by {
      PrefixOfAppend(open, x + ")");
    }
    assert s[0] == name[0];
    assert Strip(s) == s by {
      assert s[|s| - 1] == ')';
      StripOfTrimmed(s);
    }
    DirectiveArgumentOf(name, x);
    assert s != "END" by {
      assert "END"[0] == 'E';
    }
    assert !StartsWith(s, "#") by {
      assert "#"[0] == '#';
      assert |s| > 0 && s[..1][0] == s[0];
    }
  }

  /** `INCLUDE(x)` is an include directive naming exactly `x`, whatever
      characters `x` holds. */
  lemma ClassifyInclude(x: string)
    ensures Strip("INCLUDE(" + x + ")") == "INCLUDE(" + x + ")"
    ensures Classify("INCLUDE(" + x + ")") == IncludeDirective(x)
  {
    assert "INCLUDE(" + x + ")" == "INCLUDE" + "(" + x + ")";
    assert "INCLUDE" + "(" == "INCLUDE(";
    DirectiveShape("INCLUDE", x);
  }

  /** `DEFAULT(x)` is a default directive naming exactly `x`. */
  lemma ClassifyDefault(x: string)
    ensures Strip("DEFAULT(" + x + ")") == "DEFAULT(" + x + ")"
    ensures Classify("DEFAULT(" + x + ")") == DefaultDirective(x)
  {
    var s := "DEFAULT(" + x + ")";
    assert s == "DEFAULT" + "(" + x + ")";
    assert "DEFAULT" + "(" == "DEFAULT(";
    DirectiveShape("DEFAULT", x);
    assert s[0] != 'I';
  }

  /** An include line without its closing parenthesis still counts as an
      include, but the recorded path loses its last character. */
  lemma ClassifyUnclosedInclude(x: string)
    requires ')' !in x
    ensures Classify("INCLUDE(" + x) == IncludeDirective(if |x| == 0 then "" else x[..|x| - 1])
  {
    var s := "INCLUDE(" + x;
    assert s == "INCLUDE" + "(" + x;
    NotEndMarker(s);
    assert s[..8] == "INCLUDE(";
    assert s[..1] != "#";
    DirectiveArgumentUnclosed("INCLUDE", x);
  }
}
