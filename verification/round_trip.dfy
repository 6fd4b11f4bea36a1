/** Writing a configuration out and reading it back. Every parameter line
    the writer produces is read as the same key with the same text, every
    kept directive as the same directive, and keys come back in the order
    they were written, so saving the reloaded configuration produces the
    same text again. */
module RoundTrip {
  import opened Results
  import opened Seqs
  import opened Text
  import opened Ordering
  import opened Lines
  import opened IniState
  import opened IniRead
  import opened IniWrite
  import opened IniLoad
  import IniAccess

  /** A key the reader can give back unchanged: no surrounding blanks, no
      `=`, no line break, and not mistakable for a comment or a directive. */
  predicate ValidKey(k: string) {
    && Trimmed(k)
    && '=' !in k && '\n' !in k
    && !StartsWith(k, "#") && !StartsWith(k, "INCLUDE(") && !StartsWith(k, "DEFAULT(")
  }

  /** A value whose text the reader gives back unchanged. */
  predicate ValidValue(v: Value) {
    v.Str? ==> Trimmed(v.s) && '\n' !in v.s
  }

  predicate WellFormed(ini: Ini) {
    && (forall k :: k in ini.params ==> ValidKey(k) && ValidValue(ini.params[k]))
    && (forall i :: 0 <= i < |ini.includes| ==> '\n' !in ini.includes[i])
    && (forall i :: 0 <= i < |ini.defaults| ==> '\n' !in ini.defaults[i])
  }

  /** The table as it reads back: every value as the text it was written
      as. */
  function Rendered(params: map<string, Value>): (r: map<string, Value>)
    ensures r.Keys == params.Keys
    ensures forall k :: k in r ==> r[k] == Str(AsIniText(params[k]))
  {
    map k | k in params :: Str(AsIniText(params[k]))
  }

  lemma AsIniTextShape(v: Value)
    requires ValidValue(v)
    ensures Trimmed(AsIniText(v)) && '\n' !in AsIniText(v)
  {
  }

  /** A line `k=t` does not start with a prefix that the key does not start
      with, as long as the prefix has no `=`. */
  lemma NotPrefixOfParamLine(k: string, t: string, p: string)
    requires '=' !in k && '=' !in p && !StartsWith(k, p)
    ensures !StartsWith(k + "=" + t, p)
  {
    var s := k + "=" + t;
    if |p| <= |k| {
      assert s[..|p|] == k[..|p|];
    } else if |p| <= |s| {
      assert s[..|p|][|k|] == '=';
    }
  }

  /** A parameter line reads back as its key and its text. */
  lemma ClassifyParamLine(k: string, v: Value)
    requires ValidKey(k) && ValidValue(v)
    ensures Strip(ParamLine(k, v)) == ParamLine(k, v)
    ensures Classify(ParamLine(k, v)) == Parameter(k, AsIniText(v))
  {
    var t := AsIniText(v);
    var s := k + "=" + t;
    AsIniTextShape(v);
    assert s[|k|] == '=';
    assert s != "END" by {
      assert '=' !in "END";
    }
    if |k| > 0 {
      assert s[0] == k[0];
    }
    if |t| > 0 {
      assert s[|s| - 1] == t[|t| - 1];
    }
    StripOfTrimmed(s);
    NotPrefixOfParamLine(k, t, "#");
    NotPrefixOfParamLine(k, t, "INCLUDE(");
    NotPrefixOfParamLine(k, t, "DEFAULT(");
    StripOfTrimmed(k);
    StripOfTrimmed(t);
    ClassifyParameter(s, k, t);
  }

  function IncludeKinds(paths: seq<string>): seq<LineKind>
    decreases |paths|
  {
    if |paths| == 0 then [] else [IncludeDirective(paths[0])] + IncludeKinds(paths[1..])
  }

  function DefaultKinds(paths: seq<string>): seq<LineKind>
    decreases |paths|
  {
    if |paths| == 0 then [] else [DefaultDirective(paths[0])] + DefaultKinds(paths[1..])
  }

  function ParamKinds(ini: Ini, keys: seq<string>): seq<LineKind>
    requires forall i :: 0 <= i < |keys| ==> keys[i] in ini.params
    decreases |keys|
  {
    if |keys| == 0 then [] else [Parameter(keys[0], AsIniText(ini.params[keys[0]]))] + ParamKinds(ini, keys[1..])
  }

  lemma {:induction false} ClassifiedIncludeLines(paths: seq<string>)
    ensures Classified(DirectiveLines("INCLUDE(", paths)) == IncludeKinds(paths)
    decreases |paths|
  {
    if |paths| > 0 {
      ClassifyInclude(paths[0]);
      assert DirectiveLines("INCLUDE(", paths)[1..] == DirectiveLines("INCLUDE(", paths[1..]);
      ClassifiedIncludeLines(paths[1..]);
    }
  }

  lemma {:induction false} ClassifiedDefaultLines(paths: seq<string>)
    ensures Classified(DirectiveLines("DEFAULT(", paths)) == DefaultKinds(paths)
    decreases |paths|
  {
    if |paths| > 0 {
      ClassifyDefault(paths[0]);
      assert DirectiveLines("DEFAULT(", paths)[1..] == DirectiveLines("DEFAULT(", paths[1..]);
      ClassifiedDefaultLines(paths[1..]);
    }
  }

  lemma {:induction false} ClassifiedParamLines(ini: Ini, keys: seq<string>)
    requires forall i :: 0 <= i < |keys| ==> keys[i] in ini.params
    requires forall k :: k in ini.params ==> ValidKey(k) && ValidValue(ini.params[k])
    ensures Classified(ParamLines(ini, keys)) == ParamKinds(ini, keys)
    decreases |keys|
  {
    if |keys| > 0 {
      ClassifyParamLine(keys[0], ini.params[keys[0]]);
      assert ParamLines(ini, keys)[1..] == ParamLines(ini, keys[1..]);
      ClassifiedParamLines(ini, keys[1..]);
    }
  }

  lemma {:induction false} ScanIncludes(sc: Scan, paths: seq<string>, rest: seq<LineKind>, ifNotDefined: bool, filename: string)
    requires sc.pending == []
    ensures ScanKinds(sc, IncludeKinds(paths) + rest, ifNotDefined, filename)
         == ScanKinds(sc.(includePaths := sc.includePaths + paths), rest, ifNotDefined, filename)
    decreases |paths|
  {
    var ks := IncludeKinds(paths) + rest;
    if |paths| == 0 {
      assert ks == rest;
      assert sc.includePaths + paths == sc.includePaths;
    } else {
      assert ks[0] == IncludeDirective(paths[0]);
      assert ks[1..] == IncludeKinds(paths[1..]) + rest;
      var sc' := sc.(includePaths := sc.includePaths + [paths[0]]);
      ScanIncludes(sc', paths[1..], rest, ifNotDefined, filename);
      assert sc'.includePaths + paths[1..] == sc.includePaths + paths;
    }
  }

  lemma {:induction false} ScanDefaults(sc: Scan, paths: seq<string>, rest: seq<LineKind>, ifNotDefined: bool, filename: string)
    requires sc.pending == []
    ensures ScanKinds(sc, DefaultKinds(paths) + rest, ifNotDefined, filename)
         == ScanKinds(sc.(defaultPaths := sc.defaultPaths + paths), rest, ifNotDefined, filename)
    decreases |paths|
  {
    var ks := DefaultKinds(paths) + rest;
    if |paths| == 0 {
      assert ks == rest;
      assert sc.defaultPaths + paths == sc.defaultPaths;
    } else {
      assert ks[0] == DefaultDirective(paths[0]);
      assert ks[1..] == DefaultKinds(paths[1..]) + rest;
      var sc' := sc.(defaultPaths := sc.defaultPaths + [paths[0]]);
      ScanDefaults(sc', paths[1..], rest, ifNotDefined, filename);
      assert sc'.defaultPaths + paths[1..] == sc.defaultPaths + paths;
    }
  }

  /** `m` with each of `keys` stored, in turn, as the text of its value in
      `ini`. */
  function Stored(m: map<string, Value>, ini: Ini, keys: seq<string>): (r: map<string, Value>)
    requires forall i :: 0 <= i < |keys| ==> keys[i] in ini.params
    ensures r.Keys == m.Keys + set k | k in keys
    decreases |keys|
  {
    if |keys| == 0 then m
    else Stored(m[keys[0] := Str(AsIniText(ini.params[keys[0]]))], ini, keys[1..])
  }

  lemma {:induction false} StoredValues(m: map<string, Value>, ini: Ini, keys: seq<string>, k: string)
    requires forall i :: 0 <= i < |keys| ==> keys[i] in ini.params
    requires k in m || k in keys
    ensures k in keys ==> Stored(m, ini, keys)[k] == Str(AsIniText(ini.params[k]))
    ensures k !in keys ==> Stored(m, ini, keys)[k] == m[k]
    decreases |keys|
  {
    if |keys| > 0 {
      var m' := m[keys[0] := Str(AsIniText(ini.params[keys[0]]))];
      if k in keys[1..] {
        StoredValues(m', ini, keys[1..], k);
      } else {
        assert k in keys ==> k == keys[0];
        StoredValues(m', ini, keys[1..], k);
      }
    }
  }

  /** Storing all keys of the table into nothing gives the rendered table. */
  lemma StoredAll(ini: Ini, keys: seq<string>)
    requires forall i :: 0 <= i < |keys| ==> keys[i] in ini.params
    requires forall k :: k in ini.params ==> k in keys
    ensures Stored(map[], ini, keys) == Rendered(ini.params)
  {
    var r := Stored(map[], ini, keys);
    forall k | k in r ensures r[k] == Rendered(ini.params)[k] {
      StoredValues(map[], ini, keys, k);
    }
  }

  /** Parameter lines with distinct new keys store each key with its text,
      in order, and attach no comments. */
  lemma {:induction false} ScanParams(sc: Scan, ini: Ini, keys: seq<string>, ifNotDefined: bool, filename: string)
    requires sc.pending == [] && Distinct(keys)
    requires forall i :: 0 <= i < |keys| ==> keys[i] in ini.params && keys[i] !in sc.ini.params
    ensures ScanKinds(sc, ParamKinds(ini, keys), ifNotDefined, filename)
         == Success(sc.(ini := sc.ini.(params := Stored(sc.ini.params, ini, keys),
                                       readOrder := sc.ini.readOrder + keys)))
    decreases |keys|
  {
    if |keys| == 0 {
      assert sc.ini.readOrder + keys == sc.ini.readOrder;
      assert sc.ini == sc.ini.(params := sc.ini.params, readOrder := sc.ini.readOrder + keys);
    } else {
      var sc' := ScanFirstParam(sc, ini, keys, ifNotDefined, filename);
      ScanParams(sc', ini, keys[1..], ifNotDefined, filename);
      AppendAssoc(sc.ini.readOrder, [keys[0]], keys[1..]);
    }
  }

  /** Scanning the first written parameter line stores its key. */
  lemma ScanFirstParam(sc: Scan, ini: Ini, keys: seq<string>, ifNotDefined: bool, filename: string) returns (sc': Scan)
    requires |keys| > 0 && sc.pending == [] && Distinct(keys)
    requires forall i :: 0 <= i < |keys| ==> keys[i] in ini.params && keys[i] !in sc.ini.params
    ensures sc' == sc.(ini := sc.ini.(params := sc.ini.params[keys[0] := Str(AsIniText(ini.params[keys[0]]))],
                                      readOrder := sc.ini.readOrder + [keys[0]]))
    ensures ScanKinds(sc, ParamKinds(ini, keys), ifNotDefined, filename)
         == ScanKinds(sc', ParamKinds(ini, keys[1..]), ifNotDefined, filename)
    ensures sc'.pending == [] && Distinct(keys[1..])
    ensures forall i :: 0 <= i < |keys[1..]| ==> keys[1..][i] in ini.params && keys[1..][i] !in sc'.ini.params
    ensures keys == [keys[0]] + keys[1..]
  {
    var k0, tail := keys[0], keys[1..];
    var v0 := Str(AsIniText(ini.params[k0]));
    assert ParamKinds(ini, keys) == [Parameter(k0, AsIniText(ini.params[k0]))] + ParamKinds(ini, tail);
    NewKeyStored(sc, k0, AsIniText(ini.params[k0]), ParamKinds(ini, tail), ifNotDefined, filename);
    sc' := sc.(ini := sc.ini.(params := sc.ini.params[k0 := v0], readOrder := sc.ini.readOrder + [k0]));
    assert Scan(StoreKey(sc.ini, k0, AsIniText(ini.params[k0]), sc.pending), [], sc.includePaths, sc.defaultPaths) == sc';
    DistinctTail(keys);
    forall i | 0 <= i < |tail| ensures tail[i] in ini.params && tail[i] !in sc'.ini.params {
      assert tail[i] == keys[i + 1];
    }
  }

  /** The configuration read back from a saved file: the table as text,
      the keys in written order, the directives kept, no comments. */
  function Reloaded(ini: Ini, path: string): Ini {
    Ini(Rendered(ini.params), map[], EmitOrder(ini), ini.defaults, ini.includes, Some(path))
  }

  lemma ClassifiedThree(a: seq<string>, b: seq<string>, c: seq<string>)
    ensures Classified(a + b + c) == Classified(a) + (Classified(b) + Classified(c))
  {
    ClassifiedAppend(a + b, c);
    ClassifiedAppend(a, b);
    AppendAssoc(Classified(a), Classified(b), Classified(c));
  }

  lemma ClassifiedFileLines(ini: Ini)
    requires WellFormed(ini)
    ensures Classified(FileLines(ini))
         == IncludeKinds(ini.includes) + (DefaultKinds(ini.defaults) + ParamKinds(ini, EmitOrder(ini)))
  {
    var order := EmitOrder(ini);
    ClassifiedThree(DirectiveLines("INCLUDE(", ini.includes), DirectiveLines("DEFAULT(", ini.defaults), ParamLines(ini, order));
    ClassifiedIncludeLines(ini.includes);
    ClassifiedDefaultLines(ini.defaults);
    ClassifiedParamLines(ini, order);
  }

  /** Directives, then parameters with distinct keys covering the table,
      scanned from an empty state. */
  lemma ScanSections(ini: Ini, keys: seq<string>, origin: Option<string>, ifNotDefined: bool, filename: string)
    requires Distinct(keys)
    requires forall i :: 0 <= i < |keys| ==> keys[i] in ini.params
    requires forall k :: k in ini.params ==> k in keys
    ensures ScanKinds(Start(Empty().(originalFilename := origin)),
                      IncludeKinds(ini.includes) + (DefaultKinds(ini.defaults) + ParamKinds(ini, keys)),
                      ifNotDefined, filename)
         == Success(Scan(Ini(Rendered(ini.params), map[], keys, [], [], origin), [], ini.includes, ini.defaults))
  {
    var pk := ParamKinds(ini, keys);
    var s0 := Start(Empty().(originalFilename := origin));
    var s1 := s0.(includePaths := ini.includes);
    var s2 := s1.(defaultPaths := ini.defaults);
    ScanIncludes(s0, ini.includes, DefaultKinds(ini.defaults) + pk, ifNotDefined, filename);
    assert s0.includePaths + ini.includes == ini.includes;
    ScanDefaults(s1, ini.defaults, pk, ifNotDefined, filename);
    assert s1.defaultPaths + ini.defaults == ini.defaults;
    ScanParams(s2, ini, keys, ifNotDefined, filename);
    StoredAll(ini, keys);
    assert [] + keys == keys;
  }

  /** The lines `fileLines` produces scan back to the same table (values
      as text), with the keys in the order written and the directives in
      the order kept. */
  lemma ScanFileLines(ini: Ini, origin: Option<string>, ifNotDefined: bool, filename: string)
    requires WellFormed(ini)
    ensures ScanLines(Start(Empty().(originalFilename := origin)), FileLines(ini), ifNotDefined, filename)
         == Success(Scan(Ini(Rendered(ini.params), map[], EmitOrder(ini), [], [], origin), [], ini.includes, ini.defaults))
  {
    ClassifiedFileLines(ini);
    EmitOnce(ini.readOrder, ini.params.Keys);
    ScanSections(ini, EmitOrder(ini), origin, ifNotDefined, filename);
  }

  /** The newline each line keeps when a file is read does not change how
      the line is classified. */
  lemma {:induction false} ClassifiedTerminated(ls: seq<string>)
    ensures Classified(Terminated(ls)) == Classified(ls)
    decreases |ls|
  {
    if |ls| > 1 {
      StripAppendNewline(ls[0]);
      assert Terminated(ls)[1..] == Terminated(ls[1..]);
      ClassifiedTerminated(ls[1..]);
    }
  }

  lemma ParamLinesSingle(ini: Ini, keys: seq<string>)
    requires forall i :: 0 <= i < |keys| ==> keys[i] in ini.params
    requires forall k :: k in ini.params ==> ValidKey(k) && ValidValue(ini.params[k])
    ensures forall i :: 0 <= i < |keys| ==> SingleLine(ParamLines(ini, keys)[i])
  {
    forall i | 0 <= i < |keys| ensures SingleLine(ParamLines(ini, keys)[i]) {
      AsIniTextShape(ini.params[keys[i]]);
    }
  }

  lemma DirectiveLinesSingle(includes: seq<string>, defaults: seq<string>)
    requires forall i :: 0 <= i < |includes| ==> '\n' !in includes[i]
    requires forall i :: 0 <= i < |defaults| ==> '\n' !in defaults[i]
    ensures forall i :: 0 <= i < |includes| ==> SingleLine(DirectiveLines("INCLUDE(", includes)[i])
    ensures forall i :: 0 <= i < |defaults| ==> SingleLine(DirectiveLines("DEFAULT(", defaults)[i])
  {
  }

  /** Every line written for a well-formed configuration is one non-empty
      line. */
  lemma FileLinesSingle(ini: Ini)
    requires WellFormed(ini)
    ensures forall i :: 0 <= i < |FileLines(ini)| ==> SingleLine(FileLines(ini)[i])
  {
    ParamLinesSingle(ini, EmitOrder(ini));
    DirectiveLinesSingle(ini.includes, ini.defaults);
    SingleLinesAppend(DirectiveLines("INCLUDE(", ini.includes), DirectiveLines("DEFAULT(", ini.defaults), ParamLines(ini, EmitOrder(ini)));
  }

  lemma SingleLinesAppend(a: seq<string>, b: seq<string>, c: seq<string>)
    requires forall i :: 0 <= i < |a| ==> SingleLine(a[i])
    requires forall i :: 0 <= i < |b| ==> SingleLine(b[i])
    requires forall i :: 0 <= i < |c| ==> SingleLine(c[i])
    ensures forall i :: 0 <= i < |a + b + c| ==> SingleLine((a + b + c)[i])
  {
  }

  /** Reading the saved text of a well-formed configuration, keeping its
      directives, gives back the configuration with its values as text, its
      keys in the order they were written and no comments. */
  lemma ReadRendered(ini: Ini, fs: Files, resolve: (string, string) -> string, path: string, fuel: nat)
    requires WellFormed(ini) && fuel > 0
    requires path in fs && fs[path] == TextLines(Render(ini))
    ensures Load(fs, resolve, Empty(), path, true, false, fuel) == Success(Reloaded(ini, path))
  {
    var sc := Scan(Ini(Rendered(ini.params), map[], EmitOrder(ini), [], [], Some(path)), [], ini.includes, ini.defaults);
    ScanRendered(ini, Some(path), path);
    assert ScanLines(Start(Empty().(originalFilename := Some(path))), fs[path], false, path) == Success(sc);
    assert [] + ini.includes == ini.includes;
    assert [] + ini.defaults == ini.defaults;
  }

  /** The saved text, cut into lines as a read does, scans like the lines
      that were joined. */
  lemma ScanRendered(ini: Ini, origin: Option<string>, filename: string)
    requires WellFormed(ini)
    ensures ScanLines(Start(Empty().(originalFilename := origin)), TextLines(Render(ini)), false, filename)
         == Success(Scan(Ini(Rendered(ini.params), map[], EmitOrder(ini), [], [], origin), [], ini.includes, ini.defaults))
  {
    FileLinesSingle(ini);
    TextLinesOfJoin(FileLines(ini));
    ClassifiedTerminated(FileLines(ini));
    ScanFileLines(ini, origin, false, filename);
  }

  /** `saveFile` followed by reading the file written. */
  lemma SaveThenLoad(ini: Ini, filename: Option<string>, fs: Files, resolve: (string, string) -> string, fuel: nat)
    requires WellFormed(ini) && fuel > 0
    requires Save(ini, filename).Success?
    requires var (target, text) := Save(ini, filename).value; target in fs && fs[target] == TextLines(text)
    ensures var target := Save(ini, filename).value.0;
      Load(fs, resolve, Empty(), target, true, false, fuel) == Success(Reloaded(ini, target))
  {
    ReadRendered(ini, fs, resolve, Save(ini, filename).value.0, fuel);
  }

  /** Keys read back in the order written are written in that order. */
  lemma EmitOrderReloaded(ini: Ini, path: string)
    ensures EmitOrder(Reloaded(ini, path)) == EmitOrder(ini)
  {
    assert Reloaded(ini, path).params.Keys == ini.params.Keys;
    EmitIdempotent(ini.readOrder, ini.params.Keys);
  }

  lemma ParamLinesReloaded(ini: Ini, path: string, keys: seq<string>)
    requires forall i :: 0 <= i < |keys| ==> keys[i] in ini.params
    ensures ParamLines(Reloaded(ini, path), keys) == ParamLines(ini, keys)
  {
    var back := Reloaded(ini, path);
    var a, b := ParamLines(back, keys), ParamLines(ini, keys);
    forall i | 0 <= i < |keys| ensures a[i] == b[i] {
      var k := keys[i];
      assert back.params[k] == Str(AsIniText(ini.params[k]));
      assert a[i] == ParamLine(k, back.params[k]);
      assert b[i] == ParamLine(k, ini.params[k]);
    }
    assert |a| == |b|;
  }

  /** Saving what was read back writes exactly the same lines again. */
  lemma ResaveSame(ini: Ini, path: string)
    ensures FileLines(Reloaded(ini, path)) == FileLines(ini)
    ensures Render(Reloaded(ini, path)) == Render(ini)
  {
    EmitOrderReloaded(ini, path);
    ParamLinesReloaded(ini, path, EmitOrder(ini));
  }

  /** A boolean stored in the table reads back as the same boolean from the
      saved file. */
  lemma SavedBoolReadsBack(ini: Ini, path: string, name: string, b: bool, default: Option<IniAccess.Typed>)
    requires name in ini.params && ini.params[name] == Bool(b)
    ensures IniAccess.GetBool(Reloaded(ini, path), name, default) == Success(IniAccess.BoolVal(b))
  {
  }
}
