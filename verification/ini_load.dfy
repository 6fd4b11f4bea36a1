/** `readFile` as a whole: scan one file, then either keep its INCLUDE and
    DEFAULT directives for rewriting, or read the included files (with the
    caller's duplicate-key policy) and then the default files (always only
    filling in missing keys), each relative to the file naming it. The file
    system is a map from path to the lines of the file; how a directive's
    path is resolved against the including file's name is a parameter. */
module IniLoad {
  import opened Results
  import opened IniState
  import opened IniRead

  /** The files that can be read: path to the lines iteration yields. */
  type Files = map<string, seq<string>>

  /** Read `filename` into `ini`. Nested reads use up one unit of `fuel`;
      a chain of includes longer than the fuel fails. */
  function Load(fs: Files, resolve: (string, string) -> string, ini: Ini, filename: string,
                keepIncludes: bool, ifNotDefined: bool, fuel: nat): (r: Result<Ini, IniError>)
    ensures r.Failure? ==> r.error.DuplicateKey? || r.error.FileNotFound? || r.error.RecursionLimit?
    ensures r.Failure? && r.error.DuplicateKey? ==> !ifNotDefined
    decreases fuel, 0
  {
    if fuel == 0 then Failure(RecursionLimit(filename))
    else if filename !in fs then Failure(FileNotFound(filename))
    else
      var sc :- ScanLines(Start(ini.(originalFilename := Some(filename))), fs[filename], ifNotDefined, filename);
      if keepIncludes then
        Success(sc.ini.(includes := sc.ini.includes + sc.includePaths,
                        defaults := sc.ini.defaults + sc.defaultPaths))
      else
        var included :- LoadEach(fs, resolve, sc.ini, filename, sc.includePaths, ifNotDefined, fuel - 1);
        LoadEach(fs, resolve, included, filename, sc.defaultPaths, true, fuel - 1)
  }

  /** Read each of `paths`, named relative to `parent`, one after the other. */
  function LoadEach(fs: Files, resolve: (string, string) -> string, ini: Ini, parent: string,
                    paths: seq<string>, ifNotDefined: bool, fuel: nat): (r: Result<Ini, IniError>)
    ensures r.Failure? ==> r.error.DuplicateKey? || r.error.FileNotFound? || r.error.RecursionLimit?
    ensures r.Failure? && r.error.DuplicateKey? ==> !ifNotDefined
    decreases fuel, |paths|
  {
    if |paths| == 0 then Success(ini)
    else
      var next :- Load(fs, resolve, ini, resolve(parent, paths[0]), false, ifNotDefined, fuel);
      LoadEach(fs, resolve, next, parent, paths[1..], ifNotDefined, fuel)
  }

  /** `iniFile(filename, keep_includes)`: a fresh configuration read from a
      file, repeated keys being an error. */
  function FromFile(fs: Files, resolve: (string, string) -> string, filename: string,
                    keepIncludes: bool, fuel: nat): (r: Result<Ini, IniError>)
    ensures filename !in fs && fuel > 0 ==> r == Failure(FileNotFound(filename))
    ensures r.Failure? ==> r.error.DuplicateKey? || r.error.FileNotFound? || r.error.RecursionLimit?
  {
    Load(fs, resolve, Empty(), filename, keepIncludes, false, fuel)
  }

  /** Reading never changes or removes a key that was already there; it
      only adds keys, each once, in read order. */
  lemma {:induction false} LoadGrows(fs: Files, resolve: (string, string) -> string, ini: Ini, filename: string,
                                     keepIncludes: bool, ifNotDefined: bool, fuel: nat)
    requires Load(fs, resolve, ini, filename, keepIncludes, ifNotDefined, fuel).Success?
    ensures ParamsGrow(ini, Load(fs, resolve, ini, filename, keepIncludes, ifNotDefined, fuel).value)
    decreases fuel, 0
  {
    var named := ini.(originalFilename := Some(filename));
    var sc := ScanLines(Start(named), fs[filename], ifNotDefined, filename).value;
    ScanLinesGrows(Start(named), fs[filename], ifNotDefined, filename);
    ParamsGrowSameTable(named, ini, sc.ini, sc.ini);
    if !keepIncludes {
      LoadEachGrows(fs, resolve, sc.ini, filename, sc.includePaths, ifNotDefined, fuel - 1);
      var included := LoadEach(fs, resolve, sc.ini, filename, sc.includePaths, ifNotDefined, fuel - 1).value;
      LoadEachGrows(fs, resolve, included, filename, sc.defaultPaths, true, fuel - 1);
      ParamsGrowTransitive(ini, sc.ini, included);
      ParamsGrowTransitive(ini, included, Load(fs, resolve, ini, filename, keepIncludes, ifNotDefined, fuel).value);
    } else {
      var r := Load(fs, resolve, ini, filename, keepIncludes, ifNotDefined, fuel).value;
      ParamsGrowSameTable(ini, ini, sc.ini, r);
    }
  }

  lemma {:induction false} LoadEachGrows(fs: Files, resolve: (string, string) -> string, ini: Ini, parent: string,
                                         paths: seq<string>, ifNotDefined: bool, fuel: nat)
    requires LoadEach(fs, resolve, ini, parent, paths, ifNotDefined, fuel).Success?
    ensures ParamsGrow(ini, LoadEach(fs, resolve, ini, parent, paths, ifNotDefined, fuel).value)
    decreases fuel, |paths|
  {
    if |paths| == 0 {
      assert Added(ini, ini) == [];
    } else {
      var next := Load(fs, resolve, ini, resolve(parent, paths[0]), false, ifNotDefined, fuel).value;
      LoadGrows(fs, resolve, ini, resolve(parent, paths[0]), false, ifNotDefined, fuel);
      LoadEachGrows(fs, resolve, next, parent, paths[1..], ifNotDefined, fuel);
      ParamsGrowTransitive(ini, next, LoadEach(fs, resolve, ini, parent, paths, ifNotDefined, fuel).value);
    }
  }

  /** Values from the file itself and from its includes are never replaced
      by values from its default files. */
  lemma DefaultsNeverOverride(fs: Files, resolve: (string, string) -> string, ini: Ini, filename: string,
                              ifNotDefined: bool, fuel: nat)
    requires Load(fs, resolve, ini, filename, false, ifNotDefined, fuel).Success?
    ensures var sc := ScanLines(Start(ini.(originalFilename := Some(filename))), fs[filename], ifNotDefined, filename).value;
      var included := LoadEach(fs, resolve, sc.ini, filename, sc.includePaths, ifNotDefined, fuel - 1);
      var r := Load(fs, resolve, ini, filename, false, ifNotDefined, fuel).value;
      && included.Success?
      && r == LoadEach(fs, resolve, included.value, filename, sc.defaultPaths, true, fuel - 1).value
      && forall k :: k in included.value.params ==> k in r.params && r.params[k] == included.value.params[k]
  {
    var sc := ScanLines(Start(ini.(originalFilename := Some(filename))), fs[filename], ifNotDefined, filename).value;
    var included := LoadEach(fs, resolve, sc.ini, filename, sc.includePaths, ifNotDefined, fuel - 1).value;
    LoadEachGrows(fs, resolve, included, filename, sc.defaultPaths, true, fuel - 1);
  }

  /** Default files only fill in missing keys, whatever the caller asked
      for: once the file itself and its includes have been read, a key that
      a default file repeats never makes reading fail, even in a strict
      read. */
  lemma DefaultsTolerateRepeats(fs: Files, resolve: (string, string) -> string, ini: Ini, filename: string,
                                ifNotDefined: bool, fuel: nat)
    requires fuel > 0 && filename in fs
    requires ScanLines(Start(ini.(originalFilename := Some(filename))), fs[filename], ifNotDefined, filename).Success?
    requires var sc := ScanLines(Start(ini.(originalFilename := Some(filename))), fs[filename], ifNotDefined, filename).value;
      LoadEach(fs, resolve, sc.ini, filename, sc.includePaths, ifNotDefined, fuel - 1).Success?
    ensures var r := Load(fs, resolve, ini, filename, false, ifNotDefined, fuel);
      r.Failure? ==> r.error.FileNotFound? || r.error.RecursionLimit?
  {
  }

  /** Included files are read with the caller's policy: in a strict read, a
      key that an included file repeats makes the whole read fail with that
      same error. */
  lemma IncludeRepeatFails(fs: Files, resolve: (string, string) -> string, ini: Ini, filename: string, fuel: nat)
    requires fuel > 0 && filename in fs
    requires ScanLines(Start(ini.(originalFilename := Some(filename))), fs[filename], false, filename).Success?
    requires var sc := ScanLines(Start(ini.(originalFilename := Some(filename))), fs[filename], false, filename).value;
      var inc := LoadEach(fs, resolve, sc.ini, filename, sc.includePaths, false, fuel - 1);
      inc.Failure? && inc.error.DuplicateKey?
    ensures var sc := ScanLines(Start(ini.(originalFilename := Some(filename))), fs[filename], false, filename).value;
      var inc := LoadEach(fs, resolve, sc.ini, filename, sc.includePaths, false, fuel - 1);
      Load(fs, resolve, ini, filename, false, false, fuel) == Failure(inc.error)
  {
  }
}
