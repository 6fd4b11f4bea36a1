/** The typed getters (`asType`, `bool`, `string`, `split`, the `array_*`
    family and `relativeFileName`). Each looks a key up, converts what is
    stored, and otherwise falls back to the default or reports the key as
    undefined. */
module IniAccess {
  import opened Results
  import opened Text
  import opened Words
  import opened Numerals
  import opened IniState

  /** The target type requested from `asType`. */
  datatype Kind = StrKind | BoolKind | ListKind

  /** A value handed back to the caller. Defaults are passed through as
      they are, so a default of any of these shapes may come back whatever
      kind was asked for. */
  datatype Typed = StrVal(s: string) | BoolVal(b: bool) | ListVal(items: seq<string>)

  /** The fallback when a key is not set: the default if there is one,
      otherwise the key is undefined. */
  function Fallback(name: string, default: Option<Typed>): (r: Result<Typed, IniError>)
    ensures default.Some? ==> r == Success(default.value)
    ensures default.None? ==> r == Failure(Undefined(name))
  {
    if default.Some? then Success(default.value) else Failure(Undefined(name))
  }

  /** `asType` calls `split` for a list, `split` calls `string`, and
      `string` calls `asType` again, but always for text, which calls
      nothing further. Ranking the list request above `split` (2) and
      `string` (1), and the text request below them, makes every call in
      that chain go down. */
  function KindRank(tp: Kind): nat {
    if tp.ListKind? then 3 else 0
  }

  /** `asType`. Presence is judged with `allowEmpty`, but a boolean request
      is then answered by `bool`, which judges presence again and never
      accepts an empty value. */
  function AsType(ini: Ini, name: string, tp: Kind, default: Option<Typed>, allowEmpty: bool): (r: Result<Typed, IniError>)
    ensures !IsSet(ini, name, allowEmpty) ==> r == Fallback(name, default)
    ensures IsSet(ini, name, allowEmpty) && tp == StrKind ==> r == Success(StrVal(AsString(ini.params[name])))
    ensures IsSet(ini, name, allowEmpty) && tp == BoolKind ==> r == GetBool(ini, name, default)
    ensures IsSet(ini, name, allowEmpty) && tp == ListKind ==> r == Success(ListVal(SplitWords(AsString(ini.params[name]))))
    ensures r.Failure? ==> r.error == Undefined(name) || r.error == InvalidBoolean(name)
    decreases KindRank(tp), 0
  {
    if IsSet(ini, name, allowEmpty) then
      match tp
      case BoolKind => GetBool(ini, name, default)
      case ListKind => GetSplit(ini, name, default)
      case StrKind => Success(StrVal(AsString(ini.params[name])))
    else Fallback(name, default)
  }

  /** `bool`: a stored boolean as it is, the strings `T` and `F` as true and
      false, any other non-empty string an error. */
  function GetBool(ini: Ini, name: string, default: Option<Typed> := Some(BoolVal(false))): (r: Result<Typed, IniError>)
    ensures r.Success? && r.value.BoolVal? && IsSet(ini, name, false) ==>
      ini.params[name] == Bool(r.value.b) || ini.params[name] == Str(if r.value.b then "T" else "F")
    ensures IsSet(ini, name, false) ==> (r.Failure? <==> ini.params[name].Str? && ini.params[name].s !in {"T", "F"})
    ensures IsSet(ini, name, false) ==> r.Success? ==> r.value.BoolVal?
    ensures r.Failure? && IsSet(ini, name, false) ==> r.error == InvalidBoolean(name)
    ensures !IsSet(ini, name, false) ==> r == Fallback(name, default)
  {
    if IsSet(ini, name, false) then
      match ini.params[name]
      case Bool(b) => Success(BoolVal(b))
      case Str(s) =>
        if s == "T" then Success(BoolVal(true))
        else if s == "F" then Success(BoolVal(false))
        else Failure(InvalidBoolean(name))
    else Fallback(name, default)
  }

  /** `string`: a set key as text; by default an empty value counts as
      set. */
  function GetString(ini: Ini, name: string, default: Option<Typed> := None, allowEmpty: bool := true): (r: Result<Typed, IniError>)
    ensures IsSet(ini, name, allowEmpty) ==> r == Success(StrVal(AsString(ini.params[name])))
    ensures !IsSet(ini, name, allowEmpty) ==> r == Fallback(name, default)
    decreases 1, 0
  {
    AsType(ini, name, StrKind, default, allowEmpty)
  }

  /** `split`: a present value cut into whitespace-separated words; a
      default that is not text is passed through unsplit. */
  function GetSplit(ini: Ini, name: string, default: Option<Typed> := None): (r: Result<Typed, IniError>)
    ensures name in ini.params ==> r == Success(ListVal(SplitWords(AsString(ini.params[name]))))
    ensures name !in ini.params && default.Some? && default.value.StrVal? ==>
      r == Success(ListVal(SplitWords(default.value.s)))
    ensures name !in ini.params && default.Some? && !default.value.StrVal? ==> r == Success(default.value)
    ensures name !in ini.params && default.None? ==> r == Failure(Undefined(name))
    decreases 2, 0
  {
    var s :- GetString(ini, name, default);
    if s.StrVal? then Success(ListVal(SplitWords(s.s))) else Success(s)
  }

  /** The key of entry `index` of an indexed parameter: `name(index)`. */
  function ArrayKey(name: string, index: int): (r: string)
    ensures |r| == |name| + |IntToString(index)| + 2
    ensures r[..|name|] == name && r[|name|] == '(' && r[|r| - 1] == ')'
    ensures r[|name| + 1..|r| - 1] == IntToString(index)
  {
    name + "(" + IntToString(index) + ")"
  }

  /** Distinct names (without parentheses) or distinct indices give distinct
      keys. */
  lemma ArrayKeyInjective(n1: string, i1: int, n2: string, i2: int)
    requires '(' !in n1 && '(' !in n2
    requires ArrayKey(n1, i1) == ArrayKey(n2, i2)
    ensures n1 == n2 && i1 == i2
  {
    var s := ArrayKey(n1, i1);
    assert s[|n1|] == '(' && s[..|n1|] == n1;
    assert s[|n2|] == '(' && s[..|n2|] == n2;
    FindAt(s, '(', |n1|);
    FindAt(s, '(', |n2|);
    DirectiveArgumentOf(n1, IntToString(i1));
    DirectiveArgumentOf(n2, IntToString(i2));
    IntToStringInjective(i1, i2);
  }

  /** `array_string`, by default for entry 1. */
  function ArrayString(ini: Ini, name: string, index: int := 1, default: Option<Typed> := None): (r: Result<Typed, IniError>)
    ensures ArrayKey(name, index) in ini.params ==>
      r == Success(StrVal(AsString(ini.params[ArrayKey(name, index)])))
    ensures ArrayKey(name, index) !in ini.params ==> r == Fallback(ArrayKey(name, index), default)
  {
    GetString(ini, ArrayKey(name, index), default)
  }

  /** `array_bool`; unlike `bool`, its default default is no default. */
  function ArrayBool(ini: Ini, name: string, index: int := 1, default: Option<Typed> := None): (r: Result<Typed, IniError>)
    ensures var key := ArrayKey(name, index);
      && (!IsSet(ini, key, false) ==> r == Fallback(key, default))
      && (IsSet(ini, key, false) && ini.params[key] in {Str("T"), Bool(true)} ==> r == Success(BoolVal(true)))
      && (IsSet(ini, key, false) && ini.params[key] in {Str("F"), Bool(false)} ==> r == Success(BoolVal(false)))
      && (IsSet(ini, key, false) && ini.params[key].Str? && ini.params[key].s !in {"T", "F"} ==>
            r == Failure(InvalidBoolean(key)))
      && (r.Failure? ==> r.error in {Undefined(key), InvalidBoolean(key)})
  {
    GetBool(ini, ArrayKey(name, index), default)
  }

  /** `relativeFileName`: a file name read from the table, taken relative
      to the directory of the file last read when there is one. `locate`
      stands for joining onto the directory of that file. */
  function RelativeFileName(ini: Ini, name: string, default: Option<Typed>,
                            locate: (string, string) -> string): (r: Result<Typed, IniError>)
    ensures ini.originalFilename.None? ==> r == GetString(ini, name, default)
    ensures ini.originalFilename.Some? && name in ini.params ==>
      r == Success(StrVal(locate(ini.originalFilename.value, AsString(ini.params[name]))))
    ensures ini.originalFilename.Some? && name !in ini.params && default.Some? && default.value.StrVal? ==>
      r == Success(StrVal(locate(ini.originalFilename.value, default.value.s)))
    ensures ini.originalFilename.Some? && name !in ini.params && default.Some? && !default.value.StrVal? ==>
      r == Failure(NotAString)
    ensures name !in ini.params && default.None? ==> r == Failure(Undefined(name))
    ensures r.Failure? ==> r.error == NotAString || r.error == Undefined(name)
  {
    var s :- GetString(ini, name, default);
    if ini.originalFilename.None? then Success(s)
    else if s.StrVal? then Success(StrVal(locate(ini.originalFilename.value, s.s)))
    else Failure(NotAString)
  }

  /** Setting a boolean and reading it back yields that boolean, whether it
      is stored as a boolean or written out as its letter. */
  lemma BoolRoundTrip(ini: Ini, name: string, b: bool, default: Option<Typed>)
    ensures GetBool(ini.(params := ini.params[name := Bool(b)]), name, default) == Success(BoolVal(b))
    ensures GetBool(ini.(params := ini.params[name := Str(AsIniText(Bool(b)))]), name, default) == Success(BoolVal(b))
  {
  }

  /** Words stored joined by spaces are read back as the same words. */
  lemma SplitRoundTrip(ini: Ini, name: string, words: seq<string>, default: Option<Typed>)
    requires forall k :: 0 <= k < |words| ==> IsWord(words[k])
    ensures GetSplit(ini.(params := ini.params[name := Str(JoinWords(words))]), name, default) == Success(ListVal(words))
  {
    SplitJoin(words);
  }

  /** Entry `i` of an indexed parameter is found under `name(i)`. */
  lemma ArrayStringFinds(ini: Ini, name: string, index: int, v: string, default: Option<Typed>)
    ensures ArrayString(ini.(params := ini.params[ArrayKey(name, index) := Str(v)]), name, index, default)
         == Success(StrVal(v))
  {
  }

  /** An empty value counts as set for `string` but as unset for `bool`, so
      asking `asType` for a boolean with empty values allowed still falls
      back to the default. */
  lemma EmptyBoolFallsBack(ini: Ini, name: string, default: Option<Typed>)
    requires name in ini.params && ini.params[name] == Str("")
    ensures GetString(ini, name, default) == Success(StrVal(""))
    ensures AsType(ini, name, BoolKind, default, true) == Fallback(name, default)
  {
  }
}
