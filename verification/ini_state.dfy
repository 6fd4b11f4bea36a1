/** The in-memory configuration: the parameter table, the order in which keys
    were first read, the comment blocks recovered for keys, the include and
    default directives kept for rewriting, and the file last read. Also the
    operations that change the table after loading (`delete_keys`,
    `replaceTags`) and the presence tests (`hasKey`, `isSet`). */
module IniState {
  import opened Results
  import Replace

  /** A stored parameter. The reader only ever stores strings; booleans come
      from code that fills the table directly. */
  datatype Value = Str(s: string) | Bool(b: bool)

  /** Every way an operation of the configuration can fail. */
  datatype IniError =
    | DuplicateKey(key: string, filename: string)  // key repeated within one load
    | Undefined(name: string)                      // getter on an unset key without default
    | InvalidBoolean(name: string)                 // set value other than T or F
    | NoFilename                                   // saving with no file name anywhere
    | NotAString                                   // text substitution on a non-string value
    | FileNotFound(path: string)                   // a file to read is missing
    | RecursionLimit(path: string)                 // include nesting deeper than the fuel

  datatype Ini = Ini(
    params: map<string, Value>,
    comments: map<string, seq<string>>,
    readOrder: seq<string>,
    defaults: seq<string>,
    includes: seq<string>,
    originalFilename: Option<string>)

  function Empty(): Ini {
    Ini(map[], map[], [], [], [], None)
  }

  /** A configuration built from an in-memory table. No key has a read
      position yet, so all of them are written in sorted order. */
  function FromMap(settings: map<string, Value>): (r: Ini)
    ensures r.params == settings
    ensures r.readOrder == [] && r.comments == map[]
    ensures r.includes == [] && r.defaults == [] && r.originalFilename == None
  {
    Empty().(params := settings)
  }

  /** The text written for a value: strings unchanged, booleans as the first
      letter of their name. */
  function AsIniText(v: Value): (r: string)
    ensures v.Str? ==> r == v.s
    ensures v.Bool? ==> |r| == 1 && r == AsString(v)[..1]
  {
    match v
    case Str(s) => s
    case Bool(b) => if b then "T" else "F"
  }

  /** `str(v)`: booleans by their full name. */
  function AsString(v: Value): (r: string)
    ensures v.Str? ==> r == v.s
    ensures v.Bool? ==> (r == "True" <==> v.b) && (r == "False" <==> !v.b)
  {
    match v
    case Str(s) => s
    case Bool(b) => if b then "True" else "False"
  }

  predicate IsSet(ini: Ini, name: string, allowEmpty: bool) {
    name in ini.params && (allowEmpty || ini.params[name] != Str(""))
  }

  /** `hasKey`: the key is present. With empty values allowed, being set is
      having the key; without them it also takes a value other than the
      empty string. */
  predicate HasKey(ini: Ini, name: string)
    ensures HasKey(ini, name) <==> IsSet(ini, name, true)
    ensures HasKey(ini, name) <== IsSet(ini, name, false)
    ensures IsSet(ini, name, false) <==> HasKey(ini, name) && ini.params[name] != Str("")
  {
    name in ini.params
  }

  /** `delete_keys`: drop each listed key that is present, one after the
      other; absent keys are ignored. Read order and comments are kept. */
  function DeleteKeys(ini: Ini, keys: seq<string>): (r: Ini)
    ensures r.params.Keys == ini.params.Keys - set k | k in keys
    ensures forall k :: k in r.params ==> r.params[k] == ini.params[k]
    ensures r == ini.(params := r.params)
    decreases |keys|
  {
    if |keys| == 0 then ini
    else
      var m := map k | k in ini.params && k != keys[0] :: ini.params[k];
      DeleteKeys(ini.(params := m), keys[1..])
  }

  /** Every value is a string, so text substitution applies to it. */
  predicate AllStrings(params: map<string, Value>) {
    forall k :: k in params ==> params[k].Str?
  }

  /** `replaceTags`: substitute `text` for every occurrence of `placeholder`
      in every value. A non-string value makes the whole call fail. */
  function ReplaceTags(ini: Ini, placeholder: string, text: string): (r: Result<Ini, IniError>)
    ensures r.Success? <==> AllStrings(ini.params)
    ensures r.Failure? ==> r.error == NotAString
    ensures r.Success? ==> r.value == ini.(params := r.value.params)
    ensures r.Success? ==> r.value.params.Keys == ini.params.Keys
    ensures r.Success? ==> forall k :: k in ini.params ==>
      r.value.params[k] == Str(Replace.ReplaceAll(ini.params[k].s, placeholder, text))
  {
    if AllStrings(ini.params) then
      Success(ini.(params := map k | k in ini.params :: Str(Replace.ReplaceAll(ini.params[k].s, placeholder, text))))
    else
      Failure(NotAString)
  }

  /** Substituting a placeholder by itself leaves the table as it was. */
  lemma ReplaceTagsBySelf(ini: Ini, placeholder: string)
    requires AllStrings(ini.params)
    ensures ReplaceTags(ini, placeholder, placeholder) == Success(ini)
  {
    var r := ReplaceTags(ini, placeholder, placeholder).value;
    forall k | k in ini.params ensures r.params[k] == ini.params[k] {
      Replace.ReplaceBySelf(ini.params[k].s, placeholder);
    }
    assert r.params == ini.params;
  }

  /** After substituting a tag by text that shares no character with it, no
      value contains the tag any more. For a tag longer than one character
      the text must be non-empty, since removing a tag can join the parts
      around it into a new one. */
  lemma ReplaceTagsEliminates(ini: Ini, placeholder: string, text: string)
    requires AllStrings(ini.params) && |placeholder| > 0
    requires forall c :: c in text ==> c !in placeholder
    requires |placeholder| == 1 || |text| > 0
    ensures var r := ReplaceTags(ini, placeholder, text);
      r.Success? && forall k :: k in r.value.params ==>
        !Replace.Contains(r.value.params[k].s, placeholder) &&
        (|placeholder| == 1 ==> placeholder[0] !in r.value.params[k].s)
  {
    var r := ReplaceTags(ini, placeholder, text);
    forall k | k in r.value.params
      ensures !Replace.Contains(r.value.params[k].s, placeholder)
      ensures |placeholder| == 1 ==> placeholder[0] !in r.value.params[k].s
    {
      var v := r.value.params[k].s;
      if |placeholder| == 1 {
        assert placeholder == [placeholder[0]];
        Replace.ReplaceCharEliminates(ini.params[k].s, placeholder[0], text);
        forall i: nat | i <= |v| ensures !Replace.OccursAt(v, placeholder, i) {
          if i + 1 <= |v| {
            assert v[i..i + 1][0] == v[i];
          }
        }
      } else {
        Replace.ReplaceEliminates(ini.params[k].s, placeholder, text);
      }
    }
  }
}
