# iniFile in Dafny

A model of CosmoMC's `iniFile` class (`python/iniFile.py`), with proofs about it. The class reads and writes the `key = value` parameter files the CosmoMC tools use.

A file is read line by line. Each line is stripped of surrounding whitespace and reading stops at a line `END`. Lines starting with `#` are buffered as comments. Every other line clears the buffer, except a repeated key that is skipped. So comments attach only to a key line that follows them directly, or follows them across skipped repeats. `INCLUDE(path)` and `DEFAULT(path)` lines name further files. Any other non-blank line with an `=` is a parameter. Its key is the stripped text before the first `=` and its value the stripped text after it.

A repeated key is an error, unless the read is only filling in missing keys, in which case the repeat is skipped. Included files are read next, with the same duplicate-key policy, relative to the file naming them. Default files come after that and always only fill in missing keys. Alternatively the directives can be kept unread so that they are written back out.

Writing produces the kept directives and then one `key=value` line per parameter. Keys come in the order they were first read, and keys never read follow in sorted order. Booleans are written as `T` or `F`. The typed getters look a key up, convert it, and otherwise fall back to the caller's default or report the key as undefined.

Modules, each in its own file:

- `Results` (`results.dfy`): `Option` and `Result`.
- `Seqs` (`seqs.dfy`): general facts about sequences that the other proofs share.
- `Text` (`text.dfy`): `strip`, `lstrip` and `rstrip` with the whitespace set of byte strings; `find` and `rfind`; slicing with negative and clamped bounds; the argument of a directive.
- `Replace` (`replace.dfy`): `str.replace`, including an empty pattern.
- `Words` (`words.dfy`): `str.split()` with no separator.
- `Numerals` (`numerals.dfy`): `%u` formatting of an index.
- `Ordering` (`ordering.dfy`): the byte-string order used by `list.sort()`, and the sorted listing of a key set.
- `Lines` (`lines.dfy`): `"\n".join`, and the lines that iterating over a file yields, each keeping its newline.
- `IniState` (`ini_state.dfy`): values, errors, the configuration record, `hasKey`, `isSet`, `delete_keys`, `replaceTags`.
- `IniRead` (`ini_read.dfy`): the line loop of `readFile`.
- `IniLoad` (`ini_load.dfy`): `readFile` with include and default expansion, and the constructor.
- `IniWrite` (`ini_write.dfy`): `fileLines`, `__str__`, `saveFile`.
- `IniAccess` (`ini_access.dfy`): `asType`, `bool`, `string`, `split`, `array_string`, `array_bool`, `relativeFileName`.
- `RoundTrip` (`round_trip.dfy`): saving followed by reading back.

Behaviours of the code that the model keeps as written:

- A duplicate key skipped while filling in missing keys leaves the loop body early (line 46), so the comment buffer is not cleared (line 52). Comments read before such a key therefore carry over to a new key that follows directly, or after more comments or skipped repeats (`IniRead.SkippedKeyKeepsPending`). A reader of the format might expect the buffer to be cleared.
- A directive without a closing parenthesis still counts: `rfind` returns -1, and as a slice end that drops the last character (`INCLUDE(abc` names `ab`).
- Every nested read overwrites the remembered file name, so after expansion it names the last file read. `saveFile` and `relativeFileName` then use that name.
- `bool` ignores `allowEmpty`. So `asType` asked for a boolean with empty values allowed treats an empty value as present, but `bool` then treats it as absent. It returns the default, or reports the key as undefined when there is no default (`IniAccess.EmptyBoolFallsBack`).

## Model

| member | source | states |
|---|---|---|
| Text.Strip | python/iniFile.py:32 | the stripped line has no whitespace at either end and is never longer than the line |
| Text.StripMiddle | python/iniFile.py:32 | the stripped line is a slice of the line, and everything before and after that slice is whitespace |
| Text.StripEmptyIffSpace | python/iniFile.py:41 | a line strips to the empty string exactly when it is all whitespace, so blank lines are neither parameters nor directives |
| Text.StripAppendNewline | python/iniFile.py:31-32 | the newline a line keeps when read from a file does not change its stripped text |
| Text.Find | python/iniFile.py:42 | `find` is -1 exactly when the character is absent; otherwise it is a position of the character with none before it |
| Text.RFind | python/iniFile.py:38 | `rfind` is -1 exactly when the character is absent; otherwise it is a position of the character with none after it |
| Text.DirectiveArgumentOf | python/iniFile.py:38 | for `name(x)` with no `(` in the name, the text between the first `(` and the last `)` is exactly `x`, whatever `x` holds |
| Text.DirectiveArgumentUnclosed | python/iniFile.py:38-40 | without a closing parenthesis, the slice ending at `rfind` = -1 yields the argument minus its last character |
| Replace.ReplaceAll | python/iniFile.py:112 | with an empty pattern the result is as long as one copy of the replacement before each character and one more at the end; a replacement as long as the pattern keeps the length; a string shorter than the pattern is unchanged |
| Replace.ReplaceEmptyPattern | python/iniFile.py:112 | with an empty pattern, copy `i` of the replacement starts at `i * (len(t) + 1)` (`Replace.BlockAt`) for every `i` up to the length of the string |
| Replace.ReplaceEmptyChars | python/iniFile.py:112 | with an empty pattern, character `i` of the string directly follows copy `i` of the replacement |
| Replace.ReplaceBySelf | python/iniFile.py:112 | replacing a pattern by itself leaves any string unchanged |
| Replace.ReplaceAbsent | python/iniFile.py:112 | a string without the (non-empty) pattern is left unchanged |
| Replace.ReplaceCharEliminates | python/iniFile.py:112 | after replacing a character by text not containing it, the character no longer occurs |
| Replace.ReplaceEliminates | python/iniFile.py:112 | after replacing a pattern of any length by non-empty text sharing no character with it, the pattern no longer occurs |
| Words.SplitWords | python/iniFile.py:165 | every piece `split()` returns is a non-empty word with no whitespace in it |
| Words.SplitKeepsText | python/iniFile.py:165 | splitting keeps every non-whitespace character, in order, and drops only whitespace |
| Words.SplitJoin | python/iniFile.py:165 | words joined by spaces split back into the same words |
| Words.SplitAtSpace | python/iniFile.py:165 | any non-empty run of whitespace separates words: the text before it and the text after it split independently |
| Numerals.IntToStringInjective | python/iniFile.py:171-181 | distinct indices format to distinct `%u` texts |
| Ordering.SortedList | python/iniFile.py:97-98 | the sorted key list holds each key of the set exactly once, each before the next in byte order |
| Ordering.SortedPairwise | python/iniFile.py:98 | in the sorted list every key sorts strictly before every later key |
| Lines.TextLinesConcat | python/iniFile.py:31 | the lines that iterating over a file yields, put back together, are the whole text |
| Lines.TextLinesBreaks | python/iniFile.py:31 | each line yielded ends at its first newline, and only the last line may lack one |
| Lines.TextLinesOfJoin | python/iniFile.py:75 | iterating over lines joined with newlines gives each line back, every one but the last keeping its newline, provided no line is empty or contains a newline |
| Lines.TerminatedStrips | python/iniFile.py:31-32 | the newlines kept by iteration do not change any stripped line |
| IniState.FromMap | python/iniFile.py:20-21 | a configuration built from a table holds that table and nothing read from a file |
| IniState.AsIniText | python/iniFile.py:85-89 | text is written as it is; a boolean is written as the first letter of its `str` name, `T` or `F` |
| IniState.AsString | python/iniFile.py:136 | `str` of text is the text itself; a boolean becomes `True` exactly when it is true and `False` exactly when it is false |
| IniState.HasKey | python/iniFile.py:121-125 | having a key is being set with empty values allowed; being set without them is having the key with a value other than the empty string |
| IniState.DeleteKeys | python/iniFile.py:115-116 | deleting removes exactly the listed keys that are present, keeps all other values, and changes nothing but the table |
| IniState.ReplaceTags | python/iniFile.py:110-113 | every value has the placeholder substituted and the keys stay the same; a non-string value makes the call fail |
| IniState.ReplaceTagsBySelf | python/iniFile.py:110-113 | substituting a placeholder by itself returns the configuration unchanged |
| IniState.ReplaceTagsEliminates | python/iniFile.py:110-113 | after substituting a tag by text sharing no character with it (non-empty text unless the tag is one character), no value contains the tag |
| IniRead.ScanLines | python/iniFile.py:31-52 | scanning one file fails only on a repeated key, only when existing keys are not tolerated, and names the file; when they are tolerated it never fails |
| IniRead.ScanLinesGrows | python/iniFile.py:44-51 | a scan only extends the configuration: existing keys keep their values, each new key is stored once as a string and appended to the read order, and comments change only for new keys |
| IniRead.ScanStopsAtEnd | python/iniFile.py:33 | nothing after a line that strips to `END` has any effect |
| IniRead.Classify | python/iniFile.py:32-42 | a stripped line is the end marker exactly when it is `END` and a comment exactly when it starts with `#`; a parameter line contains `=` and has a stripped key and value; an ignored line has no `=` |
| IniRead.StepKind | python/iniFile.py:33-52 | only the end marker stops reading. Reading fails exactly on a repeated key when repeats are not tolerated, naming the key and file. Every line except comments and skipped repeats clears the comment buffer. Values already stored are never changed |
| IniRead.ClassifyParameter | python/iniFile.py:41-48 | a line `k=v` with no `=` in `k` is the parameter with key `strip(k)` and value `strip(v)` |
| IniRead.KeyLine | python/iniFile.py:44-52 | a new key is stored with its value, appended to the read order and given the pending comments; a repeated key is skipped or fails the read, by the duplicate-key policy |
| IniRead.SkippedKeyKeepsPending | python/iniFile.py:45-46 | a tolerated repeated key is skipped with the comment buffer left as it was |
| IniRead.LineWithoutEquals | python/iniFile.py:41-52 | a plain line without `=`, blank lines included, stores nothing and clears the comment buffer |
| IniRead.PendingClearedUnlessComment | python/iniFile.py:34-52 | a comment line adds its text to the comment buffer; every other line that lets reading go on empties it, directives and blank lines included, except a skipped repeated key |
| IniRead.ClassifyComment | python/iniFile.py:34-35 | a line starting with `#` is a comment whose text drops the marker and trailing whitespace |
| IniRead.CommentsAttachToKey | python/iniFile.py:34-51 | a block of comment lines directly before a new key becomes that key's comment entry |
| IniRead.ClassifyInclude | python/iniFile.py:37-38 | `INCLUDE(x)` is an include directive naming exactly `x` |
| IniRead.ClassifyDefault | python/iniFile.py:39-40 | `DEFAULT(x)` is a default directive naming exactly `x` |
| IniRead.ClassifyUnclosedInclude | python/iniFile.py:37-38 | `INCLUDE(x` without `)` is still an include, naming `x` without its last character |
| IniLoad.Load | python/iniFile.py:23-72 | reading fails only on a repeated key, a missing file or too deep nesting, and on a repeated key only when existing keys are not tolerated |
| IniLoad.LoadEach | python/iniFile.py:58-67 | reading a list of files fails in the same ways only, never on a repeated key when existing keys are tolerated |
| IniLoad.FromFile | python/iniFile.py:10-19 | the constructor given a file name fails on a missing file, and otherwise only on a repeated key or too deep nesting |
| IniLoad.LoadGrows | python/iniFile.py:23-67 | reading, with all includes and defaults, never changes or removes a key already present; it only adds new keys once each, in read order |
| IniLoad.DefaultsNeverOverride | python/iniFile.py:63-67 | a value from the file or its includes is never replaced by one from a default file |
| IniLoad.DefaultsTolerateRepeats | python/iniFile.py:63-67 | default files are always read only filling in missing keys: once the file and its includes have been read, a repeated key in a default file never makes even a strict read fail |
| IniLoad.IncludeRepeatFails | python/iniFile.py:58-62 | included files are read with the caller's policy: in a strict read, a repeated key in an included file fails the whole read with that error |
| IniWrite.Emit | python/iniFile.py:97-105 | the written keys are exactly the keys of the table |
| IniWrite.EmitOnce | python/iniFile.py:97-105 | no key is written twice, and as many keys are written as the table holds |
| IniWrite.EmitIdempotent | python/iniFile.py:97-105 | taking the written order as the read order writes the keys in the same order again |
| IniWrite.Kept | python/iniFile.py:100-104 | the keys the loop over the read order writes are exactly the read keys still in the table |
| IniWrite.KeptDistinct | python/iniFile.py:100-104 | the loop over the read order writes no key twice, because each written key is removed from the list |
| IniWrite.KeptFollowsReadOrder | python/iniFile.py:100-104 | the loop writes keys in the order of their first occurrence in the read order; later repeats and deleted keys are skipped |
| IniWrite.EmitSplits | python/iniFile.py:97-105 | for any read order and table, the keys written are the kept read keys in read order, then the remaining keys in sorted order |
| IniWrite.EmitReadOrder | python/iniFile.py:100-105 | corollary of `EmitSplits`: when every read key is present and was read once, keys are written in read order followed by the unread keys in sorted order |
| IniWrite.EmitReadKeysFirst | python/iniFile.py:100-105 | every key that was read is written before every key that was not |
| IniWrite.FromMapSorted | python/iniFile.py:97-105 | a table that was never read is written in sorted key order |
| IniWrite.DirectiveLines | python/iniFile.py:92-95 | one `INCLUDE(path)` or `DEFAULT(path)` line per kept directive, in order |
| IniWrite.FileLines | python/iniFile.py:83-107 | one line per kept directive and one per parameter |
| IniWrite.FileLinesCoverParams | python/iniFile.py:100-105 | a key is written exactly when it is in the table, on exactly one line `key=text`; deleted keys are not written |
| IniWrite.Render | python/iniFile.py:74-75 | when every written line is a single non-empty line, iterating over the text `__str__` gives back those lines again, each but the last keeping its newline |
| IniWrite.SaveTarget | python/iniFile.py:77-79 | saving uses the given name, or failing that the last file read; with neither (or both empty) it fails |
| IniWrite.Save | python/iniFile.py:77-81 | saving writes the rendered lines exactly when a target name exists |
| IniAccess.AsType | python/iniFile.py:127-138 | an unset key yields the default or, without one, an undefined-key error. A set key asked for as text yields its text. Asked for as a boolean, it is answered by `bool`. Asked for as a list, it yields its whitespace-separated words |
| IniAccess.GetBool | python/iniFile.py:144-152 | a set key yields its boolean or the value `T`/`F`, and fails exactly when it holds other text; an unset key yields the default or an undefined-key error |
| IniAccess.GetString | python/iniFile.py:154-155 | a set key yields its text, where by default an empty value counts as set; an unset key yields the default or an undefined-key error |
| IniAccess.GetSplit | python/iniFile.py:163-166 | a present key, or a text default, yields its whitespace-separated words; another default is passed through unsplit |
| IniAccess.Fallback | python/iniFile.py:137-138 | an unset key yields the default when there is one and otherwise an undefined-key error naming the key |
| IniAccess.ArrayKey | python/iniFile.py:171-181 | the key of an entry is the name, then `(`, then the index as `%u` writes it, then `)` |
| IniAccess.ArrayKeyInjective | python/iniFile.py:171-181 | distinct names without parentheses, or distinct indices, give distinct `name(index)` keys |
| IniAccess.ArrayString | python/iniFile.py:174-175 | entry `index` is the text under `name(index)`, or the default or an undefined-key error for that key |
| IniAccess.ArrayStringFinds | python/iniFile.py:174-175 | entry `index` stored under `name(index)` is read back by `array_string` |
| IniAccess.ArrayBool | python/iniFile.py:177-178 | entry `index` is read as a boolean under `name(index)`; a set entry holding text other than `T` or `F` is an invalid-boolean error; an unset entry yields the default (none by default) or an undefined-key error |
| IniAccess.RelativeFileName | python/iniFile.py:183-187 | with no file read, the value is returned as `string` gives it. After a read, a stored name or a text default is located against the last file read. A default that is not text is an error. A missing key with no default is undefined |
| IniAccess.BoolRoundTrip | python/iniFile.py:144-150 | a boolean stored, or written as its letter, reads back as the same boolean |
| IniAccess.SplitRoundTrip | python/iniFile.py:163-166 | words stored joined by spaces read back as the same words |
| IniAccess.EmptyBoolFallsBack | python/iniFile.py:127-145 | an empty value is present for `string` but absent for `bool`, even when `asType` allows empty values |
| RoundTrip.ClassifyParamLine | python/iniFile.py:102 | a written parameter line of a well-formed key and value reads back as the same key with the same text |
| RoundTrip.ScanFileLines | python/iniFile.py:83-107 | the written lines scan back to the table as text, keys in written order, directives in kept order |
| RoundTrip.ReadRendered | python/iniFile.py:74-75 | reading the saved text, keeping directives, gives back the configuration with values as text, keys in written order and no comments |
| RoundTrip.SaveThenLoad | python/iniFile.py:77-81 | reading the file `saveFile` wrote, with directives kept unread, gives back the same keys with four differences. Booleans come back as the text `T` or `F`. Comments are gone. The read order becomes the written order. The file name is the one written to. The constructor would instead expand the directives |
| RoundTrip.ResaveSame | python/iniFile.py:83-107 | saving a configuration that was read back from a save writes exactly the same lines again |
| RoundTrip.SavedBoolReadsBack | python/iniFile.py:85-88 | a boolean in the table reads back as the same boolean from the saved file |

## Left out

- Reading and writing files is not modelled. A file is the list of lines that iterating over it yields, drawn from a map of paths. Saving returns the target name and the text. The message printed on a failed read (line 71) is left out.
- `os.path.isabs`, `os.path.join` and `os.path.dirname` are not modelled. The model takes a resolving function from the including file's name and the directive's path to the path that gets read. `relativeFileName` takes a locating function in the same way.
- `float`, `int`, `ndarray`, `array_int` and `array_float` are left out because they need numeric parsing and floating point. `asType` is modelled for text, booleans and lists.
- `setAttr` is left out because it reads and writes attributes of an arbitrary object by name.
- `asIniText` for values other than strings and booleans is left out. The value type holds only these two.
- A failing read, or a failing `replaceTags`, returns only the error. The host language leaves the changes made before the failure in place, and the model does not.
- IniLoad.Load: an include chain with no end (a file that includes itself) recurses until the interpreter's recursion limit. The model bounds nesting by a fuel count and reports `RecursionLimit`.
- IniLoad.FromFile: the constructor's dispatch on its argument type is split into `FromFile` for a file name and `IniState.FromMap` for a table. With no argument the result is `IniState.Empty`.
- The keyword defaults of the getters are Dafny default parameter values: `default` is `Some(BoolVal(false))` for `GetBool` and `None` elsewhere, `allowEmpty` is `true` for `GetString`, and `index` is 1 for `ArrayString` and `ArrayBool`. `AsType` and `RelativeFileName` take every argument explicitly.
- Keys are sorted by comparing characters. This matches the byte order of the host language only for single-byte characters.
- `readFile` and `replaceTags` return the parameter table, while the model returns the whole configuration.
