/** Writing a configuration back out (`fileLines`, `__str__`, `saveFile`):
    the kept INCLUDE and DEFAULT directives first, then one `key=value` line
    per parameter, keys that were read in the order they were first read and
    all other keys after them in sorted order. */
module IniWrite {
  import opened Results
  import opened Seqs
  import opened Ordering
  import opened Lines
  import opened IniState

  /** The parameter keys in output order: walking the read order, each key
      still in `remaining` is written and struck off; whatever remains at the
      end follows in sorted order. */
  function Emit(order: seq<string>, remaining: set<string>): (r: seq<string>)
    ensures forall k :: k in r <==> k in remaining
    decreases |order|
  {
    if |order| == 0 then SortedList(remaining)
    else if order[0] in remaining then [order[0]] + Emit(order[1..], remaining - {order[0]})
    else Emit(order[1..], remaining)
  }

  /** Each remaining key is written exactly once. */
  lemma {:induction false} EmitOnce(order: seq<string>, remaining: set<string>)
    ensures Distinct(Emit(order, remaining))
    ensures |Emit(order, remaining)| == |remaining|
    decreases |order|
  {
    if |order| > 0 {
      var x := order[0];
      if x in remaining {
        EmitOnce(order[1..], remaining - {x});
        var r' := Emit(order[1..], remaining - {x});
        assert x !in r';
        forall i, j | 0 <= i < j < |[x] + r'| ensures ([x] + r')[i] != ([x] + r')[j] {
          if i > 0 {
            assert ([x] + r')[i] == r'[i - 1];
          }
        }
      } else {
        EmitOnce(order[1..], remaining);
      }
    }
  }

  function EmitOrder(ini: Ini): seq<string> {
    Emit(ini.readOrder, ini.params.Keys)
  }

  /** The read keys still in `keys`, each at its first position in the
      read order: the keys the loop over `readOrder` writes. */
  function Kept(order: seq<string>, keys: set<string>): (r: seq<string>)
    ensures forall k :: k in r <==> k in order && k in keys
    decreases |order|
  {
    if |order| == 0 then []
    else if order[0] in keys then [order[0]] + Kept(order[1..], keys - {order[0]})
    else Kept(order[1..], keys)
  }

  /** Position of the first occurrence of `k`. */
  function FirstIndex(xs: seq<string>, k: string): (i: nat)
    requires k in xs
    ensures i < |xs| && xs[i] == k && k !in xs[..i]
    decreases |xs|
  {
    if xs[0] == k then 0
    else
      var j := FirstIndex(xs[1..], k);
      assert xs[..j + 1] == [xs[0]] + xs[1..][..j];
      j + 1
  }

  /** Every key of `r` was read, and the keys of `r` appear in the order
      of their first occurrence in `order`. */
  predicate InReadOrder(order: seq<string>, r: seq<string>) {
    (forall k :: k in r ==> k in order) &&
    forall i, j :: 0 <= i < j < |r| && r[i] in order && r[j] in order ==>
      FirstIndex(order, r[i]) < FirstIndex(order, r[j])
  }

  /** The kept keys follow the order in which they were first read. */
  lemma {:induction false} KeptFollowsReadOrder(order: seq<string>, keys: set<string>)
    ensures InReadOrder(order, Kept(order, keys))
    decreases |order|
  {
    if |order| > 0 {
      var x := order[0];
      var keys' := if x in keys then keys - {x} else keys;
      var rest := Kept(order[1..], keys');
      KeptFollowsReadOrder(order[1..], keys');
      assert x !in rest;
      if x in keys {
        assert Kept(order, keys) == [x] + rest;
        ConsInReadOrder(order, rest);
      } else {
        assert Kept(order, keys) == rest;
        TailInReadOrder(order, rest);
      }
    }
  }

  /** An order kept past the head of the read order stays in read order. */
  lemma TailInReadOrder(order: seq<string>, r: seq<string>)
    requires |order| > 0 && order[0] !in r && InReadOrder(order[1..], r)
    ensures InReadOrder(order, r)
  {
    forall i, j | 0 <= i < j < |r| && r[i] in order && r[j] in order
      ensures FirstIndex(order, r[i]) < FirstIndex(order, r[j])
    {
      FirstIndexTail(order, r[i]);
      FirstIndexTail(order, r[j]);
    }
  }

  /** Putting the head of the read order in front keeps the read order. */
  lemma ConsInReadOrder(order: seq<string>, r: seq<string>)
    requires |order| > 0 && order[0] !in r && InReadOrder(order[1..], r)
    ensures InReadOrder(order, [order[0]] + r)
  {
    TailInReadOrder(order, r);
    var r' := [order[0]] + r;
    forall i, j | 0 <= i < j < |r'| && r'[i] in order && r'[j] in order
      ensures FirstIndex(order, r'[i]) < FirstIndex(order, r'[j])
    {
      assert r'[j] == r[j - 1];
      if i == 0 {
        assert r'[j] != order[0];
        FirstIndexTail(order, r'[j]);
      } else {
        assert r'[i] == r[i - 1];
      }
    }
  }

  lemma FirstIndexTail(xs: seq<string>, k: string)
    requires |xs| > 0 && k in xs && k != xs[0]
    ensures k in xs[1..] && FirstIndex(xs, k) == FirstIndex(xs[1..], k) + 1
  {
  }

  /** No key is kept twice. */
  lemma {:induction false} KeptDistinct(order: seq<string>, keys: set<string>)
    ensures Distinct(Kept(order, keys))
    decreases |order|
  {
    if |order| > 0 {
      var x := order[0];
      if x in keys {
        KeptDistinct(order[1..], keys - {x});
        DistinctCons(x, Kept(order[1..], keys - {x}));
      } else {
        KeptDistinct(order[1..], keys);
      }
    }
  }

  /** The output order in general: the kept read keys in read order, then
      every key never read, sorted. Keys read but since deleted are skipped,
      and a key read twice is written at its first position. */
  lemma {:induction false} EmitSplits(order: seq<string>, keys: set<string>)
    ensures Emit(order, keys) == Kept(order, keys) + SortedList(keys - set k | k in order)
    decreases |order|
  {
    if |order| == 0 {
      assert (set k | k in order) == {};
    } else {
      var x, tail := order[0], order[1..];
      MinusCons(order, keys);
      var sorted := SortedList(keys - set k | k in order);
      if x in keys {
        assert Emit(order, keys) == [x] + Emit(tail, keys - {x});
        assert Kept(order, keys) == [x] + Kept(tail, keys - {x});
        EmitSplits(tail, keys - {x});
        AppendAssoc([x], Kept(tail, keys - {x}), sorted);
      } else {
        EmitSplits(tail, keys);
      }
    }
  }

  /** Keys read once each and all still present are kept as read. */
  lemma {:induction false} KeptAll(order: seq<string>, keys: set<string>)
    requires Distinct(order)
    requires forall i :: 0 <= i < |order| ==> order[i] in keys
    ensures Kept(order, keys) == order
    decreases |order|
  {
    if |order| > 0 {
      var x, tail := order[0], order[1..];
      DistinctTail(order);
      forall i | 0 <= i < |tail| ensures tail[i] in keys - {x} {
        assert tail[i] == order[i + 1];
      }
      KeptAll(tail, keys - {x});
      assert order == [x] + tail;
    }
  }

  /** When every read key is still present and none was read twice, the
      output order is the read order followed by the unread keys sorted. */
  lemma EmitReadOrder(order: seq<string>, remaining: set<string>)
    requires Distinct(order)
    requires forall i :: 0 <= i < |order| ==> order[i] in remaining
    ensures Emit(order, remaining) == order + SortedList(remaining - set k | k in order)
  {
    EmitSplits(order, remaining);
    KeptAll(order, remaining);
  }
  /** Writing in the order of a previous write changes nothing. */
  lemma EmitIdempotent(order: seq<string>, remaining: set<string>)
    ensures Emit(Emit(order, remaining), remaining) == Emit(order, remaining)
  {
    var e := Emit(order, remaining);
    EmitOnce(order, remaining);
    EmitReadOrder(e, remaining);
    assert remaining - (set k | k in e) == {} by {
      forall k | k in remaining ensures k in e {
      }
    }
    assert e + SortedList({}) == e;
  }


  /** Keys read before come out ahead of keys never read. */
  lemma {:induction false} EmitReadKeysFirst(order: seq<string>, remaining: set<string>, i: int, j: int)
    requires 0 <= i < j < |Emit(order, remaining)|
    requires Emit(order, remaining)[j] in order
    ensures Emit(order, remaining)[i] in order
    decreases |order|
  {
    if |order| > 0 {
      var x, tail := order[0], order[1..];
      var r := Emit(order, remaining);
      var k := r[j];
      assert order == [x] + tail;
      if x in remaining {
        var r' := Emit(tail, remaining - {x});
        assert r == [x] + r';
        if i > 0 {
          assert k == r'[j - 1];
          assert k in remaining - {x};
          assert k in tail;
          EmitReadKeysFirst(tail, remaining - {x}, i - 1, j - 1);
          assert r[i] == r'[i - 1];
        }
      } else {
        assert k in remaining;
        assert k in tail;
        EmitReadKeysFirst(tail, remaining, i, j);
      }
    }
  }

  /** A table that was never read is written in sorted key order. */
  lemma FromMapSorted(settings: map<string, Value>)
    ensures EmitOrder(FromMap(settings)) == SortedList(settings.Keys)
  {
  }

  /** The line written for one parameter. */
  function ParamLine(key: string, v: Value): string {
    key + "=" + AsIniText(v)
  }

  function ParamLines(ini: Ini, keys: seq<string>): (r: seq<string>)
    requires forall i :: 0 <= i < |keys| ==> keys[i] in ini.params
    ensures |r| == |keys|
    ensures forall i :: 0 <= i < |keys| ==> r[i] == ParamLine(keys[i], ini.params[keys[i]])
    decreases |keys|
  {
    if |keys| == 0 then [] else [ParamLine(keys[0], ini.params[keys[0]])] + ParamLines(ini, keys[1..])
  }

  /** One directive line per path, `opening` being `INCLUDE(` or `DEFAULT(`. */
  function DirectiveLines(opening: string, paths: seq<string>): (r: seq<string>)
    ensures |r| == |paths|
    ensures forall i :: 0 <= i < |paths| ==> r[i] == opening + paths[i] + ")"
    decreases |paths|
  {
    if |paths| == 0 then [] else [opening + paths[0] + ")"] + DirectiveLines(opening, paths[1..])
  }

  /** `fileLines`: directives, then exactly one line per parameter. */
  function FileLines(ini: Ini): (r: seq<string>)
    ensures |r| == |ini.includes| + |ini.defaults| + |ini.params|
  {
    EmitOnce(ini.readOrder, ini.params.Keys);
    DirectiveLines("INCLUDE(", ini.includes) + DirectiveLines("DEFAULT(", ini.defaults) + ParamLines(ini, EmitOrder(ini))
  }

  /** Every parameter has exactly one line, and keys no longer in the table
      (deleted after being read) have none. */
  lemma FileLinesCoverParams(ini: Ini, key: string)
    ensures key in EmitOrder(ini) <==> key in ini.params
    ensures key in ini.params ==>
      exists i :: 0 <= i < |EmitOrder(ini)| && EmitOrder(ini)[i] == key
        && ParamLines(ini, EmitOrder(ini))[i] == ParamLine(key, ini.params[key])
        && forall j :: 0 <= j < |EmitOrder(ini)| && j != i ==> EmitOrder(ini)[j] != key
  {
    var e := EmitOrder(ini);
    EmitOnce(ini.readOrder, ini.params.Keys);
    if key in ini.params {
      var i := OnlyPosition(e, key);
      var lines := ParamLines(ini, e);
      assert lines[i] == ParamLine(key, ini.params[key]);
      assert 0 <= i < |e| && e[i] == key && lines[i] == ParamLine(key, ini.params[key])
        && forall j :: 0 <= j < |e| && j != i ==> e[j] != key;
    }
  }

  /** `str(ini)`: the lines joined by newlines. */
  function Render(ini: Ini): (r: string)
    ensures (forall i :: 0 <= i < |FileLines(ini)| ==> SingleLine(FileLines(ini)[i])) ==>
      TextLines(r) == Terminated(FileLines(ini))
  {
    JoinedLines(FileLines(ini));
    JoinLines(FileLines(ini))
  }

  /** `saveFile`: the name given, or else the name last read from; an
      absent or empty name in both places is an error. */
  function SaveTarget(ini: Ini, filename: Option<string>): (r: Result<string, IniError>)
    ensures r.Success? ==> |r.value| > 0
    ensures r.Success? ==> (filename.Some? && filename.value != "" ==> r.value == filename.value)
    ensures r.Success? && (filename.None? || filename.value == "") ==> ini.originalFilename == Some(r.value)
    ensures r.Failure? <==> (filename.None? || filename.value == "") && (ini.originalFilename.None? || ini.originalFilename.value == "")
    ensures r.Failure? ==> r.error == NoFilename
  {
    if filename.Some? && filename.value != "" then Success(filename.value)
    else if ini.originalFilename.Some? && ini.originalFilename.value != "" then Success(ini.originalFilename.value)
    else Failure(NoFilename)
  }

  /** What `saveFile` writes, and where. */
  function Save(ini: Ini, filename: Option<string>): (r: Result<(string, string), IniError>)
    ensures r.Success? <==> SaveTarget(ini, filename).Success?
    ensures r.Success? ==> r.value.1 == Render(ini)
  {
    var target :- SaveTarget(ini, filename);
    Success((target, Render(ini)))
  }
}
