/**
 * The text side of `hwp_template_fill.py`: `key:value` command-line arguments become a
 * dictionary, each key is tried as two placeholder spellings, the replacement counter
 * is kept, and JSON data is merged with command-line data before anything is filled.
 */
module TemplateFill {
  import opened Wrappers
  import opened Text

  // ---------------------------------------------------------------------------
  // Python dictionaries of strings
  // ---------------------------------------------------------------------------

  /** A `dict[str, str]`: its keys in insertion order, and what each key maps to. */
  datatype Dict = Dict(keys: seq<string>, values: map<string, string>)

  /** The keys are listed once each, and exactly the mapped keys are listed. */
  predicate Valid(d: Dict) {
    (forall i, j :: 0 <= i < j < |d.keys| ==> d.keys[i] != d.keys[j]) &&
    (forall k :: k in d.values ==> k in d.keys) &&
    (forall i :: 0 <= i < |d.keys| ==> d.keys[i] in d.values)
  }

  /** `{}` */
  function EmptyDict(): (d: Dict)
    ensures Valid(d) && d.keys == []
  {
    Dict([], map[])
  }

  /** `d[k] = v`: a new key goes to the end of the iteration order, an existing key keeps
      its place and gets the new value. */
  function Put(d: Dict, k: string, v: string): Dict {
    Dict(if k in d.values then d.keys else d.keys + [k], d.values[k := v])
  }

  /** Item assignment keeps a dictionary well formed, maps `k` to `v`, leaves every
      other key's value alone, and puts a new key last in iteration order. */
  lemma {:induction false} PutValid(d: Dict, k: string, v: string)
    requires Valid(d)
    ensures Valid(Put(d, k, v))
    ensures k in Put(d, k, v).values && Put(d, k, v).values[k] == v
    ensures forall k' :: k' != k ==> (k' in Put(d, k, v).values <==> k' in d.values)
    ensures forall k' :: k' != k && k' in d.values ==> Put(d, k, v).values[k'] == d.values[k']
    ensures k in d.values ==> Put(d, k, v).keys == d.keys
    ensures k !in d.values ==> Put(d, k, v).keys == d.keys + [k]
  {
  }

  // ---------------------------------------------------------------------------
  // parse_data_args
  // ---------------------------------------------------------------------------

  /** `key.strip()` for `key, value = arg.split(':', 1)` */
  function KeyOf(arg: string): string
    requires ':' in arg
  {
    Strip(SplitOnce(arg, ':')[0])
  }

  /** `value.strip()` for `key, value = arg.split(':', 1)` */
  function ValueOf(arg: string): string
    requires ':' in arg
  {
    Strip(SplitOnce(arg, ':')[1])
  }

  /** What one command-line argument contributes: a pair when it holds a colon; otherwise
      it is skipped with a warning. */
  datatype DataArg = Skipped | Pair(key: string, value: string)

  function ParseArg(arg: string): DataArg {
    if ':' in arg then Pair(KeyOf(arg), ValueOf(arg)) else Skipped
  }

  /** Each argument parsed on its own. */
  function ParsedArgs(args: seq<string>): (ps: seq<DataArg>)
    ensures |ps| == |args|
  {
    seq(|args|, i requires 0 <= i < |args| => ParseArg(args[i]))
  }

  /** The dictionary after writing the pairs of `ps` in order. */
  function PairsData(ps: seq<DataArg>): Dict {
    if ps == [] then EmptyDict()
    else
      var before := PairsData(ps[..|ps| - 1]);
      match ps[|ps| - 1]
      case Skipped => before
      case Pair(k, v) => Put(before, k, v)
  }

  /** The dictionary `parse_data_args` has built after reading `args`, in order. */
  function ArgsData(args: seq<string>): Dict {
    PairsData(ParsedArgs(args))
  }

  /** `parse_data_args`: one pass over the arguments, writing each `key:value` into the
      dictionary and skipping (with a warning) those without a colon. */
  method ParseDataArgs(args: seq<string>) returns (data: Dict)
    ensures data == ArgsData(args)
  {
    ghost var ps := ParsedArgs(args);
    data := EmptyDict();
    var i := 0;
    while i < |args|
      invariant 0 <= i <= |args|
      invariant data == PairsData(ps[..i])
    {
      var arg := args[i];
      assert ps[..i + 1][..i] == ps[..i];
      assert ps[i] == ParseArg(arg);
      if ':' in arg {
        var parts := SplitOnce(arg, ':');
        data := Put(data, Strip(parts[0]), Strip(parts[1]));
      }
      i := i + 1;
    }
    assert ps[..i] == ps;
  }

  /** The dictionary built from the arguments is well formed. */
  lemma {:induction false} ArgsDataValid(args: seq<string>)
    ensures Valid(ArgsData(args))
  {
    PairsDataValid(ParsedArgs(args));
  }

  lemma {:induction false} PairsDataValid(ps: seq<DataArg>)
    ensures Valid(PairsData(ps))
  {
    if ps != [] {
      var before := ps[..|ps| - 1];
      PairsDataValid(before);
      if ps[|ps| - 1].Pair? {
        PutValid(PairsData(before), ps[|ps| - 1].key, ps[|ps| - 1].value);
      }
    }
  }

  /** The key is what stands before the first colon, the value everything after it, both
      trimmed; so a value may itself hold colons (`time:12:30` maps `time` to `12:30`). */
  lemma {:induction false} KeyValueRoundTrip(k: string, v: string)
    requires ':' !in k
    ensures ':' in k + [':'] + v
    ensures KeyOf(k + [':'] + v) == Strip(k) && ValueOf(k + [':'] + v) == Strip(v)
  {
    assert (k + [':'] + v)[|k|] == ':';
    SplitOnceAfter(k, ':', v);
  }

  /** The keys of the dictionary are exactly the keys of the arguments that hold a colon. */
  lemma {:induction false} ArgsDataKeys(args: seq<string>, k: string)
    ensures k in ArgsData(args).values <==>
      exists i :: 0 <= i < |args| && ':' in args[i] && KeyOf(args[i]) == k
  {
    var ps := ParsedArgs(args);
    PairsDataKeys(ps, k);
    forall i | 0 <= i < |args|
      ensures (ps[i].Pair? && ps[i].key == k) <==> (':' in args[i] && KeyOf(args[i]) == k)
    {
    }
  }

  lemma {:induction false} PairsDataKeys(ps: seq<DataArg>, k: string)
    ensures k in PairsData(ps).values <==> exists i :: 0 <= i < |ps| && ps[i].Pair? && ps[i].key == k
  {
    if ps != [] {
      var n := |ps| - 1;
      var before := ps[..n];
      PairsDataKeys(before, k);
      if exists i :: 0 <= i < |ps| && ps[i].Pair? && ps[i].key == k {
        var i :| 0 <= i < |ps| && ps[i].Pair? && ps[i].key == k;
        if i < n {
          assert before[i] == ps[i];
        }
      }
      if exists i :: 0 <= i < n && before[i].Pair? && before[i].key == k {
        var i :| 0 <= i < n && before[i].Pair? && before[i].key == k;
        assert ps[i] == before[i];
      }
    }
  }

  /** Last write wins: an argument's value is the one kept for its key when no later
      colon-bearing argument has the same key. */
  lemma {:induction false} ArgsDataLastWins(args: seq<string>, i: nat)
    requires i < |args| && ':' in args[i]
    requires forall j :: i < j < |args| && ':' in args[j] ==> KeyOf(args[j]) != KeyOf(args[i])
    ensures KeyOf(args[i]) in ArgsData(args).values
    ensures ArgsData(args).values[KeyOf(args[i])] == ValueOf(args[i])
  {
    var ps := ParsedArgs(args);
    assert ps[i] == Pair(KeyOf(args[i]), ValueOf(args[i]));
    forall j | i < j < |ps| && ps[j].Pair?
      ensures ps[j].key != ps[i].key
    {
      assert ':' in args[j];
    }
    PairsDataLastWins(ps, i);
  }

  lemma {:induction false} PairsDataLastWins(ps: seq<DataArg>, i: nat)
    requires i < |ps| && ps[i].Pair?
    requires forall j :: i < j < |ps| && ps[j].Pair? ==> ps[j].key != ps[i].key
    ensures ps[i].key in PairsData(ps).values
    ensures PairsData(ps).values[ps[i].key] == ps[i].value
  {
    var n := |ps| - 1;
    var before := ps[..n];
    if i < n {
      assert before[i] == ps[i];
      forall j | i < j < n && before[j].Pair?
        ensures before[j].key != before[i].key
      {
        assert before[j] == ps[j];
      }
      PairsDataLastWins(before, i);
    }
  }

  /** An argument without a colon contributes nothing, wherever it stands. */
  lemma {:induction false} ArgsDataSkipsPlain(xs: seq<string>, a: string, ys: seq<string>)
    requires ':' !in a
    ensures ArgsData(xs + [a] + ys) == ArgsData(xs + ys)
  {
    ParsedArgsConcat(xs + [a], ys);
    ParsedArgsConcat(xs, [a]);
    ParsedArgsConcat(xs, ys);
    assert ParsedArgs([a]) == [Skipped];
    PairsSkip(ParsedArgs(xs), ParsedArgs(ys));
  }

  /** Arguments are parsed one at a time. */
  lemma {:induction false} ParsedArgsConcat(xs: seq<string>, ys: seq<string>)
    ensures ParsedArgs(xs + ys) == ParsedArgs(xs) + ParsedArgs(ys)
  {
    var ps := ParsedArgs(xs + ys);
    var qs := ParsedArgs(xs) + ParsedArgs(ys);
    forall j | 0 <= j < |ps| ensures ps[j] == qs[j] {
      if j < |xs| {
        ParsedArgsLeft(xs, ys, j);
      } else {
        ParsedArgsRight(xs, ys, j - |xs|);
      }
    }
  }

  lemma {:induction false} ParsedArgsLeft(xs: seq<string>, ys: seq<string>, j: nat)
    requires j < |xs|
    ensures ParsedArgs(xs + ys)[j] == ParsedArgs(xs)[j]
  {
    ParseSame((xs + ys)[j], xs[j]);
  }

  lemma {:induction false} ParsedArgsRight(xs: seq<string>, ys: seq<string>, j: nat)
    requires j < |ys|
    ensures ParsedArgs(xs + ys)[|xs| + j] == ParsedArgs(ys)[j]
  {
    ParseSame((xs + ys)[|xs| + j], ys[j]);
  }

  lemma {:induction false} ParseSame(x: string, y: string)
    requires x == y
    ensures ParseArg(x) == ParseArg(y)
  {
  }

  lemma {:induction false} PairsSkip(ps: seq<DataArg>, qs: seq<DataArg>)
    ensures PairsData(ps + [Skipped] + qs) == PairsData(ps + qs)
  {
    if qs == [] {
      assert ps + [Skipped] + qs == ps + [Skipped];
      assert (ps + [Skipped])[..|ps|] == ps;
      assert ps + qs == ps;
    } else {
      var init := qs[..|qs| - 1];
      assert (ps + [Skipped] + qs)[..|ps + [Skipped] + qs| - 1] == ps + [Skipped] + init;
      assert (ps + qs)[..|ps + qs| - 1] == ps + init;
      PairsSkip(ps, init);
    }
  }

  // ---------------------------------------------------------------------------
  // fill_template: placeholder patterns and the replacement counter
  // ---------------------------------------------------------------------------

  /** `{{key}}` */
  function PlainPattern(k: string): string {
    "{{" + k + "}}"
  }

  /** `{{ key }}` */
  function SpacedPattern(k: string): string {
    "{{ " + k + " }}"
  }

  /** The two spellings tried for each key, in the order they are tried. */
  function Patterns(k: string): (ps: seq<string>)
    ensures |ps| == 2 && ps[0] != ps[1]
    ensures forall i :: 0 <= i < 2 ==> |ps[i]| >= 4 && ps[i][..2] == "{{"
  {
    assert |PlainPattern(k)| < |SpacedPattern(k)|;
    [PlainPattern(k), SpacedPattern(k)]
  }

  /** Each spelling determines its key. */
  lemma {:induction false} PatternsDetermineKey(k1: string, k2: string)
    ensures PlainPattern(k1) == PlainPattern(k2) ==> k1 == k2
    ensures SpacedPattern(k1) == SpacedPattern(k2) ==> k1 == k2
  {
    if PlainPattern(k1) == PlainPattern(k2) {
      assert k1 == PlainPattern(k1)[2..|PlainPattern(k1)| - 2];
    }
    if SpacedPattern(k1) == SpacedPattern(k2) {
      assert k1 == SpacedPattern(k1)[3..|SpacedPattern(k1)| - 3];
    }
  }

  /** The plain spelling of one key is the spaced spelling of another only when the first
      key is the second with one space on each side; trimmed keys never collide so. */
  lemma {:induction false} PlainIsSpacedIff(k1: string, k2: string)
    ensures PlainPattern(k1) == SpacedPattern(k2) <==> k1 == " " + k2 + " "
    ensures IsTrimmed(k1) ==> PlainPattern(k1) != SpacedPattern(k2)
  {
    if PlainPattern(k1) == SpacedPattern(k2) {
      assert k1 == PlainPattern(k1)[2..|PlainPattern(k1)| - 2];
      assert k1 == SpacedPattern(k2)[2..|SpacedPattern(k2)| - 2];
      assert SpacedPattern(k2)[2..|SpacedPattern(k2)| - 2] == " " + k2 + " ";
    }
    if k1 == " " + k2 + " " {
      assert "{{" + " " == "{{ " && " " + "}}" == " }}";
      assert PlainPattern(k1) == ("{{" + " ") + k2 + (" " + "}}");
    }
  }

  /** One `app.replace_all(pattern, str(value))` call. */
  datatype Replacement = Replacement(pattern: string, text: string)

  /** The text each listed key maps to. */
  predicate KeysMapped(keys: seq<string>, values: map<string, string>) {
    forall k :: k in keys ==> k in values
  }

  /** The `replace_all` calls made for the keys `keys`, in order. */
  function Replacements(keys: seq<string>, values: map<string, string>): (r: seq<Replacement>)
    requires KeysMapped(keys, values)
    ensures |r| == 2 * |keys|
  {
    if keys == [] then []
    else
      var n := |keys| - 1;
      Replacements(keys[..n], values) + ReplacementsFor(Patterns(keys[n]), values[keys[n]])
  }

  /** The calls trying each of `patterns`, in order, with the text `text`. */
  function ReplacementsFor(patterns: seq<string>, text: string): (r: seq<Replacement>)
    ensures |r| == |patterns|
    ensures forall j :: 0 <= j < |r| ==> r[j] == Replacement(patterns[j], text)
  {
    if patterns == [] then []
    else
      var n := |patterns| - 1;
      ReplacementsFor(patterns[..n], text) + [Replacement(patterns[n], text)]
  }

  /** The calls for one more key. */
  lemma {:induction false} ReplacementsStep(keys: seq<string>, values: map<string, string>, i: nat)
    requires KeysMapped(keys, values) && i < |keys|
    ensures KeysMapped(keys[..i], values) && KeysMapped(keys[..i + 1], values)
    ensures Replacements(keys[..i + 1], values) ==
      Replacements(keys[..i], values) + ReplacementsFor(Patterns(keys[i]), values[keys[i]])
  {
    assert keys[..i + 1][..i] == keys[..i];
  }

  /** Call `2 * i` tries the plain spelling of the `i`-th key and call `2 * i + 1` the spaced
      one, both with that key's value: keys in the dictionary's order, two calls each. */
  lemma {:induction false} ReplacementsOrder(keys: seq<string>, values: map<string, string>, i: nat)
    requires KeysMapped(keys, values) && i < |keys|
    ensures Replacements(keys, values)[2 * i] == Replacement(PlainPattern(keys[i]), values[keys[i]])
    ensures Replacements(keys, values)[2 * i + 1] == Replacement(SpacedPattern(keys[i]), values[keys[i]])
  {
    var n := |keys| - 1;
    assert KeysMapped(keys[..n], values);
    if i < n {
      assert keys[..n][i] == keys[i];
      ReplacementsOrder(keys[..n], values, i);
    }
  }

  /** How many of the first `n` calls raised, when call number `j` (from 0) raises exactly
      when `raises(j)`. */
  function Raised(raises: nat -> bool, n: nat): (c: nat)
    ensures c <= n
  {
    if n == 0 then 0 else Raised(raises, n - 1) + (if raises(n - 1) then 1 else 0)
  }

  /** No call raised exactly when the count of raised calls is zero. */
  lemma {:induction false} RaisedNone(raises: nat -> bool, n: nat)
    ensures Raised(raises, n) == 0 <==> forall j :: 0 <= j < n ==> !raises(j)
  {
    if n > 0 {
      RaisedNone(raises, n - 1);
    }
  }

  /** The result of `fill_template` as far as the scripts decide it. */
  datatype FillOutcome = FillOutcome(success: bool, calls: seq<Replacement>, replacedCount: nat)

  /**
   * `fill_template`: if the template exists, try both spellings of every key in the
   * dictionary's order and count each call that did not raise. Whether call number `j`
   * raises is `raises(j)`: what the host application does with the document is not
   * visible from the scripts.
   */
  method FillTemplate(templateExists: bool, data: Dict, raises: nat -> bool)
    returns (out: FillOutcome)
    requires KeysMapped(data.keys, data.values)
    ensures !templateExists ==> out == FillOutcome(false, [], 0)
    ensures templateExists ==> out.success
    ensures templateExists ==> out.calls == Replacements(data.keys, data.values)
    ensures templateExists ==>
      out.replacedCount == 2 * |data.keys| - Raised(raises, 2 * |data.keys|)
  {
    if !templateExists {
      return FillOutcome(false, [], 0);
    }
    var calls: seq<Replacement> := [];
    var replacedCount: nat := 0;
    var i := 0;
    while i < |data.keys|
      invariant 0 <= i <= |data.keys|
      invariant KeysMapped(data.keys[..i], data.values)
      invariant calls == Replacements(data.keys[..i], data.values)
      invariant replacedCount == |calls| - Raised(raises, |calls|)
    {
      var key := data.keys[i];
      calls, replacedCount := TryPatterns(Patterns(key), data.values[key], raises, calls, replacedCount);
      ReplacementsStep(data.keys, data.values, i);
      i := i + 1;
    }
    assert data.keys[..i] == data.keys;
    return FillOutcome(true, calls, replacedCount);
  }

  /** The inner loop of `fill_template`: each pattern in turn, counting the calls that did
      not raise. */
  method TryPatterns(patterns: seq<string>, value: string, raises: nat -> bool,
                     calls0: seq<Replacement>, count0: nat)
    returns (calls: seq<Replacement>, count: nat)
    requires count0 == |calls0| - Raised(raises, |calls0|)
    ensures calls == calls0 + ReplacementsFor(patterns, value)
    ensures count == |calls| - Raised(raises, |calls|)
  {
    calls, count := calls0, count0;
    var p := 0;
    while p < |patterns|
      invariant 0 <= p <= |patterns|
      invariant calls == calls0 + ReplacementsFor(patterns[..p], value)
      invariant count == |calls| - Raised(raises, |calls|)
    {
      if !raises(|calls|) {
        count := count + 1;
      }
      assert patterns[..p + 1][..p] == patterns[..p];
      calls := calls + [Replacement(patterns[p], value)];
      p := p + 1;
    }
    assert patterns[..p] == patterns;
  }

  /** The counter never exceeds the number of calls, and reaches it exactly when no call raised. */
  lemma {:induction false} ReplacedCountBounds(data: Dict, raises: nat -> bool, out: FillOutcome)
    requires out.replacedCount == 2 * |data.keys| - Raised(raises, 2 * |data.keys|)
    ensures out.replacedCount <= 2 * |data.keys|
    ensures out.replacedCount == 2 * |data.keys| <==>
      forall j :: 0 <= j < 2 * |data.keys| ==> !raises(j)
  {
    RaisedNone(raises, 2 * |data.keys|);
  }

  // ---------------------------------------------------------------------------
  // main: loading and merging the data
  // ---------------------------------------------------------------------------

  /** The dictionary after `d[k] = m[k]` for each `k` of `ks` in turn. */
  function PutAll(d: Dict, ks: seq<string>, m: map<string, string>): Dict
    requires KeysMapped(ks, m)
  {
    if ks == [] then d
    else
      var n := |ks| - 1;
      assert KeysMapped(ks[..n], m);
      Put(PutAll(d, ks[..n], m), ks[n], m[ks[n]])
  }

  /** `d.update(other)`: every pair of `other`, in `other`'s order, written into `d`. */
  method Update(d: Dict, other: Dict) returns (r: Dict)
    requires Valid(d) && Valid(other)
    ensures r == PutAll(d, other.keys, other.values)
  {
    r := d;
    var i := 0;
    while i < |other.keys|
      invariant 0 <= i <= |other.keys|
      invariant KeysMapped(other.keys[..i], other.values)
      invariant r == PutAll(d, other.keys[..i], other.values)
    {
      var k := other.keys[i];
      assert other.keys[..i + 1][..i] == other.keys[..i];
      r := Put(r, k, other.values[k]);
      i := i + 1;
    }
    assert other.keys[..i] == other.keys;
  }

  /** Writing pairs keeps a dictionary well formed. */
  lemma {:induction false} PutAllValid(d: Dict, ks: seq<string>, m: map<string, string>)
    requires Valid(d) && KeysMapped(ks, m)
    ensures Valid(PutAll(d, ks, m))
  {
    if ks != [] {
      var n := |ks| - 1;
      assert KeysMapped(ks[..n], m);
      PutAllValid(d, ks[..n], m);
      PutValid(PutAll(d, ks[..n], m), ks[n], m[ks[n]]);
    }
  }

  /** Writing the pairs of `ks` leaves every key of `d` and of `ks` mapped, `ks`'s keys to
      their new values and the others to their old ones. */
  lemma {:induction false} PutAllValues(d: Dict, ks: seq<string>, m: map<string, string>)
    requires KeysMapped(ks, m)
    ensures forall k :: k in PutAll(d, ks, m).values <==> k in d.values || k in ks
    ensures forall k :: k in ks ==> PutAll(d, ks, m).values[k] == m[k]
    ensures forall k :: k in d.values && k !in ks ==> PutAll(d, ks, m).values[k] == d.values[k]
  {
    if ks != [] {
      var n := |ks| - 1;
      assert KeysMapped(ks[..n], m);
      PutAllValues(d, ks[..n], m);
      assert ks == ks[..n] + [ks[n]];
      forall k ensures k in ks <==> k in ks[..n] || k == ks[n] {
        if k in ks {
          var j :| 0 <= j < |ks| && ks[j] == k;
          if j < n {
            assert ks[..n][j] == k;
          }
        }
      }
    }
  }

  /** Keys that are new to `d` go to the end, in the order `ks` lists them. */
  lemma {:induction false} PutAllKeys(d: Dict, ks: seq<string>, m: map<string, string>)
    requires KeysMapped(ks, m)
    requires forall i, j :: 0 <= i < j < |ks| ==> ks[i] != ks[j]
    ensures PutAll(d, ks, m).keys == d.keys + NewKeys(ks, d.values)
  {
    if ks != [] {
      var n := |ks| - 1;
      var init := ks[..n];
      var k := ks[n];
      assert KeysMapped(init, m);
      assert k !in init;
      var before := PutAll(d, init, m);
      PutAllKeys(d, init, m);
      assert before.keys == d.keys + NewKeys(init, d.values);
      PutAllValues(d, init, m);
      assert k in before.values <==> k in d.values;
      assert PutAll(d, ks, m) == Put(before, k, m[k]);
      assert NewKeys(ks, d.values) == NewKeys(init, d.values) + (if k in d.values then [] else [k]);
    }
  }

  /** The merged dictionary: `old` updated with `new`. */
  lemma {:induction false} UpdateValues(d: Dict, other: Dict)
    requires Valid(d) && Valid(other)
    ensures PutAll(d, other.keys, other.values).values == d.values + other.values
    ensures PutAll(d, other.keys, other.values).keys == d.keys + NewKeys(other.keys, d.values)
    ensures Valid(PutAll(d, other.keys, other.values))
  {
    assert KeysMapped(other.keys, other.values);
    PutAllValid(d, other.keys, other.values);
    UpdateMap(d, other);
    PutAllKeys(d, other.keys, other.values);
  }

  /** The values of the merged dictionary, as one map. */
  lemma {:induction false} UpdateMap(d: Dict, other: Dict)
    requires Valid(other)
    ensures KeysMapped(other.keys, other.values)
    ensures PutAll(d, other.keys, other.values).values == d.values + other.values
  {
    assert KeysMapped(other.keys, other.values);
    PutAllValues(d, other.keys, other.values);
    var r := PutAll(d, other.keys, other.values).values;
    forall k ensures k in r <==> k in d.values + other.values {
      assert k in other.keys <==> k in other.values;
    }
    forall k | k in r ensures r[k] == (d.values + other.values)[k] {
      assert k in other.keys <==> k in other.values;
    }
  }

  /** The keys of `ks` that `m` does not map yet, in order. */
  function NewKeys(ks: seq<string>, m: map<string, string>): (r: seq<string>)
    ensures forall k :: k in r <==> k in ks && k !in m
  {
    if ks == [] then []
    else
      var n := |ks| - 1;
      var r := NewKeys(ks[..n], m) + (if ks[n] in m then [] else [ks[n]]);
      assert forall k :: k in ks <==> k in ks[..n] || k == ks[n] by {
        assert ks == ks[..n] + [ks[n]];
      }
      r
  }

  /** What `--json` named: nothing, a path that does not exist, or the loaded object. */
  datatype JsonArg = NoJsonArg | JsonMissing | JsonLoaded(data: Dict)

  datatype LoadError = JsonNotFound | NoDataProvided

  /** The dictionary the command-line pairs are merged into: the JSON object, if loaded. */
  function BaseData(json: JsonArg): Dict {
    if json.JsonLoaded? then json.data else EmptyDict()
  }

  /** The merged data as `dict.update` leaves it: the base keys in their order, then the
      command-line keys the base lacks, with every command-line value winning. */
  function Merged(json: JsonArg, dataArgs: seq<string>): Dict {
    var base := BaseData(json);
    var cli := ArgsData(dataArgs);
    Dict(base.keys + NewKeys(cli.keys, base.values), base.values + cli.values)
  }

  /**
   * The data-loading part of `main`: the JSON object if one was named, then the
   * command-line pairs on top of it; a missing JSON file or an empty result ends the
   * program with an error before the template is touched.
   */
  method LoadData(json: JsonArg, dataArgs: seq<string>) returns (r: Result<Dict, LoadError>)
    requires json.JsonLoaded? ==> Valid(json.data)
    ensures json == JsonMissing <==> r == Err(JsonNotFound)
    ensures r == Err(NoDataProvided) <==>
      json != JsonMissing && (json.JsonLoaded? ==> json.data.keys == []) &&
      ArgsData(dataArgs).keys == []
    ensures r.Ok? ==> Valid(r.value) && r.value.keys != []
    ensures r.Ok? ==>
      r.value.keys == BaseData(json).keys + NewKeys(ArgsData(dataArgs).keys, BaseData(json).values)
    ensures r.Ok? ==> forall k :: k in r.value.values <==>
      k in BaseData(json).values || k in ArgsData(dataArgs).values
    ensures r.Ok? ==> forall k :: k in ArgsData(dataArgs).values ==>
      r.value.values[k] == ArgsData(dataArgs).values[k]
    ensures r.Ok? ==> forall k :: k in BaseData(json).values && k !in ArgsData(dataArgs).values ==>
      r.value.values[k] == BaseData(json).values[k]
    ensures r.Ok? ==> r.value == Merged(json, dataArgs)
  {
    var data := EmptyDict();
    if json == JsonMissing {
      return Err(JsonNotFound);
    }
    if json.JsonLoaded? {
      data := json.data;
    }
    if dataArgs != [] {
      var cli := ParseDataArgs(dataArgs);
      ArgsDataValid(dataArgs);
      UpdateValues(data, cli);
      data := Update(data, cli);
    } else {
      assert ArgsData(dataArgs) == EmptyDict();
      assert data.keys + NewKeys([], data.values) == data.keys;
      assert data.values + map[] == data.values;
    }
    if data.keys == [] {
      return Err(NoDataProvided);
    }
    return Ok(data);
  }

  /**
   * `main`: load and merge the data, then fill the template; the exit status is 1 when
   * the data could not be loaded (no `replace_all` call is made then) and otherwise says
   * whether `fill_template` succeeded.
   */
  method RunTemplateFill(json: JsonArg, dataArgs: seq<string>, templateExists: bool,
                         raises: nat -> bool)
    returns (exitCode: int, calls: seq<Replacement>)
    requires json.JsonLoaded? ==> Valid(json.data)
    ensures json == JsonMissing ==> exitCode == 1 && calls == []
    ensures exitCode == 0 <==>
      json != JsonMissing && templateExists &&
      ((json.JsonLoaded? && json.data.keys != []) || ArgsData(dataArgs).keys != [])
    ensures calls != [] ==> exitCode == 0
    ensures exitCode == 0 ==>
      KeysMapped(Merged(json, dataArgs).keys, Merged(json, dataArgs).values) &&
      calls == Replacements(Merged(json, dataArgs).keys, Merged(json, dataArgs).values)
  {
    var loaded := LoadData(json, dataArgs);
    if loaded.Err? {
      assert loaded.error.JsonNotFound? || loaded.error.NoDataProvided?;
      assert loaded == Err(loaded.error);
      return 1, [];
    }
    assert KeysMapped(loaded.value.keys, loaded.value.values);
    var out := FillTemplate(templateExists, loaded.value, raises);
    exitCode := if out.success then 0 else 1;
    calls := out.calls;
  }
}
