/** Route patterns of `utils/params.go`: the ordered collection of values
    captured from a path (`PathValues`) and the matcher `ParamsMatch`, which
    reads a pattern such as `/users/:id/edit` against a request path. The
    regular-expression constraint a pattern may put on a parameter is a
    caller-supplied predicate. */
module Params {
  import opened Wrappers
  import opened Text

  // ---------------------------------------------------------------------
  // PathValues

  datatype PathValue = PathValue(index: nat, value: string)

  /** `keys` lists each key once in order of first use; `values` holds every
      value in order of addition; `byKey` the values of each key. */
  datatype PathValues = PathValues(
    keys: seq<string>,
    values: seq<PathValue>,
    byKey: map<string, seq<PathValue>>,
    size: nat)

  const Empty := PathValues([], [], map[], 0)

  ghost predicate Valid(p: PathValues) {
    p.size == |p.values| &&
    (forall i :: 0 <= i < |p.values| ==> p.values[i].index == i) &&
    (forall a, b :: 0 <= a < b < |p.keys| ==> p.keys[a] != p.keys[b]) &&
    (forall k :: k in p.byKey <==> k in p.keys) &&
    (forall k :: k in p.byKey ==> |p.byKey[k]| > 0)
  }

  /** `PathValues.Add`. */
  function Add(p: PathValues, key: string, value: string): (r: PathValues)
    requires Valid(p)
    ensures Valid(r)
    ensures r.values == p.values + [PathValue(|p.values|, value)]
    ensures r.size == p.size + 1
    ensures r.keys == if key in p.byKey then p.keys else p.keys + [key]
    ensures key in r.byKey && r.byKey[key] == (if key in p.byKey then p.byKey[key] else []) + [PathValue(|p.values|, value)]
    ensures forall k :: k != key ==> (k in r.byKey <==> k in p.byKey) && (k in p.byKey ==> r.byKey[k] == p.byKey[k])
  {
    var v := PathValue(|p.values|, value);
    if key in p.byKey then
      PathValues(p.keys, p.values + [v], p.byKey[key := p.byKey[key] + [v]], p.size + 1)
    else
      PathValues(p.keys + [key], p.values + [v], p.byKey[key := [v]], p.size + 1)
  }

  /** `PathValues.Get`: the most recent value added under `key`. */
  function Get(p: PathValues, key: string): (r: Option<PathValue>)
    requires Valid(p)
    ensures r.Some? <==> key in p.byKey
    ensures r.Some? ==> r.value == p.byKey[key][|p.byKey[key]| - 1]
  {
    if key in p.byKey then Some(p.byKey[key][|p.byKey[key]| - 1]) else None
  }

  /** `PathValues.GetString`. */
  function GetString(p: PathValues, key: string): (r: (string, bool))
    requires Valid(p)
    ensures r.1 <==> key in p.byKey
    ensures !r.1 ==> r.0 == ""
  {
    match Get(p, key)
    case Some(v) => (v.value, true)
    case None => ("", false)
  }

  /** The strings of a list of values, in order. */
  function Strings(vs: seq<PathValue>): (r: seq<string>)
    ensures |r| == |vs|
    ensures forall i :: 0 <= i < |vs| ==> r[i] == vs[i].value
  {
    if |vs| == 0 then [] else [vs[0].value] + Strings(vs[1..])
  }

  /** `PathValues.Dict`. */
  function Dict(p: PathValues): (r: map<string, seq<string>>)
    ensures r.Keys == p.byKey.Keys
    ensures forall k :: k in r ==> r[k] == Strings(p.byKey[k])
  {
    map k | k in p.byKey :: Strings(p.byKey[k])
  }

  /** The latest value added under a key is what `Get` returns, and other
      keys are untouched. */
  lemma GetAfterAdd(p: PathValues, key: string, value: string, other: string)
    requires Valid(p) && other != key
    ensures Get(Add(p, key, value), key) == Some(PathValue(|p.values|, value))
    ensures Get(Add(p, key, value), other) == Get(p, other)
  {
  }

  /** The collection after adding the `(key, value)` pairs in order. */
  function Replay(adds: seq<(string, string)>): (r: PathValues)
    ensures Valid(r)
  {
    if |adds| == 0 then Empty
    else
      var n := |adds| - 1;
      Add(Replay(adds[..n]), adds[n].0, adds[n].1)
  }

  /** The values added under `k`, in order. */
  function ValuesOf(adds: seq<(string, string)>, k: string): seq<string> {
    if |adds| == 0 then []
    else
      var n := |adds| - 1;
      ValuesOf(adds[..n], k) + (if adds[n].0 == k then [adds[n].1] else [])
  }

  /** One addition extends the strings of its own key and no other. */
  lemma DictAddStep(p: PathValues, key: string, value: string, k: string, vs: seq<string>)
    requires Valid(p)
    requires k in Dict(p) <==> vs != []
    requires k in Dict(p) ==> Dict(p)[k] == vs
    ensures var ws := vs + (if key == k then [value] else []);
      (k in Dict(Add(p, key, value)) <==> ws != []) &&
      (k in Dict(Add(p, key, value)) ==> Dict(Add(p, key, value))[k] == ws)
  {
    var q := Add(p, key, value);
    if key == k {
      var e := if k in p.byKey then p.byKey[k] else [];
      assert Strings(e) == vs;
      assert Strings(e + [PathValue(|p.values|, value)]) == Strings(e) + [value];
    }
  }

  /** `Dict` maps each key that was used to its values in the order they
      were added. */
  lemma {:induction false} DictReplay(adds: seq<(string, string)>, k: string)
    ensures k in Dict(Replay(adds)) <==> ValuesOf(adds, k) != []
    ensures k in Dict(Replay(adds)) ==> Dict(Replay(adds))[k] == ValuesOf(adds, k)
  {
    if |adds| > 0 {
      var n := |adds| - 1;
      DictReplay(adds[..n], k);
      DictAddStep(Replay(adds[..n]), adds[n].0, adds[n].1, k, ValuesOf(adds[..n], k));
    }
  }

  /** Every value records its position, and the count is the number of
      additions. */
  lemma ReplayPositions(adds: seq<(string, string)>)
    ensures Replay(adds).size == |adds| == |Replay(adds).values|
    ensures forall i :: 0 <= i < |adds| ==> Replay(adds).values[i] == PathValue(i, adds[i].1)
  {
    if |adds| > 0 {
      var n := |adds| - 1;
      ReplayPositions(adds[..n]);
    }
  }

  // ---------------------------------------------------------------------
  // ParamsMatch

  /** `path.Ext`: the suffix from the last `'.'` of the final path element,
      or `""`; the scan has passed `path[i..]`, which holds neither. */
  function ExtFrom(path: string, i: nat): (r: string)
    requires i <= |path|
    requires forall k :: i <= k < |path| ==> path[k] != '/' && path[k] != '.'
    ensures r == "" || (|r| <= |path| && r == path[|path| - |r|..] && r[0] == '.')
    ensures forall k :: 0 <= k < |r| ==> r[k] != '/' && (k > 0 ==> r[k] != '.')
  {
    if i == 0 || path[i - 1] == '/' then ""
    else if path[i - 1] == '.' then path[i - 1..]
    else ExtFrom(path, i - 1)
  }

  function Ext(path: string): (r: string)
    ensures r == "" || (|r| <= |path| && r == path[|path| - |r|..] && r[0] == '.')
    ensures forall k :: 0 <= k < |r| ==> r[k] != '/' && (k > 0 ==> r[k] != '.')
  {
    ExtFrom(path, |path|)
  }

  /** The name characters of a `:name` parameter. */
  predicate IsAlnum(c: char) {
    IsLower(c) || IsUpper(c) || c == '_' || c == '-' || c == '!' || IsDigit(c)
  }

  /** The end of the longest run of characters from `i` that satisfy `f`
      (the helper `match` of the source). */
  function Run(s: string, f: char -> bool, i: nat): (j: nat)
    requires i <= |s|
    ensures i <= j <= |s|
    ensures forall k :: i <= k < j ==> f(s[k])
    ensures j == |s| || !f(s[j])
    decreases |s| - i
  {
    if i < |s| && f(s[i]) then Run(s, f, i + 1) else i
  }

  /** The byte after a run, or 0 at the end of the text. */
  function NextByte(s: string, j: nat): char {
    if j < |s| then s[j] else 0 as char
  }

  /** The value of a parameter runs to the pattern's next character or to
      the next `'/'`. */
  function PartOf(next: char): char -> bool {
    c => c != next && c != '/'
  }

  /** What `ParamsMatch` returns: the captured values (nil in some failure
      cases), the matched part of the path, and whether it matched. */
  datatype MatchResult = MatchResult(values: Option<PathValues>, matched: string, ok: bool)

  const NoMatch := MatchResult(None, "", false)

  /** Length of a `[regexp]` constraint right after a parameter name at
      `j`, or 0 when there is none. */
  function ConstraintLength(source: string, j: nat): (index: nat)
    requires j < |source| && source[j] == '['
    ensures j + index + 1 <= |source|
  {
    var idx := Index(source[j..], "]/");
    if idx > 0 then
      assert OccursAt(source[j..], "]/", idx);
      idx
    else if source[|source| - 1] == ']' then |source| - j - 1
    else 0
  }

  /** The matching loop from path position `i` and pattern position `j`;
      `constraint(pattern, value)` stands for compiling `^pattern$` and
      matching the value against it. */
  function MatchLoop(source: string, pth: string, i: nat, j: nat, p: PathValues,
                     constraint: (string, string) -> bool): (r: MatchResult)
    requires i <= |pth| && j <= |source| && Valid(p)
    ensures r.values.Some? ==> Valid(r.values.value) && p.values <= r.values.value.values
    ensures r.values.Some? ==> p.keys <= r.values.value.keys
    ensures r.ok ==> r.values.Some?
    ensures r.values.None? ==> r == NoMatch
    decreases |pth| - i + |source| - j
  {
    if i >= |pth| then
      if j != |source| then
        if |source| == j + 1 && source[j] == '/' then MatchResult(Some(p), pth, true)
        else NoMatch
      else MatchResult(Some(p), pth, true)
    else if j >= |source| then
      if source != "/" && |source| > 0 && source[|source| - 1] == '/' then MatchResult(Some(p), pth[..i], true)
      else if source == "" && pth == "/" then MatchResult(Some(p), pth, true)
      else MatchResult(Some(p), pth[..i], false)
    else if source[j] == ':' then
      var j2 := Run(source, IsAlnum, j + 1);
      var name := source[j + 1..j2];
      var i2 := Run(pth, PartOf(NextByte(source, j2)), i);
      var val := pth[i..i2];
      var q := Add(p, ":" + name, val);
      if j2 < |source| && source[j2] == '[' then
        var index := ConstraintLength(source, j2);
        if index > 0 then
          var pattern := TrimSuffix(TrimPrefix(source[j2..j2 + index + 1], "["), "]");
          if constraint(pattern, val) then MatchLoop(source, pth, i2, j2 + index + 1, q, constraint)
          else NoMatch
        else MatchLoop(source, pth, i2, j2, q, constraint)
      else MatchLoop(source, pth, i2, j2, q, constraint)
    else if pth[i] == source[j] then MatchLoop(source, pth, i + 1, j + 1, p, constraint)
    else NoMatch
  }

  /** `ParamsMatch`: a path extension is cut off first and recorded, without
      its dot, as the value `":format"`. */
  function ParamsMatch(source: string, pth: string, constraint: (string, string) -> bool): (r: MatchResult)
    ensures r.values.Some? ==> Valid(r.values.value)
    ensures r.values.Some? && Ext(pth) != "" ==>
      |r.values.value.values| > 0 && r.values.value.values[0] == PathValue(0, Ext(pth)[1..]) &&
      |r.values.value.keys| > 0 && r.values.value.keys[0] == ":format"
    ensures r.ok ==> r.values.Some?
    ensures r.values.None? ==> r == NoMatch
  {
    MatchLoop(source, TrimSuffix(pth, Ext(pth)), 0, 0, FormatValue(Ext(pth)), constraint)
  }

  /** The values a match starts from: the extension `ext`, without its
      dot, as `":format"`, or nothing when there is none. */
  function FormatValue(ext: string): (p: PathValues)
    requires ext == "" || ext[0] == '.'
    ensures Valid(p)
    ensures ext != "" ==> p.values == [PathValue(0, ext[1..])] && p.keys == [":format"]
  {
    if ext != "" then
      assert TrimPrefix(ext, ".") == ext[1..];
      Add(Empty, ":format", TrimPrefix(ext, "."))
    else Empty
  }

  /** A stretch of pattern without parameters must equal the path. */
  lemma {:induction false} LiteralRun(source: string, pth: string, i: nat, j: nat, n: nat, p: PathValues,
                                      constraint: (string, string) -> bool)
    requires i + n <= |pth| && j + n <= |source| && Valid(p)
    requires forall k :: j <= k < j + n ==> source[k] != ':' && source[k] == pth[k - j + i]
    ensures MatchLoop(source, pth, i, j, p, constraint) == MatchLoop(source, pth, i + n, j + n, p, constraint)
    decreases n
  {
    if n > 0 {
      assert source[j] != ':' && source[j] == pth[i];
      assert MatchLoop(source, pth, i, j, p, constraint) == MatchLoop(source, pth, i + 1, j + 1, p, constraint);
      LiteralRun(source, pth, i + 1, j + 1, n - 1, p, constraint);
    }
  }

  /** Without an extension the loop starts from the empty collection. */
  lemma NoExtension(source: string, pth: string, constraint: (string, string) -> bool)
    requires '.' !in pth
    ensures ParamsMatch(source, pth, constraint) == MatchLoop(source, pth, 0, 0, Empty, constraint)
  {
    assert TrimSuffix(pth, "") == pth;
  }

  /** A pattern without parameters matches exactly the path it spells. */
  lemma LiteralMatch(s: string, constraint: (string, string) -> bool)
    requires ':' !in s && '.' !in s && s != ""
    ensures ParamsMatch(s, s, constraint) == MatchResult(Some(Empty), s, true)
  {
    NoExtension(s, s, constraint);
    LiteralRun(s, s, 0, 0, |s|, Empty, constraint);
  }

  /** The first literal character that differs from the path fails the
      match with no values. */
  lemma LiteralMismatch(s: string, t: string, k: nat, constraint: (string, string) -> bool)
    requires ':' !in s && '.' !in t
    requires k < |s| && k < |t| && s[..k] == t[..k] && s[k] != t[k]
    ensures ParamsMatch(s, t, constraint) == NoMatch
  {
    NoExtension(s, t, constraint);
    assert forall m :: 0 <= m < k ==> s[m] == s[..k][m] && t[m] == t[..k][m];
    LiteralRun(s, t, 0, 0, k, Empty, constraint);
  }

  /** A pattern ending in `'/'` (other than `"/"`) matches any longer path
      it is a prefix of, and reports the prefix as the matched part. */
  lemma PrefixPattern(s: string, rest: string, constraint: (string, string) -> bool)
    requires ':' !in s && s != "/" && |s| > 0 && s[|s| - 1] == '/'
    requires |rest| > 0 && '.' !in s + rest
    ensures ParamsMatch(s, s + rest, constraint) == MatchResult(Some(Empty), s, true)
  {
    var t := s + rest;
    NoExtension(s, t, constraint);
    assert forall m :: 0 <= m < |s| ==> t[m] == s[m];
    LiteralRun(s, t, 0, 0, |s|, Empty, constraint);
    assert t[..|s|] == s;
  }

  /** Once the path is used up, a literal pattern succeeds if nothing or
      exactly one `'/'` is left of it, and fails otherwise. */
  lemma PathExhausted(t: string, u: string, constraint: (string, string) -> bool)
    requires ':' !in t + u && '.' !in t && |t| > 0
    ensures ParamsMatch(t + u, t, constraint) ==
      if u == "" || u == "/" then MatchResult(Some(Empty), t, true) else NoMatch
  {
    var s := t + u;
    NoExtension(s, t, constraint);
    assert forall m :: 0 <= m < |t| ==> s[m] == t[m] && s[m] != ':';
    LiteralRun(s, t, 0, 0, |t|, Empty, constraint);
    if |u| == 1 {
      assert s[|t|] == u[0];
      assert u == "/" <==> u[0] == '/';
    }
    if u == "" {
      assert s == t;
    }
  }

  /** One step over a parameter that carries no constraint. */
  lemma ParamStep(source: string, pth: string, i: nat, j: nat, p: PathValues,
                  constraint: (string, string) -> bool, j2: nat, i2: nat, name: string, val: string)
    requires i < |pth| && j < |source| && Valid(p) && source[j] == ':'
    requires j2 == Run(source, IsAlnum, j + 1) && i2 == Run(pth, PartOf(NextByte(source, j2)), i)
    requires name == source[j + 1..j2] && val == pth[i..i2]
    requires !(j2 < |source| && source[j2] == '[')
    ensures MatchLoop(source, pth, i, j, p, constraint) ==
      MatchLoop(source, pth, i2, j2, Add(p, ":" + name, val), constraint)
  {
  }

  /** The loop over a pattern that is one unconstrained parameter. */
  lemma CaptureLoop(s: string, name: string, val: string, constraint: (string, string) -> bool)
    requires |s| > 0 && s[0] == ':' && s[1..] == name
    requires Run(s, IsAlnum, 1) == |s| && Run(val, PartOf(0 as char), 0) == |val| && |val| > 0
    ensures MatchLoop(s, val, 0, 0, Empty, constraint) == MatchResult(Some(Add(Empty, ":" + name, val)), val, true)
  {
    var q := Add(Empty, ":" + name, val);
    assert s[1..|s|] == name && val[0..|val|] == val && NextByte(s, |s|) == 0 as char;
    ParamStep(s, val, 0, 0, Empty, constraint, |s|, |val|, name, val);
    assert MatchLoop(s, val, |val|, |s|, q, constraint) == MatchResult(Some(q), val, true);
  }

  /** A single `:name` parameter captures the whole of a path segment. */
  lemma CaptureSegment(name: string, val: string, constraint: (string, string) -> bool)
    requires |name| > 0 && (forall k :: 0 <= k < |name| ==> IsAlnum(name[k]))
    requires |val| > 0 && '/' !in val && '.' !in val && (0 as char) !in val
    ensures ParamsMatch(":" + name, val, constraint) ==
      MatchResult(Some(Add(Empty, ":" + name, val)), val, true)
  {
    var s := ":" + name;
    NoExtension(s, val, constraint);
    assert Run(s, IsAlnum, 1) == |s| by {
      assert forall k :: 1 <= k < |s| ==> s[k] == name[k - 1];
    }
    assert Run(val, PartOf(0 as char), 0) == |val| by {
      assert forall k :: 0 <= k < |val| ==> PartOf(0 as char)(val[k]);
    }
    assert s[1..] == name;
    CaptureLoop(s, name, val, constraint);
  }
}
