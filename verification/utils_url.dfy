/** `utils/url/url.go`: patching the query of a URL and appending path
    segments. Parsing and printing URLs, query encoding and `path.Join`
    are not modelled: a URL is given already split into its path and its
    decoded query, and the path join is a parameter. */
module Url {
  import opened Wrappers
  import Text

  /** `url.Values`: each key with its list of values. */
  type Query = map<string, seq<string>>

  /** A query as `url.ParseQuery` yields it: no key has an empty list. */
  ghost predicate WellFormed(q: Query) {
    forall k :: k in q ==> q[k] != []
  }

  /** An argument of `PatchURL`: a `Flag`, or any other value by its
      printed form. */
  datatype Arg = Flag(on: bool) | Text(s: string)

  function Printed(a: Arg): (r: string)
    ensures a.Text? ==> r == a.s
    ensures a.Flag? ==> r == "true" || r == "false"
  {
    match a
    case Flag(b) => if b then "true" else "false"
    case Text(s) => s
  }

  /** `values` without any occurrence of `value`, or with `value` appended
      when it did not occur. */
  function Toggle(values: seq<string>, value: string): (r: seq<string>)
    ensures value in values ==> value !in r && forall x :: x in r <==> x in values && x != value
    ensures value !in values ==> r == values + [value]
  {
    if value in values then Remove(values, value) else values + [value]
  }

  function Remove(values: seq<string>, value: string): (r: seq<string>)
    ensures forall x :: x in r <==> x in values && x != value
    ensures |r| <= |values|
  {
    if |values| == 0 then []
    else if values[0] == value then Remove(values[1..], value)
    else [values[0]] + Remove(values[1..], value)
  }

  lemma {:induction false} RemoveAbsent(values: seq<string>, value: string)
    requires value !in values
    ensures Remove(values, value) == values
  {
    if |values| > 0 {
      RemoveAbsent(values[1..], value);
    }
  }

  lemma {:induction false} RemoveLast(values: seq<string>, value: string)
    requires value !in values
    ensures Remove(values + [value], value) == values
  {
    if |values| == 0 {
      assert [value][1..] == [];
    } else {
      assert (values + [value])[1..] == values[1..] + [value];
      RemoveLast(values[1..], value);
    }
  }

  /** One key/value pair of `PatchURL`. A non-flag value with an empty key
      indexes an empty string and panics in the source. */
  function PatchStep(q: Query, key: Arg, value: Arg): (r: Query)
    requires value.Flag? || Printed(key) != ""
    ensures forall k :: k != Printed(key) && !(Printed(key) != "" && k == Printed(key)[1..]) ==>
      (k in r <==> k in q) && (k in q ==> r[k] == q[k])
  {
    var k := Printed(key);
    match value
    case Flag(on) => if on then q[k := [""]] else q - {k}
    case Text(v) =>
      if k[0] == '~' then
        var name := k[1..];
        if name in q then
          var nv := Toggle(q[name], v);
          if nv == [] then q - {name} else q[name := nv]
        else q[name := [v]]
      else if v == "" then q - {k}
      else q[k := [v]]
  }

  /** Every pair whose value is not a flag has a non-empty key. */
  predicate Patchable(params: seq<Arg>) {
    |params| < 2 || ((params[1].Flag? || Printed(params[0]) != "") && Patchable(params[2..]))
  }

  /** The pairs of `params`, applied in order; a trailing unpaired
      argument is ignored. */
  function PatchQuery(q: Query, params: seq<Arg>): (r: Query)
    requires Patchable(params)
    ensures |params| < 2 ==> r == q
    decreases |params|
  {
    if |params| < 2 then q else PatchQuery(PatchStep(q, params[0], params[1]), params[2..])
  }

  /** `PatchURL` on an already parsed URL: only the query changes. */
  datatype Url = Url(rest: string, path: string, rawPath: string, query: Query)

  function PatchUrl(u: Url, params: seq<Arg>): (r: Url)
    requires Patchable(params)
    ensures r.rest == u.rest && r.path == u.path && r.rawPath == u.rawPath
  {
    u.(query := PatchQuery(u.query, params))
  }

  /** A plain key with a non-empty value holds just that value afterwards,
      including when it held the same value before; an empty value deletes
      the key. */
  lemma PatchPlain(q: Query, k: string, v: string)
    requires k != "" && k[0] != '~'
    ensures v != "" ==> PatchQuery(q, [Text(k), Text(v)]) == q[k := [v]]
    ensures v == "" ==> PatchQuery(q, [Text(k), Text(v)]) == q - {k}
  {
    assert [Text(k), Text(v)][2..] == [];
  }

  /** A true flag sets the key to one empty value; a false flag deletes it. */
  lemma PatchFlag(q: Query, key: Arg, on: bool)
    ensures on ==> PatchQuery(q, [key, Flag(on)]) == q[Printed(key) := [""]]
    ensures !on ==> Printed(key) !in PatchQuery(q, [key, Flag(on)])
  {
    assert [key, Flag(on)][2..] == [];
  }

  /** Toggling a value the key does not hold, twice, gives back the query. */
  lemma ToggleTwice(q: Query, name: string, v: string)
    requires WellFormed(q)
    requires name in q ==> v !in q[name]
    ensures PatchQuery(q, [Text("~" + name), Text(v), Text("~" + name), Text(v)]) == q
  {
    var ps := [Text("~" + name), Text(v), Text("~" + name), Text(v)];
    assert ("~" + name)[1..] == name;
    assert ps[2..][2..] == [];
    var q1 := PatchStep(q, ps[0], ps[1]);
    if name in q {
      assert q[name] != [];
      assert q1 == q[name := q[name] + [v]];
      RemoveLast(q[name], v);
      assert PatchStep(q1, ps[2], ps[3]) == q;
    } else {
      assert q1 == q[name := [v]];
      assert PatchStep(q1, ps[2], ps[3]) == q;
    }
  }

  /** A trailing argument without a partner changes nothing. */
  lemma {:induction false} UnpairedIgnored(q: Query, params: seq<Arg>, extra: Arg)
    requires |params| % 2 == 0 && Patchable(params)
    ensures Patchable(params + [extra])
    ensures PatchQuery(q, params + [extra]) == PatchQuery(q, params)
    decreases |params|
  {
    if |params| > 0 {
      assert (params + [extra])[2..] == params[2..] + [extra];
      UnpairedIgnored(PatchStep(q, params[0], params[1]), params[2..], extra);
    }
  }

  /** The toggle examples of the source's documentation, on the query. */
  lemma ToggleExamples()
    ensures PatchQuery(map[], [Text("~a[]"), Text("b")]) == map["a[]" := ["b"]]
    ensures PatchQuery(map["a[]" := ["b"]], [Text("~a[]"), Text("c")]) == map["a[]" := ["b", "c"]]
    ensures PatchQuery(map["a[]" := ["b", "c"]], [Text("~a[]"), Text("c")]) == map["a[]" := ["b"]]
    ensures PatchQuery(map[], [Text("key"), Text("value")]) == map["key" := ["value"]]
  {
    assert "~a[]"[1..] == "a[]";
    PatchPlain(map[], "key", "value");
    assert Remove(["b", "c"], "c") == ["b"] by {
      assert ["b", "c"][1..] == ["c"];
      assert ["c"][1..] == [];
    }
    assert ["b"] + ["c"] == ["b", "c"];
  }

  // ---------------------------------------------------------------------
  // JoinURL

  /** An argument of `JoinURL`: a `*Param`, a `FlagParam`, or any other
      value, which is a path segment by its printed form. */
  datatype PathArg = Param(name: string, values: seq<string>) | FlagParam(fname: string, on: bool) | Segment(printed: string)

  /** The path segments: the URL's path (its raw form when present) and
      then every segment argument, in order. */
  function Segments(u: Url, args: seq<PathArg>): (r: seq<string>)
    ensures |r| >= 1 && r[0] == (if u.rawPath != "" then u.rawPath else u.path)
    ensures |r| <= |args| + 1
  {
    if |args| == 0 then [if u.rawPath != "" then u.rawPath else u.path]
    else
      var init := Segments(u, args[..|args| - 1]);
      match args[|args| - 1]
      case Segment(p) => init + [p]
      case _ => init
  }

  function ApplyParam(q: Query, a: PathArg): (r: Query)
  {
    match a
    case Param(n, vs) => q[n := vs]
    case FlagParam(n, on) => if on then q[n := [""]] else q - {n}
    case Segment(_) => q
  }

  function ApplyParams(q: Query, args: seq<PathArg>): (r: Query)
    decreases |args|
  {
    if |args| == 0 then q else ApplyParams(ApplyParam(q, args[0]), args[1..])
  }

  predicate HasQueryArg(args: seq<PathArg>) {
    exists i :: 0 <= i < |args| && !args[i].Segment?
  }

  /** The outcome of `JoinURL`: the new path, and the new query when it was
      touched (`None` leaves the raw query string as it was). */
  datatype Joined = Joined(path: string, query: Option<Query>)

  /** `JoinURL`: segment arguments are joined onto the path, keeping a
      trailing `/` when the concatenated segments end in one; the query is
      parsed and re-encoded only when some parameter argument was given. */
  function JoinUrl(u: Url, args: seq<PathArg>, pathJoin: seq<string> -> string): (r: Joined)
    ensures r.query.Some? <==> HasQueryArg(args)
    ensures Text.HasSuffix(Concat(Segments(u, args)), "/") ==> r.path == pathJoin(Segments(u, args)) + "/"
    ensures !Text.HasSuffix(Concat(Segments(u, args)), "/") ==> r.path == pathJoin(Segments(u, args))
  {
    var segs := Segments(u, args);
    var p := if Text.HasSuffix(Concat(segs), "/") then pathJoin(segs) + "/" else pathJoin(segs);
    Joined(p, if HasQueryArg(args) then Some(ApplyParams(u.query, args)) else None)
  }

  function Concat(s: seq<string>): string {
    if |s| == 0 then "" else Concat(s[..|s| - 1]) + s[|s| - 1]
  }

  lemma {:induction false} ApplyParamsAppend(q: Query, a: seq<PathArg>, b: seq<PathArg>)
    ensures ApplyParams(q, a + b) == ApplyParams(ApplyParams(q, a), b)
    decreases |a|
  {
    if |a| > 0 {
      assert (a + b)[1..] == a[1..] + b;
      ApplyParamsAppend(ApplyParam(q, a[0]), a[1..], b);
    } else {
      assert a + b == b;
    }
  }

  /** Arguments that do not name `n` leave its values alone. */
  lemma {:induction false} ApplyParamsOther(q: Query, args: seq<PathArg>, n: string)
    requires forall i :: 0 <= i < |args| ==> args[i].Segment? || (args[i].Param? && args[i].name != n) || (args[i].FlagParam? && args[i].fname != n)
    ensures n in ApplyParams(q, args) <==> n in q
    ensures n in q ==> ApplyParams(q, args)[n] == q[n]
    decreases |args|
  {
    if |args| > 0 {
      ApplyParamsOther(ApplyParam(q, args[0]), args[1..], n);
    }
  }

  /** The last `Param` naming `n` decides all its values; earlier ones and
      the URL's own values for `n` are replaced. */
  lemma LastParamWins(u: Url, pre: seq<PathArg>, n: string, vs: seq<string>, post: seq<PathArg>, pathJoin: seq<string> -> string)
    requires forall i :: 0 <= i < |post| ==> post[i].Segment? || (post[i].Param? && post[i].name != n) || (post[i].FlagParam? && post[i].fname != n)
    ensures JoinUrl(u, pre + [Param(n, vs)] + post, pathJoin).query.Some? &&
      n in JoinUrl(u, pre + [Param(n, vs)] + post, pathJoin).query.value &&
      JoinUrl(u, pre + [Param(n, vs)] + post, pathJoin).query.value[n] == vs
  {
    var args := pre + [Param(n, vs)] + post;
    assert args[|pre|] == Param(n, vs);
    ApplyParamsAppend(u.query, pre + [Param(n, vs)], post);
    ApplyParamsAppend(u.query, pre, [Param(n, vs)]);
    var q1 := ApplyParams(u.query, pre + [Param(n, vs)]);
    assert q1 == ApplyParams(u.query, pre)[n := vs];
    ApplyParamsOther(q1, post, n);
  }

  /** Without parameter arguments the query is untouched and the path is
      the join of the path with the printed arguments. */
  lemma {:induction false} OnlySegments(u: Url, args: seq<PathArg>)
    requires forall i :: 0 <= i < |args| ==> args[i].Segment?
    ensures Segments(u, args) == [if u.rawPath != "" then u.rawPath else u.path] +
      seq(|args|, i requires 0 <= i < |args| => args[i].printed)
  {
    if |args| > 0 {
      OnlySegments(u, args[..|args| - 1]);
    }
  }
}
