/** `utils/str/str.go`: layered variables and `{name}` substitution. A
    layer is a Go map; its iteration order, which Go leaves unspecified,
    is made explicit by giving the layer as a list of pairs. */
module Str {
  import opened Wrappers
  import Text

  type Layer = seq<(string, string)>

  /** A `*Vars` chain, most recently merged layer first; the empty chain
      is the nil pointer. */
  datatype Vars = Vars(top: seq<Layer>)

  /** `Merge`: each non-nil map becomes the new top layer, in argument
      order; nil maps are skipped. */
  function Merge(v: Vars, ms: seq<Option<Layer>>): (r: Vars)
    ensures |r.top| >= |v.top|
    ensures r.top[|r.top| - |v.top|..] == v.top
    decreases |ms|
  {
    if |ms| == 0 then v
    else
      var next := if ms[0].Some? then Vars([ms[0].value] + v.top) else v;
      Merge(next, ms[1..])
  }

  /** The non-nil maps, in argument order. */
  function Present(ms: seq<Option<Layer>>): (r: seq<Layer>)
    ensures |r| <= |ms|
  {
    if |ms| == 0 then []
    else if ms[0].Some? then [ms[0].value] + Present(ms[1..])
    else Present(ms[1..])
  }

  function Reverse<T>(s: seq<T>): (r: seq<T>)
    ensures |r| == |s|
    ensures forall i :: 0 <= i < |s| ==> r[i] == s[|s| - 1 - i]
  {
    if |s| == 0 then [] else Reverse(s[1..]) + [s[0]]
  }

  /** `Priority`: the layers from the most recently merged down to the
      base. */
  function Priority(v: Vars): (r: seq<Layer>)
    ensures |r| == |v.top|
  {
    v.top
  }

  /** Merging puts the new maps, last one first, above the old layers. */
  lemma {:induction false} MergePriority(v: Vars, ms: seq<Option<Layer>>)
    ensures Priority(Merge(v, ms)) == Reverse(Present(ms)) + Priority(v)
    decreases |ms|
  {
    if |ms| > 0 {
      var next := if ms[0].Some? then Vars([ms[0].value] + v.top) else v;
      MergePriority(next, ms[1..]);
      if ms[0].Some? {
        var p := Present(ms[1..]);
        assert Reverse([ms[0].value] + p) == Reverse(p) + [ms[0].value] by {
          assert ([ms[0].value] + p)[1..] == p;
        }
      }
    }
  }

  // ---------------------------------------------------------------------
  // Lookup

  /** The value of `k` in a layer (the first pair naming it). */
  function LayerLookup(l: Layer, k: string): (r: Option<string>)
    ensures r.Some? <==> exists i :: 0 <= i < |l| && l[i].0 == k
  {
    if |l| == 0 then None
    else if l[0].0 == k then Some(l[0].1)
    else
      var r := LayerLookup(l[1..], k);
      assert (exists i :: 0 <= i < |l| && l[i].0 == k) ==> r.Some? by {
        if exists i :: 0 <= i < |l| && l[i].0 == k {
          var i :| 0 <= i < |l| && l[i].0 == k;
          assert l[1..][i - 1].0 == k;
        }
      }
      r
  }

  /** The value of `k` in the topmost layer that has it. */
  function Lookup(pri: seq<Layer>, k: string): (r: Option<string>)
    ensures r.Some? <==> exists i :: 0 <= i < |pri| && LayerLookup(pri[i], k).Some?
  {
    if |pri| == 0 then None
    else if LayerLookup(pri[0], k).Some? then LayerLookup(pri[0], k)
    else
      var r := Lookup(pri[1..], k);
      assert (exists i :: 0 <= i < |pri| && LayerLookup(pri[i], k).Some?) ==> r.Some? by {
        if exists i :: 0 <= i < |pri| && LayerLookup(pri[i], k).Some? {
          var i :| 0 <= i < |pri| && LayerLookup(pri[i], k).Some?;
          assert LayerLookup(pri[1..][i - 1], k).Some?;
        }
      }
      r
  }

  /** Adds the pairs of `l` whose key `d` does not have yet. */
  function AddAbsent(d: map<string, string>, l: Layer): (r: map<string, string>)
    decreases |l|
  {
    if |l| == 0 then d
    else AddAbsent(if l[0].0 in d then d else d[l[0].0 := l[0].1], l[1..])
  }

  function Collect(d: map<string, string>, pri: seq<Layer>): (r: map<string, string>)
    decreases |pri|
  {
    if |pri| == 0 then d else Collect(AddAbsent(d, pri[0]), pri[1..])
  }

  /** `GetData`: one layer is returned as its own map; otherwise the layers
      are walked from the top, each key taking the first value met. A nil
      chain is dereferenced in the source, hence the precondition. */
  function GetData(v: Vars): (r: map<string, string>)
    requires |v.top| >= 1
    ensures |v.top| == 1 ==> r == AddAbsent(map[], v.top[0])
  {
    if |v.top| == 1 then AddAbsent(map[], v.top[0]) else Collect(map[], Priority(v))
  }

  lemma {:induction false} AddAbsentSpec(d: map<string, string>, l: Layer, k: string)
    ensures k in AddAbsent(d, l) <==> k in d || LayerLookup(l, k).Some?
    ensures k in AddAbsent(d, l) ==> AddAbsent(d, l)[k] == (if k in d then d[k] else LayerLookup(l, k).value)
    decreases |l|
  {
    if |l| > 0 {
      AddAbsentSpec(if l[0].0 in d then d else d[l[0].0 := l[0].1], l[1..], k);
    }
  }

  lemma {:induction false} CollectSpec(d: map<string, string>, pri: seq<Layer>, k: string)
    ensures k in Collect(d, pri) <==> k in d || Lookup(pri, k).Some?
    ensures k in Collect(d, pri) ==> Collect(d, pri)[k] == (if k in d then d[k] else Lookup(pri, k).value)
    decreases |pri|
  {
    if |pri| > 0 {
      AddAbsentSpec(d, pri[0], k);
      CollectSpec(AddAbsent(d, pri[0]), pri[1..], k);
    }
  }

  /** Each key of `GetData` has the value of the topmost layer that has
      it, and only keys of some layer appear. */
  lemma GetDataLookup(v: Vars, k: string)
    requires |v.top| >= 1
    ensures k in GetData(v) <==> Lookup(v.top, k).Some?
    ensures k in GetData(v) ==> GetData(v)[k] == Lookup(v.top, k).value
  {
    if |v.top| == 1 {
      AddAbsentSpec(map[], v.top[0], k);
      assert v.top[1..] == [];
    } else {
      CollectSpec(map[], v.top, k);
    }
  }

  // ---------------------------------------------------------------------
  // Format

  function Placeholder(k: string): (r: string)
    ensures |r| == |k| + 2 && r[0] == '{' && r[|r| - 1] == '}'
  {
    "{" + k + "}"
  }

  function ReplaceLayer(s: string, l: Layer): string
    decreases |l|
  {
    if |l| == 0 then s else ReplaceLayer(Text.ReplaceAll(s, Placeholder(l[0].0), l[0].1), l[1..])
  }

  function FormatLayers(s: string, pri: seq<Layer>): string
    decreases |pri|
  {
    if |pri| == 0 then s else FormatLayers(ReplaceLayer(s, pri[0]), pri[1..])
  }

  /** `Format`: every `{key}` replaced by its value, layer by layer from
      the top, pairs in each layer's iteration order. */
  function Format(v: Vars, s: string): (r: string)
    ensures |v.top| == 0 ==> r == s
  {
    FormatLayers(s, Priority(v))
  }

  lemma {:induction false} ReplaceLayerAbsent(s: string, l: Layer)
    requires '{' !in s
    ensures ReplaceLayer(s, l) == s
    decreases |l|
  {
    if |l| > 0 {
      Text.ReplaceAllAbsent(s, Placeholder(l[0].0), l[0].1);
      ReplaceLayerAbsent(s, l[1..]);
    }
  }

  lemma {:induction false} FormatLayersAbsent(s: string, pri: seq<Layer>)
    requires '{' !in s
    ensures FormatLayers(s, pri) == s
    decreases |pri|
  {
    if |pri| > 0 {
      ReplaceLayerAbsent(s, pri[0]);
      FormatLayersAbsent(s, pri[1..]);
    }
  }

  /** Text without placeholders is left as it is. */
  lemma FormatNoPlaceholder(v: Vars, s: string)
    requires '{' !in s
    ensures Format(v, s) == s
  {
    FormatLayersAbsent(s, Priority(v));
  }

  predicate NoBraces(k: string) {
    '{' !in k && '}' !in k
  }

  /** A placeholder is not touched by the replacement of another key. */
  lemma PlaceholderOther(k: string, j: string, rep: string)
    requires NoBraces(k) && NoBraces(j) && k != j
    ensures Text.ReplaceAll(Placeholder(k), Placeholder(j), rep) == Placeholder(k)
  {
    var s := Placeholder(k);
    var pat := Placeholder(j);
    if |pat| <= |s| {
      if |pat| == |s| {
        assert s[1..|s| - 1] == k && pat[1..|pat| - 1] == j;
        assert s[..|pat|] != pat;
      } else {
        assert s[|pat| - 1] == k[|pat| - 2];
        assert k[|pat| - 2] in k;
        assert s[..|pat|][|pat| - 1] != pat[|pat| - 1];
      }
      assert s[1..] == k + "}";
      assert '{' !in s[1..];
      Text.ReplaceAllAbsent(s[1..], pat, rep);
      assert [s[0]] + s[1..] == s;
    }
  }

  /** Key and value restrictions under which substitution is predictable:
      keys have no braces and values no `{`. */
  predicate PlainLayer(l: Layer) {
    forall i :: 0 <= i < |l| ==> NoBraces(l[i].0) && '{' !in l[i].1
  }

  lemma {:induction false} ReplaceLayerPlaceholder(k: string, l: Layer)
    requires NoBraces(k) && PlainLayer(l)
    ensures ReplaceLayer(Placeholder(k), l) ==
      (if LayerLookup(l, k).Some? then LayerLookup(l, k).value else Placeholder(k))
    decreases |l|
  {
    if |l| > 0 {
      assert PlainLayer(l[1..]) by {
        forall i | 0 <= i < |l[1..]|
          ensures NoBraces(l[1..][i].0) && '{' !in l[1..][i].1
        {
          assert l[1..][i] == l[i + 1];
        }
      }
      if l[0].0 == k {
        Text.ReplaceAllWhole(Placeholder(k), l[0].1);
        ReplaceLayerAbsent(l[0].1, l[1..]);
      } else {
        PlaceholderOther(k, l[0].0, l[0].1);
        ReplaceLayerPlaceholder(k, l[1..]);
      }
    }
  }

  lemma {:induction false} FormatLayersPlaceholder(k: string, pri: seq<Layer>)
    requires NoBraces(k) && forall i :: 0 <= i < |pri| ==> PlainLayer(pri[i])
    ensures FormatLayers(Placeholder(k), pri) ==
      (if Lookup(pri, k).Some? then Lookup(pri, k).value else Placeholder(k))
    decreases |pri|
  {
    if |pri| > 0 {
      ReplaceLayerPlaceholder(k, pri[0]);
      if LayerLookup(pri[0], k).Some? {
        FormatLayersAbsent(LayerLookup(pri[0], k).value, pri[1..]) by {
          LayerValuePlain(pri[0], k);
        }
      } else {
        FormatLayersPlaceholder(k, pri[1..]);
      }
    }
  }

  lemma {:induction false} LayerValuePlain(l: Layer, k: string)
    requires PlainLayer(l) && LayerLookup(l, k).Some?
    ensures '{' !in LayerLookup(l, k).value
    decreases |l|
  {
    if l[0].0 != k {
      assert PlainLayer(l[1..]) by {
        forall i | 0 <= i < |l[1..]|
          ensures NoBraces(l[1..][i].0) && '{' !in l[1..][i].1
        {
          assert l[1..][i] == l[i + 1];
        }
      }
      LayerValuePlain(l[1..], k);
    }
  }

  /** The top layer wins: a placeholder becomes the value `GetData` gives
      its key, and stays when no layer has the key. */
  lemma FormatTopWins(v: Vars, k: string)
    requires |v.top| >= 1
    requires NoBraces(k) && forall i :: 0 <= i < |v.top| ==> PlainLayer(v.top[i])
    ensures k in GetData(v) ==> Format(v, Placeholder(k)) == GetData(v)[k]
    ensures k !in GetData(v) ==> Format(v, Placeholder(k)) == Placeholder(k)
  {
    GetDataLookup(v, k);
    FormatLayersPlaceholder(k, v.top);
  }
}
