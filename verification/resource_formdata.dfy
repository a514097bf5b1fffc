/** `resource/schema_formdata_to_metavalues.go`: turning flat form keys
    (`name`, `name.sub`, `name[2].sub`) into a tree of named values. This
    revision indexes `ByName` by position. */
module FormDataToMetaValues {
  import opened Wrappers
  import Text
  import Utils
  import opened CoreErrors

  /** A `Metaor` as this conversion sees it: its name and the metas
      `GetContextMetas` gives for its nested values. */
  datatype Metaor = Metaor(name: string, contextMetas: seq<Metaor>)

  /** A form entry's values, an upload's file names, or no value (the
      parent of a nested group). */
  datatype Input = NoInput | FormInput(values: seq<string>) | FileInput(filenames: seq<string>)

  datatype FormValue = FormValue(name: string, value: Input, index: int, nested: Option<FormValues>, meta: Option<Metaor>)

  datatype FormValues = FormValues(values: seq<FormValue>, byName: map<string, int>)

  /** A form (or the uploads) as entries; a Go map has distinct keys. */
  type Entries = seq<(string, Input)>

  predicate DistinctKeys(form: Entries) {
    forall i, j :: 0 <= i < j < |form| ==> form[i].0 != form[j].0
  }

  /** `ByName` points every recorded name at a value of that name. */
  predicate ByNameValid(mvs: FormValues) {
    forall n :: n in mvs.byName ==> 0 <= mvs.byName[n] < |mvs.values| && mvs.values[mvs.byName[n]].name == n
  }

  // ---------------------------------------------------------------------
  // Key classification

  /** `isCurrentLevel`: `^[^.]+$`. */
  predicate IsCurrentLevel(key: string) {
    |key| > 0 && '.' !in key
  }

  predicate IsNameChar(c: char) {
    c != '.' && c != '[' && c != ']'
  }

  /** The length of the longest prefix of name characters. */
  function NameRun(s: string): (r: nat)
    ensures r <= |s|
    ensures forall i :: 0 <= i < r ==> IsNameChar(s[i])
    ensures r < |s| ==> !IsNameChar(s[r])
  {
    if |s| == 0 || !IsNameChar(s[0]) then 0 else 1 + NameRun(s[1..])
  }

  /** One or more `.segment` parts, each segment non-empty (`(\.[^.]+)+$`):
      a leading dot, no dot at the end and no two dots in a row. */
  predicate DotSegments(s: string) {
    && |s| >= 2 && s[0] == '.' && s[|s| - 1] != '.'
    && forall i :: 0 <= i < |s| - 1 && s[i] == '.' ==> s[i + 1] != '.'
  }

  /** `isNextLevel`: `^(([^.\[\]]+)(\[\d+\])?)(?:(\.[^.]+)+)$`, giving the
      group (the base name with its index, if any) and the base name. */
  function NextLevel(key: string): (r: Option<(string, string)>)
    ensures r.Some? ==> |r.value.1| > 0 && Text.HasPrefix(r.value.0, r.value.1)
    ensures r.Some? ==> |r.value.0| < |key| && key[..|r.value.0|] == r.value.0 && key[|r.value.0|] == '.'
    ensures r.Some? ==> DotSegments(key[|r.value.0|..])
  {
    var n := NameRun(key);
    if n == 0 then None
    else
      var base := key[..n];
      var rest := key[n..];
      if DotSegments(rest) then Some((base, base))
      else if |rest| > 0 && rest[0] == '[' then
        var d := DigitRun(rest[1..]);
        if d > 0 && 1 + d < |rest| && rest[1 + d] == ']' && DotSegments(rest[2 + d..]) then
          var name := key[..n + 2 + d];
          assert key[n + 2 + d..] == rest[2 + d..];
          Some((name, base))
        else None
      else None
  }

  function DigitRun(s: string): (r: nat)
    ensures r <= |s|
    ensures forall i :: 0 <= i < r ==> Text.IsDigit(s[i])
    ensures r < |s| ==> !Text.IsDigit(s[r])
  {
    if |s| == 0 || !Text.IsDigit(s[0]) then 0 else 1 + DigitRun(s[1..])
  }

  predicate IsName(s: string) {
    |s| > 0 && forall i :: 0 <= i < |s| ==> IsNameChar(s[i])
  }

  predicate IsSegment(s: string) {
    |s| > 0 && '.' !in s
  }

  /** A plain group `base.seg`: group and base are both `base`. */
  lemma {:induction false} NextLevelPlain(base: string, seg: string)
    requires IsName(base) && IsSegment(seg)
    ensures NextLevel(base + "." + seg) == Some((base, base))
  {
    var key := base + "." + seg;
    NameRunPrefix(key, |base|);
    assert key[..|base|] == base;
    assert key[|base|..] == "." + seg;
    DotSegment(seg);
  }

  /** An indexed group `base[d].seg`: the group keeps its index, the base
      drops it. */
  lemma NextLevelIndexed(base: string, d: string, seg: string)
    requires IsName(base) && IsSegment(seg)
    requires |d| > 0 && forall i :: 0 <= i < |d| ==> Text.IsDigit(d[i])
    ensures NextLevel(base + "[" + d + "]" + "." + seg) == Some((base + "[" + d + "]", base))
  {
    var key := base + "[" + d + "]" + "." + seg;
    IndexedName(base, d, seg, key);
    IndexedDigits(base, d, seg, key);
    IndexedTail(base, d, seg, key);
    NextLevelOfParts(key, |base|, |d|);
  }

  lemma IndexedName(base: string, d: string, seg: string, key: string)
    requires IsName(base) && key == base + "[" + d + "]" + "." + seg
    ensures NameRun(key) == |base| && key[|base|] == '[' && key[..|base|] == base
  {
    NameRunPrefix(key, |base|);
  }

  lemma IndexedDigits(base: string, d: string, seg: string, key: string)
    requires |d| > 0 && forall i :: 0 <= i < |d| ==> Text.IsDigit(d[i])
    requires key == base + "[" + d + "]" + "." + seg
    ensures DigitRun(key[|base|..][1..]) == |d| && key[|base|..][1 + |d|] == ']'
    ensures key[..|base| + 2 + |d|] == base + "[" + d + "]"
  {
    assert key[|base|..][1..] == d + "]" + "." + seg;
    DigitRunPrefix(d + "]" + "." + seg, |d|);
  }

  lemma IndexedTail(base: string, d: string, seg: string, key: string)
    requires IsSegment(seg) && key == base + "[" + d + "]" + "." + seg
    ensures !DotSegments(key[|base|..]) && DotSegments(key[|base|..][2 + |d|..])
  {
    assert key[|base|..][0] == '[';
    assert key[|base|..][2 + |d|..] == "." + seg;
    DotSegment(seg);
  }

  /** The indexed branch of `NextLevel`, read off the positions of the
      name run, the bracket and the digits. */
  lemma NextLevelOfParts(key: string, n: nat, d: nat)
    requires 0 < n && n + 2 + d <= |key| && 0 < d
    requires NameRun(key) == n && key[n] == '[' && !DotSegments(key[n..])
    requires DigitRun(key[n..][1..]) == d && key[n..][1 + d] == ']'
    requires DotSegments(key[n..][2 + d..])
    ensures NextLevel(key) == Some((key[..n + 2 + d], key[..n]))
  {
  }

  /** A key without a dot is never a group: the two classes are disjoint. */
  lemma CurrentIsNotNext(key: string)
    requires IsCurrentLevel(key)
    ensures NextLevel(key).None?
  {
  }

  lemma {:induction false} DigitRunPrefix(s: string, n: nat)
    requires n <= |s| && (forall i :: 0 <= i < n ==> Text.IsDigit(s[i])) && (n < |s| ==> !Text.IsDigit(s[n]))
    ensures DigitRun(s) == n
  {
    if n > 0 {
      DigitRunPrefix(s[1..], n - 1);
    }
  }

  lemma DotSegment(seg: string)
    requires IsSegment(seg)
    ensures DotSegments("." + seg)
  {
    var s := "." + seg;
    assert s[|s| - 1] == seg[|seg| - 1] && seg[|seg| - 1] in seg;
    forall j | 1 <= j < |s| ensures s[j] != '.' {
      assert s[j] == seg[j - 1] && seg[j - 1] in seg;
    }
  }

  lemma {:induction false} NameRunPrefix(s: string, n: nat)
    requires n <= |s| && (forall i :: 0 <= i < n ==> IsNameChar(s[i])) && (n < |s| ==> !IsNameChar(s[n]))
    ensures NameRun(s) == n
  {
    if n > 0 {
      NameRunPrefix(s[1..], n - 1);
    }
  }

  // ---------------------------------------------------------------------
  // Conversion

  /** What `newMetaValue` keeps across calls. */
  datatype State = State(mvs: FormValues, converted: set<string>, nestedIndex: map<string, int>, errs: seq<Error>)

  /** `metaorsMap[name]`: the last metaor of that name. */
  function MetaorNamed(metaors: seq<Metaor>, name: string): (r: Option<Metaor>)
    ensures r.Some? ==> r.value in metaors && r.value.name == name
    ensures r.None? <==> forall m :: m in metaors ==> m.name != name
  {
    if |metaors| == 0 then None
    else
      var last := metaors[|metaors| - 1];
      var init := metaors[..|metaors| - 1];
      assert metaors == init + [last];
      if last.name == name then Some(last) else MetaorNamed(init, name)
  }

  /** `MetaValues.Get`: the position of the first value with the name. */
  function FirstNamed(values: seq<FormValue>, name: string): (r: Option<nat>)
    ensures r.Some? ==> r.value < |values| && values[r.value].name == name
    ensures r.Some? ==> forall j :: 0 <= j < r.value ==> values[j].name != name
    ensures r.None? <==> forall j :: 0 <= j < |values| ==> values[j].name != name
  {
    if |values| == 0 then None
    else if values[0].name == name then Some(0)
    else match FirstNamed(values[1..], name)
      case None => None
      case Some(k) => Some(k + 1)
  }

  /** Appending a value records its position under its name. */
  function Append(mvs: FormValues, v: FormValue): (r: FormValues)
    requires ByNameValid(mvs)
    ensures ByNameValid(r)
    ensures r.values == mvs.values + [v] && r.byName == mvs.byName[v.name := |mvs.values|]
  {
    FormValues(mvs.values + [v], mvs.byName[v.name := |mvs.values|])
  }

  /** Replacing a value by one of the same name keeps `ByName` valid. */
  function Replace(mvs: FormValues, i: nat, v: FormValue): (r: FormValues)
    requires ByNameValid(mvs) && i < |mvs.values| && v.name == mvs.values[i].name
    ensures ByNameValid(r)
    ensures |r.values| == |mvs.values| && r.values[i] == v && r.byName == mvs.byName
    ensures forall j :: 0 <= j < |r.values| && j != i ==> r.values[j] == mvs.values[j]
  {
    FormValues(mvs.values[i := v], mvs.byName)
  }

  /** Some uploaded file has a name. */
  predicate HasNamedFile(filenames: seq<string>) {
    exists i :: 0 <= i < |filenames| && filenames[i] != ""
  }

  /** The longest key plus one: prefixes only grow up to it. */
  function Bound(form: Entries, files: Option<Entries>): nat {
    MaxKey(form) + (if files.Some? then MaxKey(files.value) else 0) + 1
  }

  function MaxKey(es: Entries): (r: nat)
    ensures forall i :: 0 <= i < |es| ==> |es[i].0| <= r
  {
    if |es| == 0 then 0
    else
      var m := MaxKey(es[1..]);
      assert forall i :: 1 <= i < |es| ==> es[i] == es[1..][i - 1];
      if |es[0].0| > m then |es[0].0| else m
  }

  function Measure(form: Entries, files: Option<Entries>, prefix: string): nat {
    if |prefix| <= Bound(form, files) then Bound(form, files) - |prefix| else 0
  }

  /** The sorted keys of some entries. */
  function SortedKeys(es: Entries): (r: seq<string>)
    ensures |r| == |es|
    ensures forall k :: k in r <==> exists i :: 0 <= i < |es| && es[i].0 == k
  {
    var keys := seq(|es|, i requires 0 <= i < |es| => es[i].0);
    var r := Utils.SortFormKeys(keys);
    assert forall k :: k in r <==> k in multiset(keys);
    assert forall i :: 0 <= i < |es| ==> keys[i] == es[i].0;
    assert forall k :: k in keys ==> exists i :: 0 <= i < |es| && es[i].0 == k;
    r
  }

  function Lookup(es: Entries, key: string): (r: Input)
    ensures (exists i :: 0 <= i < |es| && es[i].0 == key) ==> exists i :: 0 <= i < |es| && es[i] == (key, r)
  {
    if |es| == 0 then NoInput
    else if es[0].0 == key then es[0].1
    else
      var r := Lookup(es[1..], key);
      assert forall i :: 1 <= i < |es| ==> es[i] == es[1..][i - 1];
      r
  }

  /** `ConvertFormDataToMetaValues`: the form keys in `SortFormKeys` order,
      then the requirement check, then the upload keys in order (their
      errors are ignored). The values are returned even with an error.
      `requirement` stands for `CheckRequirement` on the values built. */
  function Convert(form: Entries, files: Option<Entries>, metaors: seq<Metaor>, prefix: string,
                   requirement: (seq<Metaor>, FormValues) -> Option<Error>): (r: (FormValues, Option<Error>))
    ensures ByNameValid(r.0)
    decreases Measure(form, files, prefix), 2, 0
  {
    var s0 := State(FormValues([], map[]), {}, map[], []);
    var s1 := ProcessKeys(form, files, metaors, prefix, requirement, form, SortedKeys(form), 0, s0, true);
    var s2 := s1.(errs := s1.errs + Contribution(requirement(metaors, s1.mvs)));
    var s3 := if files.Some? then ProcessKeys(form, files, metaors, prefix, requirement, files.value, SortedKeys(files.value), 0, s2, false) else s2;
    (s3.mvs, if HasError(s3.errs) then Some(Group(s3.errs)) else None)
  }

  /** The loop over sorted keys; errors are collected when `collect`. */
  function ProcessKeys(form: Entries, files: Option<Entries>, metaors: seq<Metaor>, prefix: string,
                       requirement: (seq<Metaor>, FormValues) -> Option<Error>,
                       source: Entries, keys: seq<string>, i: nat, st: State, collect: bool): (r: State)
    requires source == form || (files.Some? && source == files.value)
    requires keys == SortedKeys(source)
    requires ByNameValid(st.mvs)
    ensures ByNameValid(r.mvs)
    ensures |r.errs| >= |st.errs| && r.errs[..|st.errs|] == st.errs
    ensures !collect ==> r.errs == st.errs
    decreases Measure(form, files, prefix), 1, |keys| - i
  {
    if i >= |keys| then st
    else
      var st1 := KeyStep(form, files, metaors, prefix, requirement, source, keys[i], st, collect);
      ProcessKeys(form, files, metaors, prefix, requirement, source, keys, i + 1, st1, collect)
  }

  /** One key of the loop: its error joins the collected ones if `collect`. */
  function KeyStep(form: Entries, files: Option<Entries>, metaors: seq<Metaor>, prefix: string,
                   requirement: (seq<Metaor>, FormValues) -> Option<Error>,
                   source: Entries, key: string, st: State, collect: bool): (r: State)
    requires source == form || (files.Some? && source == files.value)
    requires key in SortedKeys(source)
    requires ByNameValid(st.mvs)
    ensures ByNameValid(r.mvs)
    ensures |r.errs| >= |st.errs| && r.errs[..|st.errs|] == st.errs
    ensures !collect ==> r.errs == st.errs
    decreases Measure(form, files, prefix), 0, 1
  {
    KeyBound(form, files, source, key);
    var step := NewMetaValue(form, files, metaors, prefix, requirement, key, Lookup(source, key), st);
    if collect then step.0.(errs := step.0.errs + Contribution(step.1)) else step.0
  }

  /** `newMetaValue` for one key. */
  function NewMetaValue(form: Entries, files: Option<Entries>, metaors: seq<Metaor>, prefix: string,
                        requirement: (seq<Metaor>, FormValues) -> Option<Error>,
                        key: string, input: Input, st: State): (r: (State, Option<Error>))
    requires ByNameValid(st.mvs) && |key| < Bound(form, files)
    ensures ByNameValid(r.0.mvs) && r.0.errs == st.errs && st.converted <= r.0.converted
    ensures !Text.HasPrefix(key, prefix) ==> r == (st, None)
    ensures Text.HasPrefix(key, prefix) && IsCurrentLevel(key[|prefix|..]) ==>
              r == (CurrentLevel(st, metaors, key[|prefix|..], input), None)
    ensures Text.HasPrefix(key, prefix) && NextLevel(key[|prefix|..]).Some? ==>
              var group := NextLevel(key[|prefix|..]).value.0;
              group in r.0.converted && (group in st.converted ==> r == (st, None))
    ensures r.1.Some? ==> r.0.mvs == st.mvs
    decreases Measure(form, files, prefix), 0, 0
  {
    if !Text.HasPrefix(key, prefix) then (st, None)
    else
      var k := key[|prefix|..];
      if IsCurrentLevel(k) then
        (CurrentLevel(st, metaors, k, input), None)
      else match NextLevel(k)
        case None => (st, None)
        case Some((name, base)) =>
          if name in st.converted then (st, None)
          else
            var st1 := st.(converted := st.converted + {name});
            var metaor := MetaorNamed(metaors, base);
            var sub := if metaor.Some? then metaor.value.contextMetas else [];
            assert |prefix + name + "."| <= |key| by {
              assert k[|name|] == '.';
            }
            var (children, err) := Convert(form, files, sub, prefix + name + ".", requirement);
            if err.Some? then (st1, err)
            else (Nest(st1, prefix, name, base, metaor, children), None)
  }

  /** A key of the form or of the uploads is shorter than the bound. */
  lemma KeyBound(form: Entries, files: Option<Entries>, source: Entries, key: string)
    requires source == form || (files.Some? && source == files.value)
    requires key in SortedKeys(source)
    ensures |key| < Bound(form, files)
  {
    var i :| 0 <= i < |source| && source[i].0 == key;
    assert |key| <= MaxKey(source);
  }

  /** A current-level key: a new value, except for an upload whose name is
      already present, which replaces the old value only if some file has a
      name. */
  function CurrentLevel(st: State, metaors: seq<Metaor>, name: string, input: Input): (r: State)
    requires ByNameValid(st.mvs)
    ensures ByNameValid(r.mvs) && r.errs == st.errs && r.converted == st.converted && r.nestedIndex == st.nestedIndex
    ensures !input.FileInput? || FirstNamed(st.mvs.values, name).None? ==>
              r.mvs == Append(st.mvs, FormValue(name, input, 0, None, MetaorNamed(metaors, name)))
    ensures input.FileInput? && FirstNamed(st.mvs.values, name).Some? && !HasNamedFile(input.filenames) ==> r == st
    ensures input.FileInput? && FirstNamed(st.mvs.values, name).Some? && HasNamedFile(input.filenames) ==>
              var p := FirstNamed(st.mvs.values, name).value;
              |r.mvs.values| == |st.mvs.values| && r.mvs.values[p].value == input && r.mvs.values[p].name == name
  {
    var added := FormValue(name, input, 0, None, MetaorNamed(metaors, name));
    if input.FileInput? then
      match FirstNamed(st.mvs.values, name)
      case None => st.(mvs := Append(st.mvs, added))
      case Some(p) =>
        if HasNamedFile(input.filenames) then st.(mvs := Replace(st.mvs, p, st.mvs.values[p].(value := input)))
        else st
    else st.(mvs := Append(st.mvs, added))
  }

  /** A converted group: the group counter of `prefix + base` advances (or
      starts at 0); the children join the value named like the group if
      there is one, and otherwise a new value named `base` with the
      counter as its index is appended. */
  function Nest(st: State, prefix: string, name: string, base: string, metaor: Option<Metaor>, children: FormValues): (r: State)
    requires ByNameValid(st.mvs)
    ensures ByNameValid(r.mvs) && r.errs == st.errs && r.converted == st.converted
    ensures var nestedName := prefix + base;
            nestedName in r.nestedIndex &&
            r.nestedIndex[nestedName] == (if nestedName in st.nestedIndex then st.nestedIndex[nestedName] + 1 else 0)
    ensures FirstNamed(st.mvs.values, name).None? ==>
              r.mvs == Append(st.mvs, FormValue(base, NoInput, r.nestedIndex[prefix + base], Some(children), metaor))
    ensures FirstNamed(st.mvs.values, name).Some? ==> |r.mvs.values| == |st.mvs.values|
  {
    var nestedName := prefix + base;
    var idx := if nestedName in st.nestedIndex then st.nestedIndex[nestedName] + 1 else 0;
    var st1 := st.(nestedIndex := st.nestedIndex[nestedName := idx]);
    match FirstNamed(st.mvs.values, name)
    case None => st1.(mvs := Append(st.mvs, FormValue(base, NoInput, idx, Some(children), metaor)))
    case Some(p) =>
      var parent := st.mvs.values[p];
      var nested := if parent.nested.None? then children else parent.nested.value.(values := parent.nested.value.values + children.values);
      st1.(mvs := Replace(st.mvs, p, parent.(nested := Some(nested))))
  }

  /** Keys outside the prefix leave the state alone, and the loop over
      them changes nothing. */
  lemma {:induction false} ProcessKeysOutside(form: Entries, files: Option<Entries>, metaors: seq<Metaor>, prefix: string,
                                              requirement: (seq<Metaor>, FormValues) -> Option<Error>,
                                              source: Entries, i: nat, st: State, collect: bool)
    requires source == form || (files.Some? && source == files.value)
    requires ByNameValid(st.mvs)
    requires forall j :: 0 <= j < |source| ==> !Text.HasPrefix(source[j].0, prefix)
    ensures ProcessKeys(form, files, metaors, prefix, requirement, source, SortedKeys(source), i, st, collect) == st
    decreases |source| - i
  {
    var keys := SortedKeys(source);
    if i < |keys| {
      assert keys[i] in keys;
      assert KeyStep(form, files, metaors, prefix, requirement, source, keys[i], st, collect) == st by {
        assert Contribution(None) == [];
        assert st.errs + [] == st.errs;
      }
      ProcessKeysOutside(form, files, metaors, prefix, requirement, source, i + 1, st, collect);
    }
  }

  /** With no key under the prefix the values are empty, and the only
      possible errors are those the requirement check reports on those
      empty values. */
  lemma NothingUnderPrefix(form: Entries, files: Option<Entries>, metaors: seq<Metaor>, prefix: string,
                           requirement: (seq<Metaor>, FormValues) -> Option<Error>)
    requires forall j :: 0 <= j < |form| ==> !Text.HasPrefix(form[j].0, prefix)
    requires files.Some? ==> forall j :: 0 <= j < |files.value| ==> !Text.HasPrefix(files.value[j].0, prefix)
    ensures Convert(form, files, metaors, prefix, requirement).0 == FormValues([], map[])
    ensures var reported := Contribution(requirement(metaors, FormValues([], map[])));
            Convert(form, files, metaors, prefix, requirement).1 == if reported == [] then None else Some(Group(reported))
  {
    var empty := FormValues([], map[]);
    var s0 := State(empty, {}, map[], []);
    ProcessKeysOutside(form, files, metaors, prefix, requirement, form, 0, s0, true);
    var s2 := s0.(errs := Contribution(requirement(metaors, empty)));
    assert s0.errs + Contribution(requirement(metaors, empty)) == s2.errs;
    if files.Some? {
      ProcessKeysOutside(form, files, metaors, prefix, requirement, files.value, 0, s2, false);
    }
  }
}
