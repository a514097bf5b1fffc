/** `resource/meta_value.go`: the tree of named input values a resource is
    decoded from. */
module ResourceMetaValue {
  import opened Wrappers
  import Text

  /** The dynamic value a `MetaValue` holds. `Other` stands for any other
      type, with what `aorm.IsBlank` answers for it. */
  datatype Raw =
    | NoValue
    | Strs(items: seq<string>)
    | Str(s: string)
    | Other(blank: bool)

  /** What `Metaor.IsSiblingsRequirementCheckDisabled` answers:
      neither, `OnTrue()` or `OnFalse()`. */
  datatype SiblingCheck = CheckAlways | DisabledOnTrue | DisabledOnFalse

  /** The parts of a `Metaor` these operations consult. */
  datatype Meta = Meta(
    name: string,
    alone: bool,
    siblingCheck: SiblingCheck,
    required: bool,
    hasRecordRequirer: bool,
    proxier: bool)

  datatype MetaValue = MetaValue(
    name: string,
    value: Raw,
    index: int,
    nested: Option<MetaValues>,
    meta: Option<Meta>,
    noBlank: bool)

  /** `MetaValues`; a nil `ByName` map is `None`. */
  datatype MetaValues = MetaValues(disabled: bool, values: seq<MetaValue>, byName: Option<map<string, MetaValue>>)

  /** `Reset`: no values and an empty (non-nil) name index. */
  function Reset(mvs: MetaValues): (r: MetaValues)
    ensures IsEmpty(Some(r)) && r.byName == Some(map[])
    ensures r.disabled == mvs.disabled
  {
    mvs.(values := [], byName := Some(map[]))
  }

  /** `IsEmpty`: nil, or no values. */
  predicate IsEmpty(mvs: Option<MetaValues>) {
    mvs.None? || |mvs.value.values| == 0
  }

  /** Whether one entry leaves the collection blank. */
  predicate EntryBlank(v: MetaValue) {
    if v.nested.Some? then IsEmpty(v.nested)
    else if v.noBlank then false
    else match v.value
      case NoValue => true
      case Strs(items) => forall i :: 0 <= i < |items| ==> items[i] == ""
      case Str(s) => s == ""
      case Other(blank) => blank
  }

  /** The loop of `IsBlank` over the entries from `i` on. */
  function BlankFrom(values: seq<MetaValue>, i: nat): (r: bool)
    requires i <= |values|
    decreases |values| - i
  {
    if i == |values| then true
    else if values[i].nested.Some? then
      if !IsEmpty(values[i].nested) then false else BlankFrom(values, i + 1)
    else if values[i].noBlank then false
    else if values[i].value.NoValue? then BlankFrom(values, i + 1)
    else if values[i].value.Strs? then
      if StringsBlank(values[i].value.items) then BlankFrom(values, i + 1) else false
    else if values[i].value.Str? then
      if values[i].value.s != "" then false else BlankFrom(values, i + 1)
    else if !values[i].value.blank then false
    else BlankFrom(values, i + 1)
  }

  /** The inner loop over a `[]string`. */
  function StringsBlank(items: seq<string>): (r: bool)
    ensures r <==> forall i :: 0 <= i < |items| ==> items[i] == ""
  {
    if |items| == 0 then true
    else if items[0] != "" then false
    else StringsBlank(items[1..])
  }

  /** `IsBlank`. */
  function IsBlank(mvs: Option<MetaValues>): (r: bool)
    ensures IsEmpty(mvs) ==> r
  {
    if IsEmpty(mvs) then true else BlankFrom(mvs.value.values, 0)
  }

  lemma {:induction false} BlankFromAll(values: seq<MetaValue>, i: nat)
    requires i <= |values|
    ensures BlankFrom(values, i) <==> forall k :: i <= k < |values| ==> EntryBlank(values[k])
    decreases |values| - i
  {
    if i < |values| {
      BlankFromAll(values, i + 1);
    }
  }

  /** The collection is blank exactly when every entry is: no non-empty
      nested values, no `NoBlank`, no non-empty string. */
  lemma IsBlankAll(mvs: Option<MetaValues>)
    ensures IsBlank(mvs) <==> IsEmpty(mvs) || forall k :: 0 <= k < |mvs.value.values| ==> EntryBlank(mvs.value.values[k])
  {
    if !IsEmpty(mvs) {
      BlankFromAll(mvs.value.values, 0);
    }
  }

  /** `Get`: the first value with the name. */
  function Get(mvs: MetaValues, name: string): (r: Option<MetaValue>)
    ensures r.None? <==> forall i :: 0 <= i < |mvs.values| ==> mvs.values[i].name != name
    ensures r.Some? ==> exists i :: 0 <= i < |mvs.values| && mvs.values[i] == r.value && FirstNamed(mvs.values, name, i)
  {
    FindFirst(mvs.values, name, 0)
  }

  /** Position `i` holds the first value with the name. */
  predicate FirstNamed(values: seq<MetaValue>, name: string, i: int)
    requires 0 <= i < |values|
  {
    values[i].name == name && forall j :: 0 <= j < i ==> values[j].name != name
  }

  function FindFirst(values: seq<MetaValue>, name: string, i: nat): (r: Option<MetaValue>)
    requires i <= |values|
    requires forall j :: 0 <= j < i ==> values[j].name != name
    ensures r.None? <==> forall j :: i <= j < |values| ==> values[j].name != name
    ensures r.Some? ==> exists j :: i <= j < |values| && values[j] == r.value && FirstNamed(values, name, j)
    decreases |values| - i
  {
    if i == |values| then None
    else if values[i].name == name then
      assert FirstNamed(values, name, i);
      Some(values[i])
    else FindFirst(values, name, i + 1)
  }

  /** `FirstStringValue` asserts a `[]string` and takes its first element;
      anything else panics. */
  predicate FirstStringDefined(v: MetaValue) {
    v.value.NoValue? || (v.value.Strs? && |v.value.items| > 0)
  }

  function FirstStringValue(v: MetaValue): (r: string)
    requires FirstStringDefined(v)
    ensures v.value.NoValue? ==> r == ""
    ensures v.value.Strs? ==> r == v.value.items[0]
  {
    if v.value.NoValue? then "" else v.value.items[0]
  }

  /** `GetString`: the first string of the first value with the name. */
  function GetString(mvs: MetaValues, name: string): (r: string)
    requires Get(mvs, name).Some? ==> FirstStringDefined(Get(mvs, name).value)
    ensures Get(mvs, name).None? ==> r == ""
    ensures Get(mvs, name).Some? ==> r == FirstStringValue(Get(mvs, name).value)
  {
    match Get(mvs, name)
    case None => ""
    case Some(v) => FirstStringValue(v)
  }

  /** `Add`: the values are appended in order, and the name index points
      at the latest value of each name. */
  function Add(mvs: MetaValues, added: seq<MetaValue>): (r: MetaValues)
    ensures r.values == mvs.values + added
    ensures r.byName.Some? && r.disabled == mvs.disabled
    ensures forall i :: 0 <= i < |added| ==> added[i].name in r.byName.value
    decreases |added|
  {
    if |added| == 0 then mvs.(byName := Some(mvs.byName.GetOr(map[])))
    else
      var last := added[|added| - 1];
      var prev := Add(mvs, added[..|added| - 1]);
      assert added == added[..|added| - 1] + [last];
      prev.(values := prev.values + [last], byName := Some(prev.byName.value[last.name := last]))
  }

  /** After `Add`, the name index holds the last added value of a name,
      and keeps its old entry for names not added. */
  lemma {:induction false} AddIndexesLatest(mvs: MetaValues, added: seq<MetaValue>, name: string)
    ensures var r := Add(mvs, added);
            (forall i :: 0 <= i < |added| ==> added[i].name != name) ==>
              (name in r.byName.value <==> mvs.byName.Some? && name in mvs.byName.value) &&
              (name in r.byName.value ==> r.byName.value[name] == mvs.byName.value[name])
    ensures var r := Add(mvs, added);
            forall i :: 0 <= i < |added| && added[i].name == name && (forall j :: i < j < |added| ==> added[j].name != name) ==>
              r.byName.value[name] == added[i]
  {
    if forall i :: 0 <= i < |added| ==> added[i].name != name {
      AddKeepsOthers(mvs, added, name);
    }
    forall i | 0 <= i < |added| && added[i].name == name && (forall j :: i < j < |added| ==> added[j].name != name)
      ensures Add(mvs, added).byName.value[name] == added[i]
    {
      AddIndexesLast(mvs, added, name, i);
    }
  }

  lemma {:induction false} AddKeepsOthers(mvs: MetaValues, added: seq<MetaValue>, name: string)
    requires forall i :: 0 <= i < |added| ==> added[i].name != name
    ensures var r := Add(mvs, added);
            (name in r.byName.value <==> mvs.byName.Some? && name in mvs.byName.value) &&
            (name in r.byName.value ==> r.byName.value[name] == mvs.byName.value[name])
    decreases |added|
  {
    if |added| > 0 {
      var n := |added| - 1;
      assert forall i :: 0 <= i < n ==> added[..n][i] == added[i];
      AddKeepsOthers(mvs, added[..n], name);
      assert added[n].name != name;
    }
  }

  lemma {:induction false} AddIndexesLast(mvs: MetaValues, added: seq<MetaValue>, name: string, i: nat)
    requires i < |added| && added[i].name == name
    requires forall j :: i < j < |added| ==> added[j].name != name
    ensures Add(mvs, added).byName.value[name] == added[i]
    decreases |added|
  {
    var n := |added| - 1;
    if i < n {
      assert forall j :: i < j < n ==> added[..n][j] == added[j];
      AddIndexesLast(mvs, added[..n], name, i);
      assert added[n].name != name;
    }
  }

  /** `Get` and the name index disagree when a name repeats: `Get` finds
      the first value, the index the latest. */
  lemma GetFirstIndexLast(a: MetaValue, b: MetaValue)
    requires a.name == b.name && a != b
    ensures var r := Add(MetaValues(false, [], None), [a, b]);
            Get(r, a.name) == Some(a) && r.byName.value[a.name] == b
  {
    var r := Add(MetaValues(false, [], None), [a, b]);
    assert r.values == [a, b];
    AddIndexesLatest(MetaValues(false, [], None), [a, b], a.name);
  }

  /** The first value, in order, whose meta disables the sibling check. */
  function Decider(values: seq<MetaValue>): (r: Option<MetaValue>)
    ensures r.Some? ==> r.value in values && r.value.meta.Some? && r.value.meta.value.siblingCheck != CheckAlways
    ensures r.None? ==> forall i :: 0 <= i < |values| ==> values[i].meta.None? || values[i].meta.value.siblingCheck == CheckAlways
  {
    if |values| == 0 then None
    else if values[0].meta.Some? && values[0].meta.value.siblingCheck != CheckAlways then Some(values[0])
    else
      var r := Decider(values[1..]);
      assert forall i :: 1 <= i < |values| ==> values[i] == values[1..][i - 1];
      r
  }

  /** `IsRequirementCheck` reads the deciding value's first string, which
      must be defined. */
  predicate RequirementCheckDefined(mvs: MetaValues) {
    Decider(mvs.values).Some? ==> FirstStringDefined(Decider(mvs.values).value)
  }

  /** A single value whose meta stands alone. */
  predicate SingleAlone(mvs: MetaValues) {
    |mvs.values| == 1 && mvs.values[0].meta.Some? && mvs.values[0].meta.value.alone
  }

  /** `IsRequirementCheck`: whether required values must be present. */
  function IsRequirementCheck(mvs: MetaValues): (r: bool)
    requires RequirementCheckDefined(mvs)
    ensures mvs.disabled || |mvs.values| == 0 ==> !r
    ensures SingleAlone(mvs) ==> !r
    ensures !mvs.disabled && |mvs.values| > 0 && !SingleAlone(mvs) && Decider(mvs.values).None? ==> r
  {
    if mvs.disabled || |mvs.values| == 0 then false
    else if SingleAlone(mvs) then false
    else match Decider(mvs.values)
      case None => true
      case Some(v) =>
        var s := FirstStringValue(v);
        if v.meta.value.siblingCheck == DisabledOnTrue then s == "true" || s == "on"
        else s == "false" || s == "no"
  }

  /** `CheckRequirement`: under a requirement check, the names of the
      required, non-proxy metas without a requirer that have no value.
      `None` is a nil error. */
  function CheckRequirement(mvs: MetaValues, metas: seq<Meta>): (r: Option<seq<string>>)
    requires RequirementCheckDefined(mvs)
    ensures !IsRequirementCheck(mvs) ==> r.None?
    ensures r.Some? ==> |r.value| > 0
    ensures r.Some? ==> forall x :: x in r.value ==> exists m :: m in metas && m.name == x && Missing(mvs, m)
    ensures IsRequirementCheck(mvs) && (exists m :: m in metas && Missing(mvs, m)) ==> r.Some?
  {
    if !IsRequirementCheck(mvs) then None
    else
      var missing := MissingNames(mvs, metas);
      assert (exists m :: m in metas && Missing(mvs, m)) ==> |missing| > 0 by {
        if exists m :: m in metas && Missing(mvs, m) {
          var m :| m in metas && Missing(mvs, m);
          assert m.name in missing;
        }
      }
      if |missing| > 0 then Some(missing) else None
  }

  predicate Missing(mvs: MetaValues, m: Meta) {
    !m.proxier && (mvs.byName.None? || m.name !in mvs.byName.value) && !m.hasRecordRequirer && m.required
  }

  function MissingNames(mvs: MetaValues, metas: seq<Meta>): (r: seq<string>)
    ensures forall x :: x in r <==> exists m :: m in metas && m.name == x && Missing(mvs, m)
  {
    if |metas| == 0 then []
    else
      var rest := MissingNames(mvs, metas[1..]);
      assert forall m :: m in metas <==> m == metas[0] || m in metas[1..];
      (if Missing(mvs, metas[0]) then [metas[0].name] else []) + rest
  }

  // ---------------------------------------------------------------------
  // One value

  /** The names on the way out from a value: the value's own name, its
      parent's, and so on up to the root. */
  type Chain = seq<string>

  /** The names up to the first unnamed ancestor, outermost first. */
  function Named(chain: Chain): (r: seq<string>)
    ensures |r| <= |chain|
    ensures forall i :: 0 <= i < |r| ==> r[i] != ""
  {
    if |chain| == 0 || chain[0] == "" then [] else Named(chain[1..]) + [chain[0]]
  }

  /** `Path`: the names from the outermost named ancestor down to the
      value, joined with dots. */
  function Path(chain: Chain): (r: string)
    ensures |chain| == 0 || chain[0] == "" ==> r == ""
  {
    Text.Join(Named(chain), ".")
  }

  /** A value whose whole chain is named joins every name, outermost first. */
  lemma {:induction false} PathAllNamed(chain: Chain)
    requires forall i :: 0 <= i < |chain| ==> chain[i] != ""
    ensures |Named(chain)| == |chain|
    ensures forall i :: 0 <= i < |chain| ==> Named(chain)[i] == chain[|chain| - 1 - i]
  {
    if |chain| > 0 {
      PathAllNamed(chain[1..]);
    }
  }

  lemma PathExample()
    ensures Path(["name", "1", "items", "", "root"]) == "items.1.name"
  {
    var c := ["name", "1", "items", "", "root"];
    assert c[1..][1..][1..][0] == "";
    assert Named(c[1..][1..][1..]) == [];
    assert Named(c) == ["items", "1", "name"];
    assert Text.Join(["name"], ".") == "name";
    assert ["items", "1", "name"][1..] == ["1", "name"];
    assert ["1", "name"][1..] == ["name"];
  }

  /** `StringValue`: a string, the last element of a non-empty `[]string`,
      or `""`. */
  function StringValue(v: MetaValue): (r: string)
    ensures v.value.Str? ==> r == v.value.s
    ensures v.value.Strs? && |v.value.items| > 0 ==> r == v.value.items[|v.value.items| - 1]
    ensures r != "" ==> v.value.Str? || (v.value.Strs? && r in v.value.items)
  {
    match v.value
    case Str(s) => s
    case Strs(items) => if |items| > 0 then items[|items| - 1] else ""
    case _ => ""
  }

  /** One callback of `EachQueryVal`: the enclosing names, the value's
      name and one value. */
  datatype QueryVal = QueryVal(prefix: seq<string>, name: string, value: Raw)

  /** `EachQueryVal`: the callbacks in order. A nested value passes its own
      name down as part of the prefix; a `[]string` gives one callback per
      string; any other non-nil value gives one callback. */
  function EachQueryVal(v: MetaValue, prefix: seq<string>): (r: seq<QueryVal>)
    ensures v.nested.None? && v.value.Strs? ==> |r| == |v.value.items|
    ensures v.nested.None? && v.value.Strs? ==>
              forall i :: 0 <= i < |r| ==> r[i] == QueryVal(prefix, v.name, Str(v.value.items[i]))
    ensures v.nested.None? && v.value.NoValue? ==> r == []
    ensures v.nested.None? && (v.value.Str? || v.value.Other?) ==> r == [QueryVal(prefix, v.name, v.value)]
    decreases v, 1
  {
    match v.nested
    case Some(mvs) => EachAll(mvs.values, prefix + [v.name])
    case None =>
      match v.value
      case NoValue => []
      case Strs(items) => seq(|items|, i requires 0 <= i < |items| => QueryVal(prefix, v.name, Str(items[i])))
      case _ => [QueryVal(prefix, v.name, v.value)]
  }

  function EachAll(values: seq<MetaValue>, prefix: seq<string>): (r: seq<QueryVal>)
    decreases values, 0
  {
    if |values| == 0 then [] else EachQueryVal(values[0], prefix) + EachAll(values[1..], prefix)
  }

  /** Every callback's prefix extends the prefix passed in. */
  lemma {:induction false} EachQueryValPrefix(v: MetaValue, prefix: seq<string>)
    ensures forall q :: q in EachQueryVal(v, prefix) ==> |q.prefix| >= |prefix| && q.prefix[..|prefix|] == prefix
    ensures v.nested.Some? ==> forall q :: q in EachQueryVal(v, prefix) ==> |q.prefix| > |prefix| && q.prefix[|prefix|] == v.name
    decreases v, 1
  {
    if v.nested.Some? {
      EachAllPrefix(v.nested.value.values, prefix + [v.name]);
      forall q | q in EachQueryVal(v, prefix)
        ensures |q.prefix| > |prefix| && q.prefix[..|prefix|] == prefix && q.prefix[|prefix|] == v.name
      {
        assert q.prefix[..|prefix| + 1] == prefix + [v.name];
        assert q.prefix[..|prefix|] == q.prefix[..|prefix| + 1][..|prefix|];
      }
    }
  }

  lemma {:induction false} EachAllPrefix(values: seq<MetaValue>, prefix: seq<string>)
    ensures forall q :: q in EachAll(values, prefix) ==> |q.prefix| >= |prefix| && q.prefix[..|prefix|] == prefix
    decreases values, 0
  {
    if |values| > 0 {
      EachQueryValPrefix(values[0], prefix);
      EachAllPrefix(values[1..], prefix);
    }
  }
}
