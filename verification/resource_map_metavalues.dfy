/** `resource/schema_map_to_metavalues.go`: turning a decoded JSON object
    into a tree of named values, with `meta_value.go`'s `Add`. */
module MapToMetaValues {
  import opened Wrappers
  import opened ResourceMetaValue

  /** A decoded JSON value: a string, another scalar (with what the blank
      test answers for it), an object as its entries in iteration order, or
      a list. */
  datatype Json =
    | JStr(s: string)
    | JScalar(blank: bool)
    | JObj(entries: seq<(string, Json)>)
    | JList(items: seq<Json>)

  /** The number of JSON nodes, for termination. */
  function Size(j: Json): (r: nat)
    ensures r >= 1
    decreases j, 1
  {
    match j
    case JObj(es) => 1 + EntriesSize(j, es)
    case JList(items) => 1 + ItemsSize(items)
    case _ => 1
  }

  function EntriesSize(owner: Json, es: seq<(string, Json)>): nat
    requires forall i :: 0 <= i < |es| ==> es[i].1 < owner
    decreases owner, 0, |es|
  {
    if |es| == 0 then 0 else 1 + Size(es[0].1) + EntriesSize(owner, es[1..])
  }

  /** The size of an object's entries. */
  function ObjSize(es: seq<(string, Json)>): (r: nat)
    ensures Size(JObj(es)) == 1 + r
  {
    EntriesSize(JObj(es), es)
  }

  function ItemsSize(items: seq<Json>): nat {
    if |items| == 0 then 0 else Size(items[0]) + ItemsSize(items[1..])
  }

  lemma {:induction false} EntryShorter(owner: Json, es: seq<(string, Json)>, i: nat)
    requires forall k :: 0 <= k < |es| ==> es[k].1 < owner
    requires i < |es|
    ensures Size(es[i].1) < EntriesSize(owner, es)
  {
    if i > 0 {
      EntryShorter(owner, es[1..], i - 1);
    }
  }

  lemma {:induction false} ItemShorter(items: seq<Json>, i: nat)
    requires i < |items|
    ensures Size(items[i]) <= ItemsSize(items)
  {
    if i > 0 {
      ItemShorter(items[1..], i - 1);
    }
  }

  /** What a value holding the JSON keeps: a list held whole is an opaque
      value, blank when it is empty. */
  function RawOf(j: Json): (r: Raw)
    ensures j.JStr? ==> r == Str(j.s)
    ensures !j.JStr? ==> r.Other?
  {
    match j
    case JStr(s) => Str(s)
    case JScalar(blank) => Other(blank)
    case JObj(_) => Other(false)
    case JList(items) => Other(|items| == 0)
  }

  /** `metaorMap[key]`: the last meta of that name. */
  function MetaNamed(metas: seq<Meta>, name: string): (r: Option<Meta>)
    ensures r.Some? ==> r.value in metas && r.value.name == name
    ensures r.None? <==> forall m :: m in metas ==> m.name != name
  {
    if |metas| == 0 then None
    else
      var last := metas[|metas| - 1];
      var init := metas[..|metas| - 1];
      assert metas == init + [last];
      if last.name == name then Some(last) else MetaNamed(init, name)
  }

  /** The conversion's inputs that stay fixed: `GetContextMetas` of a
      meta, and `CheckRequirement` on the values built (its missing names,
      `None` for a nil error). `shared` selects the code as written, where
      the nested metas of the last key that had a meta carry over to later
      keys without one. */
  datatype Env = Env(contextMetas: Meta -> seq<Meta>, requirement: (MetaValues, seq<Meta>) -> Option<seq<string>>, shared: bool)

  /** The values built so far and the captured `childMetaors`. */
  datatype State = State(mvs: MetaValues, childMetas: seq<Meta>)

  /** `convertMapToMetaValues`: the values, or the requirement errors. */
  function Convert(env: Env, entries: seq<(string, Json)>, metas: seq<Meta>): (r: Result<MetaValues, seq<string>>)
    ensures r.Err? ==> env.requirement(Entries(env, entries, metas, 0, State(MetaValues(false, [], None), [])).mvs, metas) == Some(r.error)
    ensures r.Ok? ==> env.requirement(r.value, metas).None?
    decreases ObjSize(entries), 2, 0
  {
    var st := Entries(env, entries, metas, 0, State(MetaValues(false, [], None), []));
    match env.requirement(st.mvs, metas)
    case Some(missing) => Err(missing)
    case None => Ok(st.mvs)
  }

  /** The loop over the entries, in iteration order. */
  function Entries(env: Env, entries: seq<(string, Json)>, metas: seq<Meta>, i: nat, st: State): (r: State)
    requires i <= |entries|
    ensures |r.mvs.values| >= |st.mvs.values| && r.mvs.values[..|st.mvs.values|] == st.mvs.values
    decreases ObjSize(entries), 1, |entries| - i
  {
    if i == |entries| then st
    else
      EntryShorter(JObj(entries), entries, i);
      var st1 := NewValue(env, entries[i].0, entries[i].1, metas, st);
      Entries(env, entries, metas, i + 1, st1)
  }

  /** The nested metas used for a key's children. */
  function ChildMetas(env: Env, meta: Option<Meta>, st: State): (r: seq<Meta>)
    ensures meta.Some? ==> r == env.contextMetas(meta.value)
    ensures meta.None? && !env.shared ==> r == []
  {
    if meta.Some? then env.contextMetas(meta.value)
    else if env.shared then st.childMetas
    else []
  }

  /** `newMetaValue` for one entry. */
  function NewValue(env: Env, key: string, value: Json, metas: seq<Meta>, st: State): (r: State)
    ensures |r.mvs.values| >= |st.mvs.values| && r.mvs.values[..|st.mvs.values|] == st.mvs.values
    ensures value.JStr? || value.JScalar? ==>
              r.mvs == Add(st.mvs, [MetaValue(key, RawOf(value), 0, None, MetaNamed(metas, key), false)])
    ensures value.JObj? ==>
              var meta := MetaNamed(metas, key);
              match Convert(env, value.entries, ChildMetas(env, meta, st))
              case Ok(children) => r.mvs == Add(st.mvs, [MetaValue(key, NoValue, 0, Some(children), meta, false)])
              case Err(_) => r.mvs == st.mvs
    ensures value.JList? ==> r.mvs.byName == st.mvs.byName
    ensures forall k :: |st.mvs.values| <= k < |r.mvs.values| ==> r.mvs.values[k].name == key
    decreases Size(value), 1, 0
  {
    var meta := MetaNamed(metas, key);
    match value
    case JObj(es) =>
      var child := ChildMetas(env, meta, st);
      var st1 := st.(childMetas := child);
      (match Convert(env, es, child)
       case Ok(children) => st1.(mvs := AddOne(st.mvs, MetaValue(key, NoValue, 0, Some(children), meta, false)))
       case Err(_) => st1)
    case JList(items) => ListValues(env, key, value, items, 0, meta, st)
    case _ => st.(mvs := AddOne(st.mvs, MetaValue(key, RawOf(value), 0, None, meta, false)))
  }

  function AddOne(mvs: MetaValues, v: MetaValue): (r: MetaValues)
    ensures r == Add(mvs, [v])
    ensures r.values == mvs.values + [v] && r.byName.Some? && r.byName.value[v.name] == v
  {
    assert [v][..0] == [];
    Add(mvs, [v])
  }

  /** Appending directly, as the list branch does: the name index is not
      touched. */
  function Append(mvs: MetaValues, v: MetaValue): (r: MetaValues)
    ensures r.values == mvs.values + [v] && r.byName == mvs.byName && r.disabled == mvs.disabled
  {
    mvs.(values := mvs.values + [v])
  }

  /** A value the list branch added: an object element at its position
      from `idx` on, or the whole list with index 0. */
  predicate HeldOrElement(v: MetaValue, list: Json, items: seq<Json>, idx: nat) {
    (idx <= v.index < |items| && items[v.index].JObj? && v.value == NoValue && v.nested.Some?) ||
    (v.index == 0 && v.value == RawOf(list) && v.nested.None?)
  }

  /** The list branch from element `idx` on: each object element becomes a
      value with its position as index, dropped if its conversion fails;
      the first other element becomes one value holding the whole list and
      ends the scan. */
  function ListValues(env: Env, key: string, list: Json, items: seq<Json>, idx: nat,
                      meta: Option<Meta>, st: State): (r: State)
    requires list == JList(items) && idx <= |items|
    ensures |r.mvs.values| >= |st.mvs.values| && r.mvs.values[..|st.mvs.values|] == st.mvs.values
    ensures r.mvs.byName == st.mvs.byName
    ensures forall k :: |st.mvs.values| <= k < |r.mvs.values| ==>
              r.mvs.values[k].name == key && r.mvs.values[k].meta == meta &&
              HeldOrElement(r.mvs.values[k], list, items, idx)
    decreases Size(list), 0, |items| - idx
  {
    if idx == |items| then st
    else
      var item := items[idx];
      ItemShorter(items, idx);
      match item
      case JObj(es) =>
        var child := ChildMetas(env, meta, st);
        var st1 := st.(childMetas := child);
        var st2 := match Convert(env, es, child)
          case Ok(children) => st1.(mvs := Append(st.mvs, MetaValue(key, NoValue, idx, Some(children), meta, false)))
          case Err(_) => st1;
        ListValues(env, key, list, items, idx + 1, meta, st2)
      case _ => st.(mvs := Append(st.mvs, MetaValue(key, RawOf(list), 0, None, meta, false)))
  }

  /** From position `n` on, `count` values carry the indices `idx`,
      `idx + 1`, and so on. */
  predicate IndexedFrom(values: seq<MetaValue>, n: nat, idx: nat, count: nat) {
    n + count <= |values| && forall p :: n <= p < n + count ==> values[p].index == idx + (p - n)
  }

  /** A list of objects that all convert gives one value per element, in
      order, each with its position as index. */
  lemma {:induction false} ListOfObjects(env: Env, key: string, list: Json, items: seq<Json>, idx: nat, meta: Option<Meta>, st: State)
    requires list == JList(items) && idx <= |items|
    requires forall i :: idx <= i < |items| ==> items[i].JObj? && Convert(env, items[i].entries, ChildMetas(env, meta, st)).Ok?
    ensures |ListValues(env, key, list, items, idx, meta, st).mvs.values| == |st.mvs.values| + |items| - idx
    ensures IndexedFrom(ListValues(env, key, list, items, idx, meta, st).mvs.values, |st.mvs.values|, idx, |items| - idx)
    decreases |items| - idx
  {
    if idx < |items| {
      var child := ChildMetas(env, meta, st);
      var children := Convert(env, items[idx].entries, child).value;
      var added := MetaValue(key, NoValue, idx, Some(children), meta, false);
      var st2 := State(Append(st.mvs, added), child);
      assert ChildMetas(env, meta, st2) == child;
      ListOfObjects(env, key, list, items, idx + 1, meta, st2);
      var r := ListValues(env, key, list, items, idx, meta, st);
      ListObjectStep(env, key, list, items, idx, meta, st, added, st2);
      var n := |st.mvs.values|;
      assert r.mvs.values[..n + 1] == st2.mvs.values;
      assert r.mvs.values[n] == st2.mvs.values[n] == added;
      IndexedCons(r.mvs.values, n, idx, |items| - idx);
    }
  }

  /** One object element that converts: the scan goes on with the value
      appended. */
  lemma ListObjectStep(env: Env, key: string, list: Json, items: seq<Json>, idx: nat, meta: Option<Meta>, st: State,
                       added: MetaValue, st2: State)
    requires list == JList(items) && idx < |items| && items[idx].JObj?
    requires Convert(env, items[idx].entries, ChildMetas(env, meta, st)).Ok?
    requires added == MetaValue(key, NoValue, idx, Some(Convert(env, items[idx].entries, ChildMetas(env, meta, st)).value), meta, false)
    requires st2 == State(Append(st.mvs, added), ChildMetas(env, meta, st))
    ensures ListValues(env, key, list, items, idx, meta, st) == ListValues(env, key, list, items, idx + 1, meta, st2)
  {
  }

  lemma IndexedCons(values: seq<MetaValue>, n: nat, idx: nat, count: nat)
    requires count > 0 && n < |values| && values[n].index == idx && IndexedFrom(values, n + 1, idx + 1, count - 1)
    ensures IndexedFrom(values, n, idx, count)
  {
  }

  // ---------------------------------------------------------------------
  // The carried-over nested metas

  /** The conversion as written: `childMetaors` is shared by all keys. */
  function ConvertAsWritten(contextMetas: Meta -> seq<Meta>, requirement: (MetaValues, seq<Meta>) -> Option<seq<string>>,
                            entries: seq<(string, Json)>, metas: seq<Meta>): (r: Result<MetaValues, seq<string>>)
    ensures r.Ok? ==> requirement(r.value, metas).None?
  {
    Convert(Env(contextMetas, requirement, true), entries, metas)
  }

  /** The conversion as intended: a key without a meta converts its
      children against no metas. */
  function ConvertMap(contextMetas: Meta -> seq<Meta>, requirement: (MetaValues, seq<Meta>) -> Option<seq<string>>,
                      entries: seq<(string, Json)>, metas: seq<Meta>): (r: Result<MetaValues, seq<string>>)
    ensures r.Ok? ==> requirement(r.value, metas).None?
  {
    Convert(Env(contextMetas, requirement, false), entries, metas)
  }

  /** Intended: what an entry adds does not depend on the nested metas
      earlier entries used. */
  lemma EntryIndependent(env: Env, key: string, value: Json, metas: seq<Meta>, mvs: MetaValues, c1: seq<Meta>, c2: seq<Meta>)
    requires !env.shared
    ensures NewValue(env, key, value, metas, State(mvs, c1)).mvs == NewValue(env, key, value, metas, State(mvs, c2)).mvs
  {
    if value.JList? {
      ListIndependent(env, key, value, value.items, 0, MetaNamed(metas, key), mvs, c1, c2);
    }
  }

  lemma {:induction false} ListIndependent(env: Env, key: string, list: Json, items: seq<Json>, idx: nat, meta: Option<Meta>,
                                           mvs: MetaValues, c1: seq<Meta>, c2: seq<Meta>)
    requires !env.shared && list == JList(items) && idx <= |items|
    ensures ListValues(env, key, list, items, idx, meta, State(mvs, c1)).mvs == ListValues(env, key, list, items, idx, meta, State(mvs, c2)).mvs
    decreases |items| - idx
  {
    if idx < |items| && items[idx].JObj? {
      var child := ChildMetas(env, meta, State(mvs, c1));
      assert child == ChildMetas(env, meta, State(mvs, c2));
      var mvs2 := match Convert(env, items[idx].entries, child)
        case Ok(children) => Append(mvs, MetaValue(key, NoValue, idx, Some(children), meta, false))
        case Err(_) => mvs;
      ListIndependent(env, key, list, items, idx + 1, meta, mvs2, child, child);
    }
  }

  const MetaA := Meta("a", false, CheckAlways, false, false, false)
  const MetaX := Meta("x", false, CheckAlways, true, false, false)

  /** `CheckRequirement` as the conversion runs it: the exemptions of
      `IsRequirementCheck` first, then the missing metas. A deciding value
      whose first string cannot be read panics in the source; the check
      reports nothing there. */
  function Required(mvs: MetaValues, metas: seq<Meta>): (r: Option<seq<string>>)
    ensures !RequirementCheckDefined(mvs) ==> r.None?
    ensures RequirementCheckDefined(mvs) && !IsRequirementCheck(mvs) ==> r.None?
    ensures RequirementCheckDefined(mvs) && IsRequirementCheck(mvs) ==>
              (r.Some? <==> exists m :: m in metas && Missing(mvs, m))
  {
    if RequirementCheckDefined(mvs) then
      var r := CheckRequirement(mvs, metas);
      assert r.Some? ==> r.value[0] in r.value;
      r
    else None
  }

  /** Metas none of which is required never fail the check. */
  lemma NoneRequired(mvs: MetaValues, metas: seq<Meta>)
    requires forall m :: m in metas ==> !m.required
    ensures Required(mvs, metas).None?
  {
  }

  /** The nested metas of the example: every meta nests a required `x`. */
  function NestsX(m: Meta): seq<Meta> { [MetaX] }

  const NoState := State(MetaValues(false, [], None), [])
  const XValue := MetaValue("x", Str("1"), 0, None, Some(MetaX), false)
  const YValue := MetaValue("y", Str("2"), 0, None, None, false)
  const CarriedEntries := [("a", JObj([("x", JStr("1"))])), ("b", JObj([("y", JStr("2"))]))]

  /** `{"x": "1"}` against the metas `[x]` gives the one value `x`. */
  lemma InnerHasX(shared: bool)
    ensures Convert(Env(NestsX, Required, shared), [("x", JStr("1"))], [MetaX]) == Ok(AddOne(NoState.mvs, XValue))
  {
    var env := Env(NestsX, Required, shared);
    var mvs := AddOne(NoState.mvs, XValue);
    assert MetaNamed([MetaX], "x") == Some(MetaX);
    assert Entries(env, [("x", JStr("1"))], [MetaX], 0, NoState).mvs == mvs;
    assert mvs.values == [XValue];
    assert Decider(mvs.values).None? by {
      assert Decider(mvs.values[1..]).None?;
    }
    assert !Missing(mvs, MetaX);
    assert MissingNames(mvs, [MetaX]) == [];
  }

  /** `{"y": "2"}` fails against the metas `[x]`, whose `x` it lacks, and
      passes against none. */
  lemma YMissesX()
    ensures Convert(Env(NestsX, Required, true), [("y", JStr("2"))], [MetaX]).Err?
    ensures Convert(Env(NestsX, Required, false), [("y", JStr("2"))], []) == Ok(AddOne(NoState.mvs, YValue))
  {
    var mvs := AddOne(NoState.mvs, YValue);
    assert MetaNamed([MetaX], "y") == None;
    assert MetaNamed([], "y") == None;
    assert Entries(Env(NestsX, Required, true), [("y", JStr("2"))], [MetaX], 0, NoState).mvs == mvs;
    assert Entries(Env(NestsX, Required, false), [("y", JStr("2"))], [], 0, NoState).mvs == mvs;
    assert mvs.values == [YValue];
    assert Decider(mvs.values).None? by {
      assert Decider(mvs.values[1..]).None?;
    }
    assert IsRequirementCheck(mvs);
    assert Missing(mvs, MetaX);
    assert MissingNames(mvs, [MetaX]) == ["x"];
    assert MissingNames(mvs, []) == [];
  }

  /** The loop over two entries is one step for each. */
  lemma EntriesTwo(env: Env, entries: seq<(string, Json)>, metas: seq<Meta>, st: State)
    requires |entries| == 2
    ensures Entries(env, entries, metas, 0, st)
         == NewValue(env, entries[1].0, entries[1].1, metas, NewValue(env, entries[0].0, entries[0].1, metas, st))
  {
    var st1 := NewValue(env, entries[0].0, entries[0].1, metas, st);
    var st2 := NewValue(env, entries[1].0, entries[1].1, metas, st1);
    assert Entries(env, entries, metas, 2, st2) == st2;
  }

  const AValue := MetaValue("a", NoValue, 0, Some(AddOne(NoState.mvs, XValue)), Some(MetaA), false)
  const BValue := MetaValue("b", NoValue, 0, Some(AddOne(NoState.mvs, YValue)), None, false)
  const AfterA := State(AddOne(NoState.mvs, AValue), [MetaX])

  /** `a` has its meta, whose nested `x` it holds: it is kept, and its
      nested metas are captured. */
  lemma StepA(env: Env)
    requires env == Env(NestsX, Required, env.shared)
    ensures NewValue(env, "a", JObj([("x", JStr("1"))]), [MetaA], NoState) == AfterA
  {
    InnerHasX(env.shared);
    assert MetaNamed([MetaA], "a") == Some(MetaA);
  }

  /** As written, `b` is checked against the captured `[x]` and dropped. */
  lemma StepBShared()
    ensures NewValue(Env(NestsX, Required, true), "b", JObj([("y", JStr("2"))]), [MetaA], AfterA) == AfterA
  {
    YMissesX();
    assert MetaNamed([MetaA], "b") == None;
  }

  /** As intended, `b` is checked against no metas and kept. */
  lemma StepBOwn()
    ensures NewValue(Env(NestsX, Required, false), "b", JObj([("y", JStr("2"))]), [MetaA], AfterA).mvs
         == AddOne(AfterA.mvs, BValue)
  {
    YMissesX();
    assert MetaNamed([MetaA], "b") == None;
  }

  /** As written, `b` inherits `a`'s nested metas and is dropped. */
  lemma CarriedShared()
    ensures var r := ConvertAsWritten(NestsX, Required, CarriedEntries, [MetaA]); r.Ok? && |r.value.values| == 1
  {
    var env := Env(NestsX, Required, true);
    EntriesTwo(env, CarriedEntries, [MetaA], NoState);
    StepA(env);
    StepBShared();
    NoneRequired(AfterA.mvs, [MetaA]);
  }

  /** As intended, `b` converts against no metas and is kept. */
  lemma CarriedOwn()
    ensures var r := ConvertMap(NestsX, Required, CarriedEntries, [MetaA]); r.Ok? && |r.value.values| == 2
  {
    var env := Env(NestsX, Required, false);
    EntriesTwo(env, CarriedEntries, [MetaA], NoState);
    StepA(env);
    StepBOwn();
    NoneRequired(AddOne(AfterA.mvs, BValue), [MetaA]);
  }

  /** Two objects: `a`, whose meta nests a required `x` and which has it,
      and `b`, which has no meta and holds only `y`. As written `b` is
      checked against `a`'s nested metas, misses `x`, and is dropped; as
      intended it is kept. */
  lemma CarriedMetasDropValue()
    ensures ConvertAsWritten(NestsX, Required, CarriedEntries, [MetaA]).Ok?
    ensures |ConvertAsWritten(NestsX, Required, CarriedEntries, [MetaA]).value.values| == 1
    ensures ConvertMap(NestsX, Required, CarriedEntries, [MetaA]).Ok?
    ensures |ConvertMap(NestsX, Required, CarriedEntries, [MetaA]).value.values| == 2
  {
    CarriedShared();
    CarriedOwn();
  }
}
