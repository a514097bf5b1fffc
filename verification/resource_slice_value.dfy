/** `resource/slice_value.go`: a list value made of the current elements and
    the deleted ones, with the deleted records' IDs. */
module SliceValue {
  import opened Wrappers

  /** The slice value. The cached `deletedMap` is `None` until built; as a
      map to `true` it is the set of its keys. IDs are abstract: `str` is
      their `String()` and `eq` their `Eq`. */
  datatype SliceValue<T, ID> = SliceValue(current: Option<seq<T>>, deleted: Option<seq<T>>, deletedID: seq<ID>, deletedMap: Option<set<string>>)

  /** The `String()` of every deleted ID. */
  function IDStrings<ID>(ids: seq<ID>, str: ID -> string): (r: set<string>)
    ensures forall k :: k in r <==> exists i :: 0 <= i < |ids| && str(ids[i]) == k
  {
    if |ids| == 0 then {}
    else
      var rest := IDStrings(ids[1..], str);
      assert forall i :: 1 <= i < |ids| ==> ids[i] == ids[1..][i - 1];
      {str(ids[0])} + rest
  }

  /** `DeletedMap`: the cached map, built from the deleted IDs on first use. */
  function DeletedMap<T, ID>(s: SliceValue<T, ID>, str: ID -> string): (r: (SliceValue<T, ID>, set<string>))
    ensures r.0.deletedMap == Some(r.1)
    ensures r.0 == s.(deletedMap := Some(r.1))
    ensures s.deletedMap.Some? ==> r.1 == s.deletedMap.value
    ensures s.deletedMap.None? ==> forall k :: k in r.1 <==> exists i :: 0 <= i < |s.deletedID| && str(s.deletedID[i]) == k
  {
    match s.deletedMap
    case Some(m) => (s, m)
    case None =>
      var m := IDStrings(s.deletedID, str);
      (s.(deletedMap := Some(m)), m)
  }

  /** `IsDeleted`: looked up in the map once it is built, otherwise by `Eq`
      against each deleted ID. */
  function IsDeleted<T, ID>(s: SliceValue<T, ID>, id: ID, str: ID -> string, eq: (ID, ID) -> bool): (r: bool)
    ensures s.deletedMap.Some? ==> (r <==> str(id) in s.deletedMap.value)
    ensures s.deletedMap.None? ==> (r <==> exists i :: 0 <= i < |s.deletedID| && eq(s.deletedID[i], id))
  {
    if s.deletedMap.Some? then str(id) in s.deletedMap.value
    else AnyEq(s.deletedID, id, eq)
  }

  function AnyEq<ID>(ids: seq<ID>, id: ID, eq: (ID, ID) -> bool): (r: bool)
    ensures r <==> exists i :: 0 <= i < |ids| && eq(ids[i], id)
  {
    if |ids| == 0 then false
    else if eq(ids[0], id) then true
    else
      assert forall i :: 1 <= i < |ids| ==> ids[i] == ids[1..][i - 1];
      AnyEq(ids[1..], id, eq)
  }

  /** `Eq` agrees with comparing `String()`s. */
  ghost predicate EqByString<ID(!new)>(str: ID -> string, eq: (ID, ID) -> bool) {
    forall a: ID, b: ID :: eq(a, b) <==> str(a) == str(b)
  }

  /** Building the map does not change the answer, when `Eq` agrees with
      the IDs' strings. */
  lemma MapAgrees<T, ID(!new)>(s: SliceValue<T, ID>, id: ID, str: ID -> string, eq: (ID, ID) -> bool)
    requires s.deletedMap.None? && EqByString(str, eq)
    ensures IsDeleted(DeletedMap(s, str).0, id, str, eq) == IsDeleted(s, id, str, eq)
  {
    var m := DeletedMap(s, str).1;
    if str(id) in m {
      var i :| 0 <= i < |s.deletedID| && str(s.deletedID[i]) == str(id);
      assert eq(s.deletedID[i], id);
    }
  }

  /** `Len`: the current and the deleted elements, a missing part counting
      zero. */
  function Len<T, ID>(s: SliceValue<T, ID>): (r: nat)
    ensures r == |Flatten(Slices(s))|
  {
    (if s.current.Some? then |s.current.value| else 0) + (if s.deleted.Some? then |s.deleted.value| else 0)
  }

  // ---------------------------------------------------------------------
  // The iterator

  /** The iterator's slices: the current part, then the deleted part, each
      only if present. */
  function Slices<T, ID>(s: SliceValue<T, ID>): (r: seq<seq<T>>)
    ensures |r| <= 2
    ensures Flatten(r) == s.current.GetOr([]) + s.deleted.GetOr([])
  {
    var a := if s.current.Some? then [s.current.value] else [];
    var b := if s.deleted.Some? then [s.deleted.value] else [];
    FlattenAppend(a, b);
    assert s.current.Some? ==> Flatten([s.current.value]) == s.current.value + Flatten([]);
    assert s.deleted.Some? ==> Flatten([s.deleted.value]) == s.deleted.value + Flatten([]);
    a + b
  }

  function Flatten<T>(slices: seq<seq<T>>): seq<T> {
    if |slices| == 0 then [] else slices[0] + Flatten(slices[1..])
  }

  lemma {:induction false} FlattenAppend<T>(a: seq<seq<T>>, b: seq<seq<T>>)
    ensures Flatten(a + b) == Flatten(a) + Flatten(b)
  {
    if |a| > 0 {
      assert (a + b)[1..] == a[1..] + b;
      FlattenAppend(a[1..], b);
    } else {
      assert a + b == b;
    }
  }

  /** The iterator state `[slice, element, length of that slice]`; a nil
      state is `None`. */
  datatype Cursor = Cursor(slice: nat, elem: nat, len: nat)

  /** `Start`: the first element of the first slice. */
  function Start<T>(slices: seq<seq<T>>): (r: Cursor)
    ensures r.slice == 0 && r.elem == 0
    ensures |slices| > 0 ==> r.len == |slices[0]|
  {
    if |slices| == 0 then Cursor(0, 0, 0) else Cursor(0, 0, |slices[0]|)
  }

  /** `Done`: a nil state, or the slice cursor past the last slice. */
  predicate Done<T>(slices: seq<seq<T>>, st: Option<Cursor>) {
    st.None? || st.value.slice == |slices|
  }

  /** A cursor at an element that exists. */
  predicate Valid<T>(slices: seq<seq<T>>, c: Cursor) {
    c.slice < |slices| && c.elem < |slices[c.slice]| && c.len == |slices[c.slice]|
  }

  /** `Next`: the element under the cursor, and the cursor moved on,
      to the next slice after the last element of one. */
  function Next<T>(slices: seq<seq<T>>, c: Cursor): (r: (T, Cursor))
    requires Valid(slices, c)
    ensures r.0 == slices[c.slice][c.elem]
    ensures c.elem + 1 < c.len ==> r.1 == Cursor(c.slice, c.elem + 1, c.len)
    ensures c.elem + 1 == c.len ==> r.1.slice == c.slice + 1 && r.1.elem == 0
  {
    var item := slices[c.slice][c.elem];
    var ei := c.elem + 1;
    if ei == c.len then
      var si := c.slice + 1;
      (item, Cursor(si, 0, if si < |slices| then |slices[si]| else c.len))
    else (item, Cursor(c.slice, ei, c.len))
  }

  /** No slice is empty. */
  predicate NonEmpty<T>(slices: seq<seq<T>>) {
    forall k :: 0 <= k < |slices| ==> |slices[k]| > 0
  }

  /** The elements left from a cursor. */
  function Left<T>(slices: seq<seq<T>>, c: Cursor): nat
    requires c.slice <= |slices| && (c.slice < |slices| ==> c.elem <= |slices[c.slice]|)
  {
    if c.slice == |slices| then 0 else |slices[c.slice]| - c.elem + |Flatten(slices[c.slice + 1..])|
  }

  /** Calling `Next` until `Done`, from a cursor. */
  function Drain<T>(slices: seq<seq<T>>, c: Cursor): (r: seq<T>)
    requires NonEmpty(slices) && c.slice <= |slices|
    requires c.slice < |slices| ==> Valid(slices, c)
    ensures c.slice < |slices| ==> r == slices[c.slice][c.elem..] + Flatten(slices[c.slice + 1..])
    ensures c.slice == |slices| ==> r == []
    decreases Left(slices, c)
  {
    if Done(slices, Some(c)) then []
    else
      var step := Next(slices, c);
      var si := c.slice;
      assert slices[si][c.elem..] == [step.0] + slices[si][c.elem + 1..];
      if step.1.slice == si then
        [step.0] + Drain(slices, step.1)
      else
        assert slices[si][c.elem + 1..] == [];
        assert si + 1 < |slices| ==> slices[si + 1..][1..] == slices[si + 2..];
        [step.0] + Drain(slices, step.1)
  }

  /** Iterating a slice value from `Start` until `Done` yields its current
      elements and then its deleted ones, provided no part is empty. */
  lemma IterateAll<T, ID>(s: SliceValue<T, ID>)
    requires NonEmpty(Slices(s))
    ensures Drain(Slices(s), Start(Slices(s))) == s.current.GetOr([]) + s.deleted.GetOr([])
  {
    var slices := Slices(s);
    if |slices| > 0 {
      assert slices[0][0..] == slices[0];
      assert slices[1..] == slices[0 + 1..];
    }
  }

  /** An iterator with no slices is done from the start. */
  lemma EmptyStartsDone<T>(slices: seq<seq<T>>)
    ensures Done(slices, Some(Start(slices))) <==> |slices| == 0
  {
  }
}
