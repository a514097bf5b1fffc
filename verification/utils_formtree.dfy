/** `utils/formtree.go`: a tree built from parsed form keys. Named segments
    go into a map, index segments into a map by index that `Sort` turns
    into an ordered slice. The Go pointers are modelled as values: every
    item is reachable from exactly one place, so sharing never shows. */
module FormTree {
  import opened Wrappers
  import Text
  import Sorting
  import FormKey

  /** A `multipart.FileHeader`, of which only the file name matters here. */
  datatype File = File(filename: string)

  datatype Item = Item(tree: Option<Tree>, values: seq<string>, files: seq<File>, index: int)

  /** A Go map that may be nil. */
  datatype NamedMap = NilNamed | Named(m: map<string, Item>)
  datatype IndexMap = NilIndex | Indexed(m: map<int, Item>)

  /** `slice == None` stands for a nil slice. */
  datatype Tree = Tree(named: NamedMap, keys: seq<string>, sliceMap: IndexMap, slice: Option<seq<Item>>)

  const EmptyTree: Tree := Tree(NilNamed, [], NilIndex, None)

  function NamedOf(n: NamedMap): map<string, Item> {
    if n.Named? then n.m else map[]
  }

  function IndexedOf(n: IndexMap): map<int, Item> {
    if n.Indexed? then n.m else map[]
  }

  /** What a leaf receives: `AddValue` sets the values, `AddFile` the files. */
  datatype Payload = Values(vs: seq<string>) | Files(fs: seq<File>)

  /** A fresh item with the payload's callback applied. */
  function Fresh(p: Payload): (r: Item)
    ensures r.tree.None? && r.index == 0
    ensures p.Values? ==> r.values == p.vs && r.files == []
    ensures p.Files? ==> r.files == p.fs && r.values == []
  {
    match p
    case Values(vs) => Item(None, vs, [], 0)
    case Files(fs) => Item(None, [], fs, 0)
  }

  /** The child to descend into: the existing item (given an empty tree
      when it had none) or a new item holding an empty tree. */
  function Descend(existing: Option<Item>): (r: Item)
    ensures r.tree.Some?
    ensures existing.Some? ==> r.values == existing.value.values && r.files == existing.value.files
    ensures existing.Some? && existing.value.tree.Some? ==> r == existing.value
    ensures existing.None? ==> r.tree == Some(EmptyTree)
  {
    match existing
    case Some(item) => if item.tree.Some? then item else item.(tree := Some(EmptyTree))
    case None => Item(Some(EmptyTree), [], [], 0)
  }

  function Get<K, V>(m: map<K, V>, k: K): Option<V> {
    if k in m then Some(m[k]) else None
  }

  /** `FormTree.add`: the first segment selects the map (a name) or the
      index map (an index); a last segment installs a fresh item, any other
      descends. An empty key indexes past the end in the source. */
  function Add(t: Tree, key: seq<FormKey.Segment>, p: Payload): (r: Tree)
    requires |key| >= 1
    ensures r.keys == t.keys && r.slice == t.slice
    ensures key[0].Key? ==> r.sliceMap == t.sliceMap && r.named.Named?
    ensures key[0].Key? ==> r.named.m.Keys == NamedOf(t.named).Keys + {key[0].name}
    ensures key[0].Key? ==> forall k :: k in r.named.m && k != key[0].name ==> r.named.m[k] == NamedOf(t.named)[k]
    ensures key[0].Idx? ==> r.named == t.named && r.sliceMap.Indexed?
    decreases |key|
  {
    var sub := key[1..];
    match key[0]
    case Idx(k) =>
      var sm := IndexedOf(t.sliceMap);
      if |sub| > 0 then
        var child := Descend(Get(sm, k));
        t.(sliceMap := Indexed(sm[k := child.(tree := Some(Add(child.tree.value, sub, p)))]))
      else
        var at := if k == -1 then |sm| else k;
        t.(sliceMap := Indexed(sm[at := Fresh(p)]))
    case Key(name) =>
      var m := NamedOf(t.named);
      if |sub| > 0 then
        var child := Descend(Get(m, name));
        t.(named := Named(m[name := child.(tree := Some(Add(child.tree.value, sub, p)))]))
      else
        t.(named := Named(m[name := Fresh(p)]))
  }

  function AddValue(t: Tree, key: seq<FormKey.Segment>, values: seq<string>): (r: Tree)
    requires |key| >= 1
    ensures r.keys == t.keys
  {
    Add(t, key, Values(values))
  }

  function AddFile(t: Tree, key: seq<FormKey.Segment>, files: seq<File>): (r: Tree)
    requires |key| >= 1
    ensures r.keys == t.keys
  {
    Add(t, key, Files(files))
  }

  /** A name as the last segment installs a fresh item, replacing whatever
      was there (values added earlier under the same name are lost). */
  lemma AddLeafName(t: Tree, name: string, p: Payload)
    ensures Add(t, [FormKey.Key(name)], p).named.m[name] == Fresh(p)
  {
  }

  /** A name followed by more segments reuses the existing child, keeping
      its values and files, and adds the rest inside its tree. */
  lemma AddNestedName(t: Tree, name: string, sub: seq<FormKey.Segment>, p: Payload)
    requires |sub| >= 1 && name in NamedOf(t.named)
    ensures var old_ := NamedOf(t.named)[name];
            var new_ := Add(t, [FormKey.Key(name)] + sub, p).named.m[name];
            new_.values == old_.values && new_.files == old_.files &&
            new_.tree == Some(Add(old_.tree.GetOr(EmptyTree), sub, p))
  {
    assert ([FormKey.Key(name)] + sub)[1..] == sub;
  }

  /** A leaf index -1 stores the item under the current size of the index
      map: an append when the indices are exactly `0..size-1`. */
  lemma AppendIndex(t: Tree, p: Payload)
    requires forall k :: k in IndexedOf(t.sliceMap) <==> 0 <= k < |IndexedOf(t.sliceMap)|
    ensures var sm := Add(t, [FormKey.Idx(-1)], p).sliceMap.m;
            var n := |IndexedOf(t.sliceMap)|;
            |sm| == n + 1 && sm[n] == Fresh(p) &&
            forall k :: k in IndexedOf(t.sliceMap) ==> k in sm && sm[k] == IndexedOf(t.sliceMap)[k]
  {
    var n := |IndexedOf(t.sliceMap)|;
    assert n !in IndexedOf(t.sliceMap);
    assert IndexedOf(t.sliceMap).Keys + {n} == Add(t, [FormKey.Idx(-1)], p).sliceMap.m.Keys;
  }

  /** When the indices are not `0..size-1`, the "append" index lands on an
      existing entry and replaces it: after `a[1]`, a leaf `a[]` is stored
      under 1 as well. */
  lemma AppendIndexOverwrites(item: Item, p: Payload)
    ensures var t := Tree(NilNamed, [], Indexed(map[1 := item]), None);
            Add(t, [FormKey.Idx(-1)], p).sliceMap == Indexed(map[1 := Fresh(p)])
  {
    assert |map[1 := item]| == 1;
    assert map[1 := item][1 := Fresh(p)] == map[1 := Fresh(p)];
  }

  // ---------------------------------------------------------------------
  // Sort

  lemma MinExists(s: set<int>)
    requires |s| > 0
    ensures exists x :: x in s && forall y :: y in s ==> x <= y
  {
    assert exists a :: a in s by {
      if forall a :: a !in s {
        assert false;
      }
    }
    var a :| a in s;
    if |s| > 1 {
      MinExists(s - {a});
      var m :| m in s - {a} && forall y :: y in s - {a} ==> m <= y;
      var w := if a < m then a else m;
      forall y | y in s
        ensures w <= y
      {
        if y != a {
          assert y in s - {a};
        }
      }
      assert w in s;
    } else {
      forall y | y in s
        ensures a <= y
      {
        if y != a {
          assert false;
        }
      }
    }
  }

  function MinOf(s: set<int>): (r: int)
    requires |s| > 0
    ensures r in s && forall y :: y in s ==> r <= y
  {
    MinExists(s);
    var x :| x in s && forall y :: y in s ==> x <= y;
    x
  }

  /** The elements of `s` in ascending order (`sort.Ints` on the keys). */
  function SortedKeys(s: set<int>): (r: seq<int>)
    ensures |r| == |s|
    ensures forall i :: 0 <= i < |r| ==> r[i] in s
    ensures forall x :: x in s ==> x in r
    ensures forall i, j :: 0 <= i < j < |r| ==> r[i] < r[j]
    decreases |s|
  {
    if |s| == 0 then []
    else
      var m := MinOf(s);
      var rest := SortedKeys(s - {m});
      SortedCons(s, m, rest);
      [m] + rest
  }

  /** The least element ahead of the others, sorted, is all of them
      sorted. */
  lemma SortedCons(s: set<int>, m: int, rest: seq<int>)
    requires m in s && forall y :: y in s ==> m <= y
    requires |rest| == |s - {m}|
    requires forall i :: 0 <= i < |rest| ==> rest[i] in s - {m}
    requires forall x :: x in s - {m} ==> x in rest
    requires forall i, j :: 0 <= i < j < |rest| ==> rest[i] < rest[j]
    ensures |[m] + rest| == |s|
    ensures forall i :: 0 <= i < |[m] + rest| ==> ([m] + rest)[i] in s
    ensures forall x :: x in s ==> x in [m] + rest
    ensures forall i, j :: 0 <= i < j < |[m] + rest| ==> ([m] + rest)[i] < ([m] + rest)[j]
  {
    var r := [m] + rest;
    forall i, j | 0 <= i < j < |r|
      ensures r[i] < r[j]
    {
      if i > 0 {
        assert r[i] == rest[i - 1] && r[j] == rest[j - 1];
      } else {
        assert r[j] == rest[j - 1];
      }
    }
    forall x | x in s
      ensures x in r
    {
      if x != m {
        assert x in s - {m};
      }
    }
  }

  /** `FormTree.Sort`: the index map's items, ascending by index, become the
      slice; every subtree is sorted too, both through the slice and
      through the maps (the slice and the index map share their items).
      The key list is sorted as strings. */
  function SortTree(t: Tree): (r: Tree)
    ensures r.sliceMap.Indexed? <==> t.sliceMap.Indexed?
    ensures t.sliceMap.Indexed? ==> r.sliceMap.m.Keys == t.sliceMap.m.Keys
    ensures t.sliceMap.Indexed? ==> r.slice.Some? && |r.slice.value| == |t.sliceMap.m|
    ensures t.sliceMap.NilIndex? ==> r.slice == t.slice
    ensures r.named.Named? <==> t.named.Named?
    ensures t.named.Named? ==> r.named.m.Keys == t.named.m.Keys
    ensures |r.keys| == |t.keys| && multiset(r.keys) == multiset(t.keys)
    decreases t, 2
  {
    Tree(SortedNamed(t), Sorting.SortBy(t.keys, Text.Less), SortedIndexed(t), SortedSlice(t))
  }

  function SortedNamed(t: Tree): (r: NamedMap)
    ensures r.Named? <==> t.named.Named?
    ensures t.named.Named? ==> r.m.Keys == t.named.m.Keys
    decreases t, 1
  {
    match t.named {
      case Named(m) => Named(map k | k in m :: SortItem(m[k]))
      case NilNamed => NilNamed
    }
  }

  function SortedIndexed(t: Tree): (r: IndexMap)
    ensures r.Indexed? <==> t.sliceMap.Indexed?
    ensures t.sliceMap.Indexed? ==> r.m.Keys == t.sliceMap.m.Keys
    ensures t.sliceMap.Indexed? ==> forall k :: k in r.m ==> r.m[k] == SortItem(t.sliceMap.m[k])
    decreases t, 1
  {
    match t.sliceMap {
      case Indexed(m) => Indexed(map k | k in m :: SortItem(m[k]))
      case NilIndex => NilIndex
    }
  }

  function SortedSlice(t: Tree): (r: Option<seq<Item>>)
    ensures t.sliceMap.Indexed? ==> r.Some? && |r.value| == |t.sliceMap.m|
    ensures t.sliceMap.NilIndex? ==> r == t.slice
    decreases t, 1
  {
    match t.sliceMap {
      case Indexed(m) =>
        var order := SortedKeys(m.Keys);
        Some(seq(|order|, i requires 0 <= i < |order| => SortItem(m[order[i]])))
      case NilIndex => t.slice
    }
  }

  function SortItem(item: Item): (r: Item)
    ensures r.values == item.values && r.files == item.files && r.index == item.index
    ensures r.tree.Some? <==> item.tree.Some?
    decreases item, 0
  {
    match item.tree {
      case Some(t) => item.(tree := Some(SortTree(t)))
      case None => item
    }
  }

  /** Slot `i` of the sorted slice holds the item of the `i`-th smallest
      index, sorted, the same item the index map then holds; the slots
      are in strictly ascending index order. */
  lemma SortSliceOrder(t: Tree, i: nat, j: nat)
    requires t.sliceMap.Indexed? && i < j < |t.sliceMap.m|
    ensures var order := SortedKeys(t.sliceMap.m.Keys);
            order[i] < order[j] &&
            SortTree(t).slice.value[i] == SortItem(t.sliceMap.m[order[i]]) &&
            SortTree(t).slice.value[i] == SortTree(t).sliceMap.m[order[i]]
  {
    var order := SortedKeys(t.sliceMap.m.Keys);
    assert SortedSlice(t).value[i] == SortItem(t.sliceMap.m[order[i]]);
  }

  /** The item of every index appears, sorted, in the slice. */
  lemma SortSliceComplete(t: Tree, k: int)
    requires t.sliceMap.Indexed? && k in t.sliceMap.m
    ensures SortItem(t.sliceMap.m[k]) in SortTree(t).slice.value
  {
    var order := SortedKeys(t.sliceMap.m.Keys);
    var i :| 0 <= i < |order| && order[i] == k;
    assert SortedSlice(t).value[i] == SortItem(t.sliceMap.m[k]);
  }

  // ---------------------------------------------------------------------
  // Each

  /** What `Each` hands to its callback. */
  datatype Visit = SliceVisit(items: seq<Item>) | MapVisit(m: map<string, Item>) | NoVisit

  /** `Each`: the slice when prioritised, else the map, else the slice,
      else nothing (and nil is returned). */
  function Each(t: Tree, slicePriority: bool): (r: Visit)
    ensures r.NoVisit? <==> t.slice.None? && t.named.NilNamed?
    ensures r.MapVisit? ==> t.named == Named(r.m)
    ensures r.SliceVisit? ==> t.slice == Some(r.items)
    ensures t.slice.Some? && (slicePriority || t.named.NilNamed?) ==> r == SliceVisit(t.slice.value)
  {
    if t.slice.Some? && slicePriority then SliceVisit(t.slice.value)
    else if t.named.Named? then MapVisit(t.named.m)
    else if t.slice.Some? then SliceVisit(t.slice.value)
    else NoVisit
  }

  // ---------------------------------------------------------------------
  // NewMultipartFormTree

  /** Keys the source can add: each key that parses gives at least one
      segment (an empty path would be indexed past its end). */
  predicate Addable(entries: seq<(string, Payload)>) {
    forall i :: 0 <= i < |entries| ==>
      (FormKey.ParseFormKeyAsWritten(entries[i].0).Ok? ==> |FormKey.ParseFormKeyAsWritten(entries[i].0).value| >= 1)
  }

  /** Entry `i` is the first whose key does not parse, failing with `e`. */
  predicate FirstError(entries: seq<(string, Payload)>, i: int, e: FormKey.ParseError) {
    0 <= i < |entries| && FormKey.ParseFormKeyAsWritten(entries[i].0) == Err(e) &&
    forall j :: 0 <= j < i ==> FormKey.ParseFormKeyAsWritten(entries[j].0).Ok?
  }

  /** The entries parsed and added in order; the first key that does not
      parse ends the build with its error. */
  function AddAll(t: Tree, entries: seq<(string, Payload)>): (r: Result<Tree, FormKey.ParseError>)
    requires Addable(entries)
    ensures r.Err? <==> exists i :: 0 <= i < |entries| && FormKey.ParseFormKeyAsWritten(entries[i].0).Err?
    ensures r.Err? ==> exists i :: FirstError(entries, i, r.error)
    ensures r.Ok? ==> r.value.keys == t.keys
    decreases |entries|
  {
    if |entries| == 0 then Ok(t)
    else
      match FormKey.ParseFormKeyAsWritten(entries[0].0)
      case Err(e) =>
        assert FirstError(entries, 0, e);
        Err(e)
      case Ok(segs) =>
        assert Addable(entries[1..]) by {
          forall i | 0 <= i < |entries[1..]|
            ensures FormKey.ParseFormKeyAsWritten(entries[1..][i].0).Ok? ==> |FormKey.ParseFormKeyAsWritten(entries[1..][i].0).value| >= 1
          {
            assert entries[1..][i] == entries[i + 1];
          }
        }
        var r := AddAll(Add(t, segs, entries[0].1), entries[1..]);
        assert r.Err? ==> exists i :: FirstError(entries, i, r.error) by {
          if r.Err? {
            var i :| FirstError(entries[1..], i, r.error);
            assert entries[i + 1] == entries[1..][i];
            assert forall j :: 1 <= j < i + 1 ==> entries[j] == entries[1..][j - 1];
            assert FirstError(entries, i + 1, r.error);
          }
        }
        assert (exists i :: 0 <= i < |entries| && FormKey.ParseFormKeyAsWritten(entries[i].0).Err?) ==> r.Err? by {
          if exists i :: 0 <= i < |entries| && FormKey.ParseFormKeyAsWritten(entries[i].0).Err? {
            var i :| 0 <= i < |entries| && FormKey.ParseFormKeyAsWritten(entries[i].0).Err?;
            assert entries[1..][i - 1] == entries[i];
          }
        }
        r
  }

  function ValueEntries(form: seq<(string, seq<string>)>): (r: seq<(string, Payload)>)
    ensures |r| == |form|
    ensures forall i :: 0 <= i < |form| ==> r[i] == (form[i].0, Values(form[i].1))
  {
    seq(|form|, i requires 0 <= i < |form| => (form[i].0, Values(form[i].1)))
  }

  function FileEntries(files: seq<(string, seq<File>)>): (r: seq<(string, Payload)>)
    ensures |r| == |files|
    ensures forall i :: 0 <= i < |files| ==> r[i] == (files[i].0, Files(files[i].1))
  {
    seq(|files|, i requires 0 <= i < |files| => (files[i].0, Files(files[i].1)))
  }

  /** `NewMultipartFormTree`: the value keys, then the file keys (when the
      form has a file map), each parsed and added; the tree is sorted at
      the end. Go's map iteration order is given by the order of the
      lists. */
  function NewMultipartFormTree(form: seq<(string, seq<string>)>, files: Option<seq<(string, seq<File>)>>)
    : (r: Result<Tree, FormKey.ParseError>)
    requires Addable(ValueEntries(form) + FileEntries(files.GetOr([])))
    ensures r.Err? ==> exists i :: FirstError(ValueEntries(form) + FileEntries(files.GetOr([])), i, r.error)
    ensures r.Ok? ==> r.value.keys == []
  {
    var all := ValueEntries(form) + FileEntries(files.GetOr([]));
    var t :- AddAll(EmptyTree, all);
    Ok(SortTree(t))
  }

  /** Keys are parsed as utils/formkey.go writes it, so a form with the
      key `a[0]` is refused with the malformed-index error. */
  lemma ZeroKeyRefused(form: seq<(string, seq<string>)>)
    requires form == [("a[0]", ["x"])]
    ensures Addable(ValueEntries(form) + FileEntries([]))
    ensures NewMultipartFormTree(form, None) == Err(FormKey.MalformedIndex("0"))
  {
    FormKey.ZeroIndexRefused();
    var all := ValueEntries(form) + FileEntries([]);
    assert all == [("a[0]", Values(["x"]))];
    assert FirstError(all, 0, FormKey.MalformedIndex("0"));
  }

  /** The key list is never filled by `add`, so a built tree has none. */
  lemma BuiltTreeHasNoKeys(form: seq<(string, seq<string>)>, files: Option<seq<(string, seq<File>)>>)
    requires Addable(ValueEntries(form) + FileEntries(files.GetOr([])))
    requires NewMultipartFormTree(form, files).Ok?
    ensures NewMultipartFormTree(form, files).value.keys == []
  {
  }
}
