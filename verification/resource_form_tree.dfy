/** `resource/form_tree.go`: a tree of form keys, where `a[0].b` and
    `a.0.b` name the same node. Parent links and the `Data` field are not
    modelled: no operation here reads them. */
module ResourceFormTree {
  import opened Wrappers
  import Text

  /** The dynamic value a node holds. */
  datatype Value = Nil | Text(s: string) | Texts(items: seq<string>) | Files(names: seq<string>)

  datatype FormTree = FormTree(key: string, index: int, value: Value, children: TreeMap)

  /** `FormTreeMap`: the keys in insertion order, the nodes by key, and the
      keys that read as 32-bit unsigned numbers, in order (the Go slice
      holds the same nodes as the map). */
  datatype TreeMap = TreeMap(keys: seq<string>, nodes: map<string, FormTree>, slice: seq<string>, nextIndex: int)

  const EmptyMap := TreeMap([], map[], [], 0)

  /** `NewFormTree`. */
  const NewFormTree := FormTree("", -1, Nil, EmptyMap)

  predicate IsIndexKey(key: string) {
    Text.ParseUint(key, Text.MaxUint32).Some?
  }

  /** `FormTreeMap.Add`: the key is recorded and the node stored under it;
      a numeric key also joins the slice and numbers the node. */
  function Add(tm: TreeMap, key: string, t: FormTree): (r: TreeMap)
    ensures r.keys == tm.keys + [key]
    ensures key in r.nodes && r.nodes[key].children == t.children && r.nodes[key].value == t.value
    ensures forall k :: k in tm.nodes && k != key ==> k in r.nodes && r.nodes[k] == tm.nodes[k]
    ensures IsIndexKey(key) ==> r.slice == tm.slice + [key] && r.nodes[key].index == tm.nextIndex && r.nextIndex == tm.nextIndex + 1
    ensures !IsIndexKey(key) ==> r.slice == tm.slice && r.nodes[key] == t && r.nextIndex == tm.nextIndex
  {
    if IsIndexKey(key) then
      TreeMap(tm.keys + [key], tm.nodes[key := t.(index := tm.nextIndex)], tm.slice + [key], tm.nextIndex + 1)
    else
      TreeMap(tm.keys + [key], tm.nodes[key := t], tm.slice, tm.nextIndex)
  }

  /** `GetStringValue`: a string, the first of a non-empty `[]string`, and
      `""` for a missing node or any other value. */
  function GetStringValue(tm: TreeMap, key: string): (r: string)
    ensures key !in tm.nodes ==> r == ""
    ensures key in tm.nodes && tm.nodes[key].value.Text? ==> r == tm.nodes[key].value.s
    ensures key in tm.nodes && tm.nodes[key].value.Texts? && |tm.nodes[key].value.items| > 0 ==> r == tm.nodes[key].value.items[0]
    ensures r != "" ==> key in tm.nodes && (tm.nodes[key].value.Text? || tm.nodes[key].value.Texts?)
  {
    if key !in tm.nodes then ""
    else match tm.nodes[key].value
      case Text(s) => s
      case Texts(items) => if |items| > 0 then items[0] else ""
      case _ => ""
  }

  /** `FormTreeMap.Get`. */
  function Get(tm: TreeMap, key: string): (r: Option<FormTree>)
    ensures r.Some? <==> key in tm.nodes
    ensures r.Some? ==> r.value == tm.nodes[key]
  {
    if key in tm.nodes then Some(tm.nodes[key]) else None
  }

  /** The key with `]` removed and `[` turned into `.`. */
  function Normalize(key: string): (r: string)
    ensures '[' !in r && ']' !in r
    ensures |r| <= |key|
  {
    if |key| == 0 then ""
    else if key[0] == ']' then Normalize(key[1..])
    else if key[0] == '[' then "." + Normalize(key[1..])
    else [key[0]] + Normalize(key[1..])
  }

  /** The path `Of` walks: the normalized key split at dots. */
  function Parts(key: string): (r: seq<string>)
    ensures |r| >= 1
  {
    Text.Split(Normalize(key), '.')
  }

  /** `Of` indexes the first byte of every part, so an empty part (a key
      such as `""`, `"a..b"` or `"a[]"`) panics. */
  predicate Walkable(parts: seq<string>) {
    forall i :: 0 <= i < |parts| ==> parts[i] != ""
  }

  /** The node at a path below `t`. */
  function At(t: FormTree, path: seq<string>): (r: Option<FormTree>)
    decreases |path|
  {
    if |path| == 0 then Some(t)
    else if path[0] in t.children.nodes then At(t.children.nodes[path[0]], path[1..])
    else None
  }

  /** The tree after `Of` walked `parts`, creating missing children with
      index -1 and reusing existing ones. */
  function OfParts(t: FormTree, parts: seq<string>): (r: FormTree)
    requires Walkable(parts)
    ensures At(r, parts).Some?
    ensures r.key == t.key && r.index == t.index && r.value == t.value
    ensures forall k :: k in t.children.nodes ==> k in r.children.nodes
    decreases |parts|
  {
    if |parts| == 0 then t
    else
      var k := parts[0];
      if k in t.children.nodes then
        var c := OfParts(t.children.nodes[k], parts[1..]);
        t.(children := t.children.(nodes := t.children.nodes[k := c]))
      else
        var c := OfParts(FormTree(k, -1, Nil, EmptyMap), parts[1..]);
        t.(children := Add(t.children, k, c))
  }

  /** `Of`: the tree with the node for `key` present, and the path to it. */
  function Of(t: FormTree, key: string): (r: (FormTree, seq<string>))
    requires Walkable(Parts(key))
    ensures r.1 == Parts(key) && At(r.0, r.1).Some?
  {
    (OfParts(t, Parts(key)), Parts(key))
  }

  /** Walking a path that exists changes nothing: repeating `Of` returns
      the same node and adds no key. */
  lemma {:induction false} OfPartsExisting(t: FormTree, parts: seq<string>)
    requires Walkable(parts) && At(t, parts).Some?
    ensures OfParts(t, parts) == t
    decreases |parts|
  {
    if |parts| > 0 {
      var k := parts[0];
      OfPartsExisting(t.children.nodes[k], parts[1..]);
      assert t.children.nodes[k := t.children.nodes[k]] == t.children.nodes;
    }
  }

  lemma OfIdempotent(t: FormTree, key: string)
    requires Walkable(Parts(key))
    ensures Of(Of(t, key).0, key) == Of(t, key)
  {
    OfPartsExisting(OfParts(t, Parts(key)), Parts(key));
  }

  /** Brackets and dots reach the same node. */
  lemma BracketsAreDots()
    ensures Parts("a[0].b") == Parts("a.0.b") == ["a", "0", "b"]
  {
    NormalizeBrackets();
    NormalizePlain("a.0.b");
    SplitPath();
  }

  lemma NormalizeBrackets()
    ensures Normalize("a[0].b") == "a.0.b"
  {
    var k := "a[0].b";
    assert k[1..] == "[0].b" && k[1..][1..] == "0].b" && k[1..][1..][1..] == "].b" && k[1..][1..][1..][1..] == ".b";
    NormalizePlain(".b");
    assert Normalize("].b") == ".b";
    assert Normalize("0].b") == "0.b";
    assert Normalize("[0].b") == ".0.b";
  }

  lemma SplitPath()
    ensures Text.Split("a.0.b", '.') == ["a", "0", "b"]
  {
    Text.SplitFirst("a", "0.b", '.');
    Text.SplitFirst("0", "b", '.');
    Text.SplitNoSep("b", '.');
    assert "a.0.b" == "a" + ['.'] + "0.b";
    assert "0.b" == "0" + ['.'] + "b";
  }

  /** Keys without brackets are left as they are. */
  lemma {:induction false} NormalizePlain(key: string)
    requires '[' !in key && ']' !in key
    ensures Normalize(key) == key
  {
    if |key| > 0 {
      assert key[0] in key;
      NormalizePlain(key[1..]);
      assert [key[0]] + key[1..] == key;
    }
  }

  /** The tree with the value of the node at `path` replaced. */
  function SetValue(t: FormTree, path: seq<string>, v: Value): (r: FormTree)
    requires At(t, path).Some?
    ensures At(r, path) == Some(At(t, path).value.(value := v))
    decreases |path|
  {
    if |path| == 0 then t.(value := v)
    else
      var k := path[0];
      t.(children := t.children.(nodes := t.children.nodes[k := SetValue(t.children.nodes[k], path[1..], v)]))
  }

  /** `ParseFormTreeValues` (and `ParseFormTreeFiles`): for each entry, the
      node for the key without `prefix` takes the values. The map's
      iteration order is the order of `entries`. */
  function ParseFormTreeValues(t: FormTree, entries: seq<(string, Value)>, prefix: string): (r: FormTree)
    requires forall i :: 0 <= i < |entries| ==> Walkable(Parts(Text.TrimPrefix(entries[i].0, prefix)))
    ensures |entries| > 0 ==> LastStored(r, entries, prefix)
    decreases |entries|
  {
    if |entries| == 0 then t
    else
      var n := |entries| - 1;
      var prev := ParseFormTreeValues(t, entries[..n], prefix);
      var (t1, path) := Of(prev, Text.TrimPrefix(entries[n].0, prefix));
      SetValue(t1, path, entries[n].1)
  }

  /** The node of the last entry holds the last entry's value. */
  predicate LastStored(t: FormTree, entries: seq<(string, Value)>, prefix: string)
    requires |entries| > 0
  {
    var path := Parts(Text.TrimPrefix(entries[|entries| - 1].0, prefix));
    At(t, path).Some? && At(t, path).value.value == entries[|entries| - 1].1
  }

  // ---------------------------------------------------------------------
  // Walk

  /** Every recorded key has a node, all the way down. */
  predicate WellFormed(t: FormTree)
    decreases t
  {
    (forall i :: 0 <= i < |t.children.keys| ==> t.children.keys[i] in t.children.nodes) &&
    forall k :: k in t.children.nodes ==> WellFormed(t.children.nodes[k])
  }

  /** What the callback answers besides the child data. */
  datatype Answer = Proceed | SkipDir | Fail(message: string)

  /** What a walk did: the nodes the callback saw, in order, and the error
      the walk returns (`Proceed` for nil). */
  datatype Walked = Walked(visited: seq<FormTree>, err: Answer)

  /** `Walk` as written: the error variable is shared across iterations, so
      a `FormTreeSkipDir` from the last callback of the loop (or from the
      last nested walk) is returned to the caller. */
  function WalkAsWritten<D>(t: FormTree, cb: (FormTree, D) -> (D, Answer), data: D): (r: Walked)
    requires WellFormed(t)
    ensures |t.children.keys| == 0 ==> r == Walked([], Proceed)
    decreases t, 1
  {
    WalkFrom(t, 0, cb, data, Walked([], Proceed))
  }

  function WalkFrom<D>(t: FormTree, i: nat, cb: (FormTree, D) -> (D, Answer), data: D, acc: Walked): (r: Walked)
    requires WellFormed(t)
    ensures |r.visited| >= |acc.visited| && r.visited[..|acc.visited|] == acc.visited
    decreases t, 0, |t.children.keys| - i
  {
    if i >= |t.children.keys| then acc
    else
      var child := t.children.nodes[t.children.keys[i]];
      var (childData, e) := cb(child, data);
      var seen := acc.visited + [child];
      if e.SkipDir? then WalkFrom(t, i + 1, cb, data, Walked(seen, SkipDir))
      else if e.Fail? then Walked(seen, e)
      else if |child.children.keys| > 0 then
        var sub := WalkAsWritten(child, cb, childData);
        if sub.err.Fail? then Walked(seen + sub.visited, sub.err)
        else WalkFrom(t, i + 1, cb, data, Walked(seen + sub.visited, sub.err))
      else WalkFrom(t, i + 1, cb, data, Walked(seen, Proceed))
  }

  /** `Walk` as evidently intended: `FormTreeSkipDir` only skips a
      subtree and never reaches the caller. */
  function Walk<D>(t: FormTree, cb: (FormTree, D) -> (D, Answer), data: D): (r: Walked)
    requires WellFormed(t)
    ensures r.err != SkipDir
    ensures r.visited == WalkAsWritten(t, cb, data).visited
    ensures r.err.Fail? <==> WalkAsWritten(t, cb, data).err.Fail?
  {
    var w := WalkAsWritten(t, cb, data);
    if w.err.SkipDir? then w.(err := Proceed) else w
  }

  /** The nodes below `t` in depth-first order, children in key order. */
  function Preorder(t: FormTree): seq<FormTree>
    requires WellFormed(t)
    decreases t, 1
  {
    PreorderFrom(t, 0)
  }

  function PreorderFrom(t: FormTree, i: nat): seq<FormTree>
    requires WellFormed(t)
    decreases t, 0, |t.children.keys| - i
  {
    if i >= |t.children.keys| then []
    else
      var child := t.children.nodes[t.children.keys[i]];
      [child] + (if |child.children.keys| > 0 then Preorder(child) else []) + PreorderFrom(t, i + 1)
  }

  ghost predicate AlwaysProceeds<D(!new)>(cb: (FormTree, D) -> (D, Answer)) {
    forall n, d :: cb(n, d).1 == Proceed
  }

  /** A callback that always proceeds sees every node once, depth-first
      in key order, and the walk returns nil. */
  lemma {:induction false} WalkVisitsAll<D(!new)>(t: FormTree, cb: (FormTree, D) -> (D, Answer), data: D)
    requires WellFormed(t) && AlwaysProceeds(cb)
    ensures WalkAsWritten(t, cb, data) == Walked(Preorder(t), Proceed)
    decreases t, 1
  {
    WalkFromVisitsAll(t, 0, cb, data, []);
  }

  lemma {:induction false} WalkFromVisitsAll<D(!new)>(t: FormTree, i: nat, cb: (FormTree, D) -> (D, Answer), data: D, seen: seq<FormTree>)
    requires WellFormed(t) && AlwaysProceeds(cb)
    ensures WalkFrom(t, i, cb, data, Walked(seen, Proceed)) == Walked(seen + PreorderFrom(t, i), Proceed)
    decreases t, 0, |t.children.keys| - i
  {
    if i < |t.children.keys| {
      var child := t.children.nodes[t.children.keys[i]];
      assert cb(child, data).1 == Proceed;
      if |child.children.keys| > 0 {
        WalkVisitsAll(child, cb, cb(child, data).0);
        WalkFromVisitsAll(t, i + 1, cb, data, seen + [child] + Preorder(child));
        WalkFromInner(t, i, cb, data, seen);
      } else {
        WalkFromVisitsAll(t, i + 1, cb, data, seen + [child]);
        WalkFromLeaf(t, i, cb, data, seen);
      }
    }
  }

  /** One step of the walk past a child without children, given the walk
      over the later children. */
  lemma WalkFromLeaf<D>(t: FormTree, i: nat, cb: (FormTree, D) -> (D, Answer), data: D, seen: seq<FormTree>)
    requires WellFormed(t) && i < |t.children.keys|
    requires |t.children.nodes[t.children.keys[i]].children.keys| == 0
    requires cb(t.children.nodes[t.children.keys[i]], data).1 == Proceed
    requires WalkFrom(t, i + 1, cb, data, Walked(seen + [t.children.nodes[t.children.keys[i]]], Proceed))
          == Walked(seen + [t.children.nodes[t.children.keys[i]]] + PreorderFrom(t, i + 1), Proceed)
    ensures WalkFrom(t, i, cb, data, Walked(seen, Proceed)) == Walked(seen + PreorderFrom(t, i), Proceed)
  {
    var child := t.children.nodes[t.children.keys[i]];
    assert WalkFrom(t, i, cb, data, Walked(seen, Proceed)) == WalkFrom(t, i + 1, cb, data, Walked(seen + [child], Proceed));
    assert PreorderFrom(t, i) == [child] + [] + PreorderFrom(t, i + 1);
    assert seen + [child] + PreorderFrom(t, i + 1) == seen + ([child] + [] + PreorderFrom(t, i + 1));
  }

  /** One step of the walk past a child with children, given that the
      child's own walk visits its whole subtree and returns nil, and given
      the walk over the later children. */
  lemma WalkFromInner<D>(t: FormTree, i: nat, cb: (FormTree, D) -> (D, Answer), data: D, seen: seq<FormTree>)
    requires WellFormed(t) && i < |t.children.keys|
    requires |t.children.nodes[t.children.keys[i]].children.keys| > 0
    requires cb(t.children.nodes[t.children.keys[i]], data).1 == Proceed
    requires WalkAsWritten(t.children.nodes[t.children.keys[i]], cb, cb(t.children.nodes[t.children.keys[i]], data).0)
          == Walked(Preorder(t.children.nodes[t.children.keys[i]]), Proceed)
    requires WalkFrom(t, i + 1, cb, data, Walked(seen + [t.children.nodes[t.children.keys[i]]] + Preorder(t.children.nodes[t.children.keys[i]]), Proceed))
          == Walked(seen + [t.children.nodes[t.children.keys[i]]] + Preorder(t.children.nodes[t.children.keys[i]]) + PreorderFrom(t, i + 1), Proceed)
    ensures WalkFrom(t, i, cb, data, Walked(seen, Proceed)) == Walked(seen + PreorderFrom(t, i), Proceed)
  {
    var child := t.children.nodes[t.children.keys[i]];
    assert WalkFrom(t, i, cb, data, Walked(seen, Proceed))
        == WalkFrom(t, i + 1, cb, data, Walked(seen + [child] + Preorder(child), Proceed));
    assert PreorderFrom(t, i) == [child] + Preorder(child) + PreorderFrom(t, i + 1);
    assert seen + [child] + Preorder(child) + PreorderFrom(t, i + 1) == seen + ([child] + Preorder(child) + PreorderFrom(t, i + 1));
  }

  /** A single child whose callback answers `FormTreeSkipDir`: the walk as
      written returns that error, the intended walk returns nil. */
  lemma SkipDirEscapes()
    ensures var child := FormTree("a", -1, Nil, EmptyMap);
            var t := FormTree("", -1, Nil, TreeMap(["a"], map["a" := child], [], 0));
            var cb := (n: FormTree, d: int) => (d, SkipDir);
            WellFormed(t) &&
            WalkAsWritten(t, cb, 0) == Walked([child], SkipDir) &&
            Walk(t, cb, 0) == Walked([child], Proceed)
  {
    var child := FormTree("a", -1, Nil, EmptyMap);
    var t := FormTree("", -1, Nil, TreeMap(["a"], map["a" := child], [], 0));
    var cb := (n: FormTree, d: int) => (d, SkipDir);
    assert WellFormed(child);
    assert WellFormed(t);
    assert WalkFrom(t, 1, cb, 0, Walked([child], SkipDir)) == Walked([child], SkipDir);
    assert [] + [child] == [child];
  }
}
