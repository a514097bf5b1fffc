/** `contextdata/contextdata.go`: request data held in nested scopes; a
    lookup searches from the innermost scope outward. */
module ContextData {
  import opened Wrappers

  /** An `interface{}` key or value: a string, any other value, or nil. */
  datatype Value = Str(s: string) | Other(id: nat) | Nil

  /** The chain of `ContextDataNode`s, outermost first: the current scope
      is the last. No scope at all is a nil `Current`. */
  datatype Data = Data(scopes: seq<map<Value, Value>>)

  /** `NewRequestContextData`: one empty scope. */
  function NewRequestContextData(): (d: Data)
    ensures |d.scopes| == 1 && d.scopes[0] == map[]
  {
    Inside(Data([]))
  }

  /** The key/value pairs of `Set` written into a scope in order. */
  function Assign(m: map<Value, Value>, pairs: seq<Value>): map<Value, Value>
    requires |pairs| % 2 == 0
    decreases |pairs|
  {
    if |pairs| == 0 then m else Assign(m[pairs[0] := pairs[1]], pairs[2..])
  }

  /** The value the last pair with key `k` gives it, if any. */
  function LastPair(pairs: seq<Value>, k: Value): Option<Value>
    requires |pairs| % 2 == 0
    decreases |pairs|
  {
    if |pairs| == 0 then None
    else
      var later := LastPair(pairs[..|pairs| - 2], k);
      if pairs[|pairs| - 2] == k then Some(pairs[|pairs| - 1]) else later
  }

  /** In the written scope the last pair for a key wins. */
  lemma {:induction false} AssignValue(m: map<Value, Value>, pairs: seq<Value>, k: Value)
    requires |pairs| % 2 == 0
    ensures LastPair(pairs, k).Some? ==> k in Assign(m, pairs) && Assign(m, pairs)[k] == LastPair(pairs, k).value
    ensures LastPair(pairs, k).None? ==> (k in Assign(m, pairs) <==> k in m)
    ensures LastPair(pairs, k).None? && k in m ==> Assign(m, pairs)[k] == m[k]
    decreases |pairs|
  {
    if |pairs| > 0 {
      var n := |pairs|;
      var front := pairs[..n - 2];
      AssignSnoc(m, front, pairs[n - 2], pairs[n - 1]);
      assert pairs == front + [pairs[n - 2], pairs[n - 1]];
      AssignValue(m, front, k);
    }
  }

  lemma {:induction false} AssignSnoc(m: map<Value, Value>, front: seq<Value>, k: Value, v: Value)
    requires |front| % 2 == 0
    ensures Assign(m, front + [k, v]) == Assign(m, front)[k := v]
    decreases |front|
  {
    if |front| == 0 {
      assert front + [k, v] == [k, v];
      assert [k, v][2..] == [];
    } else {
      assert (front + [k, v])[2..] == front[2..] + [k, v];
      AssignSnoc(m[front[0] := front[1]], front[2..], k, v);
    }
  }

  /** `Set`: the key and then every following pair are written into the
      current scope; the outer scopes are untouched. The pairs must come
      in twos, and a nil `Current` is a nil dereference. */
  function Set(d: Data, key: Value, value: Value, pairs: seq<Value>): (r: Data)
    requires |d.scopes| > 0 && |pairs| % 2 == 0
    ensures |r.scopes| == |d.scopes| && r.scopes[..|d.scopes| - 1] == d.scopes[..|d.scopes| - 1]
    ensures forall k :: LastPair(pairs, k).Some? ==> Local(r, k) == LastPair(pairs, k)
    ensures LastPair(pairs, key).None? ==> Local(r, key) == Some(value)
    ensures forall k :: LastPair(pairs, k).None? && k != key ==> Local(r, k) == Local(d, k)
  {
    var n := |d.scopes|;
    var cur := Assign(d.scopes[n - 1][key := value], pairs);
    var r := Data(d.scopes[..n - 1] + [cur]);
    forall k
      ensures LastPair(pairs, k).Some? ==> Local(r, k) == LastPair(pairs, k)
      ensures LastPair(pairs, key).None? ==> Local(r, key) == Some(value)
      ensures LastPair(pairs, k).None? && k != key ==> Local(r, k) == Local(d, k)
    {
      AssignValue(d.scopes[n - 1][key := value], pairs, k);
      AssignValue(d.scopes[n - 1][key := value], pairs, key);
    }
    r
  }

  /** `GetLocal`: the current scope's value; nil when absent there (the
      model says `None`). */
  function Local(d: Data, key: Value): (r: Option<Value>)
    requires |d.scopes| > 0
    ensures r.Some? <==> key in d.scopes[|d.scopes| - 1]
  {
    var cur := d.scopes[|d.scopes| - 1];
    if key in cur then Some(cur[key]) else None
  }

  /** `GetOk`: the value of the innermost scope holding the key. */
  function GetOk(d: Data, key: Value): (r: Option<Value>)
    ensures r.None? <==> forall i :: 0 <= i < |d.scopes| ==> key !in d.scopes[i]
    ensures r.Some? ==> exists i :: 0 <= i < |d.scopes| && key in d.scopes[i] && r.value == d.scopes[i][key] &&
                                (forall j :: i < j < |d.scopes| ==> key !in d.scopes[j])
    decreases |d.scopes|
  {
    if |d.scopes| == 0 then None
    else
      var n := |d.scopes|;
      if key in d.scopes[n - 1] then Some(d.scopes[n - 1][key])
      else
        var r := GetOk(Data(d.scopes[..n - 1]), key);
        OuterScope(d, key, r);
        r
  }

  /** A value found in the outer scopes, with the current scope missing
      the key, is the innermost one holding it in all of them. */
  lemma OuterScope(d: Data, key: Value, r: Option<Value>)
    requires |d.scopes| > 0 && key !in d.scopes[|d.scopes| - 1]
    requires var outer := d.scopes[..|d.scopes| - 1];
      && (r.None? <==> forall i :: 0 <= i < |outer| ==> key !in outer[i])
      && (r.Some? ==> exists i :: 0 <= i < |outer| && key in outer[i] && r.value == outer[i][key] &&
                                   (forall j :: i < j < |outer| ==> key !in outer[j]))
    ensures r.None? <==> forall i :: 0 <= i < |d.scopes| ==> key !in d.scopes[i]
    ensures r.Some? ==> exists i :: 0 <= i < |d.scopes| && key in d.scopes[i] && r.value == d.scopes[i][key] &&
                                (forall j :: i < j < |d.scopes| ==> key !in d.scopes[j])
  {
    var outer := d.scopes[..|d.scopes| - 1];
    if r.Some? {
      var i :| 0 <= i < |outer| && key in outer[i] && r.value == outer[i][key] &&
               (forall j :: i < j < |outer| ==> key !in outer[j]);
      assert outer[i] == d.scopes[i];
      forall j | i < j < |d.scopes| ensures key !in d.scopes[j] {
        if j < |outer| {
          assert outer[j] == d.scopes[j];
        }
      }
    } else {
      forall i | 0 <= i < |d.scopes| ensures key !in d.scopes[i] {
        if i < |outer| {
          assert outer[i] == d.scopes[i];
        }
      }
    }
  }

  /** `Get` and `GetInterface`: the value, or nil. */
  function Get(d: Data, key: Value): (r: Value)
    ensures GetOk(d, key).Some? ==> r == GetOk(d, key).value
    ensures GetOk(d, key).None? ==> r == Nil
  {
    GetOk(d, key).GetOr(Nil)
  }

  /** `GetString`: the string found, or `""` when the key is nowhere. A
      value found that is not a string fails the source's type assertion,
      hence the precondition. */
  function GetString(d: Data, key: Value): (r: string)
    requires GetOk(d, key).None? || GetOk(d, key).value.Str?
    ensures GetOk(d, key).None? ==> r == ""
    ensures GetOk(d, key).Some? ==> Str(r) == GetOk(d, key).value
  {
    match GetOk(d, key)
    case None => ""
    case Some(v) => v.s
  }

  /** `Inside`: a new, empty current scope. */
  function Inside(d: Data): (r: Data)
    ensures |r.scopes| == |d.scopes| + 1 && r.scopes[..|d.scopes|] == d.scopes
    ensures r.scopes[|d.scopes|] == map[]
  {
    Data(d.scopes + [map[]])
  }

  /** `Outside`: back to the enclosing scope. */
  function Outside(d: Data): (r: Data)
    requires |d.scopes| > 0
    ensures d.scopes == r.scopes + [d.scopes[|d.scopes| - 1]]
  {
    Data(d.scopes[..|d.scopes| - 1])
  }

  /** `With` enters a scope and its closure leaves it: whatever was set in
      between is gone, and every lookup answers as before. */
  lemma WithRestores(d: Data, key: Value, value: Value, pairs: seq<Value>)
    requires |pairs| % 2 == 0
    ensures Outside(Set(Inside(d), key, value, pairs)) == d
  {
    var r := Set(Inside(d), key, value, pairs);
    assert r.scopes[..|d.scopes|] == d.scopes;
  }

  /** Inside a new scope, what is set there hides the outer values, and
      keys not set there are looked up outside as before. */
  lemma InnerWins(d: Data, key: Value, value: Value, k: Value)
    ensures GetOk(Set(Inside(d), key, value, []), key) == Some(value)
    ensures k != key ==> GetOk(Set(Inside(d), key, value, []), k) == GetOk(d, k)
  {
    var r := Set(Inside(d), key, value, []);
    assert Local(r, key) == Some(value);
    if k != key {
      assert Local(r, k) == Local(Inside(d), k) == None;
      assert Data(r.scopes[..|r.scopes| - 1]) == d;
    }
  }
}
