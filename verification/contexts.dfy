/** `contexts.go`: a list of `context.Context` values searched from the
    last to the first. What an underlying context answers is a parameter:
    `None` stands for nil (or `ok == false` for a deadline). */
module Contexts {
  import opened Wrappers

  /** The answer of the last context, searching backwards, whose answer is
      not nil. */
  function SearchBack<C, T>(cs: seq<C>, f: C -> Option<T>): (r: Option<T>)
    ensures r.None? <==> forall i :: 0 <= i < |cs| ==> f(cs[i]).None?
    ensures r.Some? ==> exists i :: 0 <= i < |cs| && r == f(cs[i]) && forall j :: i < j < |cs| ==> f(cs[j]).None?
  {
    if |cs| == 0 then None
    else if f(cs[|cs| - 1]).Some? then f(cs[|cs| - 1])
    else
      var r := SearchBack(cs[..|cs| - 1], f);
      assert forall i :: 0 <= i < |cs| - 1 ==> cs[..|cs| - 1][i] == cs[i];
      r
  }

  /** `Value`: nil iff no context holds the key, else the value of the
      last context that holds it. */
  function Value<C, K, V>(cs: seq<C>, key: K, value: (C, K) -> Option<V>): (r: Option<V>)
    ensures r.None? <==> forall i :: 0 <= i < |cs| ==> value(cs[i], key).None?
    ensures r.Some? ==> exists i :: 0 <= i < |cs| && r == value(cs[i], key) && forall j :: i < j < |cs| ==> value(cs[j], key).None?
  {
    SearchBack(cs, c => value(c, key))
  }

  /** `Err`, `Done` and `Deadline` follow the same rule; the deadline
      returned with `ok == false` is not modelled. */
  function Err<C, E>(cs: seq<C>, err: C -> Option<E>): (r: Option<E>)
    ensures r.None? <==> forall i :: 0 <= i < |cs| ==> err(cs[i]).None?
    ensures r.Some? ==> exists i :: 0 <= i < |cs| && r == err(cs[i]) && forall j :: i < j < |cs| ==> err(cs[j]).None?
  {
    SearchBack(cs, err)
  }

  function Done<C, D>(cs: seq<C>, done: C -> Option<D>): (r: Option<D>)
    ensures r.None? <==> forall i :: 0 <= i < |cs| ==> done(cs[i]).None?
    ensures r.Some? ==> exists i :: 0 <= i < |cs| && r == done(cs[i]) && forall j :: i < j < |cs| ==> done(cs[j]).None?
  {
    SearchBack(cs, done)
  }

  function Deadline<C, T>(cs: seq<C>, deadline: C -> Option<T>): (r: Option<T>)
    ensures r.None? <==> forall i :: 0 <= i < |cs| ==> deadline(cs[i]).None?
    ensures r.Some? ==> exists i :: 0 <= i < |cs| && r == deadline(cs[i]) && forall j :: i < j < |cs| ==> deadline(cs[j]).None?
  {
    SearchBack(cs, deadline)
  }

  /** `Prepend`: the new contexts first, in a new list. */
  function Prepend<C>(cs: seq<C>, added: seq<C>): (r: seq<C>)
    ensures |r| == |cs| + |added| && r[..|added|] == added && r[|added|..] == cs
  {
    added + cs
  }

  /** `Append`: the new contexts last. */
  function Append<C>(cs: seq<C>, added: seq<C>): (r: seq<C>)
    ensures |r| == |cs| + |added| && r[..|cs|] == cs && r[|cs|..] == added
  {
    cs + added
  }

  /** The search over two lists one after the other asks the second
      first. */
  lemma {:induction false} SearchBackAppend<C, T>(a: seq<C>, b: seq<C>, f: C -> Option<T>)
    ensures SearchBack(a + b, f) == if SearchBack(b, f).Some? then SearchBack(b, f) else SearchBack(a, f)
    decreases |b|
  {
    if |b| == 0 {
      assert a + b == a;
    } else {
      assert (a + b)[..|a + b| - 1] == a + b[..|b| - 1];
      SearchBackAppend(a, b[..|b| - 1], f);
    }
  }

  /** Appended contexts answer before the existing ones; prepended ones
      only where none of the existing ones answers. */
  lemma PriorityOfAdded<C, K, V>(cs: seq<C>, added: seq<C>, key: K, value: (C, K) -> Option<V>)
    ensures Value(Append(cs, added), key, value) ==
      if Value(added, key, value).Some? then Value(added, key, value) else Value(cs, key, value)
    ensures Value(Prepend(cs, added), key, value) ==
      if Value(cs, key, value).Some? then Value(cs, key, value) else Value(added, key, value)
  {
    SearchBackAppend(cs, added, c => value(c, key));
    SearchBackAppend(added, cs, c => value(c, key));
  }
}
