/** `configor.go`: a list of configuration stores read in order and
    written at the head. Each store is modelled by what it holds. */
module Configor {
  import opened Wrappers

  type Store<K, V> = map<K, V>

  /** `Configors.ConfigSet`: only the first store is written; an empty
      list is an index panic in the source. */
  function ConfigSet<K, V>(cs: seq<Store<K, V>>, key: K, value: V): (r: seq<Store<K, V>>)
    requires |cs| > 0
    ensures |r| == |cs| && r[1..] == cs[1..]
    ensures r[0] == cs[0][key := value]
  {
    [cs[0][key := value]] + cs[1..]
  }

  /** `Configors.ConfigGet`: the first store holding the key answers;
      `(nil, false)` when none does. */
  function ConfigGet<K, V>(cs: seq<Store<K, V>>, key: K): (r: Option<V>)
    ensures r.None? <==> forall i :: 0 <= i < |cs| ==> key !in cs[i]
    ensures r.Some? ==> exists i :: 0 <= i < |cs| && key in cs[i] && r.value == cs[i][key] &&
                                   (forall j :: 0 <= j < i ==> key !in cs[j])
  {
    if |cs| == 0 then None
    else if key in cs[0] then Some(cs[0][key])
    else
      var r := ConfigGet(cs[1..], key);
      assert forall i :: 1 <= i < |cs| ==> cs[1..][i - 1] == cs[i];
      r
  }

  /** What was just set is what is read back, and other keys read as
      before. */
  lemma SetThenGet<K, V>(cs: seq<Store<K, V>>, key: K, value: V, other: K)
    requires |cs| > 0
    ensures ConfigGet(ConfigSet(cs, key, value), key) == Some(value)
    ensures other != key ==> ConfigGet(ConfigSet(cs, key, value), other) == ConfigGet(cs, other)
  {
    var r := ConfigSet(cs, key, value);
    assert r[1..] == cs[1..];
  }
}
