/** `sitegetter.go`: a list of site value getters asked in order. What a
    single getter answers is a parameter: `get` for `Get` (`None` is
    `ok == false`), `decode` for `GetInterface`. */
module SiteGetter {
  import opened Wrappers

  /** The position of the first getter that answers, or the length. */
  function FirstHit<G>(gs: seq<G>, hit: G -> bool): (k: nat)
    ensures k <= |gs|
    ensures forall i :: 0 <= i < k ==> !hit(gs[i])
    ensures k < |gs| ==> hit(gs[k])
  {
    if |gs| == 0 || hit(gs[0]) then 0 else 1 + FirstHit(gs[1..], hit)
  }

  /** `MultipleSiteGetter.Get`: the first getter that finds the key
      answers; not found when none does. */
  function Get<G, V>(gs: seq<G>, key: string, get: (G, string) -> Option<V>): (r: Option<V>)
    ensures r.None? <==> forall i :: 0 <= i < |gs| ==> get(gs[i], key).None?
    ensures r.Some? ==> exists i :: 0 <= i < |gs| && r == get(gs[i], key) &&
                                   (forall j :: 0 <= j < i ==> get(gs[j], key).None?)
  {
    var k := FirstHit(gs, g => get(g, key).Some?);
    if k < |gs| then get(gs[k], key) else None
  }

  /** What a `GetInterface` over the list does: how many getters it asks
      (each decodes into `dest` when it succeeds) and what it answers. */
  datatype Asked = Asked(calls: nat, ok: bool)

  /** `GetInterface` as written: the loop stops at the first getter that
      decodes, but the named result `ok` is never assigned, so the answer
      is always `false`. */
  function GetInterfaceAsWritten<G>(gs: seq<G>, key: string, decode: (G, string) -> bool): (r: Asked)
    ensures r.calls <= |gs|
    ensures !r.ok
  {
    var k := FirstHit(gs, g => decode(g, key));
    Asked(if k < |gs| then k + 1 else |gs|, false)
  }

  /** `GetInterface` as intended: the same calls, answering whether some
      getter decoded the value. */
  function GetInterface<G>(gs: seq<G>, key: string, decode: (G, string) -> bool): (r: Asked)
    ensures r.calls <= |gs|
    ensures r.ok ==> r.calls > 0
    ensures r.ok <==> exists i :: 0 <= i < |gs| && decode(gs[i], key)
    ensures r.ok ==> decode(gs[r.calls - 1], key) && forall j :: 0 <= j < r.calls - 1 ==> !decode(gs[j], key)
    ensures !r.ok ==> r.calls == |gs|
  {
    var k := FirstHit(gs, g => decode(g, key));
    Asked(if k < |gs| then k + 1 else |gs|, k < |gs|)
  }

  /** A single getter that decodes the value: as written the list still
      reports failure, while the getter was asked and succeeded. */
  lemma DecodedButFalse<G>(g: G, key: string, decode: (G, string) -> bool)
    requires decode(g, key)
    ensures GetInterfaceAsWritten([g], key, decode) == Asked(1, false)
    ensures GetInterface([g], key, decode) == Asked(1, true)
  {
  }

  /** Both versions ask exactly the same getters. */
  lemma SameCalls<G>(gs: seq<G>, key: string, decode: (G, string) -> bool)
    ensures GetInterfaceAsWritten(gs, key, decode).calls == GetInterface(gs, key, decode).calls
  {
  }

  /** `Append` adds getters after the existing ones. */
  function Append<G>(gs: seq<G>, more: seq<G>): (r: seq<G>)
    ensures |r| == |gs| + |more| && r[..|gs|] == gs && r[|gs|..] == more
  {
    gs + more
  }

  /** `Prepend` adds them in front. */
  function Prepend<G>(gs: seq<G>, more: seq<G>): (r: seq<G>)
    ensures |r| == |gs| + |more| && r[..|more|] == more && r[|more|..] == gs
  {
    more + gs
  }

  lemma {:induction false} GetAppend<G, V>(a: seq<G>, b: seq<G>, key: string, get: (G, string) -> Option<V>)
    ensures Get(a + b, key, get) == if Get(a, key, get).Some? then Get(a, key, get) else Get(b, key, get)
  {
    if |a| > 0 {
      assert (a + b)[1..] == a[1..] + b;
      GetAppend(a[1..], b, key, get);
      assert Get(a + b, key, get) == if get(a[0], key).Some? then get(a[0], key) else Get(a[1..] + b, key, get);
      assert Get(a, key, get) == if get(a[0], key).Some? then get(a[0], key) else Get(a[1..], key, get);
    } else {
      assert a + b == b;
    }
  }

  /** Appended getters are asked only when the existing ones do not find
      the key; prepended ones are asked first. */
  lemma GetOrder<G, V>(gs: seq<G>, more: seq<G>, key: string, get: (G, string) -> Option<V>)
    ensures Get(Append(gs, more), key, get) == if Get(gs, key, get).Some? then Get(gs, key, get) else Get(more, key, get)
    ensures Get(Prepend(gs, more), key, get) == if Get(more, key, get).Some? then Get(more, key, get) else Get(gs, key, get)
  {
    GetAppend(gs, more, key, get);
    GetAppend(more, gs, key, get);
  }
}
