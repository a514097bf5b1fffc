/** `sitesmap.go`: sites by name, where the map itself may be nil. A site
    is known by its name and an identity. */
module SitesMap {
  import opened Wrappers
  import Text
  import Sorting

  datatype Site = Site(name: string, id: nat)

  /** `SitesMap`: `None` is the nil map. The entries are kept in the order
      their keys were first set; the model ranges over them in that order,
      one of the orders the source's map iteration may take. */
  type Sites = Option<seq<(string, Site)>>

  /** The errors: `ErrSiteNotFound`, the "does not exist" error of
      `GetOrError`, a callback failure wrapped with the site's name, and a
      callback's answer passed on as it is. */
  datatype SiteError = SiteNotFound | NoSuchSite(name: string) | Wrapped(site: string, cause: nat) | Passed(reply: Reply)

  function Entries(m: Sites): seq<(string, Site)> {
    m.GetOr([])
  }

  /** A map: no key appears twice. */
  predicate Valid(m: Sites) {
    forall i, j :: 0 <= i < j < |Entries(m)| ==> Entries(m)[i].0 != Entries(m)[j].0
  }

  predicate Bound(m: Sites, key: string) {
    exists i :: 0 <= i < |Entries(m)| && Entries(m)[i].0 == key
  }

  /** The index of the key, or the length when it is absent. */
  function Position(es: seq<(string, Site)>, key: string): (k: nat)
    ensures k <= |es|
    ensures forall i :: 0 <= i < k ==> es[i].0 != key
    ensures k < |es| ==> es[k].0 == key
  {
    if |es| == 0 || es[0].0 == key then 0 else 1 + Position(es[1..], key)
  }

  /** `Get`: not found in a nil map. */
  function Get(m: Sites, key: string): (r: Option<Site>)
    ensures r.Some? <==> Bound(m, key)
    ensures Valid(m) ==> forall i :: 0 <= i < |Entries(m)| && Entries(m)[i].0 == key ==> r == Some(Entries(m)[i].1)
  {
    var k := Position(Entries(m), key);
    if k < |Entries(m)| then Some(Entries(m)[k].1) else None
  }

  /** In a map, reading a key gives `v` exactly when the pair is an entry. */
  lemma GetEntry(m: Sites, key: string, v: Site)
    requires Valid(m)
    ensures Get(m, key) == Some(v) <==> (key, v) in Entries(m)
  {
    if (key, v) in Entries(m) {
      var i :| 0 <= i < |Entries(m)| && Entries(m)[i] == (key, v);
    }
  }

  /** `Set`: a nil map is created holding the one entry; a key already
      present keeps its place, a new one goes last. */
  function Set(m: Sites, key: string, value: Site): (r: Sites)
    requires Valid(m)
    ensures r.Some? && Valid(r)
    ensures Get(r, key) == Some(value)
    ensures forall k :: k != key ==> Get(r, k) == Get(m, k)
    ensures !Bound(m, key) ==> Entries(r) == Entries(m) + [(key, value)]
  {
    var es := Entries(m);
    var k := Position(es, key);
    var r := if k < |es| then Some(es[k := (key, value)]) else Some(es + [(key, value)]);
    assert Entries(r)[k] == (key, value);
    assert forall i :: 0 <= i < |Entries(r)| && i != k ==> Entries(r)[i] == es[i];
    forall k2 | k2 != key
      ensures Get(r, k2) == Get(m, k2)
    {
      if Bound(m, k2) {
        var p :| 0 <= p < |es| && es[p].0 == k2;
        assert Entries(r)[p] == es[p];
      }
    }
    r
  }

  /** `Copy`: a new map with the same entries; empty for nil. */
  function Copy(m: Sites): (r: Sites)
    ensures r.Some? && forall k :: Get(r, k) == Get(m, k)
  {
    Some(Entries(m))
  }

  /** `Has`: every key is present. A nil map, or no keys at all, answers
      `false`: the answer starts out false and only a lookup sets it. */
  function Has(m: Sites, keys: seq<string>): (r: bool)
    ensures r <==> m.Some? && |keys| > 0 && forall i :: 0 <= i < |keys| ==> Bound(m, keys[i])
    ensures |keys| == 1 ==> (r <==> Bound(m, keys[0]))
  {
    m.Some? && |keys| > 0 && forall i :: 0 <= i < |keys| ==> Get(m, keys[i]).Some?
  }

  /** `Del`: `ErrSiteNotFound` and no change when the key is absent (or
      the map nil), else exactly that entry is removed and its site
      returned. */
  function Del(m: Sites, key: string): (r: (Sites, Result<Site, SiteError>))
    requires Valid(m)
    ensures !Bound(m, key) ==> r == (m, Err(SiteNotFound))
    ensures Bound(m, key) ==> r.1 == Ok(Get(m, key).value) && r.0.Some? && Valid(r.0)
    ensures Bound(m, key) ==> !Bound(r.0, key) && forall k :: k != key ==> Get(r.0, k) == Get(m, k)
  {
    var es := Entries(m);
    var k := Position(es, key);
    if k == |es| then (m, Err(SiteNotFound))
    else
      var r := Some(es[..k] + es[k + 1..]);
      RemoveAt(m, key, k, r);
      (r, Ok(es[k].1))
  }

  /** Removing the entry at the key's index removes that key and nothing
      else. */
  lemma RemoveAt(m: Sites, key: string, k: nat, r: Sites)
    requires Valid(m) && k < |Entries(m)| && Entries(m)[k].0 == key
    requires r == Some(Entries(m)[..k] + Entries(m)[k + 1..])
    ensures Valid(r) && !Bound(r, key)
    ensures forall k2 :: k2 != key ==> Get(r, k2) == Get(m, k2)
  {
    var es := Entries(m);
    var rest := Entries(r);
    assert forall i :: 0 <= i < k ==> rest[i] == es[i];
    assert forall i :: k <= i < |rest| ==> rest[i] == es[i + 1];
    forall k2 | k2 != key
      ensures Get(r, k2) == Get(m, k2)
    {
      if Bound(m, k2) {
        var p :| 0 <= p < |es| && es[p].0 == k2;
        var q := if p < k then p else p - 1;
        assert rest[q] == es[p];
      }
    }
  }

  /** `GetOrError`: an error naming the site exactly when it is absent. */
  function GetOrError(m: Sites, name: string): (r: Result<Site, SiteError>)
    ensures r.Err? <==> !Bound(m, name)
    ensures r.Err? ==> r.error == NoSuchSite(name)
    ensures r.Ok? ==> Get(m, name) == Some(r.value)
  {
    match Get(m, name)
    case None => Err(NoSuchSite(name))
    case Some(s) => Ok(s)
  }

  /** The sites, in the order the model ranges over the map. */
  function Values(m: Sites): (r: seq<Site>)
    ensures |r| == |Entries(m)| && forall i :: 0 <= i < |r| ==> r[i] == Entries(m)[i].1
  {
    seq(|Entries(m)|, i requires 0 <= i < |Entries(m)| => Entries(m)[i].1)
  }

  /** Setting a new key and deleting it again gives the map back, and the
      deletion hands back the site that was set. */
  lemma SetThenDel(m: Sites, key: string, value: Site)
    requires Valid(m) && m.Some? && !Bound(m, key)
    ensures Del(Set(m, key, value), key) == (m, Ok(value))
  {
    var es := Entries(m);
    var r := Set(m, key, value);
    var rs := es + [(key, value)];
    assert Entries(r) == rs;
    assert Position(rs, key) == |es|;
    assert rs[..|es|] + rs[|es| + 1..] == es;
    assert Get(r, key) == Some(value);
  }

  /** Site order of `Sorted`: by name; sites of equal name in any fixed
      order (the source's sort is not stable, so any order is allowed). */
  predicate Before(a: Site, b: Site) {
    Text.Less(a.name, b.name) || (a.name == b.name && a.id < b.id)
  }

  lemma BeforeOrder()
    ensures Sorting.StrictTotalOrder(Before)
  {
    forall a: Site ensures !Before(a, a) {
      Text.LessIrreflexive(a.name);
    }
    forall a: Site, b: Site, c: Site | Before(a, b) && Before(b, c)
      ensures Before(a, c)
    {
      if Text.Less(a.name, b.name) && Text.Less(b.name, c.name) {
        Text.LessTransitive(a.name, b.name, c.name);
      }
    }
    forall a: Site, b: Site | a != b
      ensures Before(a, b) || Before(b, a)
    {
      if a.name != b.name {
        Text.LessTotal(a.name, b.name);
      }
    }
  }

  /** `Sorted`: every site, ordered by name. */
  function Sorted(m: Sites): (r: seq<Site>)
    ensures multiset(r) == multiset(Values(m))
    ensures forall i, j :: 0 <= i < j < |r| ==> !Text.Less(r[j].name, r[i].name)
  {
    BeforeOrder();
    Sorting.SortBySorted(Values(m), Before);
    Sorting.SortBy(Values(m), Before)
  }

  /** What the callback of `Each` answers. */
  datatype Reply = Go | StopIteration | Fail(cause: nat)

  /** `Each` over the sites (`all` is `Values` of the map): the first
      failure stops the walk and is returned wrapped with the site's name;
      `StopSiteIteration` stops it with nil. */
  function Each(all: seq<Site>, cb: Site -> Reply): (r: (nat, Option<SiteError>))
    ensures r.0 <= |all|
    ensures forall i :: 0 <= i < r.0 - 1 ==> cb(all[i]).Go?
    ensures r.1.Some? ==> r.0 > 0 && cb(all[r.0 - 1]).Fail? && r.1 == Some(Wrapped(all[r.0 - 1].name, cb(all[r.0 - 1]).cause))
    ensures r.1.None? ==> r.0 == |all| || (r.0 > 0 && cb(all[r.0 - 1]).StopIteration?)
  {
    EachFrom(all, 0, cb)
  }

  function EachFrom(all: seq<Site>, i: nat, cb: Site -> Reply): (r: (nat, Option<SiteError>))
    requires i <= |all|
    ensures i <= r.0 <= |all|
    ensures forall k :: i <= k < r.0 - 1 ==> cb(all[k]).Go?
    ensures r.1.Some? ==> r.0 > i && cb(all[r.0 - 1]).Fail? && r.1 == Some(Wrapped(all[r.0 - 1].name, cb(all[r.0 - 1]).cause))
    ensures r.1.None? ==> r.0 == |all| || (r.0 > i && cb(all[r.0 - 1]).StopIteration?)
    ensures r.0 == |all| && r.1.None? && (i == |all| || !cb(all[|all| - 1]).StopIteration?) ==> forall k :: i <= k < |all| ==> cb(all[k]).Go?
    decreases |all| - i
  {
    if i == |all| then (i, None)
    else
      match cb(all[i])
      case Go => EachFrom(all, i + 1, cb)
      case StopIteration => (i + 1, None)
      case Fail(c) => (i + 1, Some(Wrapped(all[i].name, c)))
  }

  /** `EachOrAll`: `""` and `"*"` mean every site; any other name calls
      back once on that site and returns its answer as it is (a
      `StopSiteIteration` is not turned into nil on this path), or gives
      the lookup error. */
  function EachOrAll(m: Sites, name: string, cb: Site -> Reply): (r: Option<SiteError>)
    ensures (name == "" || name == "*") ==> r == Each(Values(m), cb).1
    ensures name != "" && name != "*" && !Bound(m, name) ==> r == Some(NoSuchSite(name))
    ensures name != "" && name != "*" && Bound(m, name) ==>
      r == if cb(Get(m, name).value).Go? then None else Some(Passed(cb(Get(m, name).value)))
  {
    if name == "" || name == "*" then Each(Values(m), cb).1
    else
      match GetOrError(m, name)
      case Err(e) => Some(e)
      case Ok(s) => if cb(s).Go? then None else Some(Passed(cb(s)))
  }
}
