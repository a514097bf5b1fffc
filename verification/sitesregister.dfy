/** `sitesregister.go`: the register of sites by name, with hosts and paths
    bound to registered sites, and the callbacks fired as sites, hosts and
    paths come and go. A callback is known by an identity; what it does is
    outside the model, which records instead the sequence of calls made. */
module SitesRegister {
  import opened Wrappers
  import opened SitesMap

  /** The callback lists, one per kind of event. */
  datatype Callbacks = Callbacks(
    added: seq<nat>, postAdded: seq<nat>, deleted: seq<nat>,
    hostAdded: seq<nat>, hostDeleted: seq<nat>,
    pathAdded: seq<nat>, pathDeleted: seq<nat>)

  /** `SitesRegister`. `onDestroy` holds each site's own destroy callbacks,
      by the site's identity (a field of the site in the source). */
  datatype Register = Register(
    alone: bool, byName: Sites, byHost: Sites, byPath: Sites,
    callbacks: Callbacks, onDestroy: map<nat, seq<nat>>)

  datatype Kind = AddedKind | PostAddedKind | DeletedKind | HostAddedKind | HostDeletedKind
                | PathAddedKind | PathDeletedKind | DestroyedKind

  /** One callback call: which list, which callback, on which site, and the
      host or path for the binding callbacks (`""` for the others). */
  datatype Event = Call(kind: Kind, callback: nat, site: Site, key: string)

  /** The errors: `ErrDuplicateSiteHost`, `ErrDuplicateSitePath`,
      `ErrSiteNotFound`, `ErrSiteFound`, and the alone-mode refusal. */
  datatype RegisterError = DuplicateHost | DuplicatePath | NotFound | Found | AloneTaken

  /** The register after an operation, the callback calls made, and the
      error returned. */
  datatype Outcome = Outcome(register: Register, events: seq<Event>, err: Option<RegisterError>)

  predicate Valid(r: Register) {
    SitesMap.Valid(r.byName) && SitesMap.Valid(r.byHost) && SitesMap.Valid(r.byPath)
  }

  /** Every callback of a list called once, in order, with the same
      arguments. */
  function Fire(kind: Kind, callbacks: seq<nat>, site: Site, key: string): (r: seq<Event>)
    ensures |r| == |callbacks|
    ensures forall i :: 0 <= i < |r| ==> r[i] == Call(kind, callbacks[i], site, key)
  {
    seq(|callbacks|, i requires 0 <= i < |callbacks| => Call(kind, callbacks[i], site, key))
  }

  /** `Fire` once per key, keys in order. */
  function FireEach(kind: Kind, callbacks: seq<nat>, site: Site, keys: seq<string>): (r: seq<Event>)
    ensures |r| == |keys| * |callbacks|
    ensures forall e :: e in r ==> e.kind == kind && e.site == site && e.key in keys
  {
    if |keys| == 0 then []
    else Fire(kind, callbacks, site, keys[0]) + FireEach(kind, callbacks, site, keys[1..])
  }

  /** `AddHost` and `AddPath`: a key already bound is refused before the
      site name is looked up; an unknown site name is refused; otherwise the
      key is bound to the site and the added callbacks are called. */
  function AddHost(r: Register, siteName: string, host: string): (o: Outcome)
    requires Valid(r)
    ensures Valid(o.register)
    ensures Bound(r.byHost, host) ==> o == Outcome(r, [], Some(DuplicateHost))
    ensures !Bound(r.byHost, host) && Get(r.byName, siteName).None? ==> o == Outcome(r, [], Some(NotFound))
    ensures !Bound(r.byHost, host) && Get(r.byName, siteName).Some? ==>
      var site := Get(r.byName, siteName).value;
      && o.err.None?
      && o.register == r.(byHost := o.register.byHost)
      && Get(o.register.byHost, host) == Some(site)
      && (forall h :: h != host ==> Get(o.register.byHost, h) == Get(r.byHost, h))
      && o.events == Fire(HostAddedKind, r.callbacks.hostAdded, site, host)
  {
    if Has(r.byHost, [host]) then Outcome(r, [], Some(DuplicateHost))
    else
      match Get(r.byName, siteName)
      case None => Outcome(r, [], Some(NotFound))
      case Some(site) =>
        Outcome(r.(byHost := Set(r.byHost, host, site)), Fire(HostAddedKind, r.callbacks.hostAdded, site, host), None)
  }

  function AddPath(r: Register, siteName: string, path: string): (o: Outcome)
    requires Valid(r)
    ensures Valid(o.register)
    ensures Bound(r.byPath, path) ==> o == Outcome(r, [], Some(DuplicatePath))
    ensures !Bound(r.byPath, path) && Get(r.byName, siteName).None? ==> o == Outcome(r, [], Some(NotFound))
    ensures !Bound(r.byPath, path) && Get(r.byName, siteName).Some? ==>
      var site := Get(r.byName, siteName).value;
      && o.err.None?
      && o.register == r.(byPath := o.register.byPath)
      && Get(o.register.byPath, path) == Some(site)
      && (forall p :: p != path ==> Get(o.register.byPath, p) == Get(r.byPath, p))
      && o.events == Fire(PathAddedKind, r.callbacks.pathAdded, site, path)
  {
    if Has(r.byPath, [path]) then Outcome(r, [], Some(DuplicatePath))
    else
      match Get(r.byName, siteName)
      case None => Outcome(r, [], Some(NotFound))
      case Some(site) =>
        Outcome(r.(byPath := Set(r.byPath, path, site)), Fire(PathAddedKind, r.callbacks.pathAdded, site, path), None)
  }

  /** `DelHost` and `DelPath`: the map's `ErrSiteNotFound` for an unbound
      key, otherwise the binding goes and the deleted callbacks are called
      with the site it named. `DelPath`'s site name is not used. */
  function DelHost(r: Register, host: string): (o: Outcome)
    requires Valid(r)
    ensures Valid(o.register)
    ensures !Bound(r.byHost, host) ==> o == Outcome(r, [], Some(NotFound))
    ensures Bound(r.byHost, host) ==>
      var site := Get(r.byHost, host).value;
      && o.err.None?
      && o.register == r.(byHost := o.register.byHost)
      && !Bound(o.register.byHost, host)
      && (forall h :: h != host ==> Get(o.register.byHost, h) == Get(r.byHost, h))
      && o.events == Fire(HostDeletedKind, r.callbacks.hostDeleted, site, host)
  {
    var (m, res) := Del(r.byHost, host);
    match res
    case Err(_) => Outcome(r, [], Some(NotFound))
    case Ok(site) => Outcome(r.(byHost := m), Fire(HostDeletedKind, r.callbacks.hostDeleted, site, host), None)
  }

  function DelPath(r: Register, siteName: string, path: string): (o: Outcome)
    requires Valid(r)
    ensures Valid(o.register)
    ensures !Bound(r.byPath, path) ==> o == Outcome(r, [], Some(NotFound))
    ensures Bound(r.byPath, path) ==>
      var site := Get(r.byPath, path).value;
      && o.err.None?
      && o.register == r.(byPath := o.register.byPath)
      && !Bound(o.register.byPath, path)
      && (forall p :: p != path ==> Get(o.register.byPath, p) == Get(r.byPath, p))
      && o.events == Fire(PathDeletedKind, r.callbacks.pathDeleted, site, path)
  {
    var (m, res) := Del(r.byPath, path);
    match res
    case Err(_) => Outcome(r, [], Some(NotFound))
    case Ok(site) => Outcome(r.(byPath := m), Fire(PathDeletedKind, r.callbacks.pathDeleted, site, path), None)
  }

  /** Binding a free host and then deleting it gives the register back, and
      the deleted callbacks see the site the added ones saw. */
  lemma AddThenDelHost(r: Register, siteName: string, host: string)
    requires Valid(r) && r.byHost.Some? && !Bound(r.byHost, host) && Get(r.byName, siteName).Some?
    ensures var a := AddHost(r, siteName, host);
      && DelHost(a.register, host).register == r
      && DelHost(a.register, host).events == Fire(HostDeletedKind, r.callbacks.hostDeleted, Get(r.byName, siteName).value, host)
  {
    SetThenDel(r.byHost, host, Get(r.byName, siteName).value);
  }

  lemma AddThenDelPath(r: Register, siteName: string, path: string)
    requires Valid(r) && r.byPath.Some? && !Bound(r.byPath, path) && Get(r.byName, siteName).Some?
    ensures var a := AddPath(r, siteName, path);
      && DelPath(a.register, siteName, path).register == r
      && DelPath(a.register, siteName, path).events == Fire(PathDeletedKind, r.callbacks.pathDeleted, Get(r.byName, siteName).value, path)
  {
    SetThenDel(r.byPath, path, Get(r.byName, siteName).value);
  }

  /** `Rename`: an absent old name is `ErrSiteNotFound`; otherwise the site
      moves to the new name, replacing whatever site held it. Hosts, paths
      and the site's own name field are left as they are. */
  function Rename(r: Register, oldName: string, newName: string): (o: Outcome)
    requires Valid(r)
    ensures Valid(o.register) && o.events == []
    ensures !Bound(r.byName, oldName) ==> o == Outcome(r, [], Some(NotFound))
    ensures Bound(r.byName, oldName) ==>
      && o.err.None?
      && o.register == r.(byName := o.register.byName)
      && Get(o.register.byName, newName) == Get(r.byName, oldName)
      && (oldName != newName ==> !Bound(o.register.byName, oldName))
      && (forall n :: n != oldName && n != newName ==> Get(o.register.byName, n) == Get(r.byName, n))
  {
    var (m, res) := Del(r.byName, oldName);
    match res
    case Err(_) => Outcome(r, [], Some(NotFound))
    case Ok(site) => Outcome(r.(byName := Set(m, newName, site)), [], None)
  }

  /** Renaming to a free name and back leaves every name reading as
      before. */
  lemma RenameBack(r: Register, oldName: string, newName: string)
    requires Valid(r) && Bound(r.byName, oldName) && !Bound(r.byName, newName)
    ensures var back := Rename(Rename(r, oldName, newName).register, newName, oldName);
      back.err.None? && forall n :: Get(back.register.byName, n) == Get(r.byName, n)
  {
  }

  /** `HasSites`: the length of the nil map is zero. */
  predicate HasSites(r: Register) {
    |Entries(r.byName)| > 0
  }

  /** `Site()`: in Alone mode, a registered site (the first the model
      ranges over); otherwise, or with no site, nil. */
  function TheSite(r: Register): (s: Option<Site>)
    ensures s.Some? <==> r.alone && HasSites(r)
    ensures s.Some? ==> s.value in Values(r.byName)
  {
    if r.alone && HasSites(r) then Some(Values(r.byName)[0]) else None
  }

  /** `Add`: refused in Alone mode once a site exists, and with
      `ErrSiteFound` for a name already taken (neither calls back);
      otherwise the site is stored under its name, the added callbacks are
      called, then the post-added ones. */
  function Add(r: Register, site: Site): (o: Outcome)
    requires Valid(r)
    ensures Valid(o.register)
    ensures r.alone && HasSites(r) ==> o == Outcome(r, [], Some(AloneTaken))
    ensures !(r.alone && HasSites(r)) && Bound(r.byName, site.name) ==> o == Outcome(r, [], Some(Found))
    ensures !(r.alone && HasSites(r)) && !Bound(r.byName, site.name) ==>
      && o.err.None?
      && o.register == r.(byName := o.register.byName)
      && Entries(o.register.byName) == Entries(r.byName) + [(site.name, site)]
      && o.events == Fire(AddedKind, r.callbacks.added, site, "") + Fire(PostAddedKind, r.callbacks.postAdded, site, "")
  {
    if r.alone && HasSites(r) then Outcome(r, [], Some(AloneTaken))
    else if Has(r.byName, [site.name]) then Outcome(r, [], Some(Found))
    else
      Outcome(r.(byName := Set(r.byName, site.name, site)),
              Fire(AddedKind, r.callbacks.added, site, "") + Fire(PostAddedKind, r.callbacks.postAdded, site, ""), None)
  }

  /** Alone mode keeps at most one site, whatever is added. */
  lemma AloneHoldsOne(r: Register, site: Site)
    requires Valid(r) && r.alone && |Entries(r.byName)| <= 1
    ensures |Entries(Add(r, site).register.byName)| <= 1
    ensures TheSite(Add(r, site).register) == Some(if HasSites(r) then Values(r.byName)[0] else site)
  {
  }

  /** The entries not bound to the site, and the keys that were, both in
      order. */
  function Unbind(es: seq<(string, Site)>, site: Site): (r: (seq<(string, Site)>, seq<string>))
    ensures forall e :: e in r.0 <==> e in es && e.1 != site
    ensures forall k :: k in r.1 <==> (k, site) in es
  {
    if |es| == 0 then ([], [])
    else
      var rest := Unbind(es[1..], site);
      assert forall e :: e in es <==> e == es[0] || e in es[1..];
      if es[0].1 == site then (rest.0, [es[0].0] + rest.1) else ([es[0]] + rest.0, rest.1)
  }

  predicate DistinctKeys(es: seq<(string, Site)>) {
    forall i, j :: 0 <= i < j < |es| ==> es[i].0 != es[j].0
  }

  lemma {:induction false} UnbindDistinct(es: seq<(string, Site)>, site: Site)
    requires DistinctKeys(es)
    ensures DistinctKeys(Unbind(es, site).0)
  {
    if |es| > 0 {
      UnbindDistinct(es[1..], site);
      var rest := Unbind(es[1..], site);
      if es[0].1 != site {
        var kept := [es[0]] + rest.0;
        forall j | 0 < j < |kept|
          ensures kept[0].0 != kept[j].0
        {
          assert kept[j] in rest.0;
          var p :| 0 <= p < |es[1..]| && es[1..][p] == kept[j];
          assert es[p + 1] == kept[j];
        }
        assert forall i, j :: 0 < i < j < |kept| ==> kept[i] == rest.0[i - 1] && kept[j] == rest.0[j - 1];
      }
    }
  }

  /** Drop every binding of a map to the site: the remaining map (nil stays
      nil) and the keys dropped. */
  function UnbindAll(m: Sites, site: Site): (r: (Sites, seq<string>))
    requires SitesMap.Valid(m)
    ensures SitesMap.Valid(r.0) && (m.None? ==> r == (None, []))
    ensures forall k :: k in r.1 <==> Get(m, k) == Some(site)
    ensures forall k :: Get(r.0, k) == if Get(m, k) == Some(site) then None else Get(m, k)
  {
    var u := Unbind(Entries(m), site);
    var out: Sites := if m.None? then None else Some(u.0);
    UnbindDistinct(Entries(m), site);
    UnbindReads(m, site, out, u);
    (out, u.1)
  }

  lemma UnbindReads(m: Sites, site: Site, out: Sites, u: (seq<(string, Site)>, seq<string>))
    requires SitesMap.Valid(m) && SitesMap.Valid(out)
    requires u == Unbind(Entries(m), site) && Entries(out) == u.0
    ensures forall k :: k in u.1 <==> Get(m, k) == Some(site)
    ensures forall k :: Get(out, k) == if Get(m, k) == Some(site) then None else Get(m, k)
  {
    forall k
      ensures k in u.1 <==> Get(m, k) == Some(site)
      ensures Get(out, k) == if Get(m, k) == Some(site) then None else Get(m, k)
    {
      GetEntry(m, k, site);
      match Get(out, k)
      case Some(w) =>
        GetEntry(out, k, w);
        GetEntry(m, k, w);
      case None =>
        if Get(m, k).Some? {
          var v := Get(m, k).value;
          GetEntry(m, k, v);
          GetEntry(out, k, v);
        }
    }
  }

  /** Destroying one site: remove the name (`ErrSiteNotFound` if absent);
      call the site's destroy callbacks and clear them; drop every host and
      then every path bound to the site, calling the matching deleted
      callbacks for each; finally call the site-deleted callbacks. */
  function DestroyOne(r: Register, name: string): (o: Outcome)
    requires Valid(r)
    ensures Valid(o.register)
    ensures !Bound(r.byName, name) ==> o == Outcome(r, [], Some(NotFound))
    ensures Bound(r.byName, name) ==> o.err.None? && !Bound(o.register.byName, name)
  {
    var (names, res) := Del(r.byName, name);
    match res
    case Err(_) => Outcome(r, [], Some(NotFound))
    case Ok(site) =>
      var (hosts, hostKeys) := UnbindAll(r.byHost, site);
      var (paths, pathKeys) := UnbindAll(r.byPath, site);
      var events :=
        Fire(DestroyedKind, OwnCallbacks(r, site), site, "")
        + FireEach(HostDeletedKind, r.callbacks.hostDeleted, site, hostKeys)
        + FireEach(PathDeletedKind, r.callbacks.pathDeleted, site, pathKeys)
        + Fire(DeletedKind, r.callbacks.deleted, site, "");
      Outcome(Register(r.alone, names, hosts, paths, r.callbacks, r.onDestroy[site.id := []]), events, None)
  }

  /** What destroying one registered site does: the name is gone and no
      other name changes; exactly the hosts and paths bound to the site are
      gone; its own destroy callbacks are called first and cleared, the
      site-deleted callbacks last; nothing else changes. */
  lemma DestroyOneEffect(r: Register, name: string)
    requires Valid(r) && Bound(r.byName, name)
    ensures var o := DestroyOne(r, name);
      var site := Get(r.byName, name).value;
      && o.register.alone == r.alone && o.register.callbacks == r.callbacks
      && !Bound(o.register.byName, name)
      && (forall n :: n != name ==> Get(o.register.byName, n) == Get(r.byName, n))
      && (forall h :: Get(o.register.byHost, h) == if Get(r.byHost, h) == Some(site) then None else Get(r.byHost, h))
      && (forall p :: Get(o.register.byPath, p) == if Get(r.byPath, p) == Some(site) then None else Get(r.byPath, p))
      && o.register.onDestroy == r.onDestroy[site.id := []]
      && Fire(DestroyedKind, OwnCallbacks(r, site), site, "") <= o.events
      && |r.callbacks.deleted| <= |o.events|
      && Fire(DeletedKind, r.callbacks.deleted, site, "") == o.events[|o.events| - |r.callbacks.deleted|..]
  {
  }

  /** A site's own destroy callbacks; none when never set. */
  function OwnCallbacks(r: Register, site: Site): seq<nat> {
    if site.id in r.onDestroy then r.onDestroy[site.id] else []
  }

  /** A step that keeps a register valid and fails only with
      `ErrSiteNotFound`, as `DestroyOne` does. */
  ghost predicate Step(step: (Register, string) --> Outcome) {
    forall x, n :: Valid(x) ==>
      && step.requires(x, n)
      && Valid(step(x, n).register)
      && (step(x, n).err.None? || step(x, n).err == Some(NotFound))
  }

  /** The step applied to each name in turn; the first error ends the walk,
      with the effect of the names before it kept. */
  function Chain(r: Register, names: seq<string>, step: (Register, string) --> Outcome): (o: Outcome)
    requires Valid(r) && Step(step)
    ensures Valid(o.register)
    ensures o.err.None? || o.err == Some(NotFound)
    decreases |names|
  {
    if |names| == 0 then Outcome(r, [], None)
    else
      var first := step(r, names[0]);
      if first.err.Some? then first
      else
        var rest := Chain(first.register, names[1..], step);
        Outcome(rest.register, first.events + rest.events, rest.err)
  }

  /** `DestroySite`: the names in order; the first unknown one ends the
      walk with `ErrSiteNotFound`, the names before it staying destroyed. */
  function DestroySite(r: Register, names: seq<string>): (o: Outcome)
    requires Valid(r)
    ensures Valid(o.register)
    ensures o.err.None? || o.err == Some(NotFound)
    ensures |names| == 0 ==> o == Outcome(r, [], None)
    ensures |names| > 0 ==>
      var first := DestroyOne(r, names[0]);
      o == if first.err.Some? then first
           else
             var rest := DestroySite(first.register, names[1..]);
             Outcome(rest.register, first.events + rest.events, rest.err)
    decreases |names|
  {
    Chain(r, names, DestroyOne)
  }

  /** Chaining over `a + b` is chaining over `a` and then, if that
      succeeded, over `b`; a failure in `b` keeps what `a` did. */
  lemma {:induction false} ChainAppend(r: Register, a: seq<string>, b: seq<string>, step: (Register, string) --> Outcome)
    requires Valid(r) && Step(step)
    ensures var x := Chain(r, a, step);
      x.err.Some? ==> Chain(r, a + b, step) == x
    ensures var x := Chain(r, a, step);
      x.err.None? ==>
        var y := Chain(x.register, b, step);
        Chain(r, a + b, step) == Outcome(y.register, x.events + y.events, y.err)
    decreases |a|
  {
    if |a| == 0 {
      assert a + b == b;
    } else {
      assert (a + b)[0] == a[0] && (a + b)[1..] == a[1..] + b;
      var first := step(r, a[0]);
      if first.err.None? {
        ChainAppend(first.register, a[1..], b, step);
        var x := Chain(first.register, a[1..], step);
        if x.err.None? {
          var y := Chain(x.register, b, step);
          assert first.events + (x.events + y.events) == (first.events + x.events) + y.events;
        }
      }
    }
  }

  /** Destroying `a + b` is destroying `a` and then, if that succeeded, `b`;
      a failure in `b` keeps what `a` did. */
  lemma DestroyAppend(r: Register, a: seq<string>, b: seq<string>)
    requires Valid(r)
    ensures var x := DestroySite(r, a);
      x.err.Some? ==> DestroySite(r, a + b) == x
    ensures var x := DestroySite(r, a);
      x.err.None? ==>
        var y := DestroySite(x.register, b);
        DestroySite(r, a + b) == Outcome(y.register, x.events + y.events, y.err)
  {
    ChainAppend(r, a, b, DestroyOne);
  }

  /** A successful destroy leaves none of its names registered and no host
      or path bound to a site it removed. */
  lemma {:induction false} DestroyRemoves(r: Register, names: seq<string>, i: nat)
    requires Valid(r) && i < |names| && DestroySite(r, names).err.None?
    ensures !Bound(DestroySite(r, names).register.byName, names[i])
    decreases |names|
  {
    var first := DestroyOne(r, names[0]);
    if i == 0 {
      StaysUnbound(first.register, names[1..], names[0]);
    } else {
      DestroyRemoves(first.register, names[1..], i - 1);
    }
  }

  /** Destroying never brings a name back. */
  lemma {:induction false} StaysUnbound(r: Register, names: seq<string>, name: string)
    requires Valid(r) && !Bound(r.byName, name)
    ensures !Bound(DestroySite(r, names).register.byName, name)
    decreases |names|
  {
    if |names| > 0 {
      var first := DestroyOne(r, names[0]);
      if first.err.None? {
        DestroyOneEffect(r, names[0]);
        StaysUnbound(first.register, names[1..], name);
      }
    }
  }

  /** Destroying a name that is not registered after the names before it
      fails, and the names before it stay destroyed. */
  lemma UnknownAfter(r: Register, a: seq<string>, name: string, b: seq<string>)
    requires Valid(r) && DestroySite(r, a).err.None?
    requires !Bound(DestroySite(r, a).register.byName, name)
    ensures DestroySite(r, a + [name] + b).err == Some(NotFound)
    ensures DestroySite(r, a + [name] + b).register == DestroySite(r, a).register
  {
    DestroyAppend(r, a + [name], b);
    DestroyAppend(r, a, [name]);
    var x := DestroySite(r, a);
    assert DestroySite(x.register, [name]) == Outcome(x.register, [], Some(NotFound));
  }

  /** After a site is destroyed, no host or path leads to it. */
  lemma DestroyUnbinds(r: Register, name: string, h: string)
    requires Valid(r) && Bound(r.byName, name)
    ensures var o := DestroyOne(r, name);
      Get(o.register.byHost, h) != Get(r.byName, name) && Get(o.register.byPath, h) != Get(r.byName, name)
  {
    DestroyOneEffect(r, name);
  }
}
