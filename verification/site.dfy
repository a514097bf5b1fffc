/** `site.go`: a site's post-init queue, its handler with change
    notifications, and its lookups of databases, media storages and public
    URLs. Callbacks and handlers are known by identities; the model records
    the callback calls made. */
module Site {
  import opened Wrappers
  import Text
  import Path

  /** The parts of a `Site` these operations touch. `dbs` and `media` map
      names to identities; an absent name is nil. */
  datatype Site = Site(
    initialized: bool, postInit: seq<nat>,
    handler: nat, handlerChanged: seq<nat>,
    dbs: map<string, nat>, media: map<string, nat>,
    publicURL: string)

  /** A callback call: a post-init callback, or a handler-changed callback
      with the old and new handler. */
  datatype Event = Ran(callback: nat) | Changed(callback: nat, before: nat, after: nat)

  function RunAll(callbacks: seq<nat>): (r: seq<Event>)
    ensures |r| == |callbacks| && forall i :: 0 <= i < |r| ==> r[i] == Ran(callbacks[i])
  {
    seq(|callbacks|, i requires 0 <= i < |callbacks| => Ran(callbacks[i]))
  }

  /** `PostInit`: on an initialised site the callbacks run at once, in
      order; otherwise they are queued behind the ones already waiting. */
  function PostInit(s: Site, fs: seq<nat>): (r: (Site, seq<Event>))
    ensures s.initialized ==> r.0 == s && r.1 == RunAll(fs)
    ensures !s.initialized ==> r.0 == s.(postInit := s.postInit + fs) && r.1 == []
  {
    if s.initialized then (s, RunAll(fs)) else (s.(postInit := s.postInit + fs), [])
  }

  /** The end of `Init`: the queued callbacks run in order, the queue is
      emptied and the site is marked initialised. */
  function FinishInit(s: Site): (r: (Site, seq<Event>))
    ensures r.0.initialized && r.0.postInit == []
    ensures r.0 == s.(initialized := true, postInit := [])
    ensures r.1 == RunAll(s.postInit)
  {
    (s.(initialized := true, postInit := []), RunAll(s.postInit))
  }

  /** Whether a callback is handed to `PostInit` before or after `Init`,
      every callback runs exactly once, in the order it was given, and the
      site ends up the same. */
  lemma PostInitOrder(s: Site, fs: seq<nat>)
    requires !s.initialized
    ensures var (a, e1) := PostInit(s, fs); var (b, e2) := FinishInit(a);
      var (c, e3) := FinishInit(s); var (d, e4) := PostInit(c, fs);
      b == d && e1 + e2 == e3 + e4 && e3 + e4 == RunAll(s.postInit + fs)
  {
    assert RunAll(s.postInit + fs) == RunAll(s.postInit) + RunAll(fs);
  }

  /** `SetHandler`: a handler equal to the current one changes nothing and
      calls nobody; any other replaces it and each handler-changed callback
      is called with the old and the new handler. */
  function SetHandler(s: Site, h: nat): (r: (Site, seq<Event>))
    ensures h == s.handler ==> r == (s, [])
    ensures h != s.handler ==> r.0 == s.(handler := h)
    ensures h != s.handler ==> |r.1| == |s.handlerChanged|
    ensures h != s.handler ==> forall i :: 0 <= i < |r.1| ==> r.1[i] == Changed(s.handlerChanged[i], s.handler, h)
  {
    if h == s.handler then (s, [])
    else (s.(handler := h), seq(|s.handlerChanged|, i requires 0 <= i < |s.handlerChanged| => Changed(s.handlerChanged[i], s.handler, h)))
  }

  /** `HandlerChanged`: more callbacks, called after the earlier ones. */
  function HandlerChanged(s: Site, fs: seq<nat>): (r: Site)
    ensures r == s.(handlerChanged := s.handlerChanged + fs)
  {
    s.(handlerChanged := s.handlerChanged + fs)
  }

  /** Setting the same handler twice notifies once; setting one and then
      setting the old one back notifies twice with the roles swapped. */
  lemma SetHandlerTwice(s: Site, h: nat)
    ensures var (a, e1) := SetHandler(s, h); SetHandler(a, h) == (a, [])
    ensures h != s.handler ==>
      var (a, e1) := SetHandler(s, h); var (b, e2) := SetHandler(a, s.handler);
      b == s && |e1| == |e2| && forall i :: 0 <= i < |e1| ==> e1[i].before == e2[i].after && e1[i].after == e2[i].before
  {
  }

  /** The name of the system database. */
  const SystemDB := "system"

  /** The name `Init` gives the site's own file-system storage. */
  const DefaultStorage := "default"

  /** `GetDBOrSystem`: the named database if there is one, else the system
      database (nil when that is missing too). */
  function GetDBOrSystem(s: Site, name: string): (r: Option<nat>)
    ensures name in s.dbs ==> r == Some(s.dbs[name])
    ensures name !in s.dbs ==> r == if SystemDB in s.dbs then Some(s.dbs[SystemDB]) else None
  {
    if name in s.dbs then Some(s.dbs[name])
    else if SystemDB in s.dbs then Some(s.dbs[SystemDB]) else None
  }

  /** `GetMediaStorageOrDefault`: the named storage, else the default. */
  function GetMediaStorageOrDefault(s: Site, name: string): (r: Option<nat>)
    ensures name in s.media ==> r == Some(s.media[name])
    ensures name !in s.media ==> r == if DefaultStorage in s.media then Some(s.media[DefaultStorage]) else None
  {
    if name in s.media then Some(s.media[name])
    else if DefaultStorage in s.media then Some(s.media[DefaultStorage]) else None
  }

  /** Asking for the fallback by name gives what asking for a missing
      name gives. */
  lemma FallbacksAgree(s: Site, missing: string)
    requires missing !in s.dbs && missing !in s.media
    ensures GetDBOrSystem(s, missing) == GetDBOrSystem(s, SystemDB)
    ensures GetMediaStorageOrDefault(s, missing) == GetMediaStorageOrDefault(s, DefaultStorage)
  {
  }

  /** What the callback of `EachDB` answers; any failure is returned as
      it is. */
  datatype Reply = Go | StopIteration | Fail(cause: nat)

  /** `EachDB` over the databases in the order given (the map's iteration
      order): the first failure ends the walk and is returned;
      `StopDBIteration` ends it with nil. The count is how many were
      visited. */
  function EachDB(dbs: seq<nat>, cb: nat -> Reply): (r: (nat, Option<nat>))
    ensures r.0 <= |dbs|
    ensures forall i :: 0 <= i < r.0 - 1 ==> cb(dbs[i]).Go?
    ensures r.1.Some? ==> r.0 > 0 && cb(dbs[r.0 - 1]) == Fail(r.1.value)
    ensures r.1.None? && r.0 < |dbs| ==> r.0 > 0 && cb(dbs[r.0 - 1]).StopIteration?
    ensures r.1.None? && r.0 == |dbs| && r.0 > 0 ==> !cb(dbs[r.0 - 1]).Fail?
    decreases |dbs|
  {
    if |dbs| == 0 then (0, None)
    else
      match cb(dbs[0])
      case Go =>
        var rest := EachDB(dbs[1..], cb);
        (rest.0 + 1, rest.1)
      case StopIteration => (1, None)
      case Fail(c) => (1, Some(c))
  }

  /** Every database is visited, and nil is returned, exactly when the
      callback goes on at every one (or stops at the last). */
  lemma {:induction false} EachDBAll(dbs: seq<nat>, cb: nat -> Reply)
    ensures EachDB(dbs, cb) == (|dbs|, None) <==>
      (forall i :: 0 <= i < |dbs| - 1 ==> cb(dbs[i]).Go?) && (|dbs| > 0 ==> !cb(dbs[|dbs| - 1]).Fail?)
    decreases |dbs|
  {
    if |dbs| > 1 {
      EachDBAll(dbs[1..], cb);
      assert forall i :: 1 <= i < |dbs| ==> dbs[1..][i - 1] == dbs[i];
    }
  }

  /** `PublicURL`: the base alone without parts; otherwise the base, a
      slash, and the parts joined and cleaned as a path, without a leading
      slash. */
  function PublicURL(s: Site, parts: seq<string>): (r: string)
    ensures |parts| == 0 ==> r == s.publicURL
    ensures |parts| > 0 ==> Text.HasPrefix(r, s.publicURL + "/")
  {
    if |parts| > 0 then s.publicURL + "/" + Text.TrimPrefix(Path.Join(parts), "/") else s.publicURL
  }

  /** Plain names are appended with single slashes; empty parts add only
      the slash; a leading slash or a `.` part is cleaned away. */
  lemma PublicURLParts(s: Site, parts: seq<string>)
    requires |parts| > 0
    requires forall i :: 0 <= i < |parts| ==> parts[i] != "" && parts[i] != "." && parts[i] != ".." && '/' !in parts[i]
    ensures PublicURL(s, parts) == s.publicURL + "/" + Text.Join(parts, "/")
    ensures PublicURL(s, [""]) == s.publicURL + "/"
  {
    Path.JoinPlain(parts);
    var j := Text.Join(parts, "/");
    Text.JoinHead(parts, "/");
    Text.HasPrefixHead(j, parts[0]);
    assert parts[0][0] in parts[0];
    assert j[0] != '/';
    assert !Text.HasPrefix(j, "/") by {
      if Text.HasPrefix(j, "/") {
        Text.HasPrefixHead(j, "/");
      }
    }
    assert Path.Join([""]) == "";
  }
}
