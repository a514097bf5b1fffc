/** The parts of `context.go` that are plain state: the i18n group stack,
    the parent/top chain, URL generation from the context's prefixes and
    the prefixes of a child context. The request, and the values read
    from it when a prefix is empty, are not part of this model. */
module Context {
  import opened Wrappers
  import Text
  import Uri

  /** A context: its parent, whether it was made top with `AsTop`, the
      cached answer of `Top`, its URL prefixes and its i18n group stack
      (innermost last). */
  datatype Ctx = Ctx(parent: Option<Ctx>, isTop: bool, top: Option<Ctx>,
                     prefix: string, staticURL: string, groups: seq<string>)

  /** `PushI18nGroup`. The closure it returns is `PopI18nGroup`. */
  function PushI18nGroup(c: Ctx, group: string): (r: Ctx)
    ensures r.groups == c.groups + [group]
    ensures r == c.(groups := r.groups)
  {
    c.(groups := c.groups + [group])
  }

  /** `PopI18nGroup`; popping an empty stack is a nil dereference. */
  function PopI18nGroup(c: Ctx): (r: Ctx)
    requires |c.groups| > 0
    ensures r.groups + [c.groups[|c.groups| - 1]] == c.groups
    ensures r == c.(groups := r.groups)
  {
    c.(groups := c.groups[..|c.groups| - 1])
  }

  lemma PushPop(c: Ctx, group: string)
    ensures PopI18nGroup(PushI18nGroup(c, group)) == c
  {
  }

  /** `IsTop`: marked top, or without a parent. */
  predicate IsTop(c: Ctx) {
    c.isTop || c.parent.None?
  }

  /** `AsTop`. */
  function AsTop(c: Ctx): (r: Ctx)
    ensures IsTop(r) && r == c.(isTop := true)
  {
    c.(isTop := true)
  }

  /** `Top`: the cached answer if there is one, else the parent's `Top`
      for a context that is not top, else the context itself. */
  function Top(c: Ctx): Ctx {
    if c.top.Some? then c.top.value
    else if c.parent.Some? && !c.isTop then Top(c.parent.value)
    else c
  }

  /** `Top` with its caching: the answer and the context holding it in
      its cache when it came from the parent. */
  function TopCaching(c: Ctx): (r: (Ctx, Ctx))
    ensures r.0 == Top(c)
    ensures Top(r.1) == Top(c)
    ensures r.1 == c || r.1 == c.(top := Some(Top(c)))
  {
    if c.top.Some? then (c.top.value, c)
    else if c.parent.Some? && !c.isTop then
      var t := Top(c.parent.value);
      (t, c.(top := Some(t)))
    else (c, c)
  }

  /** No context on the chain holds a cached `Top`. */
  predicate Uncached(c: Ctx) {
    c.top.None? && (c.parent.Some? ==> Uncached(c.parent.value))
  }

  /** Without caches, `Top` is the nearest context on the parent chain
      that is top, starting with the context itself. */
  lemma {:induction false} TopIsNearestTop(c: Ctx)
    requires Uncached(c)
    ensures IsTop(Top(c))
    ensures IsTop(c) ==> Top(c) == c
    ensures !IsTop(c) ==> Top(c) == Top(c.parent.value)
  {
    if c.parent.Some? && !c.isTop {
      TopIsNearestTop(c.parent.value);
    }
  }

  /** `Root`: the end of the parent chain. */
  function Root(c: Ctx): (r: Ctx)
    ensures r.parent.None? && IsTop(r)
  {
    if c.parent.Some? then Root(c.parent.value) else c
  }

  /** `GenStaticURL` with the static prefix given: the empty parts are
      dropped; no parts gives the prefix, an external first part (`//`)
      ignores the prefix, an absolute first part is appended to the prefix
      alone (the other parts are dropped), and anything else is joined
      under the prefix. */
  function GenStaticURL(prefix: string, path: seq<string>): (r: string)
    ensures var p := Uri.Clean(path);
      && (|p| == 0 ==> r == prefix)
      && (|p| > 0 && Text.HasPrefix(p[0], "//") ==> r == Uri.Join(p))
      && (|p| > 0 && !Text.HasPrefix(p[0], "//") && p[0][0] == '/' ==> r == prefix + p[0])
      && (|p| > 0 && p[0][0] != '/' ==> r == Uri.Join([prefix] + p))
  {
    var p := Uri.Clean(path);
    if |p| == 0 then prefix
    else if Text.HasPrefix(p[0], "//") then
      Text.HasPrefixHead(p[0], "//");
      Uri.Join(p)
    else if p[0][0] == '/' then prefix + p[0]
    else Uri.Join([prefix] + p)
  }

  /** `GenURL` with the prefix given: the prefix alone when no part is
      left after dropping empty ones, else the prefix joined with the
      parts. */
  function GenURL(prefix: string, path: seq<string>): (r: string)
    ensures |Uri.Clean(path)| == 0 ==> r == prefix
    ensures |Uri.Clean(path)| > 0 ==> Text.HasPrefix(r, Text.TrimSuffix(prefix, "/"))
  {
    var p := Uri.Clean(path);
    if |p| == 0 || p[0] == "" then prefix else Uri.Join([prefix] + p)
  }

  /** `JoinPath`: nothing for no parts; otherwise the parts joined under
      the prefix, which is left out when empty. */
  function JoinPath(prefix: string, path: seq<string>): (r: string)
    ensures |path| == 0 ==> r == ""
    ensures |path| > 0 && prefix == "" ==> r == Uri.Join(path)
    ensures |path| > 0 && prefix != "" ==> r == Uri.Join([prefix] + path)
  {
    if |path| == 0 then ""
    else
      var parts := if prefix != "" then [prefix] else [];
      assert prefix == "" ==> parts + path == path;
      Uri.Join(parts + path)
  }

  /** Plain parts (no slashes, none empty) under a prefix without a
      trailing slash: `GenURL` is the `/`-separated join, and `JoinPath`
      agrees with it. */
  lemma GenURLPlain(prefix: string, path: seq<string>)
    requires prefix != "" && !Text.HasSuffix(prefix, "/") && |path| >= 1
    requires forall i :: 0 <= i < |path| ==> path[i] != "" && '/' !in path[i]
    ensures GenURL(prefix, path) == Text.Join([prefix] + path, "/")
    ensures JoinPath(prefix, path) == GenURL(prefix, path)
  {
    GenURLJoin(prefix, path);
    Uri.JoinPlain(prefix, path);
  }

  /** Parts that are all non-empty are joined under the prefix as given. */
  lemma GenURLJoin(prefix: string, path: seq<string>)
    requires |path| >= 1 && forall i :: 0 <= i < |path| ==> path[i] != ""
    ensures GenURL(prefix, path) == Uri.Join([prefix] + path)
  {
    Text.DropEmptyKeeps(path);
  }

  /** Empty parts never matter to `GenURL`. */
  lemma GenURLIgnoresEmpty(prefix: string, path: seq<string>)
    ensures GenURL(prefix, path) == GenURL(prefix, Uri.Clean(path))
  {
    Uri.CleanIdempotent(path);
  }

  /** The path segment a child context adds: `/` and the first prefix
      without surrounding slashes, or nothing. */
  function ChildPath(prefix: seq<string>): (r: string)
    ensures (|prefix| == 0 || prefix[0] == "") ==> r == ""
    ensures |prefix| > 0 && prefix[0] != "" ==> r == "/" + Text.TrimChar(prefix[0], '/')
  {
    if |prefix| > 0 && prefix[0] != "" then "/" + Text.TrimChar(prefix[0], '/') else ""
  }

  /** `NewChild`: a copy that is not top, has this context as parent and
      extends both prefixes with the child path. */
  function NewChild(c: Ctx, prefix: seq<string>): (r: Ctx)
    ensures r.parent == Some(c) && !r.isTop && !IsTop(r)
    ensures r.prefix == c.prefix + ChildPath(prefix) && r.staticURL == c.staticURL + ChildPath(prefix)
    ensures r.groups == c.groups && r.top == c.top
  {
    var path := ChildPath(prefix);
    c.(isTop := false, parent := Some(c), prefix := c.prefix + path, staticURL := c.staticURL + path)
  }

  /** A child answers `Top` and `Root` as its parent does, whether or not
      the parent had cached its top. */
  lemma ChildKeepsTop(c: Ctx, prefix: seq<string>)
    ensures Top(NewChild(c, prefix)) == Top(c)
    ensures Root(NewChild(c, prefix)) == Root(c)
  {
  }
}
