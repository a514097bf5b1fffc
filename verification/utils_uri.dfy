/** `utils/uri`: joining URL path parts with single slashes, and dropping
    empty parts. */
module Uri {
  import Text

  /** The parts after the first, prepared for joining: every one but the
      last loses its slashes on both sides, the last only its leading
      slashes, so a trailing `/` of the whole path survives. */
  function TrimTail(rest: seq<string>): (r: seq<string>)
    requires |rest| >= 1
    ensures |r| == |rest|
    ensures forall i :: 0 <= i < |rest| - 1 ==> r[i] == Text.TrimChar(rest[i], '/')
    ensures r[|r| - 1] == Text.TrimPrefix(rest[|rest| - 1], "/")
  {
    seq(|rest|, i requires 0 <= i < |rest| =>
      if i < |rest| - 1 then Text.TrimChar(rest[i], '/') else Text.TrimPrefix(rest[i], "/"))
  }

  /** `uri.Join`: one part is returned as it is; otherwise the first part
      loses its trailing `/` and is followed by the joined rest, unless
      that rest is empty. No parts at all is an index panic in the source,
      hence the precondition. */
  function Join(parts: seq<string>): (r: string)
    requires |parts| >= 1
    ensures |parts| == 1 ==> r == parts[0]
    ensures |parts| > 1 ==> Text.HasPrefix(r, Text.TrimSuffix(parts[0], "/"))
  {
    if |parts| == 1 then parts[0]
    else
      var prefix := Text.TrimSuffix(parts[0], "/");
      var path := Text.Join(TrimTail(parts[1..]), "/");
      if path != "" then prefix + "/" + path else prefix
  }

  /** `uri.Clean`: the non-empty parts, in order. */
  function Clean(path: seq<string>): (r: seq<string>)
    ensures forall i :: 0 <= i < |r| ==> r[i] != ""
    ensures forall x :: x in r <==> x in path && x != ""
  {
    Text.DropEmpty(path)
  }

  /** Cleaning keeps order: it distributes over concatenation. */
  lemma CleanAppend(a: seq<string>, b: seq<string>)
    ensures Clean(a + b) == Clean(a) + Clean(b)
  {
    Text.DropEmptyAppend(a, b);
  }

  /** Cleaning is idempotent and leaves clean lists alone. */
  lemma CleanIdempotent(path: seq<string>)
    ensures Clean(Clean(path)) == Clean(path)
  {
    Text.DropEmptyKeeps(Clean(path));
  }

  /** Two parts: the first's trailing slash and the second's leading slash
      meet as exactly one `/`; the second's trailing slash is kept. */
  lemma JoinTwo(a: string, b: string)
    requires !Text.HasSuffix(a, "/") && |b| > 0 && b[0] != '/'
    ensures Join([a, b]) == a + "/" + b
    ensures Join([a + "/", "/" + b]) == a + "/" + b
  {
    assert [a, b][1..] == [b];
    assert TrimTail([b]) == [b];
    assert Text.HasSuffix(a + "/", "/");
    assert (a + "/")[..|a + "/"| - 1] == a;
    assert Text.HasPrefix("/" + b, "/");
    assert ("/" + b)[1..] == b;
    assert [a + "/", "/" + b][1..] == ["/" + b];
    assert TrimTail(["/" + b]) == [b];
  }

  /** A prefix joined with parts that contain no slashes and are not empty
      is plain `/`-joining. */
  lemma JoinPlain(prefix: string, rest: seq<string>)
    requires !Text.HasSuffix(prefix, "/") && |rest| >= 1
    requires forall i :: 0 <= i < |rest| ==> rest[i] != "" && '/' !in rest[i]
    ensures Join([prefix] + rest) == Text.Join([prefix] + rest, "/")
  {
    var parts := [prefix] + rest;
    assert parts[1..] == rest;
    forall i | 0 <= i < |rest|
      ensures TrimTail(rest)[i] == rest[i]
    {
      NoSlashTrim(rest[i]);
    }
    assert TrimTail(rest) == rest;
    assert Text.Join(rest, "/") != "" by {
      Text.JoinHead(rest, "/");
    }
    assert Text.Join(parts, "/") == prefix + "/" + Text.Join(parts[1..], "/");
  }

  lemma NoSlashTrim(s: string)
    requires s != "" && '/' !in s
    ensures Text.TrimChar(s, '/') == s && Text.TrimPrefix(s, "/") == s
  {
    assert s[0] in s;
    assert s[|s| - 1] in s;
    assert Text.TrimLeftChar(s, '/') == s;
    assert !Text.HasPrefix(s, "/");
  }

  /** A second part that is empty or a single slash contributes nothing:
      the result is the first part without its trailing slash. Only one
      leading slash is removed, so `"//"` would still add a `/`. */
  lemma JoinEmptyRest(a: string, b: string)
    requires b == "" || b == "/"
    ensures Join([a, b]) == Text.TrimSuffix(a, "/")
    ensures Join([a, "//"]) == Text.TrimSuffix(a, "/") + "//"
  {
    assert [a, b][1..] == [b];
    assert TrimTail([b]) == [Text.TrimPrefix(b, "/")];
    assert Text.TrimPrefix(b, "/") == "" by {
      if b == "/" {
        assert Text.HasPrefix(b, "/");
      }
    }
    assert [a, "//"][1..] == ["//"];
    assert Text.HasPrefix("//", "/");
    assert TrimTail(["//"]) == ["/"];
  }
}
