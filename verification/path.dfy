/** Go's `path.Clean` and `path.Join`, which `Site.PublicURL` builds on:
    purely lexical clean-up of slash-separated paths. */
module Path {
  import Text

  /** A cleaned list of elements: none empty, `"."` or holding a slash;
      `".."` only at the front, and never in a rooted path. */
  predicate Normal(xs: seq<string>, rooted: bool) {
    && (forall i :: 0 <= i < |xs| ==> xs[i] != "" && xs[i] != "." && '/' !in xs[i])
    && (forall i, j :: 0 <= i < j < |xs| && xs[j] == ".." ==> xs[i] == "..")
    && (rooted ==> ".." !in xs)
  }

  /** The element-by-element pass of `Clean`: empty and `"."` elements go;
      `".."` removes the element before it unless that is itself `".."`;
      a `".."` that cannot is dropped at the root and kept otherwise. */
  function Resolve(acc: seq<string>, segs: seq<string>, rooted: bool): (r: seq<string>)
    ensures Normal(acc, rooted) && (forall i :: 0 <= i < |segs| ==> '/' !in segs[i]) ==> Normal(r, rooted)
    decreases |segs|
  {
    if |segs| == 0 then acc
    else
      var s := segs[0];
      var next :=
        if s == "" || s == "." then acc
        else if s == ".." then
          if |acc| > 0 && acc[|acc| - 1] != ".." then acc[..|acc| - 1]
          else if rooted then acc
          else acc + [".."]
        else acc + [s];
      Resolve(next, segs[1..], rooted)
  }

  /** `path.Clean`: the shortest equivalent path; `"."` for an empty
      result, `"/"` for an empty rooted one. */
  function Clean(p: string): (r: string)
    ensures r != ""
    ensures p != "" && p[0] == '/' ==> r[0] == '/'
  {
    if p == "" then "."
    else
      var rooted := p[0] == '/';
      var out := Resolve([], Text.Split(p, '/'), rooted);
      var s := (if rooted then "/" else "") + Text.Join(out, "/");
      if s == "" then "." else s
  }

  /** `path.Join`: the elements from the first non-empty one, joined with
      slashes and cleaned; `""` when every element is empty. */
  function Join(elems: seq<string>): (r: string)
    ensures r == "" <==> forall i :: 0 <= i < |elems| ==> elems[i] == ""
    decreases |elems|
  {
    if |elems| == 0 then ""
    else if elems[0] != "" then Clean(Text.Join(elems, "/"))
    else Join(elems[1..])
  }

  /** Resolving elements that are already clean keeps them as they are. */
  lemma {:induction false} ResolveNormal(acc: seq<string>, rest: seq<string>, rooted: bool)
    requires Normal(acc + rest, rooted)
    ensures Resolve(acc, rest, rooted) == acc + rest
    decreases |rest|
  {
    if |rest| > 0 {
      var s := rest[0];
      var xs := acc + rest;
      assert xs[|acc|] == s;
      if s == ".." {
        if |acc| > 0 {
          assert xs[|acc| - 1] == acc[|acc| - 1];
        }
        assert !rooted by {
          assert s in xs;
        }
      }
      assert acc + [s] + rest[1..] == xs;
      ResolveNormal(acc + [s], rest[1..], rooted);
    }
  }

  /** Cleaning is idempotent. */
  lemma CleanIdempotent(p: string)
    ensures Clean(Clean(p)) == Clean(p)
  {
    var c := Clean(p);
    if p == "" {
      Text.SplitNoSep(".", '/');
    } else {
      var rooted := p[0] == '/';
      var out := Resolve([], Text.Split(p, '/'), rooted);
      assert Normal([], rooted);
      assert Normal(out, rooted);
      if |out| == 0 {
        if rooted {
          assert c == "/";
          assert Text.Split("/", '/') == [""] + Text.Split("", '/');
        } else {
          assert c == ".";
          Text.SplitNoSep(".", '/');
        }
      } else {
        SplitClean(out, rooted);
      }
    }
  }

  /** A clean list joined (after a slash when rooted) splits back into
      itself, behind one empty element when rooted. */
  lemma SplitClean(out: seq<string>, rooted: bool)
    requires |out| > 0 && Normal(out, rooted)
    ensures var s := (if rooted then "/" else "") + Text.Join(out, "/");
      s != "" && (s[0] == '/' <==> rooted) && Clean(s) == s
  {
    assert [] + out == out;
    ResolveNormal([], out, rooted);
    assert forall i :: 0 <= i < |out| ==> '/' !in out[i];
    HeadNotSlash(out);
    var j := Text.Join(out, "/");
    if rooted {
      RootedSplit(out);
      var s := "/" + j;
      assert Resolve([], Text.Split(s, '/'), true) == out;
    } else {
      Text.SplitJoin(out, '/');
      assert "" + j == j;
      assert Resolve([], Text.Split(j, '/'), false) == out;
    }
  }

  lemma HeadNotSlash(out: seq<string>)
    requires |out| > 0 && out[0] != "" && forall i :: 0 <= i < |out| ==> '/' !in out[i]
    ensures var j := Text.Join(out, "/"); j != "" && j[0] != '/'
  {
    Text.JoinHead(out, "/");
    assert out[0][0] in out[0];
  }

  lemma RootedSplit(out: seq<string>)
    requires |out| > 0 && forall i :: 0 <= i < |out| ==> '/' !in out[i]
    ensures Text.Split("/" + Text.Join(out, "/"), '/') == [""] + out
  {
    var j := Text.Join(out, "/");
    var s := "/" + j;
    assert s[0] == '/' && s[1..] == j;
    Text.SplitJoin(out, '/');
  }

  /** Plain names (not empty, not `"."` or `".."`, no slash) join to their
      slash-separated concatenation. */
  lemma JoinPlain(parts: seq<string>)
    requires |parts| > 0
    requires forall i :: 0 <= i < |parts| ==> parts[i] != "" && parts[i] != "." && parts[i] != ".." && '/' !in parts[i]
    ensures Join(parts) == Text.Join(parts, "/")
  {
    var j := Text.Join(parts, "/");
    assert Clean(j) == j by {
      assert Normal(parts, false);
      SplitClean(parts, false);
      assert "" + j == j;
    }
    assert Join(parts) == Clean(j);
  }
}
