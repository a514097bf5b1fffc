/** `config/site.go`: the nested configuration map addressed by dotted
    keys (`OtherConfig`), and the DSN of the older `DBConfig`. */
module ConfigSite {
  import opened Wrappers
  import Text

  /** A configuration value. `Tree` is a nested `OtherConfig`; `Other`
      stands for any value the getters here do not read (a slice, a
      `map[string]interface{}` that is not an `OtherConfig`, ...). */
  datatype Value =
    | Nil
    | Bool(b: bool)
    | Str(s: string)
    | Int(i: int)
    | Other(id: nat)
    | Tree(m: map<string, Value>)

  type Config = map<string, Value>

  /** Walking `path` never meets an intermediate value that exists and is
      not a nested map: the source's type assertion would panic there. */
  predicate Walkable(m: Config, path: seq<string>)
    decreases |path|
  {
    |path| <= 1 || (path[0] in m ==> m[path[0]].Tree? && Walkable(m[path[0]].m, path[1..]))
  }

  /** The value at a path of segments, and whether it is there; a missing
      segment on the way gives `(Nil, false)`. */
  function GetPath(m: Config, path: seq<string>): (r: (Value, bool))
    requires |path| >= 1 && Walkable(m, path)
    ensures !r.1 ==> r.0 == Nil
    ensures |path| == 1 ==> r == (if path[0] in m then (m[path[0]], true) else (Nil, false))
    decreases |path|
  {
    if |path| == 1 then (if path[0] in m then (m[path[0]], true) else (Nil, false))
    else if path[0] !in m then (Nil, false)
    else GetPath(m[path[0]].m, path[1..])
  }

  /** The value stored at a path; missing intermediate maps are created
      empty. */
  function SetPath(m: Config, path: seq<string>, v: Value): (r: Config)
    requires |path| >= 1 && Walkable(m, path)
    ensures path[0] in r
    ensures forall k :: k != path[0] ==> (k in r <==> k in m) && (k in m ==> r[k] == m[k])
    decreases |path|
  {
    if |path| == 1 then m[path[0] := v]
    else
      var child := if path[0] in m then m[path[0]].m else map[];
      m[path[0] := Tree(SetPath(child, path[1..], v))]
  }

  /** What a path leads to when nothing on it existed: one nested map per
      intermediate segment. */
  function Nested(path: seq<string>, v: Value): (r: Config)
    requires |path| >= 1
    ensures r.Keys == {path[0]}
    decreases |path|
  {
    if |path| == 1 then map[path[0] := v] else map[path[0] := Tree(Nested(path[1..], v))]
  }

  /** After storing, the path reads back what was stored. */
  lemma {:induction false} GetSetPath(m: Config, path: seq<string>, v: Value)
    requires |path| >= 1 && Walkable(m, path)
    ensures Walkable(SetPath(m, path, v), path)
    ensures GetPath(SetPath(m, path, v), path) == (v, true)
    decreases |path|
  {
    if |path| > 1 {
      var child := if path[0] in m then m[path[0]].m else map[];
      GetSetPath(child, path[1..], v);
    }
  }

  /** Two paths that part somewhere: neither is a prefix of the other. */
  predicate Diverge(p: seq<string>, q: seq<string>)
    decreases |p|
  {
    |p| > 0 && |q| > 0 && (p[0] != q[0] || Diverge(p[1..], q[1..]))
  }

  /** Storing at one path leaves every path that parts from it as it
      was: still walkable, with the same value. */
  lemma {:induction false} SetPathKeepsOthers(m: Config, p: seq<string>, v: Value, q: seq<string>)
    requires |p| >= 1 && Walkable(m, p) && |q| >= 1 && Walkable(m, q) && Diverge(p, q)
    ensures Walkable(SetPath(m, p, v), q)
    ensures GetPath(SetPath(m, p, v), q) == GetPath(m, q)
    decreases |p|
  {
    var r := SetPath(m, p, v);
    if p[0] != q[0] {
      if |q| > 1 && q[0] in m {
        assert r[q[0]] == m[q[0]];
      }
    } else {
      assert |p| > 1 && |q| > 1 by {
        if |p| == 1 || |q| == 1 {
          assert Diverge(p[1..], q[1..]);
        }
      }
      var child := if p[0] in m then m[p[0]].m else map[];
      assert Walkable(child, q[1..]);
      SetPathKeepsOthers(child, p[1..], v, q[1..]);
      assert r[p[0]] == Tree(SetPath(child, p[1..], v));
    }
  }

  /** A missing first segment is created as nested maps down to the
      value. */
  lemma {:induction false} SetPathCreates(m: Config, path: seq<string>, v: Value)
    requires |path| >= 1 && Walkable(m, path) && path[0] !in m
    ensures SetPath(m, path, v)[path[0]] == (if |path| == 1 then v else Tree(Nested(path[1..], v)))
    decreases |path|
  {
    if |path| > 1 {
      SetPathFresh(path[1..], v);
    }
  }

  /** Storing into an empty map builds exactly the nested maps. */
  lemma {:induction false} SetPathFresh(path: seq<string>, v: Value)
    requires |path| >= 1
    ensures SetPath(map[], path, v) == Nested(path, v)
    decreases |path|
  {
    if |path| > 1 {
      SetPathFresh(path[1..], v);
    }
  }

  /** Walkability carries over to every prefix of a path. */
  lemma {:induction false} WalkablePrefix(m: Config, path: seq<string>, i: nat)
    requires |path| >= 1 && Walkable(m, path) && 1 <= i <= |path|
    ensures Walkable(m, path[..i])
    decreases |path|
  {
    if i > 1 && path[0] in m {
      WalkablePrefix(m[path[0]].m, path[1..], i - 1);
      assert path[..i][1..] == path[1..][..i - 1];
    }
  }

  /** When a prefix of the path is missing, so is the whole path. */
  lemma {:induction false} GetPathMissing(m: Config, path: seq<string>, i: nat)
    requires |path| >= 1 && Walkable(m, path) && 1 <= i < |path|
    ensures Walkable(m, path[..i])
    ensures !GetPath(m, path[..i]).1 ==> GetPath(m, path) == (Nil, false)
    decreases |path|
  {
    WalkablePrefix(m, path, i);
    if i > 1 && path[0] in m {
      assert path[..i][1..] == path[1..][..i - 1];
      GetPathMissing(m[path[0]].m, path[1..], i - 1);
    }
  }

  // ---------------------------------------------------------------------
  // Dotted keys

  /** The segments of a dotted key. */
  function Segments(key: string): (r: seq<string>)
    ensures |r| >= 1
  {
    Text.Split(key, '.')
  }

  /** `OtherConfig.Set`: the key reads back the value afterwards. An
      empty key panics in the source. */
  function Set(oc: Config, key: string, v: Value): (r: Config)
    requires key != "" && Walkable(oc, Segments(key))
    ensures Walkable(r, Segments(key)) && Get(r, key) == (v, true)
  {
    GetSetPath(oc, Segments(key), v);
    SetPath(oc, Segments(key), v)
  }

  /** `OtherConfig.Get`: an empty key panics in the source. */
  function Get(oc: Config, key: string): (r: (Value, bool))
    requires key != "" && Walkable(oc, Segments(key))
    ensures !r.1 ==> r.0 == Nil
    ensures '.' !in key ==> r == (if key in oc then (oc[key], true) else (Nil, false))
  {
    SegmentsPlain(key);
    GetPath(oc, Segments(key))
  }

  lemma SegmentsPlain(key: string)
    ensures '.' !in key ==> Segments(key) == [key]
  {
    if '.' !in key {
      Text.SplitNoSep(key, '.');
    }
  }

  /** Storing under one key leaves every key whose segments part from it
      unchanged. */
  lemma SetKeepsOthers(oc: Config, key: string, v: Value, other: string)
    requires key != "" && Walkable(oc, Segments(key))
    requires other != "" && Walkable(oc, Segments(other))
    requires Diverge(Segments(key), Segments(other))
    ensures Walkable(Set(oc, key, v), Segments(other))
    ensures Get(Set(oc, key, v), other) == Get(oc, other)
  {
    SetPathKeepsOthers(oc, Segments(key), v, Segments(other));
  }

  /** The value stored under a key, or `Nil`; the typed getters below read
      through it. */
  function Stored(oc: Config, key: string): Value
    requires key != "" && Walkable(oc, Segments(key))
  {
    Get(oc, key).0
  }

  /** `GetBool`: the stored value, else the first default, else `false`.
      A stored value of another type panics in the source. */
  function GetBool(oc: Config, key: string, defaults: seq<bool>): (r: bool)
    requires key != "" && Walkable(oc, Segments(key))
    requires Stored(oc, key).Nil? || Stored(oc, key).Bool?
    ensures Stored(oc, key).Bool? ==> r == Stored(oc, key).b
    ensures Stored(oc, key).Nil? && |defaults| > 0 ==> r == defaults[0]
    ensures Stored(oc, key).Nil? && |defaults| == 0 ==> !r
  {
    var v := Stored(oc, key);
    if !v.Nil? then v.b else if |defaults| > 0 then defaults[0] else false
  }

  /** `GetString`: the stored value, else the first default, else `""`. */
  function GetString(oc: Config, key: string, defaults: seq<string>): (r: string)
    requires key != "" && Walkable(oc, Segments(key))
    requires Stored(oc, key).Nil? || Stored(oc, key).Str?
    ensures Stored(oc, key).Str? ==> r == Stored(oc, key).s
    ensures Stored(oc, key).Nil? && |defaults| > 0 ==> r == defaults[0]
    ensures Stored(oc, key).Nil? && |defaults| == 0 ==> r == ""
  {
    var v := Stored(oc, key);
    if !v.Nil? then v.s else if |defaults| > 0 then defaults[0] else ""
  }

  /** `GetInt`: the stored value, else the first default, else `0`. */
  function GetInt(oc: Config, key: string, defaults: seq<int>): (r: int)
    requires key != "" && Walkable(oc, Segments(key))
    requires Stored(oc, key).Nil? || Stored(oc, key).Int?
    ensures Stored(oc, key).Int? ==> r == Stored(oc, key).i
    ensures Stored(oc, key).Nil? && |defaults| > 0 ==> r == defaults[0]
    ensures Stored(oc, key).Nil? && |defaults| == 0 ==> r == 0
  {
    var v := Stored(oc, key);
    if !v.Nil? then v.i else if |defaults| > 0 then defaults[0] else 0
  }

  /** A stored value wins over the defaults; a stored `nil` falls back to
      them, exactly as a missing key does. */
  lemma TypedGetters(oc: Config, key: string, b: bool, s: string, n: int, d: bool)
    requires key != "" && Walkable(oc, Segments(key))
    ensures GetBool(Set(oc, key, Bool(b)), key, [d]) == b
    ensures GetString(Set(oc, key, Str(s)), key, []) == s
    ensures GetInt(Set(oc, key, Int(n)), key, []) == n
    ensures GetBool(Set(oc, key, Nil), key, [d]) == d
  {
  }

  /** `GetMany`: the nested map under a key. When the key holds nothing
      and exactly one `true` flag is given, an empty map is stored there
      first; any other value than a nested map panics in the source. */
  function GetMany(oc: Config, key: string, createIfNil: seq<bool>): (r: (Config, Config))
    requires key != "" && Walkable(oc, Segments(key))
    requires Stored(oc, key).Tree? || (Stored(oc, key).Nil? && |createIfNil| == 1 && createIfNil[0])
    ensures Stored(oc, key).Tree? ==> r == (oc, Stored(oc, key).m)
    ensures Stored(oc, key).Nil? ==> r.1 == map[] && r.0 == Set(oc, key, Tree(map[]))
  {
    var v := Stored(oc, key);
    if v.Nil? && |createIfNil| == 1 && createIfNil[0] then (Set(oc, key, Tree(map[])), map[])
    else (oc, v.m)
  }

  /** After `GetMany` the key holds the nested map it returned. */
  lemma GetManyStores(oc: Config, key: string, createIfNil: seq<bool>)
    requires key != "" && Walkable(oc, Segments(key))
    requires Stored(oc, key).Tree? || (Stored(oc, key).Nil? && |createIfNil| == 1 && createIfNil[0])
    ensures Walkable(GetMany(oc, key, createIfNil).0, Segments(key))
    ensures Get(GetMany(oc, key, createIfNil).0, key) == (Tree(GetMany(oc, key, createIfNil).1), true)
  {
  }

  // ---------------------------------------------------------------------
  // DBConfig.DSN

  /** The older `DBConfig`, without arguments; its port is a Go `int`. */
  datatype DBConfig = DBConfig(name: string, adapter: string, host: string, port: int,
                               user: string, password: string, ssl: string)

  /** `DBConfig.DSN`. */
  function DSN(db: DBConfig): (r: string)
    ensures db.adapter == "mysql" ==>
      r == db.user + ":" + db.password + "@tcp(" + db.host + ":" + Text.Itoa(db.port) + ")/" + db.name + "?parseTime=True&loc=Local"
    ensures db.adapter == "postgres" ==>
      r == "postgres://" + db.user + ":" + db.password + "@" + db.host + "/" + db.name + "?sslmode=" + (if db.ssl == "" then "disable" else db.ssl)
    ensures db.adapter == "sqlite" || db.adapter == "sqlite3" ==> r == db.name
    ensures db.adapter !in {"mysql", "postgres", "sqlite", "sqlite3"} ==> r == ""
  {
    match db.adapter
    case "mysql" =>
      db.user + ":" + db.password + "@tcp(" + db.host + ":" + Text.Itoa(db.port) + ")/" + db.name + "?parseTime=True&loc=Local"
    case "postgres" =>
      var ssl := if db.ssl == "" then "disable" else db.ssl;
      "postgres://" + db.user + ":" + db.password + "@" + db.host + "/" + db.name + "?sslmode=" + ssl
    case "sqlite" => db.name
    case "sqlite3" => db.name
    case _ => ""
  }

  /** An empty SSL mode means `disable`, and only PostgreSQL reads it. */
  lemma DSNSslDefault(db: DBConfig)
    ensures DSN(db.(ssl := "")) == DSN(db.(ssl := "disable"))
    ensures db.adapter != "postgres" ==> DSN(db) == DSN(db.(ssl := ""))
  {
  }
}
