/** `db/dbconfig/dbconfig.go`: a database configuration, the DSN it
    gives each adapter, the defaulting done by `Prepare`, and `Args`. */
module DbConfig {
  import opened Wrappers
  import Text
  import Sorting
  import UrlValues

  type Values = UrlValues.Values

  type Port = p: nat | p < 0x1_0000

  /** `DBConfig`; `args` is `None` for a nil `url.Values`. */
  datatype Config = Config(
    name: string, adapter: string, host: string, port: Port,
    user: string, password: string, ssl: string, args: Option<Values>)

  const SystemDB := "system"

  /** The arguments as a value set; nil has none. */
  function Args(c: Config): Values {
    c.args.GetOr([])
  }

  /** Arguments the MySQL and PostgreSQL DSNs can use: each key once, and
      each with a value (they read the first value of every key, which
      panics on an empty list). */
  predicate WellFormed(c: Config) {
    UrlValues.Valid(Args(c)) && forall i :: 0 <= i < |Args(c)| ==> |Args(c)[i].1| > 0
  }

  /** The first value of every argument set over `base`. */
  function FirstValues(base: Values, args: Values): (r: Values)
    requires UrlValues.Valid(base) && UrlValues.Valid(args)
    requires forall i :: 0 <= i < |args| ==> |args[i].1| > 0
    ensures UrlValues.Valid(r)
    ensures forall k :: k in UrlValues.Keys(args) ==> UrlValues.Lookup(r, k) == [UrlValues.Lookup(args, k)[0]]
    ensures forall k :: k !in UrlValues.Keys(args) ==> UrlValues.Lookup(r, k) == UrlValues.Lookup(base, k)
    decreases |args|
  {
    if |args| == 0 then base
    else
      var next := UrlValues.Set(base, args[0].0, args[0].1[0]);
      var rest := args[1..];
      assert UrlValues.Valid(rest);
      UrlValues.KeysCons(args[0], rest);
      assert args == [args[0]] + rest;
      assert args[0].0 !in UrlValues.Keys(rest);
      FirstValues(next, rest)
  }

  /** The MySQL arguments: `parseTime=true`, then each argument's first
      value. */
  function MysqlArgs(c: Config): (r: Values)
    requires WellFormed(c)
    ensures UrlValues.Valid(r)
  {
    FirstValues([("parseTime", ["true"])], Args(c))
  }

  /** The PostgreSQL arguments: each argument's first value, then
      `sslmode=disable` when no SSL mode is configured, then
      `binary_parameters=yes`. */
  function PostgresArgs(c: Config): (r: Values)
    requires WellFormed(c)
    ensures UrlValues.Valid(r)
  {
    var a := FirstValues([], Args(c));
    var b := if c.ssl == "" then UrlValues.Set(a, "sslmode", "disable") else a;
    UrlValues.Set(b, "binary_parameters", "yes")
  }

  /** The host, with `:port` only for a non-zero port. */
  function HostPort(c: Config): (r: string)
    ensures c.port == 0 ==> r == c.host
    ensures c.port != 0 ==> r == c.host + ":" + Text.Itoa(c.port)
  {
    if c.port != 0 then c.host + ":" + Text.Itoa(c.port) else c.host
  }

  /** `DSN`, as the connection string is evidently meant to read: the
      MySQL form with the encoded arguments after `?`; the PostgreSQL URL
      with its encoded arguments; the name for SQLite, followed by the
      encoded arguments when there are any; `""` for any other adapter. */
  function DSN(c: Config): (r: string)
    requires UrlValues.Valid(Args(c))
    requires c.adapter == "mysql" || c.adapter == "postgres" ==> WellFormed(c)
    ensures c.adapter !in {"mysql", "postgres", "sqlite", "sqlite3"} ==> r == ""
    ensures c.adapter == "mysql" ==> r == MysqlPrefix(c) + UrlValues.Encode(MysqlArgs(c))
    ensures c.adapter == "postgres" ==>
      r == "postgres://" + c.user + ":" + c.password + "@" + HostPort(c) + "/" + c.name + "?" + UrlValues.Encode(PostgresArgs(c))
    ensures c.adapter in {"sqlite", "sqlite3"} && |Args(c)| == 0 ==> r == c.name
    ensures c.adapter in {"sqlite", "sqlite3"} && |Args(c)| > 0 ==> r == c.name + "?" + UrlValues.Encode(Args(c))
  {
    match c.adapter
    case "mysql" => MysqlPrefix(c) + UrlValues.Encode(MysqlArgs(c))
    case "postgres" =>
      "postgres://" + c.user + ":" + c.password + "@" + HostPort(c) + "/" + c.name + "?" + UrlValues.Encode(PostgresArgs(c))
    case "sqlite" => SqliteDSN(c)
    case "sqlite3" => SqliteDSN(c)
    case _ => ""
  }

  function SqliteDSN(c: Config): string {
    if |Args(c)| > 0 then c.name + "?" + UrlValues.Encode(Args(c)) else c.name
  }

  /** The MySQL DSN up to and including the `?`. */
  function MysqlPrefix(c: Config): string {
    c.user + ":" + c.password + "@tcp(" + c.host + ":" + Text.Itoa(c.port) + ")/" + c.name + "?"
  }

  /** PostgreSQL: `binary_parameters=yes` always; `sslmode=disable` exactly
      when no SSL mode is configured, and otherwise the SSL field is not
      written at all, only an `sslmode` argument is; every other argument
      keeps its first value. */
  lemma PostgresArguments(c: Config)
    requires WellFormed(c)
    ensures UrlValues.Lookup(PostgresArgs(c), "binary_parameters") == ["yes"]
    ensures c.ssl == "" ==> UrlValues.Lookup(PostgresArgs(c), "sslmode") == ["disable"]
    ensures c.ssl != "" && "sslmode" in UrlValues.Keys(Args(c)) ==>
      UrlValues.Lookup(PostgresArgs(c), "sslmode") == [UrlValues.Lookup(Args(c), "sslmode")[0]]
    ensures c.ssl != "" && "sslmode" !in UrlValues.Keys(Args(c)) ==> UrlValues.Lookup(PostgresArgs(c), "sslmode") == []
    ensures forall k :: k in UrlValues.Keys(Args(c)) && k != "sslmode" && k != "binary_parameters" ==>
      UrlValues.Lookup(PostgresArgs(c), k) == [UrlValues.Lookup(Args(c), k)[0]]
  {
  }

  /** MySQL: `parseTime=true` unless an argument overrides it; every
      argument contributes its first value. */
  lemma MysqlArguments(c: Config)
    requires WellFormed(c)
    ensures "parseTime" !in UrlValues.Keys(Args(c)) ==> UrlValues.Lookup(MysqlArgs(c), "parseTime") == ["true"]
    ensures forall k :: k in UrlValues.Keys(Args(c)) ==> UrlValues.Lookup(MysqlArgs(c), k) == [UrlValues.Lookup(Args(c), k)[0]]
  {
  }

  /** The PostgreSQL query always holds the `binary_parameters=yes`
      piece, and holds `sslmode=disable` when no SSL mode is configured. */
  lemma PostgresQuery(c: Config)
    requires WellFormed(c)
    ensures UrlValues.Pair("binary_parameters", "yes") in Text.Split(UrlValues.Encode(PostgresArgs(c)), '&')
    ensures c.ssl == "" ==> UrlValues.Pair("sslmode", "disable") in Text.Split(UrlValues.Encode(PostgresArgs(c)), '&')
  {
    PostgresArguments(c);
    UrlValues.EncodeContains(PostgresArgs(c), "binary_parameters", "yes");
    if c.ssl == "" {
      UrlValues.EncodeContains(PostgresArgs(c), "sslmode", "disable");
    }
  }

  // ---------------------------------------------------------------------
  // The MySQL DSN as written

  /** How `fmt.Sprintf` renders the part of a format string that follows
      its last operand: text is copied; a directive has no operand left
      and is rendered by `Directive`; a directive cut off by the end gives
      `%!(NOVERB)`. Widths and precisions above 10^6, which `fmt` refuses,
      are read like any other (see `Digits`). */
  function FormatTail(t: string): (r: string)
    decreases |t|
  {
    if |t| == 0 then ""
    else if t[0] != '%' then [t[0]] + FormatTail(t[1..])
    else
      var k := Verb(t);
      if k == |t| then "%!(NOVERB)" else Directive(t[k]) + FormatTail(t[k + 1..])
  }

  /** Where the verb of the directive at the start of `t` sits: after the
      `%`, the flags `#0+- `, a width and a `.`-precision. */
  function Verb(t: string): (k: nat)
    requires |t| >= 1
    ensures 1 <= k <= |t|
  {
    var j := Digits(t, Flags(t, 1));
    if j < |t| && t[j] == '.' then Digits(t, j + 1) else j
  }

  /** A directive without an operand: `%%` is a literal `%`, any other
      verb reports the missing operand. */
  function Directive(verb: char): string {
    if verb == '%' then "%" else "%!" + [verb] + "(MISSING)"
  }

  function Flags(t: string, i: nat): (j: nat)
    requires i <= |t|
    ensures i <= j <= |t|
    decreases |t| - i
  {
    if i < |t| && t[i] in {'#', '0', '+', '-', ' '} then Flags(t, i + 1) else i
  }

  /** The width or precision digits of a directive. `fmt` stops reading
      a number once it exceeds 10^6 and reports a bad width; the model
      reads every digit, which differs only for widths above a million. */
  function Digits(t: string, i: nat): (j: nat)
    requires i <= |t|
    ensures i <= j <= |t|
    decreases |t| - i
  {
    if i < |t| && Text.IsDigit(t[i]) then Digits(t, i + 1) else i
  }

  /** A verb that is neither a flag, a digit, a `.`, a `%` nor the `!` of
      the error text. */
  predicate PlainVerb(c: char) {
    c !in {'#', '+', '-', ' ', '.', '%', '!'} && !Text.IsDigit(c)
  }

  /** Text without `%` comes through unchanged. */
  lemma {:induction false} FormatPlain(p: string, u: string)
    requires '%' !in p
    ensures FormatTail(p + u) == p + FormatTail(u)
  {
    if |p| > 0 {
      assert p[0] in p;
      assert (p + u)[1..] == p[1..] + u;
      assert '%' !in p[1..] by {
        forall x | x in p[1..] ensures x in p {
        }
      }
      FormatPlain(p[1..], u);
      assert p == [p[0]] + p[1..];
    } else {
      assert p + u == u;
    }
  }

  /** A `%` followed directly by a plain verb reports a missing operand. */
  lemma FormatMissing(c: char, u: string)
    requires PlainVerb(c)
    ensures FormatTail(['%', c] + u) == "%!" + [c] + "(MISSING)" + FormatTail(u)
  {
    var t := ['%', c] + u;
    assert Flags(t, 1) == 1;
    assert Digits(t, 1) == 1;
    assert Verb(t) == 1;
    assert t[2..] == u;
  }

  /** So any text in which a `%` meets a plain verb is altered. */
  lemma FormatAlters(p: string, c: char, u: string)
    requires '%' !in p && PlainVerb(c)
    ensures FormatTail(p + ['%', c] + u) != p + ['%', c] + u
  {
    FormatPlain(p, ['%', c] + u);
    FormatMissing(c, u);
    assert p + ['%', c] + u == p + (['%', c] + u);
    var r := FormatTail(p + ['%', c] + u);
    assert r == p + ("%!" + [c] + "(MISSING)" + FormatTail(u));
    assert r[|p| + 1] == '!';
    assert (p + ['%', c] + u)[|p| + 1] == c;
  }

  /** The MySQL DSN as the source builds it: the encoded arguments are
      part of the format string handed to `fmt.Sprintf`, so every `%XX`
      escape in them is read as a directive. */
  function MysqlDSNAsWritten(c: Config): (r: string)
    requires WellFormed(c)
    ensures '%' !in UrlValues.Encode(MysqlArgs(c)) ==> r == DSN(c.(adapter := "mysql"))
  {
    FormatUnchanged(UrlValues.Encode(MysqlArgs(c)));
    MysqlPrefix(c) + FormatTail(UrlValues.Encode(MysqlArgs(c)))
  }

  /** Text without `%` comes through `FormatTail` unchanged. */
  lemma FormatUnchanged(t: string)
    ensures '%' !in t ==> FormatTail(t) == t
  {
    if '%' !in t {
      FormatPlain(t, "");
      assert t + "" == t;
    }
  }

  /** A MySQL argument holding a `/`: the source's DSN loses the escape
      `%2F`, the evident intent keeps it. */
  lemma SlashArgumentMangled(c: Config)
    requires c.adapter == "mysql" && c.args == Some([("loc", ["/"])])
    ensures WellFormed(c)
    ensures DSN(c) == MysqlPrefix(c) + "loc=%2F&parseTime=true"
    ensures MysqlDSNAsWritten(c) == MysqlPrefix(c) + "loc=%!F(MISSING)&parseTime=true"
  {
    SlashEncoding(c);
    FormatSlash("loc=%2F&parseTime=true", "loc=%!F(MISSING)&parseTime=true");
  }

  lemma SlashEncoding(c: Config)
    requires c.args == Some([("loc", ["/"])])
    ensures WellFormed(c)
    ensures UrlValues.Encode(MysqlArgs(c)) == "loc=%2F&parseTime=true"
  {
    assert Text.Less("loc", "parseTime");
    MysqlOneArgument(c, "loc", "/");
    PairLoc("loc", "/");
    PairParseTime("parseTime", "true");
    SlashJoined("loc=%2F", "parseTime=true");
  }

  lemma SlashJoined(p1: string, p2: string)
    requires p1 == "loc=%2F" && p2 == "parseTime=true"
    ensures p1 + "&" + p2 == "loc=%2F&parseTime=true"
  {
  }

  lemma PairParseTime(k: string, v: string)
    requires k == "parseTime" && v == "true"
    ensures UrlValues.Pair(k, v) == "parseTime=true"
  {
    PairPlain(k, v);
  }

  lemma FormatSlash(t: string, r: string)
    requires t == "loc=%2F&parseTime=true" && r == "loc=%!F(MISSING)&parseTime=true"
    ensures FormatTail(t) == r
  {
    var u := "&parseTime=true";
    SlashTexts(t, r, u);
    FormatEscape("loc=", '2', 'F', u);
    FormatUnchanged(u);
  }

  lemma SlashTexts(t: string, r: string, u: string)
    requires t == "loc=%2F&parseTime=true" && r == "loc=%!F(MISSING)&parseTime=true"
    requires u == "&parseTime=true"
    ensures t == "loc=" + (['%', '2', 'F'] + u)
    ensures r == "loc=" + ("%!" + ['F'] + "(MISSING)" + u)
    ensures '%' !in u
  {
    SlashBefore(t, u);
    SlashAfter(r, u);
  }

  lemma SlashBefore(t: string, u: string)
    requires t == "loc=%2F&parseTime=true" && u == "&parseTime=true"
    ensures t == "loc=" + (['%', '2', 'F'] + u)
  {
  }

  lemma SlashAfter(r: string, u: string)
    requires r == "loc=%!F(MISSING)&parseTime=true" && u == "&parseTime=true"
    ensures r == "loc=" + ("%!" + ['F'] + "(MISSING)" + u)
  {
  }

  /** A MySQL configuration with one argument of one value, under a key
      that sorts before `parseTime`, encodes that argument first. */
  lemma MysqlOneArgument(c: Config, k: string, v: string)
    requires c.args == Some([(k, [v])]) && Text.Less(k, "parseTime")
    ensures WellFormed(c)
    ensures UrlValues.Encode(MysqlArgs(c)) == UrlValues.Pair(k, v) + "&" + UrlValues.Pair("parseTime", "true")
  {
    Text.LessIrreflexive(k);
    MysqlArgsOne(c, k, v);
    EncodeTwo(MysqlArgs(c), k, v, "parseTime", "true");
  }

  /** One argument with one value, under a key other than `parseTime`. */
  lemma MysqlArgsOne(c: Config, k: string, v: string)
    requires c.args == Some([(k, [v])]) && k != "parseTime"
    ensures WellFormed(c)
    ensures MysqlArgs(c) == [("parseTime", ["true"]), (k, [v])]
  {
    var args := Args(c);
    assert args == [(k, [v])];
    assert UrlValues.Valid(args);
    var base := [("parseTime", ["true"])];
    FirstValuesOne(base, k, v);
    SetAfterOne("parseTime", "true", k, v);
  }

  lemma FirstValuesOne(base: Values, k: string, v: string)
    requires UrlValues.Valid(base) && UrlValues.Valid([(k, [v])])
    ensures FirstValues(base, [(k, [v])]) == UrlValues.Set(base, k, v)
  {
    var args := [(k, [v])];
    assert args[0].0 == k && args[0].1[0] == v && args[1..] == [];
  }

  lemma SetAfterOne(p: string, t: string, k: string, v: string)
    requires k != p
    ensures UrlValues.Set([(p, [t])], k, v) == [(p, [t]), (k, [v])]
  {
    var base := [(p, [t])];
    assert base[0].0 == p && base[1..] == [];
    assert UrlValues.Set([], k, v) == [(k, [v])];
  }

  /** Two keys with one value each encode in key order. */
  lemma EncodeTwo(a: Values, k1: string, v1: string, k2: string, v2: string)
    requires a == [(k2, [v2]), (k1, [v1])] && Text.Less(k1, k2)
    ensures UrlValues.Encode(a) == UrlValues.Pair(k1, v1) + "&" + UrlValues.Pair(k2, v2)
  {
    var keys := UrlValues.SortedKeys(a);
    SortTwo(a, k1, v1, k2, v2);
    PiecesOne(a, k2, v2, []);
    PiecesOne(a, k1, v1, [k2]);
    assert keys == [k1] + [k2] && [k2] == [k2] + [];
    var ps := UrlValues.Pieces(a, keys);
    assert ps == [UrlValues.Pair(k1, v1), UrlValues.Pair(k2, v2)];
    JoinTwo(ps, "&");
  }

  lemma SortTwo(a: Values, k1: string, v1: string, k2: string, v2: string)
    requires a == [(k2, [v2]), (k1, [v1])] && Text.Less(k1, k2)
    ensures UrlValues.SortedKeys(a) == [k1, k2]
    ensures UrlValues.Lookup(a, k1) == [v1] && UrlValues.Lookup(a, k2) == [v2]
  {
    Text.LessIrreflexive(k1);
    assert UrlValues.Keys(a) == [k2, k1];
    TwoSorted(UrlValues.SortedKeys(a), k1, k2);
  }

  /** The only ascending arrangement of two distinct keys. */
  lemma TwoSorted(keys: seq<string>, k1: string, k2: string)
    requires multiset(keys) == multiset([k2, k1]) && Text.Less(k1, k2)
    requires Sorting.SortedBy(keys, Text.Less)
    ensures keys == [k1, k2]
  {
    Text.LessIrreflexive(k1);
    assert |keys| == 2 by {
      assert |multiset(keys)| == 2;
    }
    assert keys[0] in multiset(keys) && keys[1] in multiset(keys);
    assert !Text.Less(keys[1], keys[0]);
    assert keys == [keys[0], keys[1]];
    assert multiset(keys) == multiset{keys[0], keys[1]};
  }
  lemma JoinTwo(ps: seq<string>, sep: string)
    requires |ps| == 2
    ensures Text.Join(ps, sep) == ps[0] + sep + ps[1]
  {
    assert ps[1..] == [ps[1]];
  }

  lemma PiecesOne(vs: Values, k: string, v: string, rest: seq<string>)
    requires UrlValues.Lookup(vs, k) == [v]
    ensures UrlValues.Pieces(vs, [k] + rest) == [UrlValues.Pair(k, v)] + UrlValues.Pieces(vs, rest)
  {
    var keys := [k] + rest;
    assert keys[0] == k && keys[1..] == rest;
    var vals := UrlValues.Lookup(vs, k);
    var here := seq(|vals|, j requires 0 <= j < |vals| => UrlValues.Pair(k, vals[j]));
    assert here == [UrlValues.Pair(k, v)];
  }

  lemma PairLoc(k: string, v: string)
    requires k == "loc" && v == "/"
    ensures UrlValues.Pair(k, v) == "loc=%2F"
  {
    UrlValues.EscapeSpecials();
    UrlValues.EscapePlain(k);
  }

  /** Keys and values of unreserved characters pair up unescaped. */
  lemma PairPlain(k: string, v: string)
    requires forall i :: 0 <= i < |k| ==> UrlValues.Unreserved(k[i])
    requires forall i :: 0 <= i < |v| ==> UrlValues.Unreserved(v[i])
    ensures UrlValues.Pair(k, v) == k + "=" + v
  {
    UrlValues.EscapePlain(k);
    UrlValues.EscapePlain(v);
  }

  /** An escape `%` with a one-digit width before a plain verb, after text
      without `%`, is rendered as a missing operand. */
  lemma FormatEscape(p: string, d: char, c: char, u: string)
    requires '%' !in p && Text.IsDigit(d) && d != '0' && PlainVerb(c)
    ensures FormatTail(p + (['%', d, c] + u)) == p + ("%!" + [c] + "(MISSING)" + FormatTail(u))
  {
    FormatPlain(p, ['%', d, c] + u);
    FormatWidthVerb(d, c, u);
  }

  /** A `%` with a one-digit width and a plain verb reports a missing
      operand. */
  lemma FormatWidthVerb(d: char, c: char, u: string)
    requires Text.IsDigit(d) && d != '0' && PlainVerb(c)
    ensures FormatTail(['%', d, c] + u) == "%!" + [c] + "(MISSING)" + FormatTail(u)
  {
    var t := ['%', d, c] + u;
    assert Flags(t, 1) == 1 by {
      assert t[1] == d;
    }
    assert Digits(t, 2) == 2;
    assert Verb(t) == 2;
    assert t[3..] == u;
  }

  // ---------------------------------------------------------------------
  // Prepare and Args

  /** The name an SQLite database gets when none is configured. */
  const SqliteNameTemplate := "{{.SITE_ROOT}}/db/{{.DB_NAME}}.db"

  /** `Prepare`: an SQLite adapter without a name gets the template; the
      name is expanded as a path and the password, user and host as text
      (the variable expansion is the `formatPath` and `format` parameters);
      nil arguments become empty; a PostgreSQL configuration without an
      `application_name` gets `program@site` (`program` is the base name
      of the running executable). */
  function Prepare(c: Config, siteName: string, program: string,
                   formatPath: string -> string, format: string -> string): (r: Config)
    requires UrlValues.Valid(Args(c))
    ensures r.args.Some? && UrlValues.Valid(Args(r))
    ensures r.adapter == c.adapter && r.port == c.port && r.ssl == c.ssl
    ensures Text.HasPrefix(c.adapter, "sqlite") && c.name == "" ==> r.name == formatPath(SqliteNameTemplate)
    ensures !(Text.HasPrefix(c.adapter, "sqlite") && c.name == "") ==> r.name == formatPath(c.name)
    ensures r.user == format(c.user) && r.password == format(c.password) && r.host == format(c.host)
    ensures c.adapter == "postgres" && UrlValues.Get(Args(c), "application_name") == "" ==>
      Args(r) == UrlValues.Set(Args(c), "application_name", program + "@" + siteName)
    ensures !(c.adapter == "postgres" && UrlValues.Get(Args(c), "application_name") == "") ==> Args(r) == Args(c)
  {
    var name := if Text.HasPrefix(c.adapter, "sqlite") && c.name == "" then SqliteNameTemplate else c.name;
    var args := Args(c);
    var args := if c.adapter == "postgres" && UrlValues.Get(args, "application_name") == ""
      then UrlValues.Set(args, "application_name", program + "@" + siteName) else args;
    c.(name := formatPath(name), password := format(c.password), user := format(c.user), host := format(c.host), args := Some(args))
  }

  /** After `Prepare` a PostgreSQL configuration always names its
      application, and preparing again keeps that name. */
  lemma PrepareNamesApplication(c: Config, siteName: string, program: string,
                                formatPath: string -> string, format: string -> string)
    requires UrlValues.Valid(Args(c)) && c.adapter == "postgres"
    ensures var r := Prepare(c, siteName, program, formatPath, format);
      && UrlValues.Get(Args(r), "application_name") != ""
      && Args(Prepare(r, siteName, program, formatPath, format)) == Args(r)
  {
    var r := Prepare(c, siteName, program, formatPath, format);
    if UrlValues.Get(Args(c), "application_name") == "" {
      assert UrlValues.Lookup(Args(r), "application_name") == [program + "@" + siteName];
      assert '@' in program + "@" + siteName;
    }
  }

  /** `Args`: the named keys are deleted (from the caller's value set,
      which is returned); the encoding of what is left comes back after a
      `&` only when `append` is set and the encoding is not empty. */
  function ArgsString(values: Values, append: bool, del: seq<string>): (r: (Values, string))
    requires UrlValues.Valid(values)
    ensures UrlValues.Valid(r.0)
    ensures forall k :: k in del ==> k !in UrlValues.Keys(r.0)
    ensures forall k :: k !in del ==> UrlValues.Lookup(r.0, k) == UrlValues.Lookup(values, k)
    ensures r.1 != "" <==> append && UrlValues.Encode(r.0) != ""
    ensures r.1 != "" ==> r.1 == "&" + UrlValues.Encode(r.0)
  {
    var left := DelAll(values, del);
    var v := UrlValues.Encode(left);
    (left, if append && v != "" then "&" + v else "")
  }

  function DelAll(values: Values, del: seq<string>): (r: Values)
    requires UrlValues.Valid(values)
    ensures UrlValues.Valid(r)
    ensures forall k :: k in del ==> k !in UrlValues.Keys(r)
    ensures forall k :: k !in del ==> UrlValues.Lookup(r, k) == UrlValues.Lookup(values, k)
    ensures forall k :: k in UrlValues.Keys(r) ==> k in UrlValues.Keys(values)
    decreases |del|
  {
    if |del| == 0 then values
    else
      var rest := DelAll(UrlValues.Del(values, del[0]), del[1..]);
      assert forall k :: k in del ==> k == del[0] || k in del[1..];
      rest
  }

  /** Values none of whose keys are to be deleted are left as they are. */
  lemma {:induction false} DelAllAbsent(values: Values, del: seq<string>)
    requires UrlValues.Valid(values)
    requires forall k :: k in del ==> k !in UrlValues.Keys(values)
    ensures DelAll(values, del) == values
    decreases |del|
  {
    if |del| > 0 {
      UrlValues.DelAbsent(values, del[0]);
      DelAllAbsent(values, del[1..]);
    }
  }

  /** `Args` is idempotent: a second call with the same keys deletes
      nothing more and gives the same text. */
  lemma ArgsAgain(values: Values, append: bool, del: seq<string>)
    requires UrlValues.Valid(values)
    ensures ArgsString(ArgsString(values, append, del).0, append, del) == ArgsString(values, append, del)
  {
    DelAllAbsent(DelAll(values, del), del);
  }
}
