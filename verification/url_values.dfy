/** Go's `url.Values` and `url.QueryEscape`, which the database
    configuration uses to build DSN query strings. A value set is a list of
    keys with their values, each key once; `Encode` sorts the keys, so the
    order of the list does not show in any output. */
module UrlValues {
  import Text
  import Sorting

  type Values = seq<(string, seq<string>)>

  /** No key twice. */
  predicate Valid(vs: Values) {
    forall i, j :: 0 <= i < j < |vs| ==> vs[i].0 != vs[j].0
  }

  function Keys(vs: Values): (r: seq<string>)
    ensures |r| == |vs| && forall i :: 0 <= i < |vs| ==> r[i] == vs[i].0
  {
    seq(|vs|, i requires 0 <= i < |vs| => vs[i].0)
  }

  lemma KeysCons(e: (string, seq<string>), vs: Values)
    ensures Keys([e] + vs) == [e.0] + Keys(vs)
    ensures forall k :: k in Keys([e] + vs) <==> k == e.0 || k in Keys(vs)
  {
    assert Keys([e] + vs) == [e.0] + Keys(vs);
  }

  /** The values of a key; none when it is absent. */
  function Lookup(vs: Values, key: string): (r: seq<string>)
    ensures Valid(vs) ==> forall i :: 0 <= i < |vs| && vs[i].0 == key ==> r == vs[i].1
    ensures key !in Keys(vs) ==> r == []
  {
    if |vs| == 0 then []
    else if vs[0].0 == key then vs[0].1
    else Lookup(vs[1..], key)
  }

  /** `Values.Get`: the first value, or `""`. */
  function Get(vs: Values, key: string): (r: string)
    ensures |Lookup(vs, key)| > 0 ==> r == Lookup(vs, key)[0]
    ensures |Lookup(vs, key)| == 0 ==> r == ""
  {
    var l := Lookup(vs, key);
    if |l| > 0 then l[0] else ""
  }

  /** `Values.Set`: the key's values become exactly the one value. */
  function Set(vs: Values, key: string, value: string): (r: Values)
    requires Valid(vs)
    ensures Valid(r)
    ensures Lookup(r, key) == [value]
    ensures forall k :: k != key ==> Lookup(r, k) == Lookup(vs, k)
    ensures forall k :: k in Keys(r) <==> k in Keys(vs) || k == key
  {
    if |vs| == 0 then [(key, [value])]
    else if vs[0].0 == key then
      assert key !in Keys(vs[1..]);
      KeysCons((key, [value]), vs[1..]);
      KeysCons(vs[0], vs[1..]);
      [(key, [value])] + vs[1..]
    else
      var rest := Set(vs[1..], key, value);
      assert vs[0].0 !in Keys(vs[1..]);
      KeysCons(vs[0], rest);
      KeysCons(vs[0], vs[1..]);
      [vs[0]] + rest
  }

  /** `Values.Del`: the key is gone. */
  function Del(vs: Values, key: string): (r: Values)
    requires Valid(vs)
    ensures Valid(r)
    ensures key !in Keys(r) && Lookup(r, key) == []
    ensures forall k :: k != key ==> Lookup(r, k) == Lookup(vs, k)
    ensures forall k :: k in Keys(r) <==> k in Keys(vs) && k != key
  {
    if |vs| == 0 then []
    else if vs[0].0 == key then
      assert key !in Keys(vs[1..]);
      KeysCons(vs[0], vs[1..]);
      vs[1..]
    else
      var rest := Del(vs[1..], key);
      assert vs[0].0 !in Keys(vs[1..]);
      KeysCons(vs[0], rest);
      KeysCons(vs[0], vs[1..]);
      [vs[0]] + rest
  }

  /** Deleting a key that is not there changes nothing. */
  lemma {:induction false} DelAbsent(vs: Values, key: string)
    requires Valid(vs) && key !in Keys(vs)
    ensures Del(vs, key) == vs
  {
    if |vs| > 0 {
      KeysCons(vs[0], vs[1..]);
      assert vs == [vs[0]] + vs[1..];
      DelAbsent(vs[1..], key);
    }
  }

  // ---------------------------------------------------------------------
  // Escaping

  /** The characters `QueryEscape` leaves alone. */
  predicate Unreserved(c: char) {
    ('a' <= c <= 'z') || ('A' <= c <= 'Z') || ('0' <= c <= '9') || c == '-' || c == '_' || c == '.' || c == '~'
  }

  function HexDigit(d: nat): (r: char)
    requires d < 16
    ensures Unreserved(r)
  {
    if d < 10 then ('0' as int + d) as char else ('A' as int + d - 10) as char
  }

  /** The UTF-8 bytes of a character. */
  function Utf8(c: char): (r: seq<nat>)
    ensures 1 <= |r| <= 4 && forall i :: 0 <= i < |r| ==> r[i] < 256
  {
    var n := c as int;
    if n < 0x80 then [n]
    else if n < 0x800 then [0xC0 + n / 64, 0x80 + n % 64]
    else if n < 0x10000 then [0xE0 + n / 4096, 0x80 + (n / 64) % 64, 0x80 + n % 64]
    else [0xF0 + n / 262144, 0x80 + (n / 4096) % 64, 0x80 + (n / 64) % 64, 0x80 + n % 64]
  }

  /** `%XX` for each byte, upper-case hex. */
  function PercentBytes(bs: seq<nat>): (r: string)
    requires forall i :: 0 <= i < |bs| ==> bs[i] < 256
    ensures |r| == 3 * |bs|
    ensures forall i :: 0 <= i < |r| ==> r[i] == '%' || Unreserved(r[i])
  {
    if |bs| == 0 then ""
    else "%" + [HexDigit(bs[0] / 16), HexDigit(bs[0] % 16)] + PercentBytes(bs[1..])
  }

  /** The characters an escaped string may hold: none of them is `&` or
      `=`, which is what keeps encoded pairs apart. */
  predicate Escaped(s: string) {
    forall i :: 0 <= i < |s| ==> s[i] == '%' || s[i] == '+' || Unreserved(s[i])
  }

  /** One character escaped. */
  function EscapeChar(c: char): (r: string)
    ensures Escaped(r)
    ensures |r| >= 1
  {
    if Unreserved(c) then [c] else if c == ' ' then "+" else PercentBytes(Utf8(c))
  }

  lemma EscapedAppend(a: string, b: string)
    requires Escaped(a) && Escaped(b)
    ensures Escaped(a + b) && '&' !in a + b && '=' !in a + b
  {
    assert forall i :: |a| <= i < |a + b| ==> (a + b)[i] == b[i - |a|];
    assert forall i :: 0 <= i < |a| ==> (a + b)[i] == a[i];
  }

  /** `url.QueryEscape`: unreserved characters stay, a space becomes `+`,
      every other character becomes its UTF-8 bytes in `%XX` form. */
  function QueryEscape(s: string): (r: string)
    ensures Escaped(r) && '&' !in r && '=' !in r
    ensures |r| >= |s|
  {
    if |s| == 0 then ""
    else
      var h := EscapeChar(s[0]);
      var t := QueryEscape(s[1..]);
      EscapedAppend(h, t);
      h + t
  }

  /** Text of unreserved characters is not changed by escaping. */
  lemma {:induction false} EscapePlain(s: string)
    requires forall i :: 0 <= i < |s| ==> Unreserved(s[i])
    ensures QueryEscape(s) == s
  {
    if |s| > 0 {
      EscapePlain(s[1..]);
      assert s == [s[0]] + s[1..];
    }
  }

  /** A space, an ampersand, an equals sign and a slash are escaped. */
  lemma EscapeSpecials()
    ensures QueryEscape(" ") == "+"
    ensures QueryEscape("&") == "%26"
    ensures QueryEscape("=") == "%3D"
    ensures QueryEscape("/") == "%2F"
  {
    assert " "[1..] == "";
    assert "&"[1..] == "";
    assert "="[1..] == "";
    assert Utf8('&') == [38];
    assert Utf8('=') == [61];
    assert "/"[1..] == "";
    assert Utf8('/') == [47];
  }

  // ---------------------------------------------------------------------
  // Encoding

  /** The keys in ascending byte order. */
  function SortedKeys(vs: Values): (r: seq<string>)
    ensures multiset(r) == multiset(Keys(vs))
    ensures forall k :: k in r <==> k in Keys(vs)
    ensures Sorting.SortedBy(r, Text.Less)
  {
    LessOrder();
    Sorting.SortBySorted(Keys(vs), Text.Less);
    var r := Sorting.SortBy(Keys(vs), Text.Less);
    assert forall k :: k in r <==> k in multiset(r);
    assert forall k :: k in Keys(vs) <==> k in multiset(Keys(vs));
    r
  }

  lemma LessOrder()
    ensures Sorting.StrictTotalOrder(Text.Less)
  {
    forall a: string ensures !Text.Less(a, a) {
      Text.LessIrreflexive(a);
    }
    forall a: string, b: string, c: string | Text.Less(a, b) && Text.Less(b, c)
      ensures Text.Less(a, c)
    {
      Text.LessTransitive(a, b, c);
    }
    forall a: string, b: string | a != b
      ensures Text.Less(a, b) || Text.Less(b, a)
    {
      Text.LessTotal(a, b);
    }
  }

  /** One `key=value` piece. */
  function Pair(key: string, value: string): (r: string)
    ensures '&' !in r
  {
    QueryEscape(key) + "=" + QueryEscape(value)
  }

  /** The pieces of the given keys, key by key, values in order. */
  function Pieces(vs: Values, keys: seq<string>): (r: seq<string>)
    ensures forall i :: 0 <= i < |r| ==> '&' !in r[i]
  {
    if |keys| == 0 then []
    else
      var vals := Lookup(vs, keys[0]);
      seq(|vals|, j requires 0 <= j < |vals| => Pair(keys[0], vals[j])) + Pieces(vs, keys[1..])
  }

  /** A piece is there exactly when one of the keys holds its value. */
  lemma {:induction false} PiecesHas(vs: Values, keys: seq<string>, p: string)
    ensures p in Pieces(vs, keys) <==> exists k, v :: k in keys && v in Lookup(vs, k) && p == Pair(k, v)
  {
    if |keys| > 0 {
      PiecesHas(vs, keys[1..], p);
      var vals := Lookup(vs, keys[0]);
      var here := seq(|vals|, j requires 0 <= j < |vals| => Pair(keys[0], vals[j]));
      assert Pieces(vs, keys) == here + Pieces(vs, keys[1..]);
      if p in here {
        var j :| 0 <= j < |vals| && here[j] == p;
        assert vals[j] in vals;
      }
      if exists k, v :: k in keys && v in Lookup(vs, k) && p == Pair(k, v) {
        var k, v :| k in keys && v in Lookup(vs, k) && p == Pair(k, v);
        if k == keys[0] {
          var j :| 0 <= j < |vals| && vals[j] == v;
          assert here[j] == p;
        } else {
          assert k in keys[1..];
        }
      }
    }
  }

  /** `Values.Encode`: the pieces of every key in ascending key order,
      joined by `&`. */
  function Encode(vs: Values): (r: string)
  {
    Text.Join(Pieces(vs, SortedKeys(vs)), "&")
  }

  /** The encoding splits at `&` into exactly its pieces, and a piece is
      there exactly when one of the keys holds its value. */
  lemma EncodeHas(vs: Values, p: string)
    requires |Pieces(vs, SortedKeys(vs))| > 0
    ensures p in Text.Split(Encode(vs), '&') <==> exists k, v :: k in Keys(vs) && v in Lookup(vs, k) && p == Pair(k, v)
  {
    var ps := Pieces(vs, SortedKeys(vs));
    Text.SplitJoin(ps, '&');
    PiecesHas(vs, SortedKeys(vs), p);
  }

  /** Every value a key holds appears as a `key=value` piece of the
      encoding. */
  lemma EncodeContains(vs: Values, key: string, value: string)
    requires value in Lookup(vs, key)
    ensures Pair(key, value) in Text.Split(Encode(vs), '&')
  {
    assert key in Keys(vs);
    PiecesHas(vs, SortedKeys(vs), Pair(key, value));
    EncodeHas(vs, Pair(key, value));
  }

  /** Keys that hold no values contribute nothing. */
  lemma {:induction false} PiecesNone(vs: Values, keys: seq<string>)
    requires forall i :: 0 <= i < |keys| ==> Lookup(vs, keys[i]) == []
    ensures Pieces(vs, keys) == []
  {
    if |keys| > 0 {
      PiecesNone(vs, keys[1..]);
    }
  }

  /** An empty value set, or one whose keys hold no values, encodes to
      `""`. */
  lemma EncodeEmpty(vs: Values)
    requires Valid(vs) && forall i :: 0 <= i < |vs| ==> vs[i].1 == []
    ensures Encode(vs) == ""
  {
    var keys := SortedKeys(vs);
    forall i | 0 <= i < |keys|
      ensures Lookup(vs, keys[i]) == []
    {
      assert keys[i] in Keys(vs);
      var p :| 0 <= p < |vs| && vs[p].0 == keys[i];
    }
    PiecesNone(vs, keys);
  }
}
