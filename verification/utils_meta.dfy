/** `utils/meta.go`: coercing a dynamically typed form value to strings
    and integers. */
module Meta {
  import opened Wrappers
  import Text

  /** The dynamic types the coercions distinguish. `fmt.Sprint` of other
      values is not modelled: `List` carries the printed form of each
      element and `Other` the printed form of the whole value. A `*string`
      prints as an address, carried in `addr`. */
  datatype Value =
    | Strings(items: seq<string>)
    | Str(s: string)
    | StrPtr(target: string, addr: string)
    | List(elems: seq<string>)
    | Other(printed: string)

  /** The first non-empty string of the list, or `""`. */
  function FirstNonEmpty(s: seq<string>): (r: string)
    ensures r == "" <==> forall i :: 0 <= i < |s| ==> s[i] == ""
    ensures r != "" ==> exists i :: 0 <= i < |s| && s[i] == r && forall j :: 0 <= j < i ==> s[j] == ""
  {
    if |s| == 0 then ""
    else if s[0] != "" then s[0]
    else
      var r := FirstNonEmpty(s[1..]);
      assert r != "" ==> exists i :: 1 <= i < |s| && s[i] == r && forall j :: 0 <= j < i ==> s[j] == "" by {
        if r != "" {
          var i :| 0 <= i < |s[1..]| && s[1..][i] == r && forall j :: 0 <= j < i ==> s[1..][j] == "";
          assert s[i + 1] == r;
        }
      }
      r
  }

  /** `ToArray`: a string list loses its empty strings (and is never nil);
      a generic list keeps every printed element; any other value becomes
      the singleton of its printed form unless that is empty. */
  function ToArray(v: Value): (r: seq<string>)
    ensures v.Strings? ==> forall x :: x in r <==> x in v.items && x != ""
    ensures v.List? ==> r == v.elems
    ensures v.Strings? && |v.items| == 1 ==> r == (if v.items[0] == "" then [] else v.items)
    ensures v.Str? ==> (v.s == "" <==> r == []) && (v.s != "" ==> r == [v.s])
    ensures v.StrPtr? ==> (v.addr == "" <==> r == []) && (v.addr != "" ==> r == [v.addr])
    ensures v.Other? ==> (v.printed == "" <==> r == []) && (v.printed != "" ==> r == [v.printed])
  {
    match v
    case Strings(items) => Text.DropEmpty(items)
    case List(printed) => printed
    case Str(s) => if s != "" then [s] else []
    case StrPtr(_, addr) => if addr != "" then [addr] else []
    case Other(p) => if p != "" then [p] else []
  }

  /** Converting a string list keeps the order and repeats of its non-empty
      strings: the list of a concatenation is the concatenation of the
      lists. */
  lemma ToArrayAppend(a: seq<string>, b: seq<string>)
    ensures ToArray(Strings(a + b)) == ToArray(Strings(a)) + ToArray(Strings(b))
  {
    Text.DropEmptyAppend(a, b);
  }

  /** `ToString`: the first non-empty element of a list, the string itself,
      the string a pointer points to, or the printed form. */
  function ToString(v: Value): (r: string)
    ensures v.Str? ==> r == v.s
    ensures v.StrPtr? ==> r == v.target
    ensures v.Strings? ==> (r == "" <==> forall i :: 0 <= i < |v.items| ==> v.items[i] == "")
    ensures v.Strings? && r != "" ==> r in v.items
  {
    match v
    case Strings(items) => FirstNonEmpty(items)
    case Str(s) => s
    case StrPtr(t, _) => t
    case List(printed) => FirstNonEmpty(printed)
    case Other(p) => p
  }

  /** For string lists and strings, `ToString` is the head of `ToArray`
      (or `""` when that is empty). */
  lemma {:induction false} ToStringIsFirstOfArray(v: Value)
    requires v.Strings? || v.Str?
    ensures ToString(v) == (if ToArray(v) == [] then "" else ToArray(v)[0])
  {
    if v.Strings? {
      FirstOfDropEmpty(v.items);
    }
  }

  lemma {:induction false} FirstOfDropEmpty(s: seq<string>)
    ensures FirstNonEmpty(s) == (if Text.DropEmpty(s) == [] then "" else Text.DropEmpty(s)[0])
  {
    if |s| > 0 && s[0] == "" {
      FirstOfDropEmpty(s[1..]);
    }
  }

  /** The value `ToInt` can convert: empty, or a decimal within the signed
      64-bit range. Anything else panics in the source. */
  predicate IntConvertible(v: Value) {
    ToString(v) == "" || Text.ParseInt64(ToString(v)).Some?
  }

  /** `ToInt`: 0 for an empty string, otherwise the parsed value. */
  function ToInt(v: Value): (r: int)
    requires IntConvertible(v)
    ensures ToString(v) == "" ==> r == 0
    ensures -Text.MaxInt64 - 1 <= r <= Text.MaxInt64
    ensures ToString(v) != "" && Text.AllDigits(ToString(v)) ==> r == Text.DecimalValue(ToString(v))
    ensures ToString(v) != "" && ToString(v)[0] == '-' ==>
              Text.AllDigits(ToString(v)[1..]) && r == 0 - Text.DecimalValue(ToString(v)[1..])
    ensures ToString(v) != "" && ToString(v)[0] == '+' ==>
              Text.AllDigits(ToString(v)[1..]) && r == Text.DecimalValue(ToString(v)[1..])
  {
    var s := ToString(v);
    if s == "" then 0 else Text.ParseInt64(s).value
  }

  /** `ToUint`: 0 for an empty string, otherwise the parsed unsigned
      value. */
  function ToUint(v: Value): (r: nat)
    requires ToString(v) == "" || Text.ParseUint(ToString(v), Text.MaxUint64).Some?
    ensures ToString(v) == "" ==> r == 0
    ensures r <= Text.MaxUint64
    ensures ToString(v) != "" ==> Text.AllDigits(ToString(v)) && r == Text.DecimalValue(ToString(v))
  {
    var s := ToString(v);
    if s == "" then 0 else Text.ParseUint(s, Text.MaxUint64).value
  }

  /** A number printed in decimal converts back to itself. */
  lemma IntRoundTrip(n: nat)
    requires n <= Text.MaxInt64
    ensures IntConvertible(Str(Text.NatToString(n)))
    ensures ToInt(Str(Text.NatToString(n))) == n
    ensures ToUint(Str(Text.NatToString(n))) == n
  {
  }

  /** Every signed 64-bit number printed by `strconv.Itoa` converts back
      to itself. */
  lemma SignedRoundTrip(n: int)
    requires -Text.MaxInt64 - 1 <= n <= Text.MaxInt64
    ensures IntConvertible(Str(Text.Itoa(n)))
    ensures ToInt(Str(Text.Itoa(n))) == n
  {
    var s := Text.Itoa(n);
    if n < 0 {
      assert s[0] == '-' && s[1..] == Text.NatToString(-n);
    }
  }
}
