/** ASCII string helpers standing for the parts of Go's `strings` and
    `strconv` packages that the modelled code calls. Strings are
    `seq<char>` restricted to ASCII; every character test below is the
    ASCII one. */
module Text {

  // ---------------------------------------------------------------------
  // Character classes and case mapping

  predicate IsDigit(c: char) {
    '0' <= c <= '9'
  }

  predicate IsUpper(c: char) {
    'A' <= c <= 'Z'
  }

  predicate IsLower(c: char) {
    'a' <= c <= 'z'
  }

  /** White space as `unicode.IsSpace` sees it within ASCII. */
  predicate IsSpace(c: char) {
    c == ' ' || c == '\t' || c == '\n' || c == '\r' || c == 11 as char || c == 12 as char
  }

  function ToUpperChar(c: char): (r: char)
    ensures IsLower(c) ==> IsUpper(r)
    ensures !IsLower(c) ==> r == c
  {
    if IsLower(c) then (c as int - 32) as char else c
  }

  function ToLowerChar(c: char): (r: char)
    ensures IsUpper(c) ==> IsLower(r)
    ensures !IsUpper(c) ==> r == c
  {
    if IsUpper(c) then (c as int + 32) as char else c
  }

  /** `strings.ToUpper` on ASCII input. */
  function ToUpper(s: string): (r: string)
    ensures |r| == |s|
    ensures forall i :: 0 <= i < |s| ==> r[i] == ToUpperChar(s[i])
  {
    if |s| == 0 then "" else [ToUpperChar(s[0])] + ToUpper(s[1..])
  }

  /** `strings.ToLower` on ASCII input. */
  function ToLower(s: string): (r: string)
    ensures |r| == |s|
    ensures forall i :: 0 <= i < |s| ==> r[i] == ToLowerChar(s[i])
  {
    if |s| == 0 then "" else [ToLowerChar(s[0])] + ToLower(s[1..])
  }

  predicate AllDigits(s: string) {
    forall i :: 0 <= i < |s| ==> IsDigit(s[i])
  }

  predicate HasNoUpper(s: string) {
    forall i :: 0 <= i < |s| ==> !IsUpper(s[i])
  }

  // ---------------------------------------------------------------------
  // Prefixes, suffixes and trimming

  predicate HasPrefix(s: string, p: string) {
    |p| <= |s| && s[..|p|] == p
  }

  /** A text with a non-empty prefix starts with the prefix's first
      character. */
  lemma HasPrefixHead(s: string, p: string)
    requires HasPrefix(s, p) && |p| > 0
    ensures s[0] == p[0]
  {
    assert s[..|p|][0] == s[0];
  }

  predicate HasSuffix(s: string, p: string) {
    |p| <= |s| && s[|s| - |p|..] == p
  }

  /** `strings.TrimPrefix`: removes one leading `p` if present. */
  function TrimPrefix(s: string, p: string): (r: string)
    ensures HasPrefix(s, p) ==> p + r == s
    ensures !HasPrefix(s, p) ==> r == s
  {
    if HasPrefix(s, p) then s[|p|..] else s
  }

  /** `strings.TrimSuffix`: removes one trailing `p` if present. */
  function TrimSuffix(s: string, p: string): (r: string)
    ensures HasSuffix(s, p) ==> r + p == s
    ensures !HasSuffix(s, p) ==> r == s
  {
    if HasSuffix(s, p) then s[..|s| - |p|] else s
  }

  /** `strings.TrimLeft(s, [c])`: removes every leading `c`. */
  function TrimLeftChar(s: string, c: char): (r: string)
    ensures |r| <= |s| && r == s[|s| - |r|..]
    ensures |r| > 0 ==> r[0] != c
    ensures forall i :: 0 <= i < |s| - |r| ==> s[i] == c
  {
    if |s| > 0 && s[0] == c then TrimLeftChar(s[1..], c) else s
  }

  /** `strings.TrimRight(s, [c])`: removes every trailing `c`. */
  function TrimRightChar(s: string, c: char): (r: string)
    ensures |r| <= |s| && r == s[..|r|]
    ensures |r| > 0 ==> r[|r| - 1] != c
    ensures forall i :: |r| <= i < |s| ==> s[i] == c
  {
    if |s| > 0 && s[|s| - 1] == c then TrimRightChar(s[..|s| - 1], c) else s
  }

  /** `strings.Trim(s, [c])`: removes every leading and trailing `c`. */
  function TrimChar(s: string, c: char): (r: string)
    ensures |r| > 0 ==> r[0] != c && r[|r| - 1] != c
  {
    TrimRightChar(TrimLeftChar(s, c), c)
  }

  function TrimLeftSpace(s: string): (r: string)
    ensures |r| <= |s| && r == s[|s| - |r|..]
    ensures |r| > 0 ==> !IsSpace(r[0])
  {
    if |s| > 0 && IsSpace(s[0]) then TrimLeftSpace(s[1..]) else s
  }

  function TrimRightSpace(s: string): (r: string)
    ensures |r| <= |s| && r == s[..|r|]
    ensures |r| > 0 ==> !IsSpace(r[|r| - 1])
  {
    if |s| > 0 && IsSpace(s[|s| - 1]) then TrimRightSpace(s[..|s| - 1]) else s
  }

  /** `strings.TrimSpace` on ASCII input. */
  function TrimSpace(s: string): (r: string)
    ensures |r| <= |s|
    ensures |r| > 0 ==> !IsSpace(r[0]) && !IsSpace(r[|r| - 1])
  {
    TrimRightSpace(TrimLeftSpace(s))
  }

  /** Trimming twice trims nothing more. */
  lemma TrimSpaceIdempotent(s: string)
    ensures TrimSpace(TrimSpace(s)) == TrimSpace(s)
  {
    var t := TrimSpace(s);
    if |t| > 0 {
      assert TrimLeftSpace(t) == t;
      assert TrimRightSpace(t) == t;
    }
  }

  // ---------------------------------------------------------------------
  // Splitting and joining

  /** `strings.Join(parts, sep)`. */
  function Join(parts: seq<string>, sep: string): string
  {
    if |parts| == 0 then ""
    else if |parts| == 1 then parts[0]
    else parts[0] + sep + Join(parts[1..], sep)
  }

  /** Joining one more part adds the separator and the part. */
  lemma {:induction false} JoinSnoc(parts: seq<string>, last: string, sep: string)
    requires |parts| >= 1
    ensures Join(parts + [last], sep) == Join(parts, sep) + sep + last
  {
    if |parts| == 1 {
      assert (parts + [last])[1..] == [last];
    } else {
      assert (parts + [last])[1..] == parts[1..] + [last];
      JoinSnoc(parts[1..], last, sep);
    }
  }

  /** A join starts with its first part. */
  lemma JoinHead(parts: seq<string>, sep: string)
    requires |parts| >= 1
    ensures HasPrefix(Join(parts, sep), parts[0])
  {
    if |parts| > 1 {
      assert (parts[0] + sep + Join(parts[1..], sep))[..|parts[0]|] == parts[0];
    }
  }

  /** `strings.Split(s, [sep])`: always at least one piece, and no piece
      holds the separator. */
  function Split(s: string, sep: char): (r: seq<string>)
    ensures |r| >= 1
    ensures forall i :: 0 <= i < |r| ==> sep !in r[i]
  {
    if |s| == 0 then [""]
    else if s[0] == sep then [""] + Split(s[1..], sep)
    else
      var rest := Split(s[1..], sep);
      [[s[0]] + rest[0]] + rest[1..]
  }

  lemma {:induction false} JoinSplit(s: string, sep: char)
    ensures Join(Split(s, sep), [sep]) == s
  {
    if |s| == 0 {
    } else if s[0] == sep {
      JoinSplit(s[1..], sep);
    } else {
      JoinSplit(s[1..], sep);
      var rest := Split(s[1..], sep);
      if |rest| == 1 {
      } else {
        assert Join(rest, [sep]) == rest[0] + [sep] + Join(rest[1..], [sep]);
        assert s == [s[0]] + s[1..];
      }
    }
  }

  /** Joining pieces without the separator and splitting again gives the
      pieces back. */
  lemma {:induction false} SplitJoin(parts: seq<string>, sep: char)
    requires |parts| >= 1 && forall i :: 0 <= i < |parts| ==> sep !in parts[i]
    ensures Split(Join(parts, [sep]), sep) == parts
  {
    if |parts| == 1 {
      SplitNoSep(parts[0], sep);
    } else {
      SplitJoin(parts[1..], sep);
      SplitFirst(parts[0], Join(parts[1..], [sep]), sep);
      assert [parts[0]] + parts[1..] == parts;
    }
  }

  /** Text without the separator is a single piece. */
  lemma {:induction false} SplitNoSep(s: string, sep: char)
    requires sep !in s
    ensures Split(s, sep) == [s]
  {
    if |s| > 0 {
      SplitNoSep(s[1..], sep);
      assert s == [s[0]] + s[1..];
    }
  }

  /** The first separator ends the first piece. */
  lemma {:induction false} SplitFirst(a: string, b: string, sep: char)
    requires sep !in a
    ensures Split(a + [sep] + b, sep) == [a] + Split(b, sep)
  {
    var s := a + [sep] + b;
    if |a| == 0 {
      assert s == [sep] + b;
      assert s[1..] == b;
    } else {
      assert s[1..] == a[1..] + [sep] + b;
      SplitFirst(a[1..], b, sep);
      assert [a[0]] + a[1..] == a;
    }
  }

  /** The non-empty strings of `s`, in order (the filtering loop shared by
      `uri.Clean`, `str.NotEmpties` and `utils.ToArray`). */
  function DropEmpty(s: seq<string>): (r: seq<string>)
    ensures |r| <= |s|
    ensures forall i :: 0 <= i < |r| ==> r[i] != ""
    ensures forall x :: x in r <==> x in s && x != ""
  {
    if |s| == 0 then []
    else if s[0] == "" then DropEmpty(s[1..])
    else [s[0]] + DropEmpty(s[1..])
  }

  /** Filtering distributes over concatenation, so it keeps the order of
      what it keeps. */
  lemma {:induction false} DropEmptyAppend(a: seq<string>, b: seq<string>)
    ensures DropEmpty(a + b) == DropEmpty(a) + DropEmpty(b)
  {
    if |a| > 0 {
      assert (a + b)[1..] == a[1..] + b;
      DropEmptyAppend(a[1..], b);
    } else {
      assert a + b == b;
    }
  }

  /** Nothing is dropped from a list without empty strings. */
  lemma {:induction false} DropEmptyKeeps(s: seq<string>)
    requires forall i :: 0 <= i < |s| ==> s[i] != ""
    ensures DropEmpty(s) == s
  {
    if |s| > 0 {
      DropEmptyKeeps(s[1..]);
    }
  }

  /** When filtering removes nothing the result is the input itself. */
  lemma {:induction false} DropEmptySameLength(s: seq<string>)
    requires |DropEmpty(s)| == |s|
    ensures DropEmpty(s) == s
  {
    if |s| > 0 && s[0] != "" {
      DropEmptySameLength(s[1..]);
    }
  }

  lemma JoinSingle(p: string, sep: string)
    ensures Join([p], sep) == p
  {
  }

  /** `sub` occurs in `s` starting at position `k`. */
  predicate OccursAt(s: string, sub: string, k: int) {
    0 <= k && k + |sub| <= |s| && s[k..k + |sub|] == sub
  }

  /** First position at or after `from` where `sub` occurs in `s`, or -1. */
  function IndexFrom(s: string, sub: string, from: nat): (r: int)
    requires from <= |s|
    ensures r == -1 || (from <= r && OccursAt(s, sub, r))
    ensures r >= 0 ==> forall k :: from <= k < r ==> !OccursAt(s, sub, k)
    ensures r == -1 ==> forall k :: from <= k ==> !OccursAt(s, sub, k)
    decreases |s| - from
  {
    if from + |sub| > |s| then -1
    else if s[from..from + |sub|] == sub then from
    else if from == |s| then -1
    else IndexFrom(s, sub, from + 1)
  }

  /** First position of `sub` in `s`, or -1 (`strings.Index`). */
  function Index(s: string, sub: string): (r: int)
    ensures r == -1 || OccursAt(s, sub, r)
    ensures r >= 0 ==> forall k :: 0 <= k < r ==> !OccursAt(s, sub, k)
    ensures r == -1 ==> forall k :: !OccursAt(s, sub, k)
  {
    IndexFrom(s, sub, 0)
  }

  /** `strings.Replace(s, pat, rep, -1)`: non-overlapping occurrences of
      `old`, found left to right, are replaced by `new`. */
  function ReplaceAll(s: string, pat: string, rep: string): string
    requires |pat| > 0
    decreases |s|
  {
    if |s| < |pat| then s
    else if s[..|pat|] == pat then rep + ReplaceAll(s[|pat|..], pat, rep)
    else [s[0]] + ReplaceAll(s[1..], pat, rep)
  }

  /** Replacement only changes text where `old` occurs: a string whose
      characters avoid the first character of `old` is left untouched. */
  lemma {:induction false} ReplaceAllAbsent(s: string, pat: string, rep: string)
    requires |pat| > 0
    requires pat[0] !in s
    ensures ReplaceAll(s, pat, rep) == s
    decreases |s|
  {
    if |s| < |pat| {
    } else {
      assert s[0] in s;
      assert s[..|pat|][0] == s[0];
      assert s[..|pat|] != pat;
      ReplaceAllAbsent(s[1..], pat, rep);
      assert [s[0]] + s[1..] == s;
    }
  }

  /** Replacing inside exactly the placeholder yields the replacement. */
  lemma ReplaceAllWhole(pat: string, rep: string)
    requires |pat| > 0
    ensures ReplaceAll(pat, pat, rep) == rep
  {
    assert pat[..|pat|] == pat;
    assert pat[|pat|..] == "";
  }

  // ---------------------------------------------------------------------
  // Decimal numbers

  function DigitValue(c: char): (r: nat)
    requires IsDigit(c)
    ensures r < 10
  {
    c as int - '0' as int
  }

  function DigitChar(d: nat): (r: char)
    requires d < 10
    ensures IsDigit(r) && DigitValue(r) == d
  {
    ('0' as int + d) as char
  }

  /** The value of a run of decimal digits (`""` reads as 0). */
  function DecimalValue(ds: string): nat
    requires AllDigits(ds)
  {
    if |ds| == 0 then 0 else DecimalValue(ds[..|ds| - 1]) * 10 + DigitValue(ds[|ds| - 1])
  }

  /** Decimal rendering of a natural number, without leading zeros. */
  function NatToString(n: nat): (r: string)
    ensures |r| > 0 && AllDigits(r)
    ensures DecimalValue(r) == n
    ensures |r| > 1 ==> r[0] != '0'
  {
    if n < 10 then [DigitChar(n)]
    else
      var r := NatToString(n / 10) + [DigitChar(n % 10)];
      assert r[..|r| - 1] == NatToString(n / 10);
      r
  }

  /** `strconv.Itoa`. */
  function Itoa(n: int): (r: string)
    ensures |r| > 0
    ensures n >= 0 ==> r == NatToString(n)
    ensures n < 0 ==> r == "-" + NatToString(-n)
  {
    if n < 0 then "-" + NatToString(-n) else NatToString(n)
  }

  const MaxInt64: int := 0x7FFF_FFFF_FFFF_FFFF
  const MaxUint64: int := 0xFFFF_FFFF_FFFF_FFFF
  const MaxUint32: int := 0xFFFF_FFFF

  /** `strconv.ParseUint(s, 10, bits)`: one or more digits whose value is
      at most `max`. */
  function ParseUint(s: string, max: nat): (r: Option<nat>)
    ensures r.Some? <==> |s| > 0 && AllDigits(s) && DecimalValue(s) <= max
    ensures r.Some? ==> r.value == DecimalValue(s) && r.value <= max
  {
    if |s| > 0 && AllDigits(s) && DecimalValue(s) <= max then Some(DecimalValue(s)) else None
  }

  /** `strconv.ParseInt(s, 10, 64)`: an optional sign and one or more
      digits, the value within the signed 64-bit range. */
  function ParseInt64(s: string): (r: Option<int>)
    ensures r.Some? ==> -MaxInt64 - 1 <= r.value <= MaxInt64
    ensures |s| > 0 && AllDigits(s) && DecimalValue(s) <= MaxInt64 ==> r == Some(DecimalValue(s))
    ensures r.Some? ==> |s| > 0
    ensures r.Some? && |s| > 0 && (s[0] == '-' || s[0] == '+') ==>
              |s| > 1 && AllDigits(s[1..]) &&
              r.value == (if s[0] == '-' then 0 - DecimalValue(s[1..]) else DecimalValue(s[1..]))
    ensures r.Some? && |s| > 0 && s[0] != '-' && s[0] != '+' ==> AllDigits(s) && r.value == DecimalValue(s)
  {
    if |s| > 0 && (s[0] == '-' || s[0] == '+') then
      var mag := s[1..];
      if |mag| > 0 && AllDigits(mag) then
        var v := DecimalValue(mag);
        if s[0] == '-' && v <= MaxInt64 + 1 then Some(0 - v)
        else if s[0] == '+' && v <= MaxInt64 then Some(v)
        else None
      else None
    else if |s| > 0 && AllDigits(s) && DecimalValue(s) <= MaxInt64 then Some(DecimalValue(s))
    else None
  }

  // ---------------------------------------------------------------------
  // Byte-wise string order (Go's `<` on strings)

  predicate Less(a: string, b: string)
    decreases |a|
  {
    if |a| == 0 then |b| > 0
    else if |b| == 0 then false
    else if a[0] < b[0] then true
    else if a[0] > b[0] then false
    else Less(a[1..], b[1..])
  }

  lemma {:induction false} LessIrreflexive(a: string)
    ensures !Less(a, a)
    decreases |a|
  {
    if |a| > 0 {
      LessIrreflexive(a[1..]);
    }
  }

  lemma {:induction false} LessTransitive(a: string, b: string, c: string)
    requires Less(a, b) && Less(b, c)
    ensures Less(a, c)
    decreases |a|
  {
    if |a| > 0 && |b| > 0 && |c| > 0 && a[0] == b[0] && b[0] == c[0] {
      LessTransitive(a[1..], b[1..], c[1..]);
    }
  }

  lemma {:induction false} LessTotal(a: string, b: string)
    requires a != b
    ensures Less(a, b) || Less(b, a)
    decreases |a|
  {
    if |a| > 0 && |b| > 0 && a[0] == b[0] {
      assert a == [a[0]] + a[1..] && b == [b[0]] + b[1..];
      LessTotal(a[1..], b[1..]);
    }
  }

  // ---------------------------------------------------------------------
  // Numeric order of decimal numerals

  function Pow10(n: nat): (r: nat)
    ensures r >= 1
  {
    if n == 0 then 1 else 10 * Pow10(n - 1)
  }

  /** A run of `n` digits reads as less than `10^n`. */
  lemma {:induction false} DecimalBound(ds: string)
    requires AllDigits(ds)
    ensures DecimalValue(ds) < Pow10(|ds|)
  {
    if |ds| > 0 {
      DecimalBound(ds[..|ds| - 1]);
    }
  }

  /** Reading a numeral from its first digit gives the same value as
      reading it from its last. */
  lemma {:induction false} DecimalFront(ds: string)
    requires AllDigits(ds) && |ds| > 0
    ensures DecimalValue(ds) == DigitValue(ds[0]) * Pow10(|ds| - 1) + DecimalValue(ds[1..])
  {
    var n := |ds|;
    if n > 1 {
      var p := ds[..n - 1];
      DecimalFront(p);
      assert p[1..] == ds[1..][..n - 2];
      var d0, q, a, l := DigitValue(ds[0]), Pow10(n - 2), DecimalValue(p[1..]), DigitValue(ds[n - 1]);
      assert DecimalValue(ds) == DecimalValue(p) * 10 + l;
      assert DecimalValue(ds[1..]) == a * 10 + l;
      assert Pow10(n - 1) == q * 10;
      FrontArith(d0, q, a, l);
    }
  }

  lemma FrontArith(d: int, q: int, a: int, l: int)
    ensures (d * q + a) * 10 + l == d * (q * 10) + (a * 10 + l)
  {
  }

  /** Numbers written as a leading digit over a common power and a
      smaller rest compare by the leading digit first, then by the rest. */
  lemma LeadingDigitOrder(va: nat, vb: nat, da: nat, db: nat, p: nat, ra: nat, rb: nat)
    requires va == da * p + ra && vb == db * p + rb && ra < p && rb < p
    ensures da < db ==> va < vb
    ensures db < da ==> vb < va
    ensures da == db ==> (va < vb <==> ra < rb)
  {
    if da < db {
      assert (da + 1) * p <= db * p;
    } else if db < da {
      assert (db + 1) * p <= da * p;
    }
  }

  /** Between numerals of equal length, string order is numeric order. */
  lemma {:induction false} LessSameLengthDigits(a: string, b: string)
    requires AllDigits(a) && AllDigits(b) && |a| == |b|
    ensures Less(a, b) <==> DecimalValue(a) < DecimalValue(b)
  {
    if |a| > 0 {
      var va, vb := DecimalValue(a), DecimalValue(b);
      var da, db := DigitValue(a[0]), DigitValue(b[0]);
      var ra, rb := DecimalValue(a[1..]), DecimalValue(b[1..]);
      assert && (da < db ==> va < vb)
             && (db < da ==> vb < va)
             && (da == db ==> (va < vb <==> ra < rb)) by {
        var p := Pow10(|a| - 1);
        DecimalFront(a);
        DecimalFront(b);
        DecimalBound(a[1..]);
        DecimalBound(b[1..]);
        LeadingDigitOrder(va, vb, da, db, p, ra, rb);
      }
      if a[0] == b[0] {
        LessSameLengthDigits(a[1..], b[1..]);
      }
    }
  }

  /** A numeral of several digits without a leading zero is at least
      `10^(n-1)`. */
  lemma NatToStringLower(n: nat)
    ensures |NatToString(n)| > 1 ==> Pow10(|NatToString(n)| - 1) <= n
  {
    var r := NatToString(n);
    if |r| > 1 {
      DecimalFront(r);
      assert DigitValue(r[0]) >= 1;
    }
  }

  /** The canonical numerals of `m < n` are either shorter, or of equal
      length and before it in string order. */
  lemma NumeralOrder(m: nat, n: nat)
    requires m < n
    ensures |NatToString(m)| <= |NatToString(n)|
    ensures |NatToString(m)| == |NatToString(n)| ==> Less(NatToString(m), NatToString(n))
  {
    var rm, rn := NatToString(m), NatToString(n);
    DecimalBound(rn);
    NatToStringLower(m);
    if |rm| == |rn| {
      LessSameLengthDigits(rm, rn);
    }
  }

  import opened Wrappers
}
