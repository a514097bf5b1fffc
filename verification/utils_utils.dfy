/** The string helpers of `utils/utils.go`: identifier-style naming
    (`NamifyString`), human-readable names (`HumanizeString`), struct-tag
    option parsing (`ParseTagOption`) and the numeric-aware ordering of
    form keys (`SortFormKeys`). */
module Utils {
  import opened Wrappers
  import opened Text
  import Sorting

  // ---------------------------------------------------------------------
  // NamifyString

  /** The characters that are deleted and make the next one upper case. */
  predicate IsWordBreak(c: char) {
    c == '_' || c == '-'
  }

  /** The characters after which the next letter is upper-cased. */
  predicate Capitalizes(c: char) {
    IsWordBreak(c) || c == '!'
  }

  /** The scanning loop of `NamifyString`; `up` is its `toUpper` flag. */
  function NamifyLoop(s: string, up: bool): string {
    if |s| == 0 then ""
    else if IsWordBreak(s[0]) then NamifyLoop(s[1..], true)
    else if s[0] == '!' then [s[0]] + NamifyLoop(s[1..], true)
    else if up then [ToUpperChar(s[0])] + NamifyLoop(s[1..], false)
    else [s[0]] + NamifyLoop(s[1..], false)
  }

  /** `NamifyString`: the source scans `"_" + s`, so the flag starts set. */
  function NamifyString(s: string): string {
    NamifyLoop("_" + s, false)
  }

  /** Whether the character at `k` comes out upper-cased. */
  predicate StartsWord(s: string, k: nat)
    requires k < |s|
  {
    k == 0 || Capitalizes(s[k - 1])
  }

  /** Independent description of the result, built from the right: every
      word break is deleted and every other character is kept, upper-cased
      when it starts the string or follows a break or a `'!'`. */
  function NamifyRef(s: string): string {
    if |s| == 0 then ""
    else
      var k := |s| - 1;
      NamifyRef(s[..k]) + (if IsWordBreak(s[k]) then "" else [if StartsWord(s, k) then ToUpperChar(s[k]) else s[k]])
  }

  /** Number of word breaks in `s`. */
  function BreakCount(s: string): (r: nat)
    ensures r <= |s|
  {
    if |s| == 0 then 0 else BreakCount(s[..|s| - 1]) + (if IsWordBreak(s[|s| - 1]) then 1 else 0)
  }

  lemma {:induction false} NamifySplit(s: string, i: nat)
    requires i <= |s|
    ensures NamifyRef(s) == NamifyRef(s[..i]) + NamifyLoop(s[i..], i == 0 || Capitalizes(s[i - 1]))
    decreases |s| - i
  {
    if i < |s| {
      NamifySplit(s, i + 1);
      var t := s[..i + 1];
      assert t[..i] == s[..i];
      assert StartsWord(t, i) == StartsWord(s, i);
      assert s[i..] == [s[i]] + s[i + 1..];
      assert s[i..][1..] == s[i + 1..];
    } else {
      assert s[..i] == s;
    }
  }

  /** `NamifyString` agrees with the description above. */
  lemma NamifyMatchesRef(s: string)
    ensures NamifyString(s) == NamifyRef(s)
  {
    NamifySplit(s, 0);
    assert ("_" + s)[1..] == s;
  }

  lemma {:induction false} NamifyRefShape(s: string)
    ensures |NamifyRef(s)| == |s| - BreakCount(s)
    ensures forall j :: 0 <= j < |NamifyRef(s)| ==> !IsWordBreak(NamifyRef(s)[j])
  {
    if |s| > 0 {
      NamifyRefShape(s[..|s| - 1]);
    }
  }

  /** The result is one character shorter per deleted `'_'` or `'-'` and
      holds neither of them. */
  lemma NamifyShape(s: string)
    ensures |NamifyString(s)| == |s| - BreakCount(s)
    ensures forall j :: 0 <= j < |NamifyString(s)| ==> !IsWordBreak(NamifyString(s)[j])
  {
    NamifyMatchesRef(s);
    NamifyRefShape(s);
  }

  /** The loop's flag after reading `a` from flag `up`. */
  function FlagAfter(a: string, up: bool): bool {
    if |a| == 0 then up else Capitalizes(a[|a| - 1])
  }

  lemma {:induction false} NamifyAppend(a: string, b: string, up: bool)
    ensures NamifyLoop(a + b, up) == NamifyLoop(a, up) + NamifyLoop(b, FlagAfter(a, up))
  {
    if |a| > 0 {
      assert (a + b)[1..] == a[1..] + b;
      NamifyAppend(a[1..], b, if Capitalizes(a[0]) then true else false);
      if |a| > 1 {
        assert a[1..][|a[1..]| - 1] == a[|a| - 1];
      }
    } else {
      assert a + b == b;
    }
  }

  /** A word without breaks or `'!'` comes out as it is, its first letter
      upper-cased when the flag is set. */
  lemma {:induction false} NamifyWord(w: string, up: bool)
    requires forall k :: 0 <= k < |w| ==> !Capitalizes(w[k])
    ensures NamifyLoop(w, up) == if |w| == 0 then "" else [if up then ToUpperChar(w[0]) else w[0]] + w[1..]
  {
    if |w| > 0 {
      NamifyWord(w[1..], false);
      if |w| > 1 {
        assert [w[1]] + w[1..][1..] == w[1..];
      }
    }
  }

  /** Words joined by `'_'` or `'-'` come out capitalized and run together. */
  lemma NamifyTwoWords(w: string, c: char, rest: string, up: bool)
    requires IsWordBreak(c) && |w| > 0
    requires forall k :: 0 <= k < |w| ==> !Capitalizes(w[k])
    ensures NamifyLoop(w + [c] + rest, up) ==
      [if up then ToUpperChar(w[0]) else w[0]] + w[1..] + NamifyLoop(rest, true)
  {
    NamifyAppend(w + [c], rest, up);
    NamifyAppend(w, [c], up);
    NamifyWord(w, up);
    assert (w + [c])[|w + [c]| - 1] == c;
  }

  /** The source's documented example. */
  lemma NamifyExample(s: string)
    requires s == "order_item-data"
    ensures NamifyString(s) == "OrderItemData"
  {
    var tail := "item" + "-" + "data";
    assert NamifyLoop(tail, true) == "ItemData" by {
      NamifyTwoWords("item", '-', "data", true);
      NamifyWord("data", true);
    }
    assert NamifyLoop(s, true) == "Order" + NamifyLoop(tail, true) by {
      assert s == "order" + "_" + tail;
      NamifyTwoWords("order", '_', tail, true);
    }
    NamifyAppend("_", s, false);
  }

  // ---------------------------------------------------------------------
  // HumanizeString

  /** A space goes in front of an upper-case letter (not the first) when
      the previous byte is neither upper case nor a space, or when the
      next byte is neither upper case nor a space and the previous byte is
      not a space. */
  predicate SpaceBefore(s: string, i: nat)
    requires i < |s|
  {
    i > 0 && IsUpper(s[i]) &&
    ((!IsUpper(s[i - 1]) && s[i - 1] != ' ') ||
     (i + 1 < |s| && !IsUpper(s[i + 1]) && s[i + 1] != ' ' && s[i - 1] != ' '))
  }

  /** The loop of `HumanizeString` from byte `i` on. */
  function SpacedFrom(s: string, i: nat): string
    requires i <= |s|
    decreases |s| - i
  {
    if i == |s| then ""
    else (if SpaceBefore(s, i) then " " else "") + [s[i]] + SpacedFrom(s, i + 1)
  }

  /** `t` is `s` with zero or more spaces inserted. */
  predicate InsertsSpaces(s: string, t: string)
    decreases |t|
  {
    if |t| == 0 then |s| == 0
    else (|s| > 0 && t[0] == s[0] && InsertsSpaces(s[1..], t[1..])) ||
         (t[0] == ' ' && InsertsSpaces(s, t[1..]))
  }

  lemma {:induction false} SpacedInserts(s: string, i: nat)
    requires i <= |s|
    ensures InsertsSpaces(s[i..], SpacedFrom(s, i))
    decreases |s| - i
  {
    if i < |s| {
      SpacedInserts(s, i + 1);
      var rest := SpacedFrom(s, i + 1);
      var t := [s[i]] + rest;
      assert s[i..][1..] == s[i + 1..];
      assert t[1..] == rest;
      assert InsertsSpaces(s[i..], t);
      if SpaceBefore(s, i) {
        assert (" " + t)[1..] == t;
      }
    }
  }

  /** Word separators as `strings.Title` sees them within ASCII: anything
      but a letter, a digit or `'_'`. */
  predicate IsSeparator(c: char) {
    !(IsDigit(c) || IsUpper(c) || IsLower(c) || c == '_')
  }

  /** A character of `strings.Title`'s result on ASCII text: a letter at
      the start or right after a separator is upper-cased. */
  function TitleChar(t: string, k: nat): char
    requires k < |t|
  {
    if k == 0 || IsSeparator(t[k - 1]) then ToUpperChar(t[k]) else t[k]
  }

  /** `strings.Title`. */
  function Title(t: string): (r: string)
    ensures |r| == |t|
    ensures forall k :: 0 <= k < |t| ==> r[k] == TitleChar(t, k)
  {
    if |t| == 0 then ""
    else
      var n := |t| - 1;
      assert forall k :: 0 <= k < n ==> TitleChar(t[..n], k) == TitleChar(t, k);
      Title(t[..n]) + [TitleChar(t, n)]
  }

  /** Title-casing keeps every character's class, so it cannot move a
      word start. */
  lemma TitleCharKeepsClass(t: string, k: nat)
    requires k < |t|
    ensures IsSeparator(TitleChar(t, k)) == IsSeparator(t[k])
    ensures ToLowerChar(TitleChar(t, k)) == ToLowerChar(t[k])
  {
  }

  lemma TitleCharFixed(t: string, r: string, k: nat)
    requires |r| == |t| && k < |t|
    requires forall j :: 0 <= j < |t| ==> r[j] == TitleChar(t, j)
    ensures TitleChar(r, k) == r[k]
  {
    if k > 0 {
      TitleCharKeepsClass(t, k - 1);
    }
  }

  /** Title-casing changes nothing but letter case, and doing it twice
      changes nothing more. */
  lemma TitleCaseOnly(t: string)
    ensures ToLower(Title(t)) == ToLower(t)
    ensures Title(Title(t)) == Title(t)
  {
    var r := Title(t);
    forall k | 0 <= k < |t|
      ensures ToLower(r)[k] == ToLower(t)[k]
    {
      TitleCharKeepsClass(t, k);
    }
    forall k | 0 <= k < |t|
      ensures Title(r)[k] == r[k]
    {
      TitleCharFixed(t, r, k);
    }
  }

  /** `HumanizeString`. */
  function HumanizeString(s: string): string {
    Title(SpacedFrom(s, 0))
  }

  /** Humanizing only inserts spaces and changes letter case. */
  lemma HumanizeInsertsSpaces(s: string)
    ensures InsertsSpaces(s, SpacedFrom(s, 0))
    ensures ToLower(HumanizeString(s)) == ToLower(SpacedFrom(s, 0))
  {
    SpacedInserts(s, 0);
    assert s[0..] == s;
    TitleCaseOnly(SpacedFrom(s, 0));
  }

  /** A string without upper-case letters is only title-cased. */
  lemma {:induction false} SpacedNoUpper(s: string, i: nat)
    requires i <= |s|
    requires forall k :: 0 <= k < |s| ==> !IsUpper(s[k])
    ensures SpacedFrom(s, i) == s[i..]
    decreases |s| - i
  {
    if i < |s| {
      SpacedNoUpper(s, i + 1);
      assert s[i..] == [s[i]] + s[i + 1..];
    }
  }

  /** Bytes with no space in front of them are copied as they are. */
  lemma {:induction false} SpacedCopy(s: string, i: nat, j: nat)
    requires i <= j <= |s|
    requires forall k :: i <= k < j ==> !SpaceBefore(s, k)
    ensures SpacedFrom(s, i) == s[i..j] + SpacedFrom(s, j)
    decreases j - i
  {
    if i < j {
      assert !SpaceBefore(s, i);
      assert SpacedFrom(s, i) == [s[i]] + SpacedFrom(s, i + 1);
      SpacedCopy(s, i + 1, j);
      assert s[i..j] == [s[i]] + s[i + 1..j];
    }
  }

  lemma HumanizeExample(s: string)
    requires s == "OrderItem"
    ensures HumanizeString(s) == "Order Item"
  {
    assert forall k :: 0 <= k < 5 ==> !SpaceBefore(s, k);
    assert forall k :: 6 <= k < 9 ==> !SpaceBefore(s, k);
    assert SpaceBefore(s, 5);
    SpacedCopy(s, 0, 5);
    SpacedCopy(s, 6, 9);
    assert SpacedFrom(s, 0) == s[0..5] + (" " + [s[5]] + (s[6..9] + SpacedFrom(s, 9)));
    var t := SpacedFrom(s, 0);
    assert t == "Order Item";
    forall k | 0 <= k < |t|
      ensures Title(t)[k] == t[k]
    {
      assert k in {0, 1, 2, 3, 4, 5, 6, 7, 8, 9};
    }
  }

  // ---------------------------------------------------------------------
  // ParseTagOption

  /** One `;`-separated segment: its upper-cased, trimmed name, and the
      text after a single `':'` or else the name itself. */
  datatype TagEntry = TagEntry(key: string, value: string)

  function ParseTagSegment(seg: string): (r: TagEntry)
    ensures r.key == TrimSpace(ToUpper(Split(seg, ':')[0]))
    ensures |Split(seg, ':')| == 2 ==> r.value == Split(seg, ':')[1]
    ensures |Split(seg, ':')| != 2 ==> r.value == r.key
  {
    var v := Split(seg, ':');
    var k := TrimSpace(ToUpper(v[0]));
    TagEntry(k, if |v| == 2 then v[1] else k)
  }

  function TagEntries(segs: seq<string>): (r: seq<TagEntry>)
    ensures |r| == |segs|
    ensures forall i :: 0 <= i < |segs| ==> r[i] == ParseTagSegment(segs[i])
  {
    if |segs| == 0 then [] else [ParseTagSegment(segs[0])] + TagEntries(segs[1..])
  }

  /** The value of the last entry with key `k`, searching from the end. */
  function LookupLast(entries: seq<TagEntry>, k: string): (r: Option<string>)
    ensures r.Some? <==> exists i :: 0 <= i < |entries| && entries[i].key == k
    ensures r.Some? ==>
      exists i :: 0 <= i < |entries| && entries[i] == TagEntry(k, r.value) && (forall j :: i < j < |entries| ==> entries[j].key != k)
  {
    if |entries| == 0 then None
    else
      var n := |entries| - 1;
      assert forall i :: 0 <= i < n ==> entries[..n][i] == entries[i];
      if entries[n].key == k then Some(entries[n].value) else LookupLast(entries[..n], k)
  }

  /** The settings of the entries in order; a later entry with the same
      key overwrites an earlier one. */
  function Settings(entries: seq<TagEntry>): (r: map<string, string>)
    ensures forall k :: k in r <==> LookupLast(entries, k).Some?
    ensures forall k :: k in r ==> r[k] == LookupLast(entries, k).value
  {
    if |entries| == 0 then map[]
    else
      var n := |entries| - 1;
      Settings(entries[..n])[entries[n].key := entries[n].value]
  }

  /** `ParseTagOption`: one setting per key, taken from the last segment
      with that key. */
  function ParseTagOption(str: string): (r: map<string, string>)
    ensures forall k :: k in r <==> LookupLast(TagEntries(Split(str, ';')), k).Some?
    ensures forall k :: k in r ==> r[k] == LookupLast(TagEntries(Split(str, ';')), k).value
  {
    Settings(TagEntries(Split(str, ';')))
  }

  /** A `"key:value"` segment sets its trimmed upper-case key to the
      untrimmed value; a segment without `':'` sets its key to itself. */
  lemma TagSegmentShapes(k: string, v: string)
    requires ':' !in k && ':' !in v
    ensures ParseTagSegment(k + ":" + v) == TagEntry(TrimSpace(ToUpper(k)), v)
    ensures ParseTagSegment(k) == TagEntry(TrimSpace(ToUpper(k)), TrimSpace(ToUpper(k)))
  {
    SplitFirst(k, v, ':');
    SplitNoSep(v, ':');
    SplitNoSep(k, ':');
    assert k + ":" + v == k + [':'] + v;
  }

  // ---------------------------------------------------------------------
  // SortFormKeys

  /** Byte range `[start, end)` of one match of the pattern `\[\d+\]`. */
  datatype Span = Span(start: nat, end: nat)

  /** Number of digits starting at `p`. */
  function DigitRun(s: string, p: nat): (r: nat)
    requires p <= |s|
    ensures p + r <= |s|
    ensures forall k :: p <= k < p + r ==> IsDigit(s[k])
    ensures p + r == |s| || !IsDigit(s[p + r])
    decreases |s| - p
  {
    if p < |s| && IsDigit(s[p]) then 1 + DigitRun(s, p + 1) else 0
  }

  /** A bracketed run of one or more digits starts at `p`. */
  predicate IndexTokenAt(s: string, p: nat) {
    p < |s| && s[p] == '[' &&
    var n := DigitRun(s, p + 1);
    n > 0 && p + 1 + n < |s| && s[p + 1 + n] == ']'
  }

  predicate SpanOk(s: string, m: Span) {
    m.start + 3 <= m.end <= |s| && s[m.start] == '[' && s[m.end - 1] == ']' &&
    forall k :: m.start < k < m.end - 1 ==> IsDigit(s[k])
  }

  /** The leftmost non-overlapping matches of `\[\d+\]` at or after
      `from`, as `FindAllStringIndex` reports them. */
  function Tokens(s: string, from: nat): (r: seq<Span>)
    ensures forall x :: 0 <= x < |r| ==> SpanOk(s, r[x]) && from <= r[x].start
    ensures forall x, y :: 0 <= x < y < |r| ==> r[x].end <= r[y].start
    decreases |s| - from
  {
    if from >= |s| then []
    else if IndexTokenAt(s, from) then
      var e := from + DigitRun(s, from + 1) + 2;
      [Span(from, e)] + Tokens(s, e)
    else Tokens(s, from + 1)
  }

  /** The comparison of `SortFormKeys` from the `x`-th match of `a` on. */
  predicate KeyLessFrom(a: string, b: string, ma: seq<Span>, mb: seq<Span>, x: nat)
    requires forall i :: 0 <= i < |ma| ==> SpanOk(a, ma[i])
    requires forall i :: 0 <= i < |mb| ==> SpanOk(b, mb[i])
    decreases |ma| - x
  {
    if x >= |ma| then Less(a, b)
    else
      assert SpanOk(a, ma[x]);
      var p1 := a[..ma[x].start];
      var p2 := if |mb| >= x + 1 then (assert SpanOk(b, mb[x]); b[..mb[x].start]) else b;
      if p1 != p2 then Less(p1, p2)
      else if |mb| < x + 1 then false
      else
        assert SpanOk(b, mb[x]);
        var n1 := a[ma[x].start..ma[x].end];
        var n2 := b[mb[x].start..mb[x].end];
        if n1 != n2 then
          if |n1| != |n2| then |n1| < |n2| else Less(n1, n2)
        else KeyLessFrom(a, b, ma, mb, x + 1)
  }

  /** The "less" function `SortFormKeys` hands to `sort.Slice`. */
  predicate FormKeyLess(a: string, b: string) {
    KeyLessFrom(a, b, Tokens(a, 0), Tokens(b, 0), 0)
  }

  /** `SortFormKeys`: the keys in the order `FormKeyLess` gives them. */
  function SortFormKeys(strs: seq<string>): (r: seq<string>)
    ensures |r| == |strs|
    ensures multiset(r) == multiset(strs)
  {
    Sorting.SortBy(strs, FormKeyLess)
  }

  lemma {:induction false} KeyLessFromIrreflexive(a: string, ma: seq<Span>, x: nat)
    requires forall i :: 0 <= i < |ma| ==> SpanOk(a, ma[i])
    ensures !KeyLessFrom(a, a, ma, ma, x)
    decreases |ma| - x
  {
    if x >= |ma| {
      LessIrreflexive(a);
    } else {
      KeyLessFromIrreflexive(a, ma, x + 1);
    }
  }

  /** No key sorts before itself. */
  lemma FormKeyLessIrreflexive(a: string)
    ensures !FormKeyLess(a, a)
  {
    KeyLessFromIrreflexive(a, Tokens(a, 0), 0);
  }

  /** Keys without any bracketed number are in plain string order. */
  lemma FormKeyLessPlain(a: string, b: string)
    requires Tokens(a, 0) == []
    ensures FormKeyLess(a, b) <==> Less(a, b)
  {
  }

  lemma {:induction false} NoTokensBefore(s: string, from: nat, p: nat)
    requires from <= p <= |s|
    requires forall k :: from <= k < p ==> s[k] != '['
    ensures Tokens(s, from) == Tokens(s, p)
    decreases p - from
  {
    if from < p {
      NoTokensBefore(s, from + 1, p);
    }
  }

  lemma {:induction false} DigitRunAll(s: string, p: nat, e: nat)
    requires p <= e < |s|
    requires forall k :: p <= k < e ==> IsDigit(s[k])
    requires !IsDigit(s[e])
    ensures DigitRun(s, p) == e - p
    decreases e - p
  {
    if p < e {
      DigitRunAll(s, p + 1, e);
    }
  }

  /** The one match of `name[digits]` when `name` holds no bracket. */
  /** A key with a single match, which ends the key. */
  lemma OneToken(s: string, p: nat)
    requires p + 3 <= |s|
    requires forall k :: 0 <= k < p ==> s[k] != '['
    requires s[p] == '[' && s[|s| - 1] == ']'
    requires forall k :: p < k < |s| - 1 ==> IsDigit(s[k])
    ensures Tokens(s, 0) == [Span(p, |s|)]
  {
    NoTokensBefore(s, 0, p);
    DigitRunAll(s, p + 1, |s| - 1);
    assert IndexTokenAt(s, p);
  }

  lemma NameIndexTokens(name: string, ds: string, s: string)
    requires '[' !in name && |ds| > 0 && AllDigits(ds)
    requires s == name + "[" + ds + "]"
    ensures Tokens(s, 0) == [Span(|name|, |s|)]
  {
    var p := |name|;
    assert |s| == p + |ds| + 2 && s[p] == '[' && s[|s| - 1] == ']';
    assert forall k :: 0 <= k < p ==> s[k] == name[k];
    assert forall k :: p < k < |s| - 1 ==> s[k] == ds[k - p - 1];
    OneToken(s, p);
  }

  /** A common suffix after strings of equal length keeps their order. */
  lemma {:induction false} LessAppend(a: string, b: string, c: string)
    requires |a| == |b|
    ensures Less(a + c, b + c) <==> Less(a, b)
    decreases |a|
  {
    if |a| == 0 {
      assert a + c == c && b + c == c;
      LessIrreflexive(c);
    } else {
      assert (a + c)[1..] == a[1..] + c;
      assert (b + c)[1..] == b[1..] + c;
      LessAppend(a[1..], b[1..], c);
    }
  }

  lemma LessAsymmetric(a: string, b: string)
    requires Less(b, a)
    ensures !Less(a, b)
  {
    if Less(a, b) {
      LessTransitive(a, b, a);
      LessIrreflexive(a);
    }
  }

  /** The comparison of two keys with one match each that ends the key. */
  lemma KeyLessSingle(a: string, b: string, sa: Span, sb: Span)
    requires SpanOk(a, sa) && SpanOk(b, sb) && sa.end == |a| && sb.end == |b|
    requires a[..sa.start] == b[..sb.start]
    ensures var n1, n2 := a[sa.start..], b[sb.start..];
      KeyLessFrom(a, b, [sa], [sb], 0) <==>
        if n1 != n2 then (if |n1| != |n2| then |n1| < |n2| else Less(n1, n2)) else Less(a, b)
  {
    assert a[sa.start..sa.end] == a[sa.start..];
    assert b[sb.start..sb.end] == b[sb.start..];
  }

  /** `name[da]` against `name[db]`: the bracketed parts decide. */
  lemma SingleIndexCompare(name: string, da: string, db: string)
    requires '[' !in name && |da| > 0 && AllDigits(da) && |db| > 0 && AllDigits(db)
    ensures var n1, n2 := "[" + da + "]", "[" + db + "]";
      FormKeyLess(name + n1, name + n2) <==>
        if n1 != n2 then (if |n1| != |n2| then |n1| < |n2| else Less(n1, n2)) else Less(name + n1, name + n2)
  {
    var n1, n2 := "[" + da + "]", "[" + db + "]";
    var a, b := name + n1, name + n2;
    var p := |name|;
    assert Tokens(a, 0) == [Span(p, |a|)] && Tokens(b, 0) == [Span(p, |b|)] by {
      assert a == name + "[" + da + "]" && b == name + "[" + db + "]";
      NameIndexTokens(name, da, a);
      NameIndexTokens(name, db, b);
    }
    assert a[..p] == name && b[..p] == name && a[p..] == n1 && b[p..] == n2;
    KeyLessSingle(a, b, Span(p, |a|), Span(p, |b|));
  }

  /** How two keys `name[da]` and `name[db]` compare: by the length of the
      bracketed digits first, then by the digits as text. */
  lemma SingleIndexOrder(name: string, da: string, db: string)
    requires '[' !in name && |da| > 0 && AllDigits(da) && |db| > 0 && AllDigits(db)
    ensures FormKeyLess(name + "[" + da + "]", name + "[" + db + "]") <==>
      (|da| < |db| || (|da| == |db| && Less(da, db)))
  {
    var n1, n2 := "[" + da + "]", "[" + db + "]";
    assert name + "[" + da + "]" == name + n1 && name + "[" + db + "]" == name + n2;
    SingleIndexCompare(name, da, db);
    assert |n1| == |da| + 2 && |n2| == |db| + 2;
    if da == db {
      LessIrreflexive(name + n1);
      LessIrreflexive(da);
    } else {
      assert n1 != n2 by {
        assert n1[1..|n1| - 1] == da && n2[1..|n2| - 1] == db;
      }
      if |da| == |db| {
        assert Less(n1, n2) <==> Less(da, db) by {
          assert n1[1..] == da + "]" && n2[1..] == db + "]";
          LessAppend(da, db, "]");
        }
      }
    }
  }

  /** Bracketed numbers compare by value: `name[m]` sorts before
      `name[n]` exactly when `m < n`, so `a[2]` precedes `a[10]`. */
  lemma NumericIndexOrder(name: string, m: nat, n: nat)
    requires '[' !in name
    ensures FormKeyLess(name + "[" + NatToString(m) + "]", name + "[" + NatToString(n) + "]") <==> m < n
  {
    var dm, dn := NatToString(m), NatToString(n);
    SingleIndexOrder(name, dm, dn);
    if m < n {
      NumeralOrder(m, n);
    } else if n < m {
      NumeralOrder(n, m);
      if |dm| == |dn| {
        LessAsymmetric(dm, dn);
      }
    } else {
      LessIrreflexive(dm);
    }
  }

  lemma SortExample()
    ensures FormKeyLess("a[2]", "a[10]") && !FormKeyLess("a[10]", "a[2]")
  {
    assert NatToString(2) == "2";
    assert NatToString(10) == "10";
    NumericIndexOrder("a", 2, 10);
    NumericIndexOrder("a", 10, 2);
  }
}
