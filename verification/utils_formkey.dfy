/** Parsing of HTML form field names such as `a[1][x].v` into a path of
    segments (`utils/formkey.go`). Names and indices alternate freely:
    `name` or `.name` starts a named segment, `[digits]` an index,
    `[]` the "append" index -1, and any other bracketed text a named
    segment that may itself contain dots. */
module FormKey {
  import opened Wrappers
  import opened Text

  datatype Segment = Key(name: string) | Idx(n: int)

  datatype ParseError =
    | UnexpectedOpen(pos: nat)     // a '[' while an index is already open
    | UnexpectedClose(pos: nat)    // a ']' with no open index
    | UnexpectedDot(pos: nat)      // a '.' that would end an empty name
    | MalformedIndex(text: string) // bracketed digits that do not read as an int
    | UnclosedIndex(pos: nat)      // position of the '[' that is never closed

  /** The loop state of the parser: segments so far, the pending text, and
      whether a '[' is open. */
  datatype Scanner = Scanner(result: seq<Segment>, buf: string, inIndex: bool)

  const Start: Scanner := Scanner([], "", false)

  /** Pending text becomes a named segment unless it is empty. */
  function Flush(result: seq<Segment>, buf: string): seq<Segment> {
    if buf != "" then result + [Key(buf)] else result
  }

  /** Every segment the parser can produce: names are non-empty and hold
      no bracket, indices are -1 or a 64-bit non-negative value. */
  predicate WellFormed(segs: seq<Segment>) {
    forall k :: 0 <= k < |segs| ==> SegmentOk(segs[k])
  }

  predicate SegmentOk(s: Segment) {
    match s
    case Key(name) => name != "" && '[' !in name && ']' !in name
    case Idx(n) => -1 <= n <= MaxInt64
  }

  /** What the scanner keeps true after reading `key[..i]`: the pending
      text holds no bracket, and an open index starts right before it. */
  predicate Inv(key: string, i: nat, st: Scanner) {
    i <= |key| &&
    WellFormed(st.result) &&
    '[' !in st.buf && ']' !in st.buf &&
    (st.inIndex ==> |st.buf| < i && key[i - |st.buf| - 1] == '[')
  }

  lemma DigitsTrimZeros(ds: string)
    requires AllDigits(ds)
    ensures AllDigits(TrimLeftChar(ds, '0'))
    ensures DecimalValue(TrimLeftChar(ds, '0')) == DecimalValue(ds)
    ensures TrimLeftChar(ds, '0') == "" <==> DecimalValue(ds) == 0
  {
    var t := TrimLeftChar(ds, '0');
    var z := |ds| - |t|;
    assert ds == ds[..z] + t;
    forall k | 0 <= k < z ensures ds[..z][k] == '0' { }
    LeadingZeros(ds[..z], t);
    if t != "" {
      NonZeroLead(t);
    }
  }

  /** Zeros in front of digits do not change their value. */
  lemma {:induction false} LeadingZeros(zs: string, t: string)
    requires forall k :: 0 <= k < |zs| ==> zs[k] == '0'
    requires AllDigits(t)
    ensures AllDigits(zs + t) && DecimalValue(zs + t) == DecimalValue(t)
    decreases |t|
  {
    var s := zs + t;
    if |t| == 0 {
      assert s == zs;
      AllZeros(zs);
    } else {
      LeadingZeros(zs, t[..|t| - 1]);
      assert s[..|s| - 1] == zs + t[..|t| - 1];
    }
  }

  lemma {:induction false} AllZeros(zs: string)
    requires forall k :: 0 <= k < |zs| ==> zs[k] == '0'
    ensures AllDigits(zs) && DecimalValue(zs) == 0
    decreases |zs|
  {
    if |zs| > 0 {
      AllZeros(zs[..|zs| - 1]);
    }
  }

  /** A digit string that does not start with '0' has a positive value. */
  lemma {:induction false} NonZeroLead(t: string)
    requires AllDigits(t) && |t| > 0 && t[0] != '0'
    ensures DecimalValue(t) > 0
    decreases |t|
  {
    if |t| > 1 {
      NonZeroLead(t[..|t| - 1]);
    }
  }

  /** The value of bracketed digits: `strconv.Atoi`, applied as written to
      the digits with their leading zeros trimmed (`trimZeros`), or to the
      digits themselves. */
  function IndexValue(ds: string, trimZeros: bool): (r: Option<int>)
    requires AllDigits(ds) && |ds| > 0
    ensures r.Some? <==> DecimalValue(ds) <= MaxInt64 && !(trimZeros && DecimalValue(ds) == 0)
    ensures r.Some? ==> r.value == DecimalValue(ds)
  {
    DigitsTrimZeros(ds);
    ParseInt64(if trimZeros then TrimLeftChar(ds, '0') else ds)
  }

  /** What a ']' makes of the text since the matching '[': nothing is the
      append index -1, digits are an index, anything else is a name. */
  function Close(buf: string, trimZeros: bool): (r: Result<Segment, ParseError>)
    ensures buf == "" ==> r == Ok(Idx(-1))
    ensures buf != "" && !AllDigits(buf) ==> r == Ok(Key(buf))
    ensures buf != "" && AllDigits(buf) ==>
      if DecimalValue(buf) <= MaxInt64 && !(trimZeros && DecimalValue(buf) == 0)
      then r == Ok(Idx(DecimalValue(buf)))
      else r == Err(MalformedIndex(buf))
  {
    if buf == "" then Ok(Idx(-1))
    else if AllDigits(buf) then
      match IndexValue(buf, trimZeros)
      case None => Err(MalformedIndex(buf))
      case Some(n) => Ok(Idx(n))
    else Ok(Key(buf))
  }

  /** One character of the key, at position `i`. */
  function Step(key: string, i: nat, st: Scanner, trimZeros: bool): Result<Scanner, ParseError>
    requires i < |key|
  {
    var c := key[i];
    if c == '[' then
      if st.inIndex then Err(UnexpectedOpen(i))
      else Ok(Scanner(Flush(st.result, st.buf), "", true))
    else if c == ']' then
      if !st.inIndex then Err(UnexpectedClose(i))
      else
        var seg :- Close(st.buf, trimZeros);
        Ok(Scanner(st.result + [seg], "", false))
    else if c == '.' then
      if st.inIndex then Ok(st.(buf := st.buf + [c]))
      else if i == 0 || key[i - 1] != ']' then
        if st.buf == "" then Err(UnexpectedDot(i))
        else Ok(Scanner(st.result + [Key(st.buf)], "", false))
      else Ok(st)
    else Ok(st.(buf := st.buf + [c]))
  }

  /** What an error reports about the key. */
  predicate ErrorAt(key: string, e: ParseError, trimZeros: bool) {
    match e
    case UnexpectedOpen(p) => p < |key| && key[p] == '['
    case UnexpectedClose(p) => p < |key| && key[p] == ']'
    case UnexpectedDot(p) => p < |key| && key[p] == '.'
    case MalformedIndex(t) =>
      t != "" && AllDigits(t) &&
      (DecimalValue(t) > MaxInt64 || (trimZeros && DecimalValue(t) == 0))
    case UnclosedIndex(p) => 0 <= p < |key| && key[p] == '['
  }

  lemma {:induction false} StepKeepsInv(key: string, i: nat, st: Scanner, trimZeros: bool)
    requires i < |key| && Inv(key, i, st)
    ensures Step(key, i, st, trimZeros).Ok? ==> Inv(key, i + 1, Step(key, i, st, trimZeros).value)
    ensures Step(key, i, st, trimZeros).Err? ==> ErrorAt(key, Step(key, i, st, trimZeros).error, trimZeros)
  {
    var r := Step(key, i, st, trimZeros);
    if r.Ok? {
      var s := r.value;
      forall k | 0 <= k < |s.result| ensures SegmentOk(s.result[k]) {
        if k < |st.result| {
          assert SegmentOk(st.result[k]);
        }
      }
    }
  }

  /** Reads `key[i..]` from state `st`. */
  function Scan(key: string, i: nat, st: Scanner, trimZeros: bool): (r: Result<Scanner, ParseError>)
    requires Inv(key, i, st)
    ensures r.Ok? ==> Inv(key, |key|, r.value)
    ensures r.Err? ==> ErrorAt(key, r.error, trimZeros)
    decreases |key| - i
  {
    if i == |key| then Ok(st)
    else
      StepKeepsInv(key, i, st, trimZeros);
      var next :- Step(key, i, st, trimZeros);
      Scan(key, i + 1, next, trimZeros)
  }

  /** After the last character: an open index is an error, pending text is
      a last named segment. */
  function Finish(key: string, st: Scanner): (r: Result<seq<Segment>, ParseError>)
    requires Inv(key, |key|, st)
    ensures r.Ok? <==> !st.inIndex
    ensures r.Ok? ==> WellFormed(r.value) && |st.result| <= |r.value| <= |st.result| + 1
    ensures r.Ok? ==> r.value[..|st.result|] == st.result
    ensures r.Err? ==> r.error == UnclosedIndex(|key| - |st.buf| - 1) && key[r.error.pos] == '['
  {
    if st.inIndex then Err(UnclosedIndex(|key| - |st.buf| - 1))
    else
      var out := Flush(st.result, st.buf);
      assert forall k :: 0 <= k < |st.result| ==> out[k] == st.result[k];
      Ok(out)
  }

  /** The parser, with `trimZeros` choosing how bracketed digits are read. */
  function Parse(key: string, trimZeros: bool): (r: Result<seq<Segment>, ParseError>)
    ensures r.Ok? ==> WellFormed(r.value)
    ensures r.Err? ==> ErrorAt(key, r.error, trimZeros)
  {
    var st :- Scan(key, 0, Start, trimZeros);
    Finish(key, st)
  }

  /** `ParseFormKey` as the source writes it: bracketed digits are read
      after their leading zeros are trimmed, so `[0]` is refused. */
  function ParseFormKeyAsWritten(key: string): (r: Result<seq<Segment>, ParseError>)
    ensures r.Ok? ==> WellFormed(r.value)
    ensures r.Err? ==> ErrorAt(key, r.error, true)
  {
    Parse(key, true)
  }

  /** `ParseFormKey` with bracketed digits read as they stand, so `[0]` is
      index 0. */
  function ParseFormKey(key: string): (r: Result<seq<Segment>, ParseError>)
    ensures r.Ok? ==> WellFormed(r.value)
    ensures r.Err? ==> ErrorAt(key, r.error, false)
  {
    Parse(key, false)
  }

  /** The two readings of bracketed digits lead to different outcomes
      only where the source's reading refuses an index whose value is 0. */
  lemma {:induction false} ScanAgree(key: string, i: nat, st: Scanner)
    requires Inv(key, i, st)
    requires Scan(key, i, st, true) != Scan(key, i, st, false)
    ensures Scan(key, i, st, true).Err? && Scan(key, i, st, true).error.MalformedIndex?
    ensures DecimalValue(Scan(key, i, st, true).error.text) == 0
    decreases |key| - i
  {
    StepKeepsInv(key, i, st, true);
    StepKeepsInv(key, i, st, false);
    var a := Step(key, i, st, true);
    var b := Step(key, i, st, false);
    if a == b && a.Ok? {
      ScanAgree(key, i + 1, a.value);
    }
  }

  lemma ParseAgree(key: string)
    requires ParseFormKeyAsWritten(key) != ParseFormKey(key)
    ensures ParseFormKeyAsWritten(key).Err? && ParseFormKeyAsWritten(key).error.MalformedIndex?
    ensures DecimalValue(ParseFormKeyAsWritten(key).error.text) == 0
  {
    if Scan(key, 0, Start, true) != Scan(key, 0, Start, false) {
      ScanAgree(key, 0, Start);
    }
  }

  // ---------------------------------------------------------------------
  // Rendering a path back into a key

  /** A path the canonical rendering can express: a first plain name, then
      any mix of indices and bracketed names that do not read as digits. */
  predicate Renderable(segs: seq<Segment>) {
    |segs| > 0 && segs[0].Key? && PlainName(segs[0].name) && AllBracketable(segs[1..])
  }

  predicate AllBracketable(segs: seq<Segment>) {
    forall k :: 0 <= k < |segs| ==> Bracketable(segs[k])
  }

  /** No segment is index 0 (when `trimZeros` is set). */
  predicate ZeroFree(segs: seq<Segment>, trimZeros: bool) {
    trimZeros ==> forall k :: 0 <= k < |segs| ==> segs[k] != Idx(0)
  }

  predicate PlainName(s: string) {
    s != "" && '[' !in s && ']' !in s && '.' !in s
  }

  predicate Bracketable(s: Segment) {
    match s
    case Key(name) => name != "" && '[' !in name && ']' !in name && !AllDigits(name)
    case Idx(n) => -1 <= n <= MaxInt64
  }

  function BracketText(s: Segment): string
    requires Bracketable(s)
  {
    match s
    case Key(name) => name
    case Idx(n) => if n == -1 then "" else Itoa(n)
  }

  function RenderTail(segs: seq<Segment>): string
    requires AllBracketable(segs)
  {
    if |segs| == 0 then "" else "[" + BracketText(segs[0]) + "]" + RenderTail(segs[1..])
  }

  /** The key `name[i][j]...` for a path. */
  function Render(segs: seq<Segment>): string
    requires Renderable(segs)
  {
    segs[0].name + RenderTail(segs[1..])
  }

  /** The text inside a rendered bracket closes back into its segment. */
  lemma CloseRendered(seg: Segment, trimZeros: bool)
    requires Bracketable(seg) && (trimZeros ==> seg != Idx(0))
    ensures '[' !in BracketText(seg) && ']' !in BracketText(seg)
    ensures Close(BracketText(seg), trimZeros) == Ok(seg)
  {
    var t := BracketText(seg);
    if seg.Idx? && seg.n >= 0 {
      assert AllDigits(t);
      assert !IsDigit('[') && !IsDigit(']');
      if trimZeros && |t| == 1 {
        assert t[0] != '0';
      }
    }
  }

  /** Characters that are neither brackets nor (outside an index) dots are
      collected as pending text. */
  lemma {:induction false} ScanRun(key: string, i: nat, st: Scanner, s: string, trimZeros: bool)
    requires Inv(key, i, st) && i + |s| <= |key| && key[i..i + |s|] == s
    requires '[' !in s && ']' !in s
    requires !st.inIndex ==> '.' !in s
    ensures Inv(key, i + |s|, st.(buf := st.buf + s))
    ensures Scan(key, i, st, trimZeros) == Scan(key, i + |s|, st.(buf := st.buf + s), trimZeros)
    decreases |s|
  {
    if |s| == 0 {
      assert st.(buf := st.buf + s) == st;
    } else {
      assert key[i] == s[0];
      StepKeepsInv(key, i, st, trimZeros);
      var next := st.(buf := st.buf + [s[0]]);
      assert Step(key, i, st, trimZeros) == Ok(next);
      assert key[i + 1..i + 1 + |s[1..]|] == s[1..];
      ScanRun(key, i + 1, next, s[1..], trimZeros);
      assert next.buf + s[1..] == st.buf + s;
    }
  }

  /** One successful step moves the scan one character on. */
  lemma ScanOne(key: string, i: nat, st: Scanner, next: Scanner, trimZeros: bool)
    requires i < |key| && Inv(key, i, st)
    requires Step(key, i, st, trimZeros) == Ok(next)
    ensures Inv(key, i + 1, next)
    ensures Scan(key, i, st, trimZeros) == Scan(key, i + 1, next, trimZeros)
  {
    StepKeepsInv(key, i, st, trimZeros);
  }

  lemma BracketChars(key: string, i: nat, t: string)
    requires i + |t| + 2 <= |key| && key[i..i + |t| + 2] == "[" + t + "]"
    ensures key[i] == '[' && key[i + 1..i + 1 + |t|] == t && key[i + 1 + |t|] == ']'
  {
    var b := "[" + t + "]";
    assert key[i] == key[i..i + |b|][0];
    forall k | 0 <= k < |t| ensures key[i + 1 + k] == t[k] {
      assert key[i..i + |b|][1 + k] == b[1 + k];
    }
    assert key[i + 1 + |t|] == key[i..i + |b|][|b| - 1];
  }

  /** `[t]` read from a state outside an index: pending text is flushed and
      the bracket closes into the segment `t` stands for. */
  lemma {:induction false} ScanBracket(key: string, i: nat, st: Scanner, t: string, seg: Segment, trimZeros: bool)
    requires '[' !in t && ']' !in t && Close(t, trimZeros) == Ok(seg)
    requires Inv(key, i, st) && !st.inIndex
    requires i + |t| + 2 <= |key| && key[i..i + |t| + 2] == "[" + t + "]"
    ensures Inv(key, i + |t| + 2, Scanner(Flush(st.result, st.buf) + [seg], "", false))
    ensures Scan(key, i, st, trimZeros) == Scan(key, i + |t| + 2, Scanner(Flush(st.result, st.buf) + [seg], "", false), trimZeros)
  {
    BracketChars(key, i, t);
    var open := Scanner(Flush(st.result, st.buf), "", true);
    ScanOne(key, i, st, open, trimZeros);
    ScanRun(key, i + 1, open, t, trimZeros);
    var full := Scanner(open.result, t, true);
    assert open.(buf := open.buf + t) == full;
    ScanOne(key, i + 1 + |t|, full, Scanner(open.result + [seg], "", false), trimZeros);
  }

  /** `ScanBracket` with the position and state after the bracket named. */
  lemma ScanBracketTo(key: string, i: nat, st: Scanner, t: string, seg: Segment, trimZeros: bool, j: nat, next: Scanner)
    requires '[' !in t && ']' !in t && Close(t, trimZeros) == Ok(seg)
    requires Inv(key, i, st) && !st.inIndex
    requires j == i + |t| + 2 && j <= |key| && key[i..j] == "[" + t + "]"
    requires next == Scanner(Flush(st.result, st.buf) + [seg], "", false)
    ensures Inv(key, j, next) && Scan(key, i, st, trimZeros) == Scan(key, j, next, trimZeros)
  {
    ScanBracket(key, i, st, t, seg, trimZeros);
  }

  /** A text that starts with `a` at position `i` is `a` followed by the rest. */
  lemma SliceSplit(key: string, i: nat, a: string, rest: string)
    requires i + |a| + |rest| <= |key| && key[i..i + |a| + |rest|] == a + rest
    ensures key[i..i + |a|] == a && key[i + |a|..i + |a| + |rest|] == rest
  {
    assert key[i..i + |a|] == key[i..i + |a| + |rest|][..|a|];
    assert key[i + |a|..i + |a| + |rest|] == key[i..i + |a| + |rest|][|a|..];
  }

  lemma RenderTailCons(segs: seq<Segment>)
    requires AllBracketable(segs) && |segs| > 0
    ensures Bracketable(segs[0]) && AllBracketable(segs[1..])
    ensures RenderTail(segs) == "[" + BracketText(segs[0]) + "]" + RenderTail(segs[1..])
  {
    assert forall k :: 0 <= k < |segs[1..]| ==> segs[1..][k] == segs[k + 1];
  }

  lemma ZeroFreeTail(segs: seq<Segment>, trimZeros: bool)
    requires ZeroFree(segs, trimZeros) && |segs| > 0
    ensures trimZeros ==> segs[0] != Idx(0)
    ensures ZeroFree(segs[1..], trimZeros)
  {
    assert forall k :: 0 <= k < |segs[1..]| ==> segs[1..][k] == segs[k + 1];
  }

  /** A bracketed text followed by more text, found in `key` at `i`. */
  lemma SliceBracket(key: string, i: nat, t: string, rest: string)
    requires i + |"[" + t + "]" + rest| <= |key| && key[i..i + |"[" + t + "]" + rest|] == "[" + t + "]" + rest
    ensures |"[" + t + "]" + rest| == |t| + 2 + |rest|
    ensures key[i..i + |t| + 2] == "[" + t + "]"
    ensures key[i + |t| + 2..i + |t| + 2 + |rest|] == rest
  {
    SliceSplit(key, i, "[" + t + "]", rest);
  }

  /** A run of bracketed segments; pending text before the first bracket
      becomes a named segment of its own. */
  lemma {:induction false} ScanTail(key: string, i: nat, st: Scanner, segs: seq<Segment>, trimZeros: bool)
    requires AllBracketable(segs) && ZeroFree(segs, trimZeros)
    requires Inv(key, i, st) && !st.inIndex && (|segs| > 0 || st.buf == "")
    requires i + |RenderTail(segs)| <= |key| && key[i..i + |RenderTail(segs)|] == RenderTail(segs)
    ensures Inv(key, i + |RenderTail(segs)|, Scanner(Flush(st.result, st.buf) + segs, "", false))
    ensures Scan(key, i, st, trimZeros) == Scan(key, i + |RenderTail(segs)|, Scanner(Flush(st.result, st.buf) + segs, "", false), trimZeros)
    decreases |segs|
  {
    if |segs| == 0 {
      assert RenderTail(segs) == "";
      assert Flush(st.result, st.buf) + segs == st.result;
      assert st == Scanner(Flush(st.result, st.buf) + segs, "", false);
    } else {
      var st' := Scanner(Flush(st.result, st.buf) + [segs[0]], "", false);
      var t := BracketText(segs[0]);
      var j, rest := i + |t| + 2, segs[1..];
      var end, fin := i + |RenderTail(segs)|, Scanner(Flush(st.result, st.buf) + segs, "", false);
      assert AllBracketable(rest) && Bracketable(segs[0]) && RenderTail(segs) == "[" + t + "]" + RenderTail(rest) by {
        RenderTailCons(segs);
      }
      assert ZeroFree(rest, trimZeros) && (trimZeros ==> segs[0] != Idx(0)) by {
        ZeroFreeTail(segs, trimZeros);
      }
      assert j + |RenderTail(rest)| == end && end <= |key| && key[i..j] == "[" + t + "]" && key[j..end] == RenderTail(rest) by {
        SliceBracket(key, i, t, RenderTail(rest));
      }
      assert '[' !in t && ']' !in t && Close(t, trimZeros) == Ok(segs[0]) by {
        CloseRendered(segs[0], trimZeros);
      }
      assert Inv(key, j, st') && Scan(key, i, st, trimZeros) == Scan(key, j, st', trimZeros) by {
        ScanBracketTo(key, i, st, t, segs[0], trimZeros, j, st');
      }
      assert Scanner(Flush(st'.result, st'.buf) + rest, "", false) == fin by {
        ScanTailCons(st, st', segs);
      }
      assert Inv(key, end, fin) && Scan(key, j, st', trimZeros) == Scan(key, end, fin, trimZeros) by {
        ScanTail(key, j, st', rest, trimZeros);
      }
    }
  }

  /** The rest of a run keeps the first segment in front of it. */
  lemma ScanTailCons(st: Scanner, st': Scanner, segs: seq<Segment>)
    requires |segs| > 0 && st' == Scanner(Flush(st.result, st.buf) + [segs[0]], "", false)
    ensures Flush(st'.result, st'.buf) + segs[1..] == Flush(st.result, st.buf) + segs
  {
    assert segs == [segs[0]] + segs[1..];
  }

  /** The leading name of a rendered path, read from the start of `key`. */
  lemma ScanLeadingName(key: string, segs: seq<Segment>, trimZeros: bool)
    requires Renderable(segs)
    requires |Render(segs)| <= |key| && key[..|Render(segs)|] == Render(segs)
    ensures var name := segs[0].name;
      var rest := RenderTail(segs[1..]);
      Inv(key, |name|, Scanner([], name, false)) &&
      Scan(key, 0, Start, trimZeros) == Scan(key, |name|, Scanner([], name, false), trimZeros) &&
      |name| + |rest| <= |key| && key[|name|..|name| + |rest|] == rest
  {
    var name := segs[0].name;
    var rest := RenderTail(segs[1..]);
    assert key[0..|name| + |rest|] == key[..|Render(segs)|];
    SliceSplit(key, 0, name, rest);
    ScanRun(key, 0, Start, name, trimZeros);
    assert Start.(buf := Start.buf + name) == Scanner([], name, false);
  }

  /** A rendered path with at least one bracket, read from the start of
      `key`. */
  lemma ScanRendered(key: string, segs: seq<Segment>, trimZeros: bool)
    requires Renderable(segs) && |segs| > 1 && ZeroFree(segs[1..], trimZeros)
    requires |Render(segs)| <= |key| && key[..|Render(segs)|] == Render(segs)
    ensures Inv(key, |Render(segs)|, Scanner(segs, "", false))
    ensures Scan(key, 0, Start, trimZeros) == Scan(key, |Render(segs)|, Scanner(segs, "", false), trimZeros)
  {
    ScanLeadingName(key, segs, trimZeros);
    var name := segs[0].name;
    ScanTail(key, |name|, Scanner([], name, false), segs[1..], trimZeros);
    assert Flush([], name) + segs[1..] == segs;
  }

  /** Parsing the rendering of a path gives the path back. */
  lemma RenderParse(segs: seq<Segment>)
    requires Renderable(segs)
    ensures ParseFormKey(Render(segs)) == Ok(segs)
  {
    RenderParseWith(segs, false);
  }

  /** The source's parser gives the path back when no index is 0. */
  lemma RenderParseAsWritten(segs: seq<Segment>)
    requires Renderable(segs) && Idx(0) !in segs
    ensures ParseFormKeyAsWritten(Render(segs)) == Ok(segs)
  {
    assert ZeroFree(segs[1..], true) by {
      forall k | 0 <= k < |segs[1..]| ensures segs[1..][k] != Idx(0) {
        assert segs[1..][k] == segs[k + 1];
      }
    }
    RenderParseWith(segs, true);
  }

  lemma RenderParseWith(segs: seq<Segment>, trimZeros: bool)
    requires Renderable(segs) && ZeroFree(segs[1..], trimZeros)
    ensures Parse(Render(segs), trimZeros) == Ok(segs)
  {
    var key := Render(segs);
    assert key[..|key|] == key;
    if |segs| == 1 {
      ScanLeadingName(key, segs, trimZeros);
      assert Flush([], segs[0].name) == segs;
    } else {
      ScanRendered(key, segs, trimZeros);
    }
  }

  /** A dot right after a closing bracket is skipped. */
  lemma DotAfterBracket(key: string, i: nat, st: Scanner, trimZeros: bool)
    requires 0 < i < |key| && key[i] == '.' && key[i - 1] == ']'
    requires Inv(key, i, st) && !st.inIndex
    ensures Inv(key, i + 1, st) && Scan(key, i, st, trimZeros) == Scan(key, i + 1, st, trimZeros)
  {
    ScanOne(key, i, st, st, trimZeros);
  }

  /** A name written after a closing bracket, with or without a dot in
      front of it, is a further named segment. */
  lemma NameAfterBracket(segs: seq<Segment>, name: string, dotted: bool, trimZeros: bool)
    requires Renderable(segs) && |segs| > 1 && ZeroFree(segs[1..], trimZeros)
    requires PlainName(name)
    ensures Parse(Render(segs) + (if dotted then "." else "") + name, trimZeros) == Ok(segs + [Key(name)])
  {
    var r := Render(segs);
    var dot := if dotted then "." else "";
    var key := r + dot + name;
    var st := Scanner(segs, "", false);
    var n := |r| + |dot|;
    assert Inv(key, |r|, st) && Scan(key, 0, Start, trimZeros) == Scan(key, |r|, st, trimZeros) by {
      assert key[..|r|] == r;
      ScanRendered(key, segs, trimZeros);
    }
    assert Inv(key, n, st) && Scan(key, |r|, st, trimZeros) == Scan(key, n, st, trimZeros) by {
      if dotted {
        RenderEndsWithBracket(segs);
        assert key[|r| - 1] == r[|r| - 1];
        DotAfterBracket(key, |r|, st, trimZeros);
      }
    }
    var last := Scanner(segs, name, false);
    assert Inv(key, |key|, last) && Scan(key, n, st, trimZeros) == Scan(key, |key|, last, trimZeros) by {
      assert key[n..n + |name|] == name;
      ScanRun(key, n, st, name, trimZeros);
      assert st.(buf := st.buf + name) == last;
    }
    assert Finish(key, last) == Ok(segs + [Key(name)]);
  }

  lemma {:induction false} RenderTailEnds(segs: seq<Segment>)
    requires AllBracketable(segs) && |segs| > 0
    ensures |RenderTail(segs)| > 0 && RenderTail(segs)[|RenderTail(segs)| - 1] == ']'
  {
    var rest := RenderTail(segs[1..]);
    assert forall k :: 0 <= k < |segs[1..]| ==> segs[1..][k] == segs[k + 1];
    if |segs| > 1 {
      RenderTailEnds(segs[1..]);
    }
  }

  lemma RenderEndsWithBracket(segs: seq<Segment>)
    requires Renderable(segs) && |segs| > 1
    ensures Render(segs)[|Render(segs)| - 1] == ']'
  {
    RenderTailEnds(segs[1..]);
  }

  /** The discrepancy: the source refuses the first index of a list. */
  lemma ZeroIndexRefused()
    ensures ParseFormKeyAsWritten("a[0]") == Err(MalformedIndex("0"))
    ensures ParseFormKey("a[0]") == Ok([Key("a"), Idx(0)])
  {
    RenderParse([Key("a"), Idx(0)]);
    assert Render([Key("a"), Idx(0)]) == "a[0]";
  }

  // The cases of the source's own table of examples.

  lemma ExampleDotName(key: string)
    requires key == "a[1][x].v"
    ensures ParseFormKeyAsWritten(key) == Ok([Key("a"), Idx(1), Key("x"), Key("v")])
  {
    var segs := [Key("a"), Idx(1), Key("x")];
    assert !AllDigits("x") by { assert !IsDigit("x"[0]); }
    assert Render(segs) == "a[1][x]";
    assert Render(segs) + (if true then "." else "") + "v" == key;
    NameAfterBracket(segs, "v", true, true);
    assert segs + [Key("v")] == [Key("a"), Idx(1), Key("x"), Key("v")];
  }

  lemma ExampleNameAfterIndex(key: string)
    requires key == "a[1][x]v"
    ensures ParseFormKeyAsWritten(key) == Ok([Key("a"), Idx(1), Key("x"), Key("v")])
  {
    var segs := [Key("a"), Idx(1), Key("x")];
    assert !AllDigits("x") by { assert !IsDigit("x"[0]); }
    assert Render(segs) == "a[1][x]";
    assert Render(segs) + (if false then "." else "") + "v" == key;
    NameAfterBracket(segs, "v", false, true);
    assert segs + [Key("v")] == [Key("a"), Idx(1), Key("x"), Key("v")];
  }

  /** The first two segments of the leading-zeros example. */
  lemma LeadingZerosHead(key: string, s6: Scanner)
    requires key == "a[001][x]v"
    requires s6 == Scanner([Key("a"), Idx(1)], "", false)
    ensures Inv(key, 6, s6) && Scan(key, 0, Start, true) == Scan(key, 6, s6, true)
  {
    var s1 := Scanner([], "a", false);
    assert Inv(key, 1, s1) && Scan(key, 0, Start, true) == Scan(key, 1, s1, true) by {
      assert key[0..1] == "a";
      ScanRun(key, 0, Start, "a", true);
      assert Start.(buf := Start.buf + "a") == s1;
    }
    LeadingZerosIndex(key, s1, s6);
  }

  lemma LeadingZerosIndex(key: string, s1: Scanner, s6: Scanner)
    requires key == "a[001][x]v"
    requires s1 == Scanner([], "a", false)
    requires s6 == Scanner([Key("a"), Idx(1)], "", false)
    requires Inv(key, 1, s1)
    ensures Inv(key, 6, s6) && Scan(key, 1, s1, true) == Scan(key, 6, s6, true)
  {
    LeadingZerosText(key);
    ScanBracket(key, 1, s1, "001", Idx(1), true);
    assert Flush([], "a") + [Idx(1)] == s6.result;
  }

  lemma LeadingZerosText(key: string)
    requires key == "a[001][x]v"
    ensures key[1..6] == "[" + "001" + "]"
    ensures AllDigits("001") && DecimalValue("001") == 1
  {
    assert "001"[..2] == "00" && "00"[..1] == "0";
  }

  lemma ExampleLeadingZeros(key: string)
    requires key == "a[001][x]v"
    ensures ParseFormKeyAsWritten(key) == Ok([Key("a"), Idx(1), Key("x"), Key("v")])
  {
    var s6 := Scanner([Key("a"), Idx(1)], "", false);
    var s9 := Scanner([Key("a"), Idx(1), Key("x")], "", false);
    var s10 := Scanner([Key("a"), Idx(1), Key("x")], "v", false);
    LeadingZerosHead(key, s6);
    assert Inv(key, 9, s9) && Scan(key, 6, s6, true) == Scan(key, 9, s9, true) by {
      assert key[6..9] == "[" + "x" + "]";
      assert !AllDigits("x") by { assert !IsDigit("x"[0]); }
      ScanBracket(key, 6, s6, "x", Key("x"), true);
      assert Flush(s6.result, s6.buf) + [Key("x")] == s9.result;
    }
    assert Inv(key, 10, s10) && Scan(key, 9, s9, true) == Scan(key, 10, s10, true) by {
      assert key[9..10] == "v";
      ScanRun(key, 9, s9, "v", true);
      assert s9.(buf := s9.buf + "v") == s10;
    }
    assert |key| == 10;
    assert Scan(key, 10, s10, true) == Ok(s10);
    assert Flush(s10.result, s10.buf) == [Key("a"), Idx(1), Key("x"), Key("v")];
  }

  lemma ExampleNestedOpen()
    ensures ParseFormKeyAsWritten("a[1[x]v") == Err(UnexpectedOpen(3))
  {
  }

  lemma ExampleUnclosed(key: string)
    requires key == "a[1][x.v"
    ensures ParseFormKeyAsWritten(key) == Err(UnclosedIndex(4))
  {
    var segs := [Key("a"), Idx(1)];
    var s3 := Scanner(segs, "", false);
    var s5 := Scanner(segs, "", true);
    var s8 := Scanner(segs, "x.v", true);
    assert Inv(key, 4, s3) && Scan(key, 0, Start, true) == Scan(key, 4, s3, true) by {
      assert Render(segs) == "a[1]";
      assert key[..4] == "a[1]";
      ScanRendered(key, segs, true);
    }
    assert Inv(key, 5, s5) && Scan(key, 4, s3, true) == Scan(key, 5, s5, true) by {
      ScanOne(key, 4, s3, s5, true);
    }
    assert Inv(key, 8, s8) && Scan(key, 5, s5, true) == Scan(key, 8, s8, true) by {
      assert key[5..8] == "x.v";
      ScanRun(key, 5, s5, "x.v", true);
      assert s5.(buf := s5.buf + "x.v") == s8;
    }
  }

  lemma ExampleStrayClose()
    ensures ParseFormKeyAsWritten("a1][x.v") == Err(UnexpectedClose(2))
  {
  }

  lemma ExampleDottedIndex(key: string)
    requires key == "a[1][x.v]"
    ensures ParseFormKeyAsWritten(key) == Ok([Key("a"), Idx(1), Key("x.v")])
  {
    var segs := [Key("a"), Idx(1), Key("x.v")];
    assert !AllDigits("x.v") by { assert !IsDigit("x.v"[0]); }
    assert Render(segs) == "a[1][x.v]";
    RenderParseAsWritten(segs);
  }

  lemma ExampleTwoIndices(key: string)
    requires key == "a[1][2][x.v]"
    ensures ParseFormKeyAsWritten(key) == Ok([Key("a"), Idx(1), Idx(2), Key("x.v")])
  {
    var segs := [Key("a"), Idx(1), Idx(2), Key("x.v")];
    assert !AllDigits("x.v") by { assert !IsDigit("x.v"[0]); }
    assert Render(segs) == "a[1][2][x.v]";
    RenderParseAsWritten(segs);
  }

  lemma ExampleAppendIndex(key: string)
    requires key == "a[1][][x.v]"
    ensures ParseFormKeyAsWritten(key) == Ok([Key("a"), Idx(1), Idx(-1), Key("x.v")])
  {
    var segs := [Key("a"), Idx(1), Idx(-1), Key("x.v")];
    assert !AllDigits("x.v") by { assert !IsDigit("x.v"[0]); }
    assert Render(segs) == "a[1][][x.v]";
    RenderParseAsWritten(segs);
  }

  lemma ExampleAppendFirst(key: string)
    requires key == "a[][x.v]"
    ensures ParseFormKeyAsWritten(key) == Ok([Key("a"), Idx(-1), Key("x.v")])
  {
    var segs := [Key("a"), Idx(-1), Key("x.v")];
    assert !AllDigits("x.v") by { assert !IsDigit("x.v"[0]); }
    assert Render(segs) == "a[][x.v]";
    RenderParseAsWritten(segs);
  }
}
