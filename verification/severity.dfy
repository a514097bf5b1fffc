/** `Severity`: the ordered log levels, their lower-case names and the
    case-insensitive parser. */
module Severity {
  import Text

  type Level = int

  const Default: Level := 0
  const Debug: Level := 1
  const Info: Level := 2
  const Notice: Level := 3
  const Warning: Level := 4
  const Error: Level := 5
  const Critical: Level := 6
  const Alert: Level := 7
  const Emergency: Level := 8

  /** The name table, indexed by level. */
  const Names: seq<string> :=
    ["default", "debug", "info", "notice", "warning", "error", "critical", "alert", "emergency"]

  predicate Named(v: Level) {
    0 <= v < |Names|
  }

  /** `Severity.String`: the level's name, or its decimal digits when the
      level has no name. */
  function String(v: Level): (r: string)
    ensures Named(v) ==> r == Names[v]
    ensures !Named(v) ==> r == Text.Itoa(v)
  {
    if Named(v) then Names[v] else Text.Itoa(v)
  }

  /** The first level at or after `from` whose name is `sl`. */
  function Find(sl: string, from: nat): (r: Level)
    requires from <= |Names|
    ensures r == Default || (from <= r < |Names| && Names[r] == sl)
    ensures (exists v :: from <= v < |Names| && Names[v] == sl) ==> Names[r] == sl
    decreases |Names| - from
  {
    if from == |Names| then Default
    else if Text.ToLower(Names[from]) == sl then
      LowerName(from);
      from
    else
      LowerName(from);
      Find(sl, from + 1)
  }

  /** `ParseSeverity` (and the `Parse` method, which stores the same
      answer): the level whose name equals `s` ignoring case, `Default`
      when none does. The source ranges over a map, but the names are
      distinct, so the order of the scan does not matter. */
  function ParseSeverity(s: string): (r: Level)
    ensures Named(r)
    ensures forall v :: 0 <= v < |Names| && Names[v] == Text.ToLower(s) ==> r == v
    ensures (forall v :: 0 <= v < |Names| ==> Names[v] != Text.ToLower(s)) ==> r == Default
  {
    var r := Find(Text.ToLower(s), 0);
    DistinctNames();
    r
  }

  /** `SignToSeverity`: zero is a notice, a negative sign an error and a
      positive one information; only negative signs rank above notice. */
  function SignToSeverity(v: int): (r: Level)
    ensures Named(r)
    ensures r == Notice <==> v == 0
    ensures r > Notice <==> v < 0
  {
    if v == 0 then Notice else if v < 0 then Error else Info
  }

  predicate NoUpper(s: string) {
    forall i :: 0 <= i < |s| ==> !Text.IsUpper(s[i])
  }

  predicate AllLower(s: string) {
    forall i :: 0 <= i < |s| ==> Text.IsLower(s[i])
  }

  lemma NamesLower()
    ensures forall v :: 0 <= v < |Names| ==> AllLower(Names[v]) && |Names[v]| > 0
  {
  }

  lemma LowerName(v: nat)
    requires v < |Names|
    ensures Text.ToLower(Names[v]) == Names[v]
  {
    NamesLower();
  }

  lemma DistinctNames()
    ensures forall v, w :: 0 <= v < w < |Names| ==> Names[v] != Names[w]
  {
    forall v, w | 0 <= v < w < |Names|
      ensures Names[v] != Names[w]
    {
      assert Names[v][0] != Names[w][0] || |Names[v]| != |Names[w]| || Names[v][1] != Names[w][1];
    }
  }

  /** Every named level parses back from its name. */
  lemma ParseString(v: Level)
    requires Named(v)
    ensures ParseSeverity(String(v)) == v
  {
    LowerName(v);
  }

  /** Case does not matter: the upper-case name parses to the same
      level. */
  lemma ParseUpper(v: Level)
    requires Named(v)
    ensures ParseSeverity(Text.ToUpper(String(v))) == v
  {
    NamesLower();
    var n := Names[v];
    assert Text.ToLower(Text.ToUpper(n)) == n by {
      forall i | 0 <= i < |n|
        ensures Text.ToLower(Text.ToUpper(n))[i] == n[i]
      {
        assert Text.IsLower(n[i]);
      }
    }
  }

  /** A level without a name prints as digits, which never parse: they
      come back as `Default`. */
  lemma ParseUnnamed(v: Level)
    requires !Named(v)
    ensures ParseSeverity(String(v)) == Default
  {
    var s := Text.Itoa(v);
    NamesLower();
    assert !Text.IsUpper(s[0]) && !Text.IsLower(s[0]) by {
      if v < 0 {
        assert s[0] == '-';
      } else {
        assert Text.IsDigit(s[0]);
      }
    }
    var sl := Text.ToLower(s);
    assert sl[0] == s[0];
    forall w | 0 <= w < |Names|
      ensures Names[w] != sl
    {
      assert Text.IsLower(Names[w][0]);
    }
  }

  /** The levels are ordered by severity, and the names follow that
      order. */
  lemma Ordered()
    ensures Default < Debug < Info < Notice < Warning < Error < Critical < Alert < Emergency
    ensures forall v :: Default <= v <= Emergency <==> Named(v)
  {
  }
}
