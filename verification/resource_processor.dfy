/** `resource/processor.go`: the processor's flag set, the skip-left rule
    and the control flow of `Commit` and `Start`. Loading, setting and
    validating values are left to inputs: what `Initialize` returns, the
    errors the resource's validators report, the errors `decode` collects
    and what each registered processor function returns. */
module Processor {
  import opened Wrappers
  import opened CoreErrors

  /** `ProcessorFlag` is a `uint16` used as a bit set; it is modelled as
      the set of positions of its one bits, so `|` is union, `&^` is
      difference, `^` is symmetric difference and `b&f != 0` is a
      non-empty intersection. */
  type Flag = s: set<nat> | forall i :: i in s ==> i < 16

  /** `1 << i`. */
  function Bit(i: nat): (r: Flag)
    requires i < 16
    ensures i in r && |r| == 1
  {
    {i}
  }

  const ProcNone: Flag := Bit(0)
  const ProcSkipLeft: Flag := Bit(1)
  const ProcSkipRequireCheck: Flag := Bit(2)
  const ProcSkipProcessors: Flag := Bit(3)
  const ProcSkipValidations: Flag := Bit(4)
  const ProcSkipPermissions: Flag := Bit(5)
  const ProcSkipLoad: Flag := Bit(6)
  const ProcSkipChildLoad: Flag := Bit(7)
  const ProcMerge: Flag := Bit(8)

  /** The constants in declaration order. */
  const AllFlags: seq<Flag> := [ProcNone, ProcSkipLeft, ProcSkipRequireCheck, ProcSkipProcessors,
    ProcSkipValidations, ProcSkipPermissions, ProcSkipLoad, ProcSkipChildLoad, ProcMerge]

  /** `ErrProcessorSkipLeft`. */
  const SkipLeftError: Error := Sentinel("resource: skip left")

  predicate Has(b: Flag, flag: Flag) {
    b * flag != {}
  }

  function Set(b: Flag, flag: Flag): (r: Flag)
    ensures flag != {} ==> Has(r, flag)
    ensures forall i :: i in r <==> i in b || i in flag
  {
    b + flag
  }

  function Clear(b: Flag, flag: Flag): (r: Flag)
    ensures !Has(r, flag)
    ensures forall i :: i in r <==> i in b && i !in flag
  {
    b - flag
  }

  function Toggle(b: Flag, flag: Flag): (r: Flag)
    ensures forall i :: i !in flag ==> (i in r <==> i in b)
    ensures forall i :: i in flag ==> (i in r <==> i !in b)
  {
    (b - flag) + (flag - b)
  }

  /** The constants follow `1 << iota`: one bit each, at positions 0 to 8,
      so no two share a bit. */
  lemma FlagsAreBits()
    ensures forall i :: 0 <= i < |AllFlags| ==> AllFlags[i] == Bit(i)
    ensures forall i, j :: 0 <= i < j < |AllFlags| ==> !Has(AllFlags[i], AllFlags[j])
  {
  }

  /** Toggling twice restores the set. */
  lemma ToggleTwice(b: Flag, flag: Flag)
    ensures Toggle(Toggle(b, flag), flag) == b
  {
  }

  /** Clearing after setting, or setting after clearing, is the same as
      doing only the second. */
  lemma SetClear(b: Flag, flag: Flag)
    ensures Clear(Set(b, flag), flag) == Clear(b, flag)
    ensures Set(Clear(b, flag), flag) == Set(b, flag)
  {
  }

  /** The four flags `Internal` adds. */
  const InternalMask: Flag := ProcSkipRequireCheck + ProcSkipValidations + ProcSkipProcessors + ProcSkipPermissions

  /** `Internal`: skip requirement checks, validations, processors and
      permission checks, keeping every other bit. */
  function Internal(b: Flag): (r: Flag)
    ensures Has(r, ProcSkipRequireCheck) && Has(r, ProcSkipValidations)
    ensures Has(r, ProcSkipProcessors) && Has(r, ProcSkipPermissions)
    ensures forall i :: i !in InternalMask ==> (i in r <==> i in b)
  {
    Set(b, InternalMask)
  }

  /** `checkSkipLeft`: whether the remaining work is to be skipped, and the
      flags afterwards. */
  function CheckSkipLeft(b: Flag, errs: seq<Error>): (r: (bool, Flag))
    ensures r.0 <==> Has(b, ProcSkipLeft) || SkipLeftError in errs
    ensures r.0 <==> Has(r.1, ProcSkipLeft)
    ensures Clear(r.1, ProcSkipLeft) == Clear(b, ProcSkipLeft)
    ensures !r.0 ==> r.1 == b
  {
    if Has(b, ProcSkipLeft) then (true, b)
    else if SkipLeftError in errs then (true, Set(b, ProcSkipLeft))
    else (false, b)
  }

  /** Once set, skip-left sticks: every later check answers true and keeps
      the flags. */
  lemma SkipLeftSticks(b: Flag, errs: seq<Error>, later: seq<Error>)
    ensures var (skip, b1) := CheckSkipLeft(b, errs);
            skip ==> CheckSkipLeft(b1, later) == (true, b1)
  {
  }

  /** The processor results up to, not including, the first
      `ErrProcessorSkipLeft`. */
  function UntilSkip(results: seq<Option<Error>>): (r: seq<Option<Error>>)
    ensures |r| <= |results| && r == results[..|r|]
    ensures Some(SkipLeftError) !in r
    ensures |r| < |results| ==> results[|r|] == Some(SkipLeftError)
  {
    if |results| == 0 then []
    else if results[0] == Some(SkipLeftError) then []
    else [results[0]] + UntilSkip(results[1..])
  }

  /** The errors as an `error` value: nil when there are none. */
  function AsError(errs: seq<Error>): (r: Option<Error>)
    ensures r.None? <==> !HasError(errs)
  {
    if HasError(errs) then Some(Group(errs)) else None
  }

  /** What `Commit` returns and the flags it leaves, given what `decode`
      collected and what each processor returns. */
  function CommitOutcome(b: Flag, decoded: seq<Option<Error>>, results: seq<Option<Error>>): (r: (Option<Error>, Flag))
    ensures Has(b, ProcSkipLeft) || SkipLeftError in Expand(decoded) ==> r.0.None? && Has(r.1, ProcSkipLeft)
    ensures !Has(b, ProcSkipLeft) && SkipLeftError !in Expand(decoded) && HasError(Expand(decoded)) ==>
              r == (Some(Group(Expand(decoded))), b)
    ensures !Has(b, ProcSkipLeft) && !HasError(Expand(decoded)) && Has(b, ProcSkipProcessors) ==> r == (None, b)
  {
    var errs := Expand(decoded);
    var (skip, b1) := CheckSkipLeft(b, errs);
    if skip then (None, b1)
    else if HasError(errs) then (Some(Group(errs)), b1)
    else if Has(b1, ProcSkipProcessors) then (None, b1)
    else
      var run := UntilSkip(results);
      (AsError(Expand(run)), if |run| < |results| then Set(b1, ProcSkipLeft) else b1)
  }

  /** `Commit`: the processors run in order; the first that answers
      `ErrProcessorSkipLeft` ends the loop, and the other errors are
      collected. */
  method Commit(b: Flag, decoded: seq<Option<Error>>, results: seq<Option<Error>>) returns (err: Option<Error>, flags: Flag)
    ensures (err, flags) == CommitOutcome(b, decoded, results)
  {
    var errs, ret := AddError([], decoded);
    assert errs == Expand(decoded);
    var check := CheckSkipLeft(b, errs);
    flags := check.1;
    if check.0 {
      return None, flags;
    }
    if HasError(errs) {
      return Some(Group(errs)), flags;
    }
    if Has(flags, ProcSkipProcessors) {
      return None, flags;
    }
    var stopped;
    errs, stopped := RunProcessors(flags, results);
    if stopped {
      flags := Set(flags, ProcSkipLeft);
    }
    err := AsError(errs);
  }

  /** The processor loop of `Commit`, entered with skip-left unset: the
      errors collected and whether a skip-left answer ended it. */
  method RunProcessors(b: Flag, results: seq<Option<Error>>) returns (errs: seq<Error>, stopped: bool)
    requires !Has(b, ProcSkipLeft)
    ensures errs == Expand(UntilSkip(results))
    ensures stopped <==> |UntilSkip(results)| < |results|
  {
    errs := [];
    stopped := false;
    var i := 0;
    while i < |results|
      invariant 0 <= i <= |results|
      invariant i <= |UntilSkip(results)|
      invariant results[..i] == UntilSkip(results)[..i]
      invariant errs == Expand(results[..i])
    {
      if results[i].Some? {
        var check := CheckSkipLeft(b, [results[i].value]);
        if check.0 {
          assert results[i] == Some(SkipLeftError);
          UntilSkipStops(results, i);
          stopped := true;
          return;
        }
      }
      ExpandStep(results, i);
      UntilSkipContinues(results, i);
      errs := errs + Contribution(results[i]);
      i := i + 1;
    }
    assert results[..i] == results;
  }

  lemma ExpandStep(results: seq<Option<Error>>, i: nat)
    requires i < |results|
    ensures Expand(results[..i + 1]) == Expand(results[..i]) + Contribution(results[i])
  {
    assert results[..i + 1] == results[..i] + [results[i]];
    ExpandAppend(results[..i], [results[i]]);
    assert [results[i]][1..] == [];
  }

  lemma UntilSkipStops(results: seq<Option<Error>>, i: nat)
    requires i < |results| && results[i] == Some(SkipLeftError)
    requires i <= |UntilSkip(results)| && results[..i] == UntilSkip(results)[..i]
    ensures UntilSkip(results) == results[..i]
  {
  }

  lemma UntilSkipContinues(results: seq<Option<Error>>, i: nat)
    requires i < |results| && results[i] != Some(SkipLeftError)
    requires i <= |UntilSkip(results)| && results[..i] == UntilSkip(results)[..i]
    ensures results[..i + 1] == UntilSkip(results)[..i + 1] && i + 1 <= |UntilSkip(results)|
  {
  }

  /** What `Validate` returns: nothing when skipping left or validations;
      otherwise every reported error up to and including the first
      `ErrProcessorSkipLeft`, whose report stops the validators. */
  function Validate(b: Flag, reported: seq<Error>): (r: (Option<Error>, Flag))
    ensures Has(b, ProcSkipLeft) || Has(b, ProcSkipValidations) ==> r == (None, b)
    ensures Clear(r.1, ProcSkipLeft) == Clear(b, ProcSkipLeft)
  {
    if Has(b, ProcSkipLeft) || Has(b, ProcSkipValidations) then (None, b)
    else
      var run := UntilSkip(Somes(reported));
      var seen := if |run| < |reported| then run + [Some(SkipLeftError)] else run;
      (AsError(Expand(seen)), if |run| < |reported| then Set(b, ProcSkipLeft) else b)
  }

  function Somes(errs: seq<Error>): (r: seq<Option<Error>>)
    ensures |r| == |errs|
    ensures forall i :: 0 <= i < |r| ==> r[i] == Some(errs[i])
  {
    seq(|errs|, i requires 0 <= i < |errs| => Some(errs[i]))
  }

  /** A validator reporting `ErrProcessorSkipLeft` makes `Validate` fail
      with that error: it is collected before the flag is checked. */
  lemma ValidateReportsSkipLeft(b: Flag)
    requires !Has(b, ProcSkipLeft) && !Has(b, ProcSkipValidations)
    ensures Validate(b, [SkipLeftError, Message("later")]) == (Some(Group([SkipLeftError])), Set(b, ProcSkipLeft))
  {
    var s := Somes([SkipLeftError, Message("later")]);
    assert s[0] == Some(SkipLeftError);
    assert UntilSkip(s) == [];
    assert [] + [Some(SkipLeftError)] == [Some(SkipLeftError)];
    assert [Some(SkipLeftError)][1..] == [];
    assert Expand([Some(SkipLeftError)]) == [SkipLeftError];
  }

  /** `Start`: `Initialize`, then `Validate`, then `Commit`, stopping at the
      first error, and returning nil when `Initialize` set skip-left. */
  function Start(init: Option<Error>, b: Flag, reported: seq<Error>, decoded: seq<Option<Error>>, results: seq<Option<Error>>): (r: Option<Error>)
    ensures init.Some? ==> r == init
    ensures init.None? && Has(b, ProcSkipLeft) ==> r.None?
    ensures init.None? && !Has(b, ProcSkipLeft) && Validate(b, reported).0.Some? ==> r == Validate(b, reported).0
    ensures init.None? && !Has(b, ProcSkipLeft) && Validate(b, reported).0.None? ==>
              r == CommitOutcome(Validate(b, reported).1, decoded, results).0
  {
    if init.Some? then init
    else if Has(b, ProcSkipLeft) then None
    else
      var (v, b1) := Validate(b, reported);
      if v.Some? then v else CommitOutcome(b1, decoded, results).0
  }

  /** With nothing reported and nothing decoded, `Start` fails exactly when
      some processor before the first skip-left answer fails. */
  lemma StartProcessors(b: Flag, results: seq<Option<Error>>)
    requires !Has(b, ProcSkipLeft) && !Has(b, ProcSkipValidations) && !Has(b, ProcSkipProcessors)
    ensures Start(None, b, [], [], results) == AsError(Expand(UntilSkip(results)))
  {
    assert UntilSkip(Somes([])) == [];
  }
}
