/** `errors.go`: a collection of errors that flattens nested collections
    as they are added. */
module CoreErrors {
  import opened Wrappers
  import Text

  /** An `error` value. `Sentinel` is a package-level error compared by
      identity (such as `ErrProcessorSkipLeft`); `Labeled` answers the
      `Label()` method with `caption`; `Group` is anything with `GetErrors()`, such as an
      `Errors` itself. */
  datatype Error =
    | Sentinel(name: string)
    | Message(text: string)
    | Labeled(caption: string, text: string)
    | Group(items: seq<Error>)

  /** What one argument of `AddError` contributes: nothing for nil, the
      members of a group, or the error itself. */
  function Contribution(e: Option<Error>): (r: seq<Error>)
    ensures e.None? ==> r == []
    ensures e.Some? && !e.value.Group? ==> r == [e.value]
  {
    match e
    case None => []
    case Some(Group(items)) => items
    case Some(x) => [x]
  }

  /** Every argument's contribution, in argument order. */
  function Expand(args: seq<Option<Error>>): seq<Error> {
    if |args| == 0 then [] else Contribution(args[0]) + Expand(args[1..])
  }

  lemma {:induction false} ExpandAppend(a: seq<Option<Error>>, b: seq<Option<Error>>)
    ensures Expand(a + b) == Expand(a) + Expand(b)
  {
    if |a| == 0 {
      assert a + b == b;
    } else {
      assert (a + b)[1..] == a[1..] + b;
      ExpandAppend(a[1..], b);
    }
  }

  /** `AddError`: each non-nil argument is appended, a group by its
      members. The returned error is the collection, or nil when the
      collection is still empty. */
  method AddError(errs: seq<Error>, args: seq<Option<Error>>) returns (r: seq<Error>, ret: Option<seq<Error>>)
    ensures r == errs + Expand(args)
    ensures ret.None? <==> |r| == 0
    ensures ret.Some? ==> ret.value == r
  {
    r := errs;
    var i := 0;
    while i < |args|
      invariant 0 <= i <= |args|
      invariant r == errs + Expand(args[..i])
    {
      r := r + Contribution(args[i]);
      ExpandAppend(args[..i], [args[i]]);
      assert args[..i + 1] == args[..i] + [args[i]];
      i := i + 1;
    }
    assert args[..|args|] == args;
    ret := if |r| > 0 then Some(r) else None;
  }

  /** `NewErrors`: a fresh collection with the arguments added. */
  method NewErrors(args: seq<Option<Error>>) returns (r: seq<Error>)
    ensures r == Expand(args)
  {
    var ret;
    r, ret := AddError([], args);
  }

  /** Nil arguments are skipped. */
  lemma SkipsNil(args: seq<Option<Error>>)
    ensures Expand([None] + args) == Expand(args)
    ensures Expand(args + [None]) == Expand(args)
  {
    assert ([None] + args)[1..] == args;
    ExpandAppend(args, [None]);
  }

  /** A group is spliced in, one level deep: its members are added, not
      the group. */
  lemma SplicesGroup(items: seq<Error>)
    ensures Expand([Some(Group(items))]) == items
  {
  }

  predicate HasError(errs: seq<Error>) {
    |errs| != 0
  }

  /** `Filter`: the non-nil results of the matcher, in order. */
  function Filter(errs: seq<Error>, matcher: Error -> Option<Error>): (r: seq<Error>)
    ensures |r| <= |errs|
    ensures forall i :: 0 <= i < |r| ==> exists j :: 0 <= j < |errs| && matcher(errs[j]) == Some(r[i])
  {
    if |errs| == 0 then []
    else
      var rest := Filter(errs[1..], matcher);
      assert forall i :: 0 <= i < |rest| ==> exists j :: 0 <= j < |errs| && matcher(errs[j]) == Some(rest[i]) by {
        forall i | 0 <= i < |rest|
          ensures exists j :: 0 <= j < |errs| && matcher(errs[j]) == Some(rest[i])
        {
          var j :| 0 <= j < |errs[1..]| && matcher(errs[1..][j]) == Some(rest[i]);
          assert errs[j + 1] == errs[1..][j];
        }
      }
      match matcher(errs[0])
      case Some(e) => [e] + rest
      case None => rest
  }

  lemma {:induction false} FilterAppend(a: seq<Error>, b: seq<Error>, matcher: Error -> Option<Error>)
    ensures Filter(a + b, matcher) == Filter(a, matcher) + Filter(b, matcher)
  {
    if |a| == 0 {
      assert a + b == b;
    } else {
      assert (a + b)[1..] == a[1..] + b;
      FilterAppend(a[1..], b, matcher);
    }
  }

  /** A matcher that keeps every error keeps the collection as it is. */
  lemma {:induction false} FilterKeepAll(errs: seq<Error>, matcher: Error -> Option<Error>)
    requires forall e :: matcher(e) == Some(e)
    ensures Filter(errs, matcher) == errs
  {
    if |errs| > 0 {
      FilterKeepAll(errs[1..], matcher);
    }
  }

  function Strings(errs: seq<Error>, show: Error -> string): (r: seq<string>)
    ensures |r| == |errs|
    ensures forall i :: 0 <= i < |errs| ==> r[i] == show(errs[i])
  {
    seq(|errs|, i requires 0 <= i < |errs| => show(errs[i]))
  }

  /** `String`: each error's text (`show` stands for `StringifyError`),
      joined with a newline and a dash. */
  function String(errs: seq<Error>, show: Error -> string): (r: string)
    ensures |errs| == 0 ==> r == ""
    ensures |errs| == 1 ==> r == show(errs[0])
  {
    Text.Join(Strings(errs, show), "\n -")
  }

  /** One more error adds one more separated line. */
  lemma StringSnoc(errs: seq<Error>, e: Error, show: Error -> string)
    requires |errs| >= 1
    ensures String(errs + [e], show) == String(errs, show) + "\n -" + show(e)
  {
    assert Strings(errs + [e], show) == Strings(errs, show) + [show(e)];
    Text.JoinSnoc(Strings(errs, show), show(e), "\n -");
  }

  /** `Reset` as written: it assigns nil to its own receiver variable, so
      the caller's collection is left as it was. */
  function ResetAsWritten(errs: seq<Error>): (r: seq<Error>)
  {
    errs
  }

  /** The collection still has its errors after the reset. */
  lemma ResetKeepsErrors(e: Error)
    ensures HasError(ResetAsWritten([e]))
  {
  }

  /** `Reset` as evidently intended: the caller's collection is emptied. */
  function Reset(errs: seq<Error>): (r: seq<Error>)
    ensures !HasError(r)
  {
    []
  }
}
