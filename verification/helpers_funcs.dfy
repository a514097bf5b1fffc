/** `helpers/funcs.go`: running checks in order until the first one
    reports an error. */
module HelpersFuncs {
  import opened Wrappers

  /** What one function answers when it is called: a name and, when it
      fails, an error (an identity). */
  datatype Answer = Answer(name: string, err: Option<nat>)

  /** The outcome of `CheckReturnError`: the returned name and error, and
      how many functions were called. */
  datatype Checked = Checked(name: string, err: Option<nat>, called: nat)

  predicate AllSucceed(answers: seq<Answer>) {
    forall i :: 0 <= i < |answers| ==> answers[i].err.None?
  }

  /** `CheckReturnError`, given the answers the functions would give: they
      are called in order; the first failure is returned with its name and
      the rest are never called; if none fails the result is `("", nil)`. */
  function CheckReturnError(answers: seq<Answer>): (r: Checked)
    ensures r.called <= |answers|
    ensures r.err.None? <==> AllSucceed(answers)
    ensures r.err.None? ==> r == Checked("", None, |answers|)
    ensures r.err.Some? ==>
      && r.called >= 1
      && answers[r.called - 1] == Answer(r.name, r.err)
      && AllSucceed(answers[..r.called - 1])
  {
    if |answers| == 0 then Checked("", None, 0)
    else if answers[0].err.Some? then Checked(answers[0].name, answers[0].err, 1)
    else
      var rest := CheckReturnError(answers[1..]);
      assert answers[1..][..rest.called] == answers[1..rest.called + 1];
      if rest.err.Some? then
        assert answers[..rest.called] == [answers[0]] + answers[1..][..rest.called - 1];
        Checked(rest.name, rest.err, rest.called + 1)
      else
        assert answers == [answers[0]] + answers[1..];
        Checked("", None, |answers|)
  }

  /** Checking two lists one after the other is checking them joined: the
      second list runs only when the first succeeded throughout. */
  lemma {:induction false} CheckAppend(a: seq<Answer>, b: seq<Answer>)
    ensures CheckReturnError(a + b) ==
      var ra := CheckReturnError(a);
      var rb := CheckReturnError(b);
      if ra.err.Some? then ra else Checked(rb.name, rb.err, |a| + rb.called)
  {
    if |a| > 0 {
      assert (a + b)[1..] == a[1..] + b;
      CheckAppend(a[1..], b);
    } else {
      assert a + b == b;
    }
  }
}
