/** The three answers of a permission check (`roles.Perm`), shared by the
    resource and the permissioners. Whether an answer allows is decided by
    the roles library and is a parameter where it is needed. */
module Roles {
  datatype Perm = Undef | Allow | Deny

  /** The position of the first answer that is not `Undef`, or the
      length when there is none. */
  function FirstDefinedIndex(answers: seq<Perm>): (k: nat)
    ensures k <= |answers|
    ensures forall j :: 0 <= j < k ==> answers[j] == Undef
    ensures k < |answers| ==> answers[k] != Undef
  {
    if |answers| == 0 || answers[0] != Undef then 0 else 1 + FirstDefinedIndex(answers[1..])
  }

  /** The answer of a list of permissioners: the first that is not
      `Undef`, or `Undef`. */
  function FirstDefined(answers: seq<Perm>): (r: Perm)
    ensures r == Undef <==> forall i :: 0 <= i < |answers| ==> answers[i] == Undef
    ensures r != Undef ==> r == answers[FirstDefinedIndex(answers)]
  {
    var k := FirstDefinedIndex(answers);
    if k < |answers| then answers[k] else Undef
  }

  /** Answers put together: the first list decides unless it is all
      `Undef`. */
  lemma {:induction false} FirstDefinedAppend(a: seq<Perm>, b: seq<Perm>)
    ensures FirstDefined(a + b) == if FirstDefined(a) != Undef then FirstDefined(a) else FirstDefined(b)
  {
    if |a| == 0 {
      assert a + b == b;
    } else {
      assert (a + b)[1..] == a[1..] + b;
      FirstDefinedAppend(a[1..], b);
      assert FirstDefinedIndex(a + b) == if a[0] != Undef then 0 else 1 + FirstDefinedIndex(a[1..] + b);
    }
  }
}
