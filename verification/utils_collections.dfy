/** `utils/collections.go`: grouping arguments into pairs. */
module Collections {
  import Text

  /** `Tuples`: consecutive arguments as two-element lists. An odd count
      reads past the end of the slice and panics in the source, hence the
      precondition. */
  function Tuples(args: seq<string>): (r: seq<seq<string>>)
    requires |args| % 2 == 0
    ensures |r| == |args| / 2
    ensures forall i :: 0 <= i < |r| ==> |r[i]| == 2
  {
    if |args| == 0 then [] else [[args[0], args[1]]] + Tuples(args[2..])
  }

  function Flatten(t: seq<seq<string>>): (r: seq<string>)
  {
    if |t| == 0 then [] else t[0] + Flatten(t[1..])
  }

  /** Pair `i` holds arguments `2i` and `2i+1`. */
  lemma {:induction false} TuplesAt(args: seq<string>, i: nat)
    requires |args| % 2 == 0 && i < |args| / 2
    ensures Tuples(args)[i] == [args[2 * i], args[2 * i + 1]]
  {
    if i > 0 {
      TuplesAt(args[2..], i - 1);
    }
  }

  /** Flattening the pairs gives the arguments back. */
  lemma {:induction false} FlattenTuples(args: seq<string>)
    requires |args| % 2 == 0
    ensures Flatten(Tuples(args)) == args
  {
    if |args| > 0 {
      FlattenTuples(args[2..]);
      assert Tuples(args)[1..] == Tuples(args[2..]);
      assert [args[0], args[1]] + args[2..] == args;
    }
  }

  /** `TuplesIndex`: each argument paired with its decimal position. */
  function TuplesIndex(args: seq<string>): (r: seq<seq<string>>)
    ensures |r| == |args|
    ensures forall i :: 0 <= i < |r| ==> |r[i]| == 2 && r[i][1] == args[i]
    ensures forall i :: 0 <= i < |r| ==> Text.AllDigits(r[i][0]) && Text.DecimalValue(r[i][0]) == i
  {
    seq(|args|, i requires 0 <= i < |args| => [Text.Itoa(i), args[i]])
  }
}
