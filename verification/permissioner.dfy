/** `Permissioners` and `AllowedPermissioners`: combining permission
    checks. A single check is a `Leaf` whose answer for the current mode
    and context is given by `leaf`; whether an answer allows is the roles
    library's `Perm.Allow`, given by `allows`. */
module Permissioner {
  import opened Wrappers
  import opened Roles

  datatype Permissioner =
    | Leaf(id: nat)
      /** `permissioners`: the first answer that is not `Undef`. */
    | Many(items: seq<Permissioner>)
      /** `allowedPermissioners`: `Allow` only when every answer allows. */
    | AllOf(items: seq<Permissioner>)

  /** `HasPermission` of a permissioner. */
  function Answer(p: Permissioner, leaf: nat -> Perm, allows: Perm -> bool): Perm
    decreases p, 1
  {
    match p
    case Leaf(id) => leaf(id)
    case Many(items) => FirstDefined(Answers(p, items, leaf, allows))
    case AllOf(items) => if AllAllow(p, items, 0, leaf, allows) then Allow else Deny
  }

  /** The answers of the items of `owner`, in order. */
  function Answers(owner: Permissioner, items: seq<Permissioner>, leaf: nat -> Perm, allows: Perm -> bool): (r: seq<Perm>)
    requires forall i :: 0 <= i < |items| ==> items[i] < owner
    ensures |r| == |items|
    ensures forall i :: 0 <= i < |items| ==> r[i] == Answer(items[i], leaf, allows)
    decreases owner, 0, |items|
  {
    if |items| == 0 then []
    else [Answer(items[0], leaf, allows)] + Answers(owner, items[1..], leaf, allows)
  }

  /** The scan of `allowedPermissioners`: stops with a denial at the first
      answer that does not allow. */
  function AllAllow(owner: Permissioner, items: seq<Permissioner>, from: nat, leaf: nat -> Perm, allows: Perm -> bool): bool
    requires forall i :: 0 <= i < |items| ==> items[i] < owner
    requires from <= |items|
    decreases owner, 0, |items| - from
  {
    if from == |items| then true
    else allows(Answer(items[from], leaf, allows)) && AllAllow(owner, items, from + 1, leaf, allows)
  }

  lemma {:induction false} AllAllowMeans(owner: Permissioner, items: seq<Permissioner>, from: nat, leaf: nat -> Perm, allows: Perm -> bool)
    requires forall i :: 0 <= i < |items| ==> items[i] < owner
    requires from <= |items|
    ensures AllAllow(owner, items, from, leaf, allows) <==>
      forall i :: from <= i < |items| ==> allows(Answer(items[i], leaf, allows))
    decreases |items| - from
  {
    if from < |items| {
      AllAllowMeans(owner, items, from + 1, leaf, allows);
    }
  }

  /** The `result` list of `Permissioners`: nil entries are skipped, and
      the items of a `permissioners` value are spliced in (one level
      deep); anything else is kept as it is. */
  function Flatten(ps: seq<Option<Permissioner>>): (r: seq<Permissioner>)
    ensures |ps| == 0 ==> r == []
  {
    if |ps| == 0 then []
    else
      Spliced(ps[0]) + Flatten(ps[1..])
  }

  /** `Permissioners`: a single survivor is returned unwrapped, anything
      else (including no survivor at all) becomes a `permissioners`. */
  function Permissioners(ps: seq<Option<Permissioner>>): (r: Permissioner)
    ensures |Flatten(ps)| == 1 ==> r == Flatten(ps)[0]
    ensures |Flatten(ps)| != 1 ==> r == Many(Flatten(ps))
  {
    var result := Flatten(ps);
    if |result| == 1 then result[0] else Many(result)
  }

  /** `AllowedPermissioners`: the combination of `Permissioners`, made to
      demand that every item allows when it is a `permissioners`. */
  function AllowedPermissioners(ps: seq<Option<Permissioner>>): (r: Permissioner)
    ensures |Flatten(ps)| == 1 && !Flatten(ps)[0].Many? ==> r == Flatten(ps)[0]
    ensures |Flatten(ps)| == 1 && Flatten(ps)[0].Many? ==> r == AllOf(Flatten(ps)[0].items)
    ensures |Flatten(ps)| != 1 ==> r == AllOf(Flatten(ps))
  {
    match Permissioners(ps)
    case Many(items) => AllOf(items)
    case q => q
  }

  /** The answers of the given permissioners, nil ones skipped, read as a
      list of answers in which a `permissioners` contributes its own. */
  function GivenAnswer(ps: seq<Option<Permissioner>>, leaf: nat -> Perm, allows: Perm -> bool): Perm
  {
    if |ps| == 0 then Undef
    else
      var here := match ps[0] case None => Undef case Some(q) => Answer(q, leaf, allows);
      if here != Undef then here else GivenAnswer(ps[1..], leaf, allows)
  }

  /** What one entry contributes to the flattened list. */
  function Spliced(p: Option<Permissioner>): seq<Permissioner> {
    match p
    case None => []
    case Some(Many(items)) => items
    case Some(q) => [q]
  }

  lemma FlattenCons(ps: seq<Option<Permissioner>>)
    requires |ps| > 0
    ensures Flatten(ps) == Spliced(ps[0]) + Flatten(ps[1..])
  {
  }

  /** The answers of a list depend only on the list. */
  lemma AnswersAppend(o: Permissioner, a: seq<Permissioner>, b: seq<Permissioner>, leaf: nat -> Perm, allows: Perm -> bool)
    requires forall i :: 0 <= i < |a + b| ==> (a + b)[i] < o
    ensures Answers(o, a + b, leaf, allows) == Answers(Many(a), a, leaf, allows) + Answers(Many(b), b, leaf, allows)
  {
    var r := Answers(o, a + b, leaf, allows);
    var ra := Answers(Many(a), a, leaf, allows);
    var rb := Answers(Many(b), b, leaf, allows);
    assert forall i :: 0 <= i < |a| ==> r[i] == ra[i];
    assert forall i :: 0 <= i < |b| ==> r[|a| + i] == rb[i];
  }

  /** One entry's contribution answers what the entry answers. */
  lemma SplicedAnswer(p: Option<Permissioner>, leaf: nat -> Perm, allows: Perm -> bool)
    ensures FirstDefined(Answers(Many(Spliced(p)), Spliced(p), leaf, allows)) ==
      match p case None => Undef case Some(q) => Answer(q, leaf, allows)
  {
    match p
    case None =>
    case Some(q) =>
      if q.Many? {
        assert Answers(Many(Spliced(p)), Spliced(p), leaf, allows) == Answers(q, q.items, leaf, allows);
      } else {
        assert Spliced(p) == [q];
      }
  }

  lemma {:induction false} FlattenAnswers(ps: seq<Option<Permissioner>>, leaf: nat -> Perm, allows: Perm -> bool)
    ensures FirstDefined(Answers(Many(Flatten(ps)), Flatten(ps), leaf, allows)) == GivenAnswer(ps, leaf, allows)
  {
    if |ps| > 0 {
      var head := Spliced(ps[0]);
      var tail := Flatten(ps[1..]);
      FlattenCons(ps);
      FlattenAnswers(ps[1..], leaf, allows);
      AnswersAppend(Many(Flatten(ps)), head, tail, leaf, allows);
      FirstDefinedAppend(Answers(Many(head), head, leaf, allows), Answers(Many(tail), tail, leaf, allows));
      SplicedAnswer(ps[0], leaf, allows);
    }
  }

  /** Combining is transparent: the combined permissioner answers the
      first answer among the given ones that is not `Undef`, nil entries
      skipped, whether or not the result was unwrapped. */
  lemma PermissionersAnswer(ps: seq<Option<Permissioner>>, leaf: nat -> Perm, allows: Perm -> bool)
    ensures Answer(Permissioners(ps), leaf, allows) == GivenAnswer(ps, leaf, allows)
  {
    var flat := Flatten(ps);
    FlattenAnswers(ps, leaf, allows);
    if |flat| == 1 {
      assert Answers(Many(flat), flat, leaf, allows) == [Answer(flat[0], leaf, allows)];
    }
  }

  /** The allowed combination answers `Allow` or `Deny`, `Allow` exactly
      when every item allows, unless a single item was unwrapped. */
  lemma AllowedAnswer(ps: seq<Option<Permissioner>>, leaf: nat -> Perm, allows: Perm -> bool)
    requires |Flatten(ps)| != 1
    ensures Answer(AllowedPermissioners(ps), leaf, allows) != Undef
    ensures Answer(AllowedPermissioners(ps), leaf, allows) == Allow <==>
      forall i :: 0 <= i < |Flatten(ps)| ==> allows(Answer(Flatten(ps)[i], leaf, allows))
  {
    var flat := Flatten(ps);
    AllAllowMeans(AllOf(flat), flat, 0, leaf, allows);
  }

  /** With nothing to combine, both combinators still give a value:
      `permissioners` answers `Undef`, the allowed one `Allow`. */
  lemma EmptyCombination(leaf: nat -> Perm, allows: Perm -> bool)
    ensures Answer(Permissioners([]), leaf, allows) == Undef
    ensures Answer(AllowedPermissioners([]), leaf, allows) == Allow
  {
    assert Answers(Many([]), [], leaf, allows) == [];
  }
}
