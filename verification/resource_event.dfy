/** `resource/event.go`: database action events as bit sets, and the event
    names derived from them. */
module Event {
  /** `DBActionEvent` is a `uint` used as a bit set, modelled as the set of
      positions of its one bits. */
  type Action = s: set<nat> | forall i :: i in s ==> i < 64

  // Bit positions of the constants, in declaration order (`1 << iota`).
  const BeforeBit: nat := 0
  const AfterBit: nat := 1
  const ErrorBit: nat := 2
  const CountBit: nat := 3
  const CreateBit: nat := 4
  const DeleteBit: nat := 5
  const FindManyBit: nat := 6
  const FindOneBit: nat := 7
  const SaveBit: nat := 8

  /** The action bits with their names, in the order `Names` tests them. */
  const ActionNames: seq<(nat, string)> := [(CountBit, "count"), (CreateBit, "create"), (DeleteBit, "delete"),
    (FindManyBit, "findMany"), (FindOneBit, "findOne"), (SaveBit, "save")]

  /** `Before`: sets BEFORE and clears AFTER. */
  function Before(n: Action): (r: Action)
    ensures BeforeBit in r && AfterBit !in r
    ensures forall i :: i != BeforeBit && i != AfterBit ==> (i in r <==> i in n)
  {
    {BeforeBit} + (n - {AfterBit})
  }

  /** `After`: sets AFTER and clears BEFORE. */
  function After(n: Action): (r: Action)
    ensures AfterBit in r && BeforeBit !in r
    ensures forall i :: i != BeforeBit && i != AfterBit ==> (i in r <==> i in n)
  {
    {AfterBit} + (n - {BeforeBit})
  }

  /** `Error`: sets ERROR and clears BEFORE and AFTER. */
  function Error(n: Action): (r: Action)
    ensures ErrorBit in r && BeforeBit !in r && AfterBit !in r
    ensures forall i :: i != BeforeBit && i != AfterBit && i != ErrorBit ==> (i in r <==> i in n)
  {
    {ErrorBit} + (n - {AfterBit} - {BeforeBit})
  }

  lemma PhasesIdempotent(n: Action)
    ensures Before(Before(n)) == Before(n)
    ensures After(After(n)) == After(n)
    ensures Error(Error(n)) == Error(n)
  {
  }

  /** The names of the action bits set in `n`, in table order. */
  function ActionsOf(n: Action, table: seq<(nat, string)>): (r: seq<string>)
    ensures |r| <= |table|
    ensures forall x :: x in r <==> exists i :: 0 <= i < |table| && table[i].0 in n && table[i].1 == x
  {
    if |table| == 0 then []
    else
      var rest := ActionsOf(n, table[1..]);
      assert forall i :: 0 <= i < |table| - 1 ==> table[1..][i] == table[i + 1];
      (if table[0].0 in n then [table[0].1] else []) + rest
  }

  /** The decoration of one name: BEFORE wins over AFTER, which wins over
      ERROR. */
  function Decorate(n: Action, name: string): (r: string)
    ensures BeforeBit in n ==> r == "before." + name
    ensures BeforeBit !in n && AfterBit in n ==> r == "after." + name
    ensures BeforeBit !in n && AfterBit !in n && ErrorBit in n ==> r == name + ".error"
    ensures BeforeBit !in n && AfterBit !in n && ErrorBit !in n ==> r == name
  {
    if BeforeBit in n then "before." + name
    else if AfterBit in n then "after." + name
    else if ErrorBit in n then name + ".error"
    else name
  }

  /** `Names`: one decorated name per action bit set. */
  function Names(n: Action): (r: seq<string>)
    ensures |r| == |ActionsOf(n, ActionNames)|
    ensures forall i :: 0 <= i < |r| ==> r[i] == Decorate(n, ActionsOf(n, ActionNames)[i])
  {
    var base := ActionsOf(n, ActionNames);
    seq(|base|, i requires 0 <= i < |base| => Decorate(n, base[i]))
  }

  /** The phase changes keep the action part of the names. */
  lemma PhasesKeepActions(n: Action)
    ensures ActionsOf(Before(n), ActionNames) == ActionsOf(n, ActionNames)
    ensures ActionsOf(After(n), ActionNames) == ActionsOf(n, ActionNames)
    ensures ActionsOf(Error(n), ActionNames) == ActionsOf(n, ActionNames)
  {
    ActionsAgree(n, Before(n), ActionNames);
    ActionsAgree(n, After(n), ActionNames);
    ActionsAgree(n, Error(n), ActionNames);
  }

  lemma {:induction false} ActionsAgree(n: Action, m: Action, table: seq<(nat, string)>)
    requires forall i :: 0 <= i < |table| ==> (table[i].0 in n <==> table[i].0 in m)
    ensures ActionsOf(n, table) == ActionsOf(m, table)
  {
    if |table| > 0 {
      ActionsAgree(n, m, table[1..]);
    }
  }

  /** A saved record's events: `save`, then `before.save` and `after.save`,
      and `save.error` once an error is recorded. */
  lemma SaveNames()
    ensures Names({SaveBit}) == ["save"]
    ensures Names(Before({SaveBit})) == ["before.save"]
    ensures Names(After(Before({SaveBit}))) == ["after.save"]
    ensures Names(Error(Before({SaveBit}))) == ["save.error"]
  {
    var s: Action := {SaveBit};
    assert ActionsOf(s, ActionNames) == ["save"] by {
      ActionsOfCount(s);
    }
    PhasesKeepActions(s);
    PhasesKeepActions(Before(s));
    SingleName(s);
    SingleName(Before(s));
    SingleName(After(Before(s)));
    SingleName(Error(Before(s)));
    assert "before." + "save" == "before.save";
    assert "after." + "save" == "after.save";
    assert "save" + ".error" == "save.error";
  }

  lemma SingleName(n: Action)
    requires ActionsOf(n, ActionNames) == ["save"]
    ensures Names(n) == [Decorate(n, "save")]
  {
  }

  lemma ActionsOfCount(s: Action)
    requires s == {SaveBit}
    ensures ActionsOf(s, ActionNames) == ["save"]
  {
    var t := ActionNames;
    assert ActionsOf(s, t[6..]) == [];
    assert ActionsOf(s, t[5..]) == ["save"];
    assert ActionsOf(s, t[4..]) == ["save"];
    assert ActionsOf(s, t[3..]) == ["save"];
    assert ActionsOf(s, t[2..]) == ["save"];
    assert ActionsOf(s, t[1..]) == ["save"];
  }

  /** `Name`: the first name; it needs at least one action bit. */
  function Name(n: Action): (r: string)
    requires |ActionsOf(n, ActionNames)| > 0
    ensures r == Decorate(n, ActionsOf(n, ActionNames)[0])
  {
    Names(n)[0]
  }

  /** `FullNames`: each name qualified with the package path. */
  function FullNames(pkg: string, n: Action): (r: seq<string>)
    ensures |r| == |Names(n)|
    ensures forall i :: 0 <= i < |r| ==> r[i] == pkg + ".db." + Names(n)[i]
  {
    var names := Names(n);
    seq(|names|, i requires 0 <= i < |names| => pkg + ".db." + names[i])
  }

  function FullName(pkg: string, n: Action): (r: string)
    requires |ActionsOf(n, ActionNames)| > 0
    ensures r == pkg + ".db." + Name(n)
  {
    FullNames(pkg, n)[0]
  }
}
