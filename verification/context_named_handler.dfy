/** `context_named_handler.go`: a registry of named context handlers that
    inherits from other registries. A handler's function is abstract; it
    is identified by `id`. */
module NamedHandlers {
  import opened Wrappers

  datatype Handler = Handler(name: string, id: nat)

  /** A registry: the handlers in the order they were added and the
      registries it inherits from. The `byName` map of the source is a
      function of `handlers` (the last one added under each name). */
  datatype Registry = Registry(handlers: seq<Handler>, parents: seq<Registry>)

  /** What the callback of `Each` answers. */
  datatype Reply = Continue | Stop | Fail(code: nat)

  /** How a walk ended: `Failed` carries the callback's error. */
  datatype End = Completed | Stopped | Failed(code: nat)

  datatype Walk = Walk(visited: seq<Handler>, seen: set<string>, end: End)

  /** `byName[name]`: the last handler added under that name. */
  function OwnGet(hs: seq<Handler>, name: string): (r: Option<Handler>)
    ensures r.Some? <==> exists i :: 0 <= i < |hs| && hs[i].name == name
    ensures r.Some? ==> r.value.name == name && r.value in hs
  {
    if |hs| == 0 then None
    else if hs[|hs| - 1].name == name then Some(hs[|hs| - 1])
    else OwnGet(hs[..|hs| - 1], name)
  }

  function NameSet(hs: seq<Handler>): set<string> {
    set i | 0 <= i < |hs| :: hs[i].name
  }

  /** The distinct names, in first-added order. This is the order in which
      the model ranges over `byName`; the source's map order is random. */
  function OwnNames(hs: seq<Handler>): (r: seq<string>)
    ensures forall i, j :: 0 <= i < j < |r| ==> r[i] != r[j]
    ensures forall n :: n in r <==> n in NameSet(hs)
    ensures forall k :: 0 <= k < |r| ==> OwnGet(hs, r[k]).Some?
  {
    if |hs| == 0 then []
    else
      var d := OwnNames(hs[..|hs| - 1]);
      assert hs == hs[..|hs| - 1] + [hs[|hs| - 1]];
      if hs[|hs| - 1].name in d then d else d + [hs[|hs| - 1].name]
  }

  /** `InheritsFrom`: the new registries are searched after the existing
      ones. */
  function InheritsFrom(r: Registry, more: seq<Registry>): (q: Registry)
    ensures q.handlers == r.handlers && |q.parents| == |r.parents| + |more|
    ensures q.parents[..|r.parents|] == r.parents && q.parents[|r.parents|..] == more
  {
    r.(parents := r.parents + more)
  }

  /** `Add`: the handlers are appended; under every name the last handler
      added with it is the one `byName` holds from now on, and other names
      keep theirs. */
  function Add(r: Registry, added: seq<Handler>): (q: Registry)
    ensures q.parents == r.parents && |q.handlers| == |r.handlers| + |added|
    ensures q.handlers[..|r.handlers|] == r.handlers
    ensures forall n :: OwnGet(added, n).Some? ==> OwnGet(q.handlers, n) == OwnGet(added, n)
    ensures forall n :: OwnGet(added, n).None? ==> OwnGet(q.handlers, n) == OwnGet(r.handlers, n)
  {
    var q := r.(handlers := r.handlers + added);
    forall n
      ensures OwnGet(added, n).Some? ==> OwnGet(q.handlers, n) == OwnGet(added, n)
      ensures OwnGet(added, n).None? ==> OwnGet(q.handlers, n) == OwnGet(r.handlers, n)
    {
      OwnGetAppend(r.handlers, added, n);
    }
    q
  }

  lemma {:induction false} OwnGetAppend(a: seq<Handler>, b: seq<Handler>, n: string)
    ensures OwnGet(a + b, n) == if OwnGet(b, n).Some? then OwnGet(b, n) else OwnGet(a, n)
    decreases |b|
  {
    if |b| == 0 {
      assert a + b == a;
    } else {
      assert (a + b)[..|a + b| - 1] == a + b[..|b| - 1];
      OwnGetAppend(a, b[..|b| - 1], n);
    }
  }

  /** Every name a registry or its ancestors can answer. */
  function Names(r: Registry): set<string>
    decreases r, 1
  {
    NameSet(r.handlers) + ParentNames(r, 0)
  }

  function ParentNames(r: Registry, j: nat): set<string>
    requires j <= |r.parents|
    decreases r, 0, |r.parents| - j
  {
    if j == |r.parents| then {} else Names(r.parents[j]) + ParentNames(r, j + 1)
  }

  /** A registry knows a name iff one of its own handlers has it or one
      of its parents knows it. */
  lemma NamesOf(r: Registry, n: string)
    ensures n in Names(r) <==>
              (exists i :: 0 <= i < |r.handlers| && r.handlers[i].name == n) ||
              (exists j :: 0 <= j < |r.parents| && n in Names(r.parents[j]))
  {
    ParentNamesHas(r, 0, n);
  }

  lemma {:induction false} ParentNamesHas(r: Registry, j: nat, n: string)
    requires j <= |r.parents|
    ensures n in ParentNames(r, j) <==> exists k :: j <= k < |r.parents| && n in Names(r.parents[k])
    decreases |r.parents| - j
  {
    if j < |r.parents| {
      ParentNamesHas(r, j + 1, n);
    }
  }

  /** `Get`: the registry's own handler for the name, else the first
      answer of its parents in inheritance order, else nil. */
  function Get(r: Registry, name: string): (h: Option<Handler>)
    ensures h.Some? <==> name in Names(r)
    ensures h.Some? ==> h.value.name == name
    ensures OwnGet(r.handlers, name).Some? ==> h == OwnGet(r.handlers, name)
    decreases r, 1
  {
    var own := OwnGet(r.handlers, name);
    if own.Some? then own else ParentGet(r, name, 0)
  }

  function ParentGet(r: Registry, name: string, j: nat): (h: Option<Handler>)
    requires j <= |r.parents|
    ensures h.Some? <==> name in ParentNames(r, j)
    ensures h.Some? ==> h.value.name == name
    decreases r, 0, |r.parents| - j
  {
    if j == |r.parents| then None
    else
      var f := Get(r.parents[j], name);
      if f.Some? then f else ParentGet(r, name, j + 1)
  }

  /** `Each`, walking the registry's own handlers (one per name not yet in
      `seen`) and then each parent with the same, shared `seen` set.
      `propagate` chooses between the source as written (`false`: a
      `ErrStopIteration` is turned into nil by the registry whose callback
      raised it, so the caller goes on with the next parent) and the
      evident intention (`true`: the stop ends the whole walk). */
  function Each(r: Registry, cb: Handler -> Reply, seen: set<string>, propagate: bool): (w: Walk)
    ensures seen <= w.seen
    decreases r, 2, 0
  {
    EachOwn(r, OwnNames(r.handlers), 0, cb, Walk([], seen, Completed), propagate)
  }

  function EachOwn(r: Registry, names: seq<string>, i: nat, cb: Handler -> Reply, acc: Walk, propagate: bool): (w: Walk)
    requires i <= |names|
    requires forall k :: 0 <= k < |names| ==> OwnGet(r.handlers, names[k]).Some?
    ensures acc.seen <= w.seen
    decreases r, 1, |names| - i
  {
    if i == |names| then EachParents(r, 0, cb, acc, propagate)
    else if names[i] in acc.seen then EachOwn(r, names, i + 1, cb, acc, propagate)
    else
      var h := OwnGet(r.handlers, names[i]).value;
      var next := Walk(acc.visited + [h], acc.seen + {names[i]}, Completed);
      match cb(h)
      case Stop => next.(end := if propagate then Stopped else Completed)
      case Fail(e) => next.(end := Failed(e))
      case Continue => EachOwn(r, names, i + 1, cb, next, propagate)
  }

  function EachParents(r: Registry, j: nat, cb: Handler -> Reply, acc: Walk, propagate: bool): (w: Walk)
    requires j <= |r.parents|
    ensures acc.seen <= w.seen
    decreases r, 0, |r.parents| - j
  {
    if j == |r.parents| then acc
    else
      var sub := Each(r.parents[j], cb, acc.seen, propagate);
      var next := Walk(acc.visited + sub.visited, sub.seen, sub.end);
      if sub.end.Completed? then EachParents(r, j + 1, cb, next, propagate) else next
  }

  /** `GetNamedContextHandlers`: every handler `Each` visits with a
      callback that never stops. */
  function GetNamedContextHandlers(r: Registry): (hs: seq<Handler>)
    ensures forall i, j :: 0 <= i < j < |hs| ==> hs[i].name != hs[j].name
    ensures forall n :: n in Names(r) <==> exists i :: 0 <= i < |hs| && hs[i].name == n
    ensures forall i :: 0 <= i < |hs| ==> Get(r, hs[i].name) == Some(hs[i])
  {
    var w := Each(r, AlwaysContinue, {}, true);
    NotCompletedNeedsReply(r, AlwaysContinue, {}, true);
    EachComplete(r, AlwaysContinue, {}, true);
    w.visited
  }

  function AlwaysContinue(h: Handler): Reply {
    Continue
  }

  /** The invariant of a walk that has not ended early: the handlers
      visited have distinct names outside the starting `seen` set, they
      are what `Get` answers for those names, and `seen` grows by exactly
      their names. */
  ghost predicate Visits(r: Registry, seen0: set<string>, visited: seq<Handler>, seen1: set<string>, names: set<string>) {
    && (forall i, j :: 0 <= i < j < |visited| ==> visited[i].name != visited[j].name)
    && (forall i :: 0 <= i < |visited| ==> visited[i].name !in seen0 && Get(r, visited[i].name) == Some(visited[i]))
    && (forall n :: n in seen1 <==> n in seen0 || n in names)
    && (forall n :: n in names && n !in seen0 <==> exists i :: 0 <= i < |visited| && visited[i].name == n)
  }

  lemma {:induction false} EachComplete(r: Registry, cb: Handler -> Reply, seen: set<string>, propagate: bool)
    requires forall h :: cb(h) == Continue
    ensures Visits(r, seen, Each(r, cb, seen, propagate).visited, Each(r, cb, seen, propagate).seen, Names(r))
    decreases r, 2, 0
  {
    EachOwnComplete(r, OwnNames(r.handlers), 0, cb, Walk([], seen, Completed), seen, propagate);
  }

  lemma {:induction false} EachOwnComplete(r: Registry, names: seq<string>, i: nat, cb: Handler -> Reply, acc: Walk, seen0: set<string>, propagate: bool)
    requires i <= |names| && names == OwnNames(r.handlers)
    requires forall h :: cb(h) == Continue
    requires Visits(r, seen0, acc.visited, acc.seen, Taken(names, i))
    ensures Visits(r, seen0, EachOwn(r, names, i, cb, acc, propagate).visited, EachOwn(r, names, i, cb, acc, propagate).seen, Names(r))
    decreases r, 1, |names| - i
  {
    if i == |names| {
      TakenAll(names, i);
      EachParentsComplete(r, 0, cb, acc, seen0, propagate);
    } else if names[i] in acc.seen {
      VisitsSkip(r, seen0, acc.visited, acc.seen, Taken(names, i), names[i]);
      EachOwnComplete(r, names, i + 1, cb, acc, seen0, propagate);
    } else {
      var h := OwnGet(r.handlers, names[i]).value;
      VisitsStep(r, seen0, acc.visited, acc.seen, Taken(names, i), h);
      EachOwnComplete(r, names, i + 1, cb, Walk(acc.visited + [h], acc.seen + {names[i]}, Completed), seen0, propagate);
    }
  }

  /** The first `i` names, as a set. */
  function Taken(names: seq<string>, i: nat): set<string>
    requires i <= |names|
  {
    if i == 0 then {} else Taken(names, i - 1) + {names[i - 1]}
  }

  lemma {:induction false} TakenAll(names: seq<string>, i: nat)
    requires i <= |names|
    ensures forall n :: n in Taken(names, i) <==> n in names[..i]
  {
    if i > 0 {
      TakenAll(names, i - 1);
      assert names[..i] == names[..i - 1] + [names[i - 1]];
    }
  }

  /** A name already seen adds nothing to the walk. */
  lemma VisitsSkip(r: Registry, seen0: set<string>, v: seq<Handler>, s: set<string>, a: set<string>, n: string)
    requires Visits(r, seen0, v, s, a) && n in s
    ensures Visits(r, seen0, v, s, a + {n})
  {
  }

  /** A name not yet seen is visited with `Get`'s answer for it. */
  lemma VisitsStep(r: Registry, seen0: set<string>, v: seq<Handler>, s: set<string>, a: set<string>, h: Handler)
    requires Visits(r, seen0, v, s, a) && h.name !in s && Get(r, h.name) == Some(h)
    ensures Visits(r, seen0, v + [h], s + {h.name}, a + {h.name})
  {
    var v1 := v + [h];
    assert v1[|v|] == h;
    assert h.name !in seen0;
    forall i | 0 <= i < |v|
      ensures v[i].name in s
    {
      assert v[i].name in a;
    }
    forall n | n in a + {h.name} && n !in seen0
      ensures exists i :: 0 <= i < |v1| && v1[i].name == n
    {
      if n == h.name {
        assert v1[|v|].name == n;
      } else {
        var i :| 0 <= i < |v| && v[i].name == n;
        assert v1[i] == v[i];
      }
    }
  }

  lemma {:induction false} EachParentsComplete(r: Registry, j: nat, cb: Handler -> Reply, acc: Walk, seen0: set<string>, propagate: bool)
    requires j <= |r.parents|
    requires forall h :: cb(h) == Continue
    requires Visits(r, seen0, acc.visited, acc.seen, PrefixNames(r, j))
    ensures Visits(r, seen0, EachParents(r, j, cb, acc, propagate).visited, EachParents(r, j, cb, acc, propagate).seen, Names(r))
    decreases r, 0, |r.parents| - j
  {
    if j < |r.parents| {
      var sub := Each(r.parents[j], cb, acc.seen, propagate);
      var next := Walk(acc.visited + sub.visited, sub.seen, sub.end);
      ParentWalked(r, j, cb, acc, seen0, propagate, sub, next);
      assert EachParents(r, j, cb, acc, propagate) == EachParents(r, j + 1, cb, next, propagate);
      EachParentsComplete(r, j + 1, cb, next, seen0, propagate);
    } else {
      ParentsDone(r, j, cb, acc, seen0, propagate);
    }
  }

  /** After the last parent the walk is what was gathered, which covers
      every name the registry knows. */
  lemma ParentsDone(r: Registry, j: nat, cb: Handler -> Reply, acc: Walk, seen0: set<string>, propagate: bool)
    requires j == |r.parents|
    requires Visits(r, seen0, acc.visited, acc.seen, PrefixNames(r, j))
    ensures EachParents(r, j, cb, acc, propagate) == acc
    ensures Visits(r, seen0, acc.visited, acc.seen, Names(r))
  {
    PrefixParentNames(r, j);
    assert PrefixNames(r, j) == Names(r);
  }

  /** A walk of parent `j` with a callback that never stops completes and
      extends the visits to the names of the first `j + 1` parents. */
  lemma ParentWalked(r: Registry, j: nat, cb: Handler -> Reply, acc: Walk, seen0: set<string>, propagate: bool, sub: Walk, next: Walk)
    requires j < |r.parents|
    requires forall h :: cb(h) == Continue
    requires Visits(r, seen0, acc.visited, acc.seen, PrefixNames(r, j))
    requires sub == Each(r.parents[j], cb, acc.seen, propagate)
    requires next == Walk(acc.visited + sub.visited, sub.seen, sub.end)
    ensures sub.end.Completed?
    ensures Visits(r, seen0, next.visited, next.seen, PrefixNames(r, j + 1))
    decreases r, 0, 0
  {
    EachComplete(r.parents[j], cb, acc.seen, propagate);
    NotCompletedNeedsReply(r.parents[j], cb, acc.seen, propagate);
    ParentStep(r, j, seen0, acc.visited, acc.seen, sub.visited, sub.seen);
  }

  /** The names of the registry's own handlers and of its first `j`
      parents. */
  function PrefixNames(r: Registry, j: nat): set<string>
    requires j <= |r.parents|
  {
    if j == 0 then NameSet(r.handlers) else PrefixNames(r, j - 1) + Names(r.parents[j - 1])
  }

  lemma {:induction false} PrefixParentNames(r: Registry, j: nat)
    requires j <= |r.parents|
    ensures PrefixNames(r, j) + ParentNames(r, j) == Names(r)
    decreases j
  {
    if j > 0 {
      PrefixParentNames(r, j - 1);
    }
  }

  lemma {:induction false} PrefixContains(r: Registry, k: nat, j: nat)
    requires k < j <= |r.parents|
    ensures NameSet(r.handlers) + Names(r.parents[k]) <= PrefixNames(r, j)
    decreases j
  {
    if k < j - 1 {
      PrefixContains(r, k, j - 1);
    }
    if j - 1 > 0 {
      PrefixOwn(r, j - 1);
    }
  }

  lemma {:induction false} PrefixOwn(r: Registry, j: nat)
    requires j <= |r.parents|
    ensures NameSet(r.handlers) <= PrefixNames(r, j)
    decreases j
  {
    if j > 0 {
      PrefixOwn(r, j - 1);
    }
  }

  /** A name found in parent `j` but not earlier is answered by that
      parent. */
  lemma PassedOver(r: Registry, j: nat, n: string)
    requires j < |r.parents|
    requires n !in PrefixNames(r, j)
    requires n in Names(r.parents[j])
    ensures Get(r, n) == Get(r.parents[j], n)
  {
    PrefixOwn(r, j);
    forall k | 0 <= k < j
      ensures n !in Names(r.parents[k])
    {
      PrefixContains(r, k, j);
    }
    PassedOverFrom(r, 0, j, n);
  }

  lemma {:induction false} PassedOverFrom(r: Registry, i: nat, j: nat, n: string)
    requires i <= j < |r.parents|
    requires forall k :: i <= k < j ==> n !in Names(r.parents[k])
    requires n in Names(r.parents[j])
    ensures ParentGet(r, n, i) == Get(r.parents[j], n)
    decreases j - i
  {
    if i < j {
      PassedOverFrom(r, i + 1, j, n);
    }
  }

  lemma ParentStep(r: Registry, j: nat, seen0: set<string>, v1: seq<Handler>, s1: set<string>, v2: seq<Handler>, s2: set<string>)
    requires j < |r.parents|
    requires Visits(r, seen0, v1, s1, PrefixNames(r, j))
    requires Visits(r.parents[j], s1, v2, s2, Names(r.parents[j]))
    ensures Visits(r, seen0, v1 + v2, s2, PrefixNames(r, j + 1))
  {
    var p := r.parents[j];
    forall k | 0 <= k < |v2|
      ensures Get(r, v2[k].name) == Get(p, v2[k].name)
    {
      PassedOver(r, j, v2[k].name);
    }
    VisitsAppend(r, p, seen0, v1, s1, PrefixNames(r, j), v2, s2, Names(p));
  }

  /** Two walks one after the other, the second over a registry that
      answers like `r` for the names it visits. */
  lemma VisitsAppend(r: Registry, p: Registry, seen0: set<string>, v1: seq<Handler>, s1: set<string>, a: set<string>,
                     v2: seq<Handler>, s2: set<string>, b: set<string>)
    requires Visits(r, seen0, v1, s1, a)
    requires Visits(p, s1, v2, s2, b)
    requires forall k :: 0 <= k < |v2| ==> Get(r, v2[k].name) == Get(p, v2[k].name)
    ensures Visits(r, seen0, v1 + v2, s2, a + b)
  {
    var v := v1 + v2;
    forall i | 0 <= i < |v1|
      ensures v1[i].name in s1
    {
      assert v1[i].name in a;
    }
    assert forall k :: 0 <= k < |v2| ==> v[|v1| + k] == v2[k];
    forall n | n in a + b && n !in seen0
      ensures exists i :: 0 <= i < |v| && v[i].name == n
    {
      if n in a {
        var i :| 0 <= i < |v1| && v1[i].name == n;
        assert v[i] == v1[i];
      } else {
        var k :| 0 <= k < |v2| && v2[k].name == n;
        assert v[|v1| + k] == v2[k];
      }
    }
  }

  /** A callback that never stops or fails lets every walk complete. */
  lemma {:induction false} NotCompletedNeedsReply(r: Registry, cb: Handler -> Reply, seen: set<string>, propagate: bool)
    requires forall h :: cb(h) == Continue
    ensures Each(r, cb, seen, propagate).end.Completed?
    decreases r, 2, 0
  {
    OwnNotCompleted(r, OwnNames(r.handlers), 0, cb, Walk([], seen, Completed), propagate);
  }

  lemma {:induction false} OwnNotCompleted(r: Registry, names: seq<string>, i: nat, cb: Handler -> Reply, acc: Walk, propagate: bool)
    requires i <= |names| && names == OwnNames(r.handlers)
    requires forall h :: cb(h) == Continue
    requires acc.end.Completed?
    ensures EachOwn(r, names, i, cb, acc, propagate).end.Completed?
    decreases r, 1, |names| - i
  {
    if i == |names| {
      ParentsNotCompleted(r, 0, cb, acc, propagate);
    } else if names[i] in acc.seen {
      OwnNotCompleted(r, names, i + 1, cb, acc, propagate);
    } else {
      var h := OwnGet(r.handlers, names[i]).value;
      OwnNotCompleted(r, names, i + 1, cb, Walk(acc.visited + [h], acc.seen + {names[i]}, Completed), propagate);
    }
  }

  lemma {:induction false} ParentsNotCompleted(r: Registry, j: nat, cb: Handler -> Reply, acc: Walk, propagate: bool)
    requires j <= |r.parents|
    requires forall h :: cb(h) == Continue
    requires acc.end.Completed?
    ensures EachParents(r, j, cb, acc, propagate).end.Completed?
    decreases r, 0, |r.parents| - j
  {
    if j < |r.parents| {
      NotCompletedNeedsReply(r.parents[j], cb, acc.seen, propagate);
      var sub := Each(r.parents[j], cb, acc.seen, propagate);
      ParentsNotCompleted(r, j + 1, cb, Walk(acc.visited + sub.visited, sub.seen, sub.end), propagate);
    }
  }

  /** How a walk that keeps to its callback's answers ends: every handler
      but the last answered `Continue`, a completed walk saw only
      `Continue`, and a stopped or failed walk ends on the handler that
      said so. */
  predicate Honours(cb: Handler -> Reply, w: Walk) {
    && (forall k :: 0 <= k < |w.visited| - 1 ==> cb(w.visited[k]).Continue?)
    && (w.end.Completed? ==> forall k :: 0 <= k < |w.visited| ==> cb(w.visited[k]).Continue?)
    && (w.end.Stopped? ==> |w.visited| > 0 && cb(w.visited[|w.visited| - 1]) == Stop)
    && (w.end.Failed? ==> |w.visited| > 0 && cb(w.visited[|w.visited| - 1]) == Fail(w.end.code))
  }

  /** With the stop propagated, a stop or a failure ends the whole walk:
      no handler is visited after one that answered `Stop`. */
  lemma {:induction false} EachHonours(r: Registry, cb: Handler -> Reply, seen: set<string>)
    ensures Honours(cb, Each(r, cb, seen, true))
    decreases r, 2, 0
  {
    OwnHonours(r, OwnNames(r.handlers), 0, cb, Walk([], seen, Completed));
  }

  lemma {:induction false} OwnHonours(r: Registry, names: seq<string>, i: nat, cb: Handler -> Reply, acc: Walk)
    requires i <= |names| && names == OwnNames(r.handlers)
    requires Honours(cb, acc) && acc.end.Completed?
    ensures Honours(cb, EachOwn(r, names, i, cb, acc, true))
    decreases r, 1, |names| - i
  {
    if i == |names| {
      ParentsHonour(r, 0, cb, acc);
    } else if names[i] in acc.seen {
      OwnHonours(r, names, i + 1, cb, acc);
    } else {
      var h := OwnGet(r.handlers, names[i]).value;
      var v := acc.visited + [h];
      assert v[|acc.visited|] == h;
      assert forall k :: 0 <= k < |acc.visited| ==> v[k] == acc.visited[k];
      if cb(h).Continue? {
        OwnHonours(r, names, i + 1, cb, Walk(v, acc.seen + {names[i]}, Completed));
      }
    }
  }

  lemma {:induction false} ParentsHonour(r: Registry, j: nat, cb: Handler -> Reply, acc: Walk)
    requires j <= |r.parents|
    requires Honours(cb, acc) && acc.end.Completed?
    ensures Honours(cb, EachParents(r, j, cb, acc, true))
    decreases r, 0, |r.parents| - j
  {
    if j < |r.parents| {
      var sub := Each(r.parents[j], cb, acc.seen, true);
      EachHonours(r.parents[j], cb, acc.seen);
      var next := Walk(acc.visited + sub.visited, sub.seen, sub.end);
      HonoursAppend(cb, acc, sub);
      if sub.end.Completed? {
        ParentsHonour(r, j + 1, cb, next);
      }
    }
  }

  lemma HonoursAppend(cb: Handler -> Reply, acc: Walk, sub: Walk)
    requires Honours(cb, acc) && acc.end.Completed? && Honours(cb, sub)
    ensures Honours(cb, Walk(acc.visited + sub.visited, sub.seen, sub.end))
  {
    var v := acc.visited + sub.visited;
    assert forall k :: 0 <= k < |acc.visited| ==> v[k] == acc.visited[k];
    assert forall k :: 0 <= k < |sub.visited| ==> v[|acc.visited| + k] == sub.visited[k];
  }

  /** A registry that inherits two handlers, `a` and `b`, from two
      parents, walked with a callback that stops at `a`. */
  const ParentA: Registry := Registry([Handler("a", 1)], [])
  const ParentB: Registry := Registry([Handler("b", 2)], [])
  const Child: Registry := Registry([], [ParentA, ParentB])

  function StopAtA(h: Handler): Reply {
    if h.name == "a" then Stop else Continue
  }

  /** As written, the stop raised in the first parent ends only that
      parent's walk: the child goes on and visits `b` after the callback
      asked to stop. With the stop propagated, the walk ends at `a`. */
  lemma StopInParentContinues()
    ensures Each(Child, StopAtA, {}, false).visited == [Handler("a", 1), Handler("b", 2)]
    ensures StopAtA(Each(Child, StopAtA, {}, false).visited[0]) == Stop
    ensures Each(Child, StopAtA, {}, true).visited == [Handler("a", 1)]
  {
    assert OwnNames(Child.handlers) == [];
    assert OwnNames(ParentA.handlers) == ["a"];
    assert OwnNames(ParentB.handlers) == ["b"];
    var wa := Each(ParentA, StopAtA, {}, false);
    assert wa == Walk([Handler("a", 1)], {"a"}, Completed);
    var wb := Each(ParentB, StopAtA, {"a"}, false);
    assert wb == Walk([Handler("b", 2)], {"a", "b"}, Completed);
    var w0 := Walk([], {}, Completed);
    var w1 := Walk([Handler("a", 1)], {"a"}, Completed);
    var w2 := Walk([Handler("a", 1)] + [Handler("b", 2)], {"a", "b"}, Completed);
    assert EachParents(Child, 2, StopAtA, w2, false) == w2;
    assert EachParents(Child, 1, StopAtA, w1, false) == w2;
    assert EachParents(Child, 0, StopAtA, w0, false) == w2;
    assert Each(Child, StopAtA, {}, false) == EachParents(Child, 0, StopAtA, w0, false);
    var wt := Each(ParentA, StopAtA, {}, true);
    assert wt == Walk([Handler("a", 1)], {"a"}, Stopped);
    assert EachParents(Child, 0, StopAtA, w0, true) == Walk([] + wt.visited, wt.seen, wt.end);
    assert Each(Child, StopAtA, {}, true) == EachParents(Child, 0, StopAtA, w0, true);
  }
}
