/** `resource/resource.go`: the parts of a resource definition that are
    plain logic: its package, its full id, layouts, permissions, primary
    fields and validation order. */
module Resource {
  import opened Wrappers
  import Text
  import opened Roles

  // ---------------------------------------------------------------------
  // Package and id

  /** The package of a model's path: the path segments before the first
      `models` segment, joined again (empty segments vanish in the join),
      or the whole path when there is no such segment. */
  function Pkg(pkgPath: string): (r: string)
    ensures (forall i :: 0 <= i < |Text.Split(pkgPath, '/')| ==> Text.Split(pkgPath, '/')[i] != "models") ==> r == pkgPath
  {
    PkgOfParts(pkgPath, Text.Split(pkgPath, '/'))
  }

  function PkgOfParts(pkgPath: string, parts: seq<string>): (r: string)
    ensures (forall i :: 0 <= i < |parts| ==> parts[i] != "models") ==> r == pkgPath
  {
    match FirstModels(parts, 0)
    case None => pkgPath
    case Some(i) => Text.Join(Text.DropEmpty(parts[..i]), "/")
  }

  /** The position of the first `models` segment. */
  function FirstModels(parts: seq<string>, from: nat): (r: Option<nat>)
    requires from <= |parts|
    ensures r.Some? ==> from <= r.value < |parts| && parts[r.value] == "models" &&
                        forall j :: from <= j < r.value ==> parts[j] != "models"
    ensures r.None? ==> forall j :: from <= j < |parts| ==> parts[j] != "models"
    decreases |parts| - from
  {
    if from == |parts| then None
    else if parts[from] == "models" then Some(from)
    else FirstModels(parts, from + 1)
  }

  /** The package of a path under a `models` directory is the directory
      above it, whatever follows. */
  lemma PkgOfModels(base: seq<string>, tail: seq<string>)
    requires forall i :: 0 <= i < |base| ==> base[i] != "" && base[i] != "models" && '/' !in base[i]
    requires forall i :: 0 <= i < |tail| ==> '/' !in tail[i]
    ensures Pkg(Text.Join(base + ["models"] + tail, "/")) == Text.Join(base, "/")
  {
    var segs := base + ["models"] + tail;
    var path := Text.Join(segs, "/");
    NoSlashSegments(base, tail);
    Text.SplitJoin(segs, '/');
    assert Pkg(path) == PkgOfParts(path, segs);
    FirstModelsAt(segs, 0, |base|);
    assert segs[..|base|] == base;
    Text.DropEmptyKeeps(base);
  }

  lemma NoSlashSegments(base: seq<string>, tail: seq<string>)
    requires forall i :: 0 <= i < |base| ==> '/' !in base[i]
    requires forall i :: 0 <= i < |tail| ==> '/' !in tail[i]
    ensures var segs := base + ["models"] + tail;
            |segs| >= 1 && forall i :: 0 <= i < |segs| ==> '/' !in segs[i]
  {
    var segs := base + ["models"] + tail;
    forall i | 0 <= i < |segs|
      ensures '/' !in segs[i]
    {
      if i > |base| {
        assert segs[i] == tail[i - |base| - 1];
      }
    }
  }

  lemma {:induction false} FirstModelsAt(parts: seq<string>, from: nat, at: nat)
    requires from <= at < |parts| && parts[at] == "models" && forall j :: from <= j < at ==> parts[j] != "models"
    ensures FirstModels(parts, from) == Some(at)
    decreases at - from
  {
    if from < at {
      FirstModelsAt(parts, from + 1, at);
    }
  }

  /** A resource with its chain of parents. */
  datatype Res = Res(id: string, parent: Option<Res>)

  /** `FullID`: the parent's full id, a dot and the id; the id alone at the
      top. */
  function FullID(r: Res): (s: string)
    ensures r.parent.None? ==> s == r.id
    ensures r.parent.Some? ==> s == FullID(r.parent.value) + "." + r.id
  {
    match r.parent
    case None => r.id
    case Some(p) => FullID(p) + "." + r.id
  }

  /** The ids from the top resource down to this one. */
  function Lineage(r: Res): (ids: seq<string>)
    ensures |ids| >= 1 && ids[|ids| - 1] == r.id
  {
    match r.parent
    case None => [r.id]
    case Some(p) => Lineage(p) + [r.id]
  }

  /** The full id is the lineage joined with dots. */
  lemma {:induction false} FullIDLineage(r: Res)
    ensures FullID(r) == Text.Join(Lineage(r), ".")
  {
    match r.parent
    case None =>
    case Some(p) =>
      FullIDLineage(p);
      Text.JoinSnoc(Lineage(p), r.id, ".");
  }

  // ---------------------------------------------------------------------
  // Layouts

  const DefaultLayout := "default"

  /** `GetLayout`: the named layout, else (once) the first default name's
      layout when that name is non-empty, else nil. */
  function GetLayout<L>(layouts: map<string, L>, name: string, defaults: seq<string>): (r: Option<L>)
    ensures name in layouts ==> r == Some(layouts[name])
    ensures name !in layouts && (|defaults| == 0 || defaults[0] == "") ==> r.None?
    ensures name !in layouts && |defaults| > 0 && defaults[0] != "" ==>
              r == if defaults[0] in layouts then Some(layouts[defaults[0]]) else None
    decreases |defaults|
  {
    if name in layouts then Some(layouts[name])
    else if |defaults| > 0 && defaults[0] != "" then GetLayout(layouts, defaults[0], [])
    else None
  }

  /** `GetLayoutOrDefault`. */
  function GetLayoutOrDefault<L>(layouts: map<string, L>, name: string): (r: Option<L>)
    ensures r.Some? <==> name in layouts || DefaultLayout in layouts
    ensures name in layouts ==> r == Some(layouts[name])
  {
    GetLayout(layouts, name, [DefaultLayout])
  }

  /** A found layout is one of the layouts, and only the first fallback is
      tried: a second default name is never consulted. */
  lemma OneFallback<L>(layouts: map<string, L>, name: string, d1: string, d2: string)
    requires name !in layouts && d1 !in layouts && d2 in layouts
    ensures GetLayout(layouts, name, [d1, d2]).None?
  {
  }

  // ---------------------------------------------------------------------
  // Permissions

  /** `HasPermission`: the permissioners' first answer that is not
      `Undef`, else the static permission's answer if there is one, else
      `Undef`. `answers` are the permissioners' answers, in order. */
  function HasPermission(answers: seq<Perm>, fixed: Option<Perm>): (r: Perm)
    ensures FirstDefined(answers) != Undef ==> r == FirstDefined(answers)
    ensures FirstDefined(answers) == Undef && fixed.Some? ==> r == fixed.value
    ensures FirstDefined(answers) == Undef && fixed.None? ==> r == Undef
  {
    var first := FirstDefined(answers);
    if first != Undef then first
    else if fixed.Some? then fixed.value
    else Undef
  }

  /** `HasContextPermission`: the context permissioners' first answer that
      is not `Undef`. */
  function HasContextPermission(answers: seq<Perm>): (r: Perm)
    ensures r == HasPermission(answers, None)
  {
    FirstDefined(answers)
  }

  /** A permissioner's answer that is not `Undef` hides every later one and
      the static permission. */
  lemma FirstAnswerWins(before: seq<Perm>, p: Perm, after: seq<Perm>, fixed: Option<Perm>)
    requires p != Undef && forall i :: 0 <= i < |before| ==> before[i] == Undef
    ensures HasPermission(before + [p] + after, fixed) == p
  {
    var answers := before + [p] + after;
    assert answers[|before|] == p;
    var k := FirstDefinedIndex(answers);
  }

  /** `DefaultDenyMode`: the configured answer, false when none is set. */
  function DefaultDenyMode(configured: Option<bool>): (r: bool)
    ensures configured.None? ==> !r
    ensures configured.Some? ==> r == configured.value
  {
    configured.GetOr(false)
  }

  // ---------------------------------------------------------------------
  // Primary fields

  /** `SetPrimaryFields`: the named fields, looked up in the model, up to
      the first unknown name, which is the error; with no names, the
      model's primary fields, an error when there are none. The list is
      reset first, so a failure leaves the fields found before it. */
  function SetPrimaryFields<F>(byName: map<string, F>, modelPrimary: seq<F>, names: seq<string>): (r: (seq<F>, Option<string>))
    ensures |names| == 0 ==> r.0 == modelPrimary && (r.1.None? <==> |modelPrimary| > 0)
    ensures |names| > 0 && r.1.None? ==> |r.0| == |names| && forall i :: 0 <= i < |names| ==> names[i] in byName && r.0[i] == byName[names[i]]
    ensures |names| > 0 && (forall i :: 0 <= i < |names| ==> names[i] in byName) ==> r.1.None?
    ensures |names| > 0 && r.1.Some? ==>
              |r.0| < |names| && r.1.value == names[|r.0|] && names[|r.0|] !in byName &&
              forall i :: 0 <= i < |r.0| ==> names[i] in byName && r.0[i] == byName[names[i]]
  {
    if |names| > 0 then LookupFields(byName, names, 0, [])
    else (modelPrimary, if |modelPrimary| > 0 then None else Some(""))
  }

  function LookupFields<F>(byName: map<string, F>, names: seq<string>, i: nat, found: seq<F>): (r: (seq<F>, Option<string>))
    requires i <= |names| && |found| == i
    requires forall k :: 0 <= k < i ==> names[k] in byName && found[k] == byName[names[k]]
    ensures r.1.None? ==> |r.0| == |names| && forall k :: 0 <= k < |names| ==> names[k] in byName && r.0[k] == byName[names[k]]
    ensures (forall k :: i <= k < |names| ==> names[k] in byName) ==> r.1.None?
    ensures r.1.Some? ==>
              i <= |r.0| < |names| && r.1.value == names[|r.0|] && names[|r.0|] !in byName &&
              forall k :: 0 <= k < |r.0| ==> names[k] in byName && r.0[k] == byName[names[k]]
    decreases |names| - i
  {
    if i == |names| then (found, None)
    else if names[i] in byName then LookupFields(byName, names, i + 1, found + [byName[names[i]]])
    else (found, Some(names[i]))
  }

  /** `HasKey`: a model without a parent that has primary fields. */
  predicate HasKey<F>(hasParent: bool, primary: seq<F>) {
    !hasParent && |primary| > 0
  }

  /** A successful `SetPrimaryFields` gives a top-level model a key; with no
      names given, it succeeds exactly when it gives one. */
  lemma PrimaryFieldsGiveKey<F>(byName: map<string, F>, modelPrimary: seq<F>, names: seq<string>)
    ensures SetPrimaryFields(byName, modelPrimary, names).1.None? ==> HasKey(false, SetPrimaryFields(byName, modelPrimary, names).0)
    ensures |names| == 0 ==> (SetPrimaryFields(byName, modelPrimary, names).1.None? <==> HasKey(false, SetPrimaryFields(byName, modelPrimary, names).0))
    ensures !HasKey(true, SetPrimaryFields(byName, modelPrimary, names).0)
  {
  }

  // ---------------------------------------------------------------------
  // Validation

  /** A value under validation: whether it has a meta, whether that meta is
      required, its name, the string the value converts to, and what the
      meta's validators return in order (`None` for nil). */
  datatype Checked<E> = Checked(hasMeta: bool, required: bool, name: string, text: string, validators: seq<Option<E>>)

  /** What `onError` receives: a blank required value, or a validator's
      error. */
  datatype Report<E> = CantBeBlank(name: string) | Failed(error: E)

  predicate Blank<E>(v: Checked<E>) {
    Text.TrimSpace(v.text) == ""
  }

  /** The errors among validator results, in order. */
  function Errors<E>(results: seq<Option<E>>): (r: seq<Report<E>>)
    ensures forall i :: 0 <= i < |r| ==> r[i].Failed?
    ensures |r| <= |results|
  {
    if |results| == 0 then []
    else (if results[0].Some? then [Failed(results[0].value)] else []) + Errors(results[1..])
  }

  /** Running validators: each error is reported, and one `onError`
      answers true for ends the run. */
  function RunValidators<E>(results: seq<Option<E>>, stop: Report<E> -> bool): (r: (seq<Report<E>>, bool))
    ensures forall i :: 0 <= i < |r.0| ==> r.0[i].Failed?
    ensures forall i :: 0 <= i < |r.0| - 1 ==> !stop(r.0[i])
    ensures r.1 <==> EndsStopping(r.0, stop)
    ensures !r.1 ==> r.0 == Errors(results)
  {
    if |results| == 0 then ([], false)
    else if results[0].Some? then
      var e := Failed(results[0].value);
      if stop(e) then ([e], true)
      else
        var rest := RunValidators(results[1..], stop);
        ([e] + rest.0, rest.1)
    else RunValidators(results[1..], stop)
  }

  /** Only the last report may be a validator's error `onError` stops at. */
  predicate StopsOnlyAtEnd<E>(reports: seq<Report<E>>, stop: Report<E> -> bool) {
    forall k :: 0 <= k < |reports| - 1 ==> reports[k].Failed? ==> !stop(reports[k])
  }

  /** The last report is a validator's error `onError` stops at. */
  predicate EndsStopping<E>(reports: seq<Report<E>>, stop: Report<E> -> bool) {
    |reports| > 0 && reports[|reports| - 1].Failed? && stop(reports[|reports| - 1])
  }

  lemma ConcatReports<E>(a: seq<Report<E>>, b: seq<Report<E>>, stop: Report<E> -> bool)
    requires StopsOnlyAtEnd(a, stop) && !EndsStopping(a, stop) && StopsOnlyAtEnd(b, stop)
    ensures StopsOnlyAtEnd(a + b, stop)
    ensures |b| > 0 ==> (EndsStopping(a + b, stop) <==> EndsStopping(b, stop))
  {
    var ab := a + b;
    forall k | 0 <= k < |ab| - 1 && ab[k].Failed?
      ensures !stop(ab[k])
    {
      if k >= |a| {
        assert ab[k] == b[k - |a|];
      }
    }
    if |b| > 0 {
      assert ab[|ab| - 1] == b[|b| - 1];
    }
  }

  /** A value whose meta is required and which is blank. */
  predicate RequiredBlank<E>(v: Checked<E>) {
    v.hasMeta && v.required && Blank(v)
  }

  /** What one value reports when nothing stops. */
  function Here<E>(v: Checked<E>): seq<Report<E>> {
    if !v.hasMeta then []
    else if Blank(v) then (if v.required then [CantBeBlank(v.name)] else [])
    else Errors(v.validators)
  }

  /** One value of the loop: its reports and whether one stopped it. */
  function ValueStep<E>(v: Checked<E>, stop: Report<E> -> bool): (r: (seq<Report<E>>, bool))
    ensures StopsOnlyAtEnd(r.0, stop)
    ensures r.1 <==> EndsStopping(r.0, stop)
    ensures !r.1 ==> r.0 == Here(v)
  {
    if !v.hasMeta then ([], false)
    else if Blank(v) then (if v.required then [CantBeBlank(v.name)] else [], false)
    else RunValidators(v.validators, stop)
  }

  /** The loop over the values from `i` on: the reports, and whether a
      report stopped it. */
  function CheckValues<E>(values: seq<Checked<E>>, i: nat, stop: Report<E> -> bool): (r: (seq<Report<E>>, bool))
    requires i <= |values|
    ensures StopsOnlyAtEnd(r.0, stop)
    ensures r.1 <==> EndsStopping(r.0, stop)
    ensures !r.1 ==> r.0 == ValueReports(values, i)
    decreases |values| - i
  {
    if i == |values| then ([], false)
    else
      var here := ValueStep(values[i], stop);
      if here.1 then here
      else
        var rest := CheckValues(values, i + 1, stop);
        ConcatReports(here.0, rest.0, stop);
        (here.0 + rest.0, rest.1)
  }

  /** Some value is required and blank; the loop's `hasBlank` matters only
      when the loop was not stopped, and then it has seen every value. */
  predicate HasRequiredBlank<E>(values: seq<Checked<E>>) {
    exists k :: 0 <= k < |values| && RequiredBlank(values[k])
  }

  /** The reports of the values from `i` on when nothing stops. */
  function ValueReports<E>(values: seq<Checked<E>>, i: nat): seq<Report<E>>
    requires i <= |values|
    decreases |values| - i
  {
    if i == |values| then [] else Here(values[i]) + ValueReports(values, i + 1)
  }

  /** `Validate`: the reports `onError` receives, in order. Under a
      requirement check the values come first; a blank required value is
      reported (whatever `onError` answers) and then keeps the resource's
      validators from running. An `onError` answering true for a
      validator's error ends everything. */
  function Validate<E>(check: bool, values: seq<Checked<E>>, resource: seq<Option<E>>, stop: Report<E> -> bool): (r: seq<Report<E>>)
    ensures !check ==> r == RunValidators(resource, stop).0
    ensures check && HasRequiredBlank(values) ==> r == CheckValues(values, 0, stop).0
    ensures StopsOnlyAtEnd(r, stop)
  {
    if check then
      var vs := CheckValues(values, 0, stop);
      if vs.1 || HasRequiredBlank(values) then vs.0
      else
        var rs := RunValidators(resource, stop);
        ConcatReports(vs.0, rs.0, stop);
        vs.0 + rs.0
    else RunValidators(resource, stop).0
  }

  /** When `onError` never stops and a required value is blank, the
      reports are exactly the values' reports: the resource's validators
      do not run. Without a blank one they follow the values'. */
  lemma ValidateNoStop<E>(values: seq<Checked<E>>, resource: seq<Option<E>>, stop: Report<E> -> bool)
    requires forall e: Report<E> :: !stop(e)
    ensures HasRequiredBlank(values) ==> Validate(true, values, resource, stop) == ValueReports(values, 0)
    ensures !HasRequiredBlank(values) ==>
              Validate(true, values, resource, stop) == ValueReports(values, 0) + Errors(resource)
  {
    var vs := CheckValues(values, 0, stop);
    assert !EndsStopping(vs.0, stop);
    var rs := RunValidators(resource, stop);
    assert !EndsStopping(rs.0, stop);
  }
}
