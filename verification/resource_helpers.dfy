/** `resource/helpers.go`: primary-key conditions from submitted values. */
module PrimaryQueryHelpers {
  import opened Wrappers
  import opened ResourceMetaValue
  import PrimaryQuery
  import Text

  /** `StringToPrimaryQuery`: the id parsed by the resource (`parse` stands
      for `ParseID`), then its condition; a parse error gives an empty
      query. */
  function StringToPrimaryQuery<ID, V, E>(scope: PrimaryQuery.Scope, fields: seq<string>, parse: string -> Result<ID, E>,
                                          values: ID -> seq<V>, s: string, exclude: bool): (r: (PrimaryQuery.Query<V>, Option<E>))
    ensures parse(s).Err? ==> r == (PrimaryQuery.Query("", []), Some(parse(s).error))
    ensures parse(s).Ok? ==> r.1.None? && r.0.args == values(parse(s).value)
    ensures parse(s).Ok? ==> r.0.sql == Text.Join(PrimaryQuery.FieldTests(scope, fields, if exclude then "<>" else "="), " AND ")
  {
    match parse(s)
    case Err(e) => (PrimaryQuery.Query("", []), Some(e))
    case Ok(id) => (PrimaryQuery.IdToPrimaryQuery(scope, fields, exclude, Some([id]), values), None)
  }

  /** `MetaValuesToPrimaryQuery`: the condition for the first string of the
      first value named `ID`; nothing without such a value. */
  function MetaValuesToPrimaryQuery<ID, V, E>(scope: PrimaryQuery.Scope, fields: seq<string>, parse: string -> Result<ID, E>,
                                              values: ID -> seq<V>, mvs: Option<MetaValues>, exclude: bool): (r: (PrimaryQuery.Query<V>, Option<E>))
    requires mvs.Some? && Get(mvs.value, "ID").Some? ==> FirstStringDefined(Get(mvs.value, "ID").value)
    ensures mvs.None? || Get(mvs.value, "ID").None? ==> r == (PrimaryQuery.Query("", []), None)
    ensures mvs.Some? && Get(mvs.value, "ID").Some? ==>
              r == StringToPrimaryQuery(scope, fields, parse, values, GetString(mvs.value, "ID"), exclude)
  {
    if mvs.Some? then
      match Get(mvs.value, "ID")
      case Some(v) => StringToPrimaryQuery(scope, fields, parse, values, FirstStringValue(v), exclude)
      case None => (PrimaryQuery.Query("", []), None)
    else (PrimaryQuery.Query("", []), None)
  }

  /** `ValuesToPrimaryQuery`: an `IN` (or `NOT IN`) test of the first
      primary field against all the values, which are the arguments; no
      values give no condition. The first primary field must exist. */
  function ValuesToPrimaryQuery<V>(quotedTable: string, quote: string -> string, tuple: nat -> string,
                                   fields: seq<string>, exclude: bool, values: seq<V>): (r: PrimaryQuery.Query<V>)
    requires |values| > 0 ==> |fields| > 0
    ensures r.args == values
    ensures |values| == 0 <==> r.sql == ""
    ensures |values| > 0 ==> r.sql == quotedTable + "." + quote(fields[0]) + (if exclude then " NOT" else "") + " IN " + tuple(|values|)
  {
    if |values| == 0 then PrimaryQuery.Query("", values)
    else
      var sql := quotedTable + "." + quote(fields[0]) + (if exclude then " NOT" else "") + " IN " + tuple(|values|);
      assert sql[|quotedTable|] == '.';
      PrimaryQuery.Query(sql, values)
  }

  /** With one primary field, the test `ValuesToPrimaryQuery` writes for a
      list of values is the one the intended `IdToPrimaryQuery` writes for
      several ids, when the table is named the same. */
  lemma SameInTest<V>(scope: PrimaryQuery.Scope, field: string, exclude: bool, ids: seq<V>)
    requires |ids| > 1
    ensures var single := (id: V) => [id];
            PrimaryQuery.IdToPrimaryQuery(scope, [field], exclude, Some(ids), single) ==
              ValuesToPrimaryQuery(scope.fromName, scope.quote, scope.tuple, [field], exclude, ids)
  {
    var single := (id: V) => [id];
    ArgsSingle(ids, single);
  }

  lemma {:induction false} ArgsSingle<V>(ids: seq<V>, single: V -> seq<V>)
    requires forall v :: single(v) == [v]
    ensures PrimaryQuery.Args(ids, single) == ids
  {
    if |ids| > 0 {
      ArgsSingle(ids[1..], single);
    }
  }
}
