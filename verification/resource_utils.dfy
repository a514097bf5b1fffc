/** `resource/utils.go`: the SQL condition selecting records by primary
    key. The table name, the identifier quoting and the `(?, ...)` tuple
    are those of the database scope, taken here as given. */
module PrimaryQuery {
  import opened Wrappers
  import Text

  /** `scope.FromName()`, `scope.Quote` and `aorm.TupleQueryArgs`. */
  datatype Scope = Scope(fromName: string, quote: string -> string, tuple: nat -> string)

  /** A condition and its arguments. */
  datatype Query<V> = Query(sql: string, args: seq<V>)

  /** The primary values of every id, concatenated in order. */
  function Args<ID, V>(ids: seq<ID>, values: ID -> seq<V>): (r: seq<V>)
    ensures |ids| == 1 ==> r == values(ids[0])
  {
    if |ids| == 0 then [] else values(ids[0]) + Args(ids[1..], values)
  }

  /** The arguments of ids put together are those of each part in turn. */
  lemma {:induction false} ArgsAppend<ID, V>(a: seq<ID>, b: seq<ID>, values: ID -> seq<V>)
    ensures Args(a + b, values) == Args(a, values) + Args(b, values)
  {
    if |a| == 0 {
      assert a + b == b;
    } else {
      assert (a + b)[1..] == a[1..] + b;
      ArgsAppend(a[1..], b, values);
    }
  }

  /** `T.F op ?` for one primary field. */
  function FieldTest(scope: Scope, field: string, op: string): string {
    scope.fromName + "." + scope.quote(field) + " " + op + " ?"
  }

  /** One test per primary field, in order. */
  function FieldTests(scope: Scope, fields: seq<string>, op: string): (r: seq<string>)
    ensures |r| == |fields|
    ensures forall i :: 0 <= i < |fields| ==> r[i] == FieldTest(scope, fields[i], op)
  {
    seq(|fields|, i requires 0 <= i < |fields| => FieldTest(scope, fields[i], op))
  }

  /** One parenthesised group per id. */
  function Groups(group: string, n: nat): (r: seq<string>)
    ensures |r| == n && forall i :: 0 <= i < n ==> r[i] == group
  {
    seq(n, _ => group)
  }

  /** The single-field test for several ids. */
  function InTest(scope: Scope, field: string, exclude: bool, count: nat): string {
    scope.fromName + "." + scope.quote(field) + (if exclude then " NOT" else "") + " IN " + scope.tuple(count)
  }

  /** `IdToPrimaryQuery` for the cases that assign the query. The variadic
      ids are `None` for a nil slice, which gives no condition; a slice of
      at most one id, even an empty non-nil one, gives the `AND` of one
      test per field (`<>` when excluding); several ids with several
      fields give the `OR` of one group per id, under `NOT (...)` when
      excluding. `singleField` is the query for several ids and one field,
      where the two revisions differ. */
  function Build<ID, V>(scope: Scope, fields: seq<string>, exclude: bool, ids: Option<seq<ID>>, values: ID -> seq<V>, singleField: string): (r: Query<V>)
    ensures ids.None? ==> r == Query("", [])
    ensures ids.Some? ==> r.args == Args(ids.value, values)
    ensures ids.Some? && |ids.value| <= 1 ==> r.sql == Text.Join(FieldTests(scope, fields, if exclude then "<>" else "="), " AND ")
    ensures ids.Some? && |ids.value| > 1 && |fields| == 1 ==> r.sql == singleField
    ensures ids.Some? && |ids.value| > 1 && |fields| != 1 ==>
              var group := "(" + Text.Join(FieldTests(scope, fields, "="), " AND ") + ")";
              var any := Text.Join(Groups(group, |ids.value|), " OR ");
              r.sql == if exclude then "NOT (" + any + ")" else any
  {
    match ids
    case None => Query("", [])
    case Some(ids) =>
      var args := Args(ids, values);
      if |ids| > 1 then
        if |fields| == 1 then Query(singleField, args)
        else
          var group := "(" + Text.Join(FieldTests(scope, fields, "="), " AND ") + ")";
          var any := Text.Join(Groups(group, |ids|), " OR ");
          Query(if exclude then "NOT (" + any + ")" else any, args)
      else
        Query(Text.Join(FieldTests(scope, fields, if exclude then "<>" else "="), " AND "), args)
  }

  /** As written: for several ids and a single field the `IN` test is built
      but never becomes the query, which stays empty. */
  function IdToPrimaryQueryAsWritten<ID, V>(scope: Scope, fields: seq<string>, exclude: bool, ids: Option<seq<ID>>, values: ID -> seq<V>): (r: Query<V>)
    ensures ids.Some? && |ids.value| > 1 && |fields| == 1 ==> r.sql == "" && r.args == Args(ids.value, values)
  {
    Build(scope, fields, exclude, ids, values, "")
  }

  /** As intended: for several ids and a single field the query is the
      `IN` (or `NOT IN`) test over all the arguments. */
  function IdToPrimaryQuery<ID, V>(scope: Scope, fields: seq<string>, exclude: bool, ids: Option<seq<ID>>, values: ID -> seq<V>): (r: Query<V>)
    ensures ids.Some? && |ids.value| > 1 && |fields| == 1 ==>
              r.sql == InTest(scope, fields[0], exclude, |Args(ids.value, values)|) && r.args == Args(ids.value, values)
  {
    var single := if ids.Some? && |fields| == 1 then InTest(scope, fields[0], exclude, |Args(ids.value, values)|) else "";
    Build(scope, fields, exclude, ids, values, single)
  }

  /** A nil id slice gives no condition, while an empty non-nil one is
      taken as a single id: the field tests are written with no
      arguments for them. */
  lemma NilAndEmptyIds<ID, V>(scope: Scope, exclude: bool, values: ID -> seq<V>)
    ensures IdToPrimaryQuery(scope, ["id"], exclude, None, values) == Query("", [])
    ensures IdToPrimaryQuery(scope, ["id"], exclude, Some([]), values) ==
              Query(scope.fromName + "." + scope.quote("id") + (if exclude then " <> ?" else " = ?"), [])
  {
    var tests := FieldTests(scope, ["id"], if exclude then "<>" else "=");
    assert tests == [FieldTest(scope, "id", if exclude then "<>" else "=")];
    Text.JoinSingle(tests[0], " AND ");
  }

  /** Two ids and one primary field: the query is lost as written, while
      the arguments are still returned; as intended it is the `IN` test. */
  lemma SingleFieldQueryLost(scope: Scope, exclude: bool)
    ensures var values := (id: int) => [id];
            IdToPrimaryQueryAsWritten(scope, ["id"], exclude, Some([1, 2]), values) == Query("", [1, 2]) &&
            IdToPrimaryQuery(scope, ["id"], exclude, Some([1, 2]), values) ==
              Query(scope.fromName + "." + scope.quote("id") + (if exclude then " NOT" else "") + " IN " + scope.tuple(2), [1, 2])
  {
    var values := (id: int) => [id];
    assert Args([1, 2], values) == [1, 2] by {
      assert [1, 2][1..] == [2];
      assert [2][1..] == [];
    }
  }

  /** One id and two primary fields: both tests, joined by `AND`. */
  lemma OneIdTwoFields<ID, V>(scope: Scope, id: ID, values: ID -> seq<V>)
    ensures IdToPrimaryQuery(scope, ["a", "b"], false, Some([id]), values).sql ==
              scope.fromName + "." + scope.quote("a") + " = ?" + " AND " + scope.fromName + "." + scope.quote("b") + " = ?"
  {
    var tests := FieldTests(scope, ["a", "b"], "=");
    assert tests == [FieldTest(scope, "a", "="), FieldTest(scope, "b", "=")];
    assert tests[1..] == [FieldTest(scope, "b", "=")];
    Text.JoinSingle(FieldTest(scope, "b", "="), " AND ");
  }
}
