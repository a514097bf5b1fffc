/** `context_proxy.go`: a context with local values in front of a wrapped
    context, and a proxy that asks a getter for its context. Keys and
    values are `interface{}` values, as in the context data. */
module ContextProxy {
  import opened Wrappers
  import opened ContextData

  /** A wrapped context: a foreign one, whose values `foreign` gives, or
      another local context. */
  datatype Inner = Foreign(id: nat) | Nested(local: LocalContext)

  /** `LocalContext`: the wrapped context and the local values, each
      `None` for nil. A nil map is what the zero value and `BackupValues`
      hold; it can be read but not written. */
  datatype LocalContext = LocalContext(context: Option<Inner>, values: Option<map<Value, Value>>)

  /** The local values; a nil map holds none. */
  function Entries(l: LocalContext): map<Value, Value> {
    if l.values.Some? then l.values.value else map[]
  }

  function InnerValue(c: Inner, key: Value, foreign: (nat, Value) -> Value): Value
    decreases c, 0
  {
    match c
    case Foreign(id) => foreign(id, key)
    case Nested(l) => LocalValue(l, key, foreign)
  }

  /** `LocalContext.Value`: the local value when the key is set locally
      (even to nil), else the wrapped context's value, else nil. */
  function LocalValue(l: LocalContext, key: Value, foreign: (nat, Value) -> Value): (r: Value)
    ensures key in Entries(l) ==> r == Entries(l)[key]
    ensures key !in Entries(l) && l.context.None? ==> r == Nil
    decreases l, 1
  {
    if key in Entries(l) then Entries(l)[key]
    else if l.context.Some? then InnerValue(l.context.value, key, foreign)
    else Nil
  }

  /** `LocalContext.Get`: the same value; found for any local key, but for
      an inherited key only when its value is not nil. */
  function Get(l: LocalContext, key: Value, foreign: (nat, Value) -> Value): (r: (Value, bool))
    ensures r.0 == LocalValue(l, key, foreign)
    ensures r.1 <==> key in Entries(l) || r.0 != Nil
  {
    if key in Entries(l) then (Entries(l)[key], true)
    else if l.context.Some? then
      var v := InnerValue(l.context.value, key, foreign);
      (v, v != Nil)
    else (Nil, false)
  }

  /** `SetValue`, on an allocated map. */
  function SetValue(l: LocalContext, key: Value, value: Value): (r: LocalContext)
    requires l.values.Some?
    ensures r.context == l.context && r.values == Some(l.values.value[key := value])
  {
    l.(values := Some(l.values.value[key := value]))
  }

  /** `SetValues`: the first pair and then every following pair, which
      must come in twos. Writing into a nil map panics, so the map must
      be allocated. */
  function SetValues(l: LocalContext, key: Value, value: Value, pairs: seq<Value>): (r: LocalContext)
    requires l.values.Some?
    requires |pairs| % 2 == 0
    ensures r.context == l.context && r.values.Some?
    ensures forall k :: LastPair(pairs, k).Some? ==> k in r.values.value && r.values.value[k] == LastPair(pairs, k).value
    ensures LastPair(pairs, key).None? ==> key in r.values.value && r.values.value[key] == value
    ensures forall k :: LastPair(pairs, k).None? && k != key ==> (k in r.values.value <==> k in l.values.value)
  {
    var before := l.values.value;
    var m := Assign(before[key := value], pairs);
    forall k
      ensures LastPair(pairs, k).Some? ==> k in m && m[k] == LastPair(pairs, k).value
      ensures LastPair(pairs, key).None? ==> key in m && m[key] == value
      ensures LastPair(pairs, k).None? && k != key ==> (k in m <==> k in before)
    {
      AssignValue(before[key := value], pairs, k);
      AssignValue(before[key := value], pairs, key);
    }
    l.(values := Some(m))
  }

  /** `WithContext`: a copy wrapping `ctx`, with the same local values;
      the receiver is a value and stays as it was. */
  function WithContext(l: LocalContext, ctx: Inner): (r: LocalContext)
    ensures r.context == Some(ctx) && r.values == l.values
  {
    l.(context := Some(ctx))
  }

  /** `BackupValues`: the wrapped context moves into a fresh local context
      in between, whose map is nil; the returned closure is `Restore` with
      the old context. */
  function BackupValues(l: LocalContext): (r: LocalContext)
    ensures r.values == l.values && r.context == Some(Nested(LocalContext(l.context, None)))
  {
    l.(context := Some(Nested(LocalContext(l.context, None))))
  }

  function Restore(l: LocalContext, saved: Option<Inner>): (r: LocalContext)
    ensures r.values == l.values && r.context == saved
  {
    l.(context := saved)
  }

  /** Backing up changes no answer, and the closure, whatever the
      wrapped context became meanwhile, brings the old one back. */
  lemma BackupTransparent(l: LocalContext, key: Value, foreign: (nat, Value) -> Value, meanwhile: Option<Inner>)
    ensures LocalValue(BackupValues(l), key, foreign) == LocalValue(l, key, foreign)
    ensures Restore(BackupValues(l).(context := meanwhile), l.context) == l
  {
    if key !in Entries(l) {
      var between := LocalContext(l.context, None);
      assert LocalValue(BackupValues(l), key, foreign) == LocalValue(between, key, foreign);
    }
  }

  /** `ContextProxy.Get`: the value of the context the getter gives (nil
      without one); found exactly when that value is not nil, unlike a
      local context, which also finds keys set locally to nil. */
  function ProxyGet(ctx: Option<Inner>, key: Value, foreign: (nat, Value) -> Value): (r: (Value, bool))
    ensures ctx.None? ==> r == (Nil, false)
    ensures ctx.Some? ==> r.0 == InnerValue(ctx.value, key, foreign)
    ensures r.1 <==> r.0 != Nil
  {
    var v := if ctx.Some? then InnerValue(ctx.value, key, foreign) else Nil;
    (v, v != Nil)
  }

  /** A key set locally to nil: the local context finds it, a proxy over
      that context does not. */
  lemma NilLocalKey(l: LocalContext, key: Value, foreign: (nat, Value) -> Value)
    requires key in Entries(l) && Entries(l)[key] == Nil
    ensures Get(l, key, foreign) == (Nil, true)
    ensures ProxyGet(Some(Nested(l)), key, foreign) == (Nil, false)
  {
  }
}
