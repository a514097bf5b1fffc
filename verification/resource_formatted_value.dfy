/** `resource/formatted_value.go`: a value formatted for display, with its
    zero test and its safe (escaped) variants. */
module FormattedValue {
  import opened Wrappers

  /** A raw value: `zeroer` is what its `IsZero` answers when it implements
      `aorm.Zeroer`, `None` when it does not. */
  datatype Raw = Raw(zeroer: Option<bool>)

  /** The fields the operations read. `isZeroF` is the `IsZeroF` callback
      already applied to the record; a nil raw is `None`. */
  datatype FormattedValue = FormattedValue(
    isZeroF: Option<Raw -> bool>,
    noZero: bool,
    zero: bool,
    raw: Option<Raw>,
    raws: Option<Raw>,
    value: string,
    values: seq<string>,
    safeValue: string,
    safeValues: seq<string>,
    slice: bool)

  /** `IsZero`. */
  function IsZero(v: FormattedValue): (r: bool)
    ensures v.noZero ==> !r
    ensures !v.noZero && v.zero ==> r
    ensures !v.noZero && !v.zero && v.slice && v.raws.None? ==> r
    ensures !v.noZero && !v.zero && !v.slice && v.raw.None? ==> r
    ensures !v.noZero && !v.zero && v.slice && v.raws.Some? && v.isZeroF.Some? ==> r == v.isZeroF.value(v.raws.value)
    ensures !v.noZero && !v.zero && !v.slice && v.raw.Some? && v.raw.value.zeroer.Some? ==> r == v.raw.value.zeroer.value
    ensures r ==> !v.noZero
  {
    if v.noZero then false
    else if v.zero then true
    else if v.slice then
      match v.raws
      case None => true
      case Some(raws) =>
        match v.isZeroF
        case None => raws.zeroer.GetOr(false)
        case Some(f) => f(raws)
    else
      match v.raw
      case None => true
      case Some(raw) =>
        if raw.zeroer.Some? then raw.zeroer.value
        else match v.isZeroF
          case Some(f) => f(raw)
          case None => false
  }

  /** `SetNonZero`: the value is never zero afterwards. */
  function SetNonZero(v: FormattedValue): (r: FormattedValue)
    ensures !IsZero(r)
    ensures r.(noZero := v.noZero) == v
  {
    v.(noZero := true)
  }

  /** `SetZero`: the value is zero afterwards, unless it was set non-zero. */
  function SetZero(v: FormattedValue): (r: FormattedValue)
    ensures IsZero(r) <==> !v.noZero
    ensures r.(zero := v.zero) == v
  {
    v.(zero := true)
  }

  /** Setting non-zero wins over setting zero, in either order. */
  lemma NonZeroWins(v: FormattedValue)
    ensures !IsZero(SetZero(SetNonZero(v))) && !IsZero(SetNonZero(SetZero(v)))
  {
  }

  /** The zero test of a non-slice value asks the raw value itself before
      the callback, and the callback is never consulted for a raw value
      that implements the zero test. */
  lemma ZeroerBeforeCallback(v: FormattedValue, f: Raw -> bool)
    requires !v.slice && v.raw.Some? && v.raw.value.zeroer.Some?
    ensures IsZero(v.(isZeroF := Some(f))) == IsZero(v.(isZeroF := None))
  {
  }

  /** `GetSafeValue`: the safe value, or the value when it is empty. */
  function GetSafeValue(v: FormattedValue): (r: string)
    ensures v.safeValue != "" ==> r == v.safeValue
    ensures v.safeValue == "" ==> r == v.value
  {
    if v.safeValue != "" then v.safeValue else v.value
  }

  /** `GetSafeValues`: the safe values, or the values when there are none. */
  function GetSafeValues(v: FormattedValue): (r: seq<string>)
    ensures |v.safeValues| > 0 ==> r == v.safeValues
    ensures |v.safeValues| == 0 ==> r == v.values
  {
    if |v.safeValues| > 0 then v.safeValues else v.values
  }
}
