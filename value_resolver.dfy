/** Choosing the raw value for an argument from a bag of named values (`resolveValue`). */
module ValueResolver {
  import opened Wrappers
  import opened BindingTypes

  /** An array, `Iterable` or `Stream` target wants every value of its key. */
  predicate IsManyObjects(t: ArgType)
  {
    t.isArray || t.isIterable || t.isStream
  }

  /** An empty annotation value stands for the argument's own name. */
  function EffectiveKey(arg: Argument, annotationValue: string): string
  {
    if |annotationValue| == 0 then arg.name else annotationValue
  }

  /** `resolveValue`: `None` is the Java `null`. */
  function ResolveValue<V>(arg: Argument, src: Source<V>, annotationValue: string): (r: Option<RawValue<V>>)
    // a list is only ever produced for a many-valued target over a multi-valued source, and never empty
    ensures r.Some? && r.value.All? ==>
      src.MultiValued? && IsManyObjects(arg.typ) && |r.value.vs| > 0
      && LookupAll(src, EffectiveKey(arg, annotationValue)) == Some(r.value.vs)
    // the whole source is only ever produced for a Map target, and is exactly the source
    ensures r.Some? && r.value.Whole? ==>
      !(src.MultiValued? && IsManyObjects(arg.typ)) && arg.typ.isMap && r.value.source == src
    // a single value is the lookup under the effective key, and only outside the many-valued case
    ensures r.Some? && r.value.One? ==>
      !(src.MultiValued? && IsManyObjects(arg.typ)) && !arg.typ.isMap
      && Lookup(src, EffectiveKey(arg, annotationValue)) == Some(r.value.v)
    // absence: a missing or empty list, or a missing single value
    ensures r.None? <==>
      if src.MultiValued? && IsManyObjects(arg.typ) then
        LookupAll(src, EffectiveKey(arg, annotationValue)) in {None, Some([])}
      else
        !arg.typ.isMap && Lookup(src, EffectiveKey(arg, annotationValue)).None?
  {
    var key := EffectiveKey(arg, annotationValue);
    var value := Lookup(src, key);
    if src.MultiValued? && IsManyObjects(arg.typ) then
      var all := LookupAll(src, key);
      if all.Some? && |all.value| == 0 then None
      else if all.Some? then Some(All(all.value))
      else None
    else if arg.typ.isMap then Some(Whole(src))
    else if value.Some? then Some(One(value.value))
    else None
  }

  /** An empty annotation value resolves exactly as the argument's name would. */
  lemma EmptyKeyUsesName<V>(arg: Argument, src: Source<V>)
    ensures ResolveValue(arg, src, "") == ResolveValue(arg, src, arg.name)
  {
  }

  /** A non-empty annotation value is itself the lookup key. */
  lemma NonEmptyKeyIsUsedAsIs<V>(arg: Argument, src: Source<V>, annotationValue: string, other: Argument)
    requires |annotationValue| > 0 && other.typ == arg.typ
    ensures ResolveValue(arg, src, annotationValue) == ResolveValue(other, src, annotationValue)
  {
  }

  /**
   * A many-valued target over a multi-valued source takes `getAll` whole: an empty
   * list is absent, and the single-value lookup plays no part.
   */
  lemma ManyValuedUsesGetAll<V>(arg: Argument, src: Source<V>, annotationValue: string, otherValues: map<string, V>)
    requires src.MultiValued? && IsManyObjects(arg.typ)
    ensures ResolveValue(arg, src, annotationValue) ==
      match LookupAll(src, EffectiveKey(arg, annotationValue))
      case None => None
      case Some(vs) => if vs == [] then None else Some(All(vs))
    ensures ResolveValue(arg, src, annotationValue) ==
      ResolveValue(arg, MultiValued(otherValues, src.allValues), annotationValue)
  {
  }

  /** Outside the many-valued case, a Map target receives the whole source whatever the key. */
  lemma MapTargetTakesWholeSource<V>(arg: Argument, src: Source<V>, key1: string, key2: string)
    requires !(src.MultiValued? && IsManyObjects(arg.typ)) && arg.typ.isMap
    ensures ResolveValue(arg, src, key1) == Some(Whole(src))
    ensures ResolveValue(arg, src, key1) == ResolveValue(arg, src, key2)
  {
  }

  /** Every other target receives the single value under the effective key. */
  lemma OtherTargetTakesSingleValue<V>(arg: Argument, src: Source<V>, annotationValue: string)
    requires !(src.MultiValued? && IsManyObjects(arg.typ)) && !arg.typ.isMap
    ensures ResolveValue(arg, src, annotationValue) ==
      match Lookup(src, EffectiveKey(arg, annotationValue))
      case None => None
      case Some(v) => Some(One(v))
  {
  }
}
