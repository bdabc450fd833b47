/**
 * `doBind`: resolve the raw value under the annotation value, retry once under the
 * hyphenated name, build the conversion context, convert, and unwrap an `Optional` target.
 */
module ArgumentBinder {
  import opened Wrappers
  import opened LinkedMaps
  import opened BindingTypes
  import opened ValueResolver
  import opened ContextBuilder

  /** `getFallbackFormat`: the hyphenated form of the argument's name. */
  function FallbackName(arg: Argument, hyphenate: string -> string): string
  {
    hyphenate(arg.name)
  }

  /** The context `doBind` hands to the conversion service for this argument and locale. */
  function ContextFor(arg: Argument, locale: Locale): ConversionContext
  {
    BuildContext(arg.format, TypeParameterMap(arg), locale)
  }

  /**
   * `doConvert`: call the conversion service once; for the `Optional` target type a
   * present result is unwrapped one level (a cast that fails if it holds no `Optional`).
   */
  function DoConvert<V>(convert: Converter<V>, value: Option<RawValue<V>>, target: ArgType, ctx: ConversionContext): (r: Outcome<V>)
    // anything but a present result for the Optional target is passed on unchanged
    ensures !(target.isOptional && convert(value, target, ctx).Some?) ==> r == Bound(convert(value, target, ctx))
    // an Optional holding an Optional is flattened by exactly one level
    ensures target.isOptional && convert(value, target, ctx).Some? && convert(value, target, ctx).value.Opt? ==>
      r == Bound(convert(value, target, ctx).value.inner)
    // an Optional target whose result holds a plain value is a failed cast of that value
    ensures r.ClassCastFailure? <==>
      target.isOptional && convert(value, target, ctx).Some? && convert(value, target, ctx).value.Plain?
    ensures r.ClassCastFailure? ==> convert(value, target, ctx) == Some(Plain(r.found))
  {
    var result := convert(value, target, ctx);
    if target.isOptional && result.Some? then
      match result.value
      case Opt(inner) => Bound(inner)
      case Plain(v) => ClassCastFailure(v)
    else
      Bound(result)
  }

  /** The fallback name depends on the argument's name alone, not on its type or annotations. */
  lemma FallbackDependsOnNameOnly(a1: Argument, a2: Argument, hyphenate: string -> string)
    requires a1.name == a2.name
    ensures FallbackName(a1, hyphenate) == FallbackName(a2, hyphenate)
  {
  }

  /** For the `Optional` target, a present bound value is the double wrapping's innermost object. */
  lemma OptionalTargetCollapses<V>(convert: Converter<V>, value: Option<RawValue<V>>, target: ArgType, ctx: ConversionContext, o: Obj<V>)
    requires target.isOptional && DoConvert(convert, value, target, ctx) == Bound(Some(o))
    ensures convert(value, target, ctx) == Some(Opt(Some(o)))
  {
  }

  /**
   * The `for` loop of `doBind`: a fresh `LinkedHashMap`, then `put(typeParameters[i], genericTypes[i])`
   * for each i in turn. The map has distinct keys, exactly the type-parameter names, and with
   * distinct names it lists each parameter with its generic type, in declaration order.
   */
  method FillTypeParameterMap(typeParameters: seq<string>, genericTypes: seq<ArgType>) returns (m: TypeMap)
    requires |typeParameters| == |genericTypes|
    ensures m == Filled(typeParameters, genericTypes)
    ensures Distinct(Keys(m)) && forall k :: k in Keys(m) <==> k in typeParameters
    ensures Distinct(typeParameters) ==>
      |m| == |typeParameters|
      && forall i :: 0 <= i < |m| ==> m[i] == (typeParameters[i], genericTypes[i])
  {
    m := [];
    for i := 0 to |typeParameters|
      invariant m == Filled(typeParameters[..i], genericTypes[..i])
    {
      assert typeParameters[..i + 1][..i] == typeParameters[..i];
      assert genericTypes[..i + 1][..i] == genericTypes[..i];
      m := Put(m, typeParameters[i], genericTypes[i]);
    }
    assert typeParameters[..|typeParameters|] == typeParameters;
    assert genericTypes[..|genericTypes|] == genericTypes;
    FilledKeys(typeParameters, genericTypes);
    if Distinct(typeParameters) {
      FilledInDeclarationOrder(typeParameters, genericTypes);
    }
  }

  /**
   * `doBind`. `r` is what it returns; the ghost `lookups` lists the annotation values
   * `resolveValue` was called with, in order, and the ghost `call` is the value, type
   * and context the conversion service received, or `None` when it was not called.
   */
  method DoBind<V>(arg: Argument, src: Source<V>, annotationValue: string, locale: Locale,
                   hyphenate: string -> string, convert: Converter<V>)
    returns (r: Outcome<V>, ghost lookups: seq<string>,
             ghost call: Option<(Option<RawValue<V>>, ArgType, ConversionContext)>)
    // resolveValue runs once under the annotation value, and a second time only under
    // the fallback name, only after a miss, and only if the fallback differs
    ensures 1 <= |lookups| <= 2 && lookups[0] == annotationValue
    ensures |lookups| == 2 <==>
      ResolveValue(arg, src, annotationValue).None? && FallbackName(arg, hyphenate) != annotationValue
    ensures |lookups| == 2 ==> lookups[1] == FallbackName(arg, hyphenate)
    // the service is skipped exactly when the retry also missed, and the result is then empty
    ensures call.None? <==> |lookups| == 2 && ResolveValue(arg, src, lookups[1]).None?
    ensures call.None? ==> r == Bound(None)
    // otherwise it gets the last resolved value (possibly null), the argument type and the context
    ensures call.Some? ==>
      call.value == (ResolveValue(arg, src, lookups[|lookups| - 1]), arg.typ, ContextFor(arg, locale))
      && r == DoConvert(convert, call.value.0, call.value.1, call.value.2)
    // the same, stated on the result alone
    ensures ResolveValue(arg, src, annotationValue).Some? ==>
      r == DoConvert(convert, ResolveValue(arg, src, annotationValue), arg.typ, ContextFor(arg, locale))
    ensures ResolveValue(arg, src, annotationValue).None? && FallbackName(arg, hyphenate) == annotationValue ==>
      r == DoConvert(convert, None, arg.typ, ContextFor(arg, locale))
    ensures ResolveValue(arg, src, annotationValue).None? && FallbackName(arg, hyphenate) != annotationValue ==>
      r == if ResolveValue(arg, src, FallbackName(arg, hyphenate)).None? then Bound(None)
           else DoConvert(convert, ResolveValue(arg, src, FallbackName(arg, hyphenate)), arg.typ, ContextFor(arg, locale))
  {
    var argumentType := arg.typ;
    var key := annotationValue;
    var value := ResolveValue(arg, src, key);
    lookups := [key];
    call := None;
    var formatAnn := arg.format;
    if value.None? {
      var fallbackName := FallbackName(arg, hyphenate);
      if key != fallbackName {
        key := fallbackName;
        value := ResolveValue(arg, src, key);
        lookups := lookups + [key];
        if value.None? {
          r := Bound(None);
          return;
        }
      }
    }

    var genericTypes := arg.genericTypes;
    var typeParameterMap: Option<TypeMap> := None;
    if |genericTypes| > 0 {
      var typeParameters := argumentType.typeParameters;
      if |typeParameters| == |genericTypes| {
        var m := FillTypeParameterMap(typeParameters, genericTypes);
        typeParameterMap := Some(m);
      }
    }

    var conversionContext := BuildContext(formatAnn, typeParameterMap, locale);
    call := Some((value, argumentType, conversionContext));
    r := DoConvert(convert, value, argumentType, conversionContext);
  }

  /**
   * With an empty annotation value the fallback guard compares against "" rather than
   * the name actually looked up, so a name that hyphenates to itself is looked up twice.
   */
  lemma EmptyKeyRetriesSameName<V>(arg: Argument, src: Source<V>, hyphenate: string -> string)
    requires |arg.name| > 0 && hyphenate(arg.name) == arg.name
    ensures FallbackName(arg, hyphenate) != ""
    ensures EffectiveKey(arg, FallbackName(arg, hyphenate)) == EffectiveKey(arg, "")
    ensures ResolveValue(arg, src, FallbackName(arg, hyphenate)) == ResolveValue(arg, src, "")
  {
  }
}
