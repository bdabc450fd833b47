/**
 * The entities the binder works on: the declared argument, the bag of raw named
 * values, the conversion context and what the conversion service returns.
 */
module BindingTypes {
  import opened Wrappers
  import LinkedMaps

  /**
   * The facts the binder asks of a target `Class`: whether it is an array,
   * assignable to `Iterable`, `Stream` or `Map`, whether it is `Optional` itself,
   * and the names of its declared type parameters, in declaration order.
   */
  datatype ArgType = ArgType(
    isArray: bool,
    isIterable: bool,
    isStream: bool,
    isMap: bool,
    isOptional: bool,
    typeParameters: seq<string>)

  /** A named, typed argument with its generic type arguments and its `@Format` value, if annotated. */
  datatype Argument = Argument(
    name: string,
    typ: ArgType,
    genericTypes: seq<ArgType>,
    format: Option<string>)

  /** An opaque locale, passed through to the conversion context. */
  datatype Locale = Locale(tag: string)

  /**
   * `ConvertibleValues`: a single-value lookup, and for `ConvertibleMultiValues`
   * also `getAll`, which yields null (a missing key) or a list, possibly empty.
   */
  datatype Source<V> =
    | SingleValued(values: map<string, V>)
    | MultiValued(values: map<string, V>, allValues: map<string, seq<V>>)

  /** `values.get(key, Object.class)`. */
  function Lookup<V>(src: Source<V>, key: string): Option<V>
  {
    if key in src.values then Some(src.values[key]) else None
  }

  /** `multiValues.getAll(key)`, null when the key is missing. */
  function LookupAll<V>(src: Source<V>, key: string): Option<seq<V>>
    requires src.MultiValued?
  {
    if key in src.allValues then Some(src.allValues[key]) else None
  }

  /** The raw value handed to the conversion service: one value, a list of them, or the whole source. */
  datatype RawValue<V> = One(v: V) | All(vs: seq<V>) | Whole(source: Source<V>)

  /** The type-parameter map: type variable name to generic type, in declaration order. */
  type TypeMap = LinkedMaps.Entries<string, ArgType>

  /** The four shapes of `ConversionContext` the binder creates (`DEFAULT` and three `of` factories). */
  datatype ConversionContext =
    | Default
    | WithTypeArguments(typeArguments: TypeMap)
    | WithFormat(format: string, locale: Locale)
    | WithTypeArgumentsAndFormat(typeArguments: TypeMap, format: string, locale: Locale)

  /** The type-variable map a conversion sees in the context, if any. */
  function TypeArgumentsOf(ctx: ConversionContext): Option<TypeMap>
  {
    match ctx
    case WithTypeArguments(m) => Some(m)
    case WithTypeArgumentsAndFormat(m, _, _) => Some(m)
    case _ => None
  }

  /** The format pattern and locale a conversion sees in the context, if any. */
  function FormatOf(ctx: ConversionContext): Option<(string, Locale)>
  {
    match ctx
    case WithFormat(f, l) => Some((f, l))
    case WithTypeArgumentsAndFormat(_, f, l) => Some((f, l))
    case _ => None
  }

  /** A converted object: a plain value, or an `Optional` holding another object or nothing. */
  datatype Obj<V> = Plain(v: V) | Opt(inner: Option<Obj<V>>)

  /**
   * What a bind returns: the `Optional<T>` result, or the `ClassCastException`
   * raised when an `Optional` target's conversion result does not hold an `Optional`.
   */
  datatype Outcome<V> = Bound(result: Option<Obj<V>>) | ClassCastFailure(found: V)

  /** `ConversionService.convert(value, targetType, context)`; the value may be null. */
  type Converter<!V> = (Option<RawValue<V>>, ArgType, ConversionContext) -> Option<Obj<V>>
}
