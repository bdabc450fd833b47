# Annotated argument binding, modelled in Dafny

This project models the decision logic of `AbstractAnnotatedArgumentBinder`, the base class
that binds one annotated method argument (a request parameter, header, path variable...)
from a bag of raw named values. Binding an argument involves four decisions:

1. **Which raw value** (`resolveValue`, module `ValueResolver`). An empty annotation value
   means the argument's name. A target that is an array, `Iterable` or `Stream`, bound from a
   multi-valued source, takes the full `getAll` list; an empty list counts as absent, and the
   single-value lookup is discarded. Outside that case, a `Map` target takes the whole source,
   whatever the key. Any other target takes the single value under the key.
2. **One retry** (`doBind`, module `ArgumentBinder`). After a miss, the lookup is repeated
   under the hyphenated name of the argument. This happens only when that name differs from
   the annotation value. A second miss returns an empty result without calling the
   conversion service.
3. **The conversion context** (module `ContextBuilder`). A type-parameter map is built when
   the argument has generic types and their number equals the target type's type-parameter
   count. The map and an optional `@Format` value (with the locale) give one of four context
   shapes.
4. **Conversion and unwrap** (`doConvert`). The conversion service is called once. A present
   result for the `Optional` target type is unwrapped by one level.

`doBind` is a method because the source reassigns its locals across the retry and fills the
`LinkedHashMap` in a `for` loop. The loop (in `FillTypeParameterMap`) is verified against
`Filled`, a function that describes the same sequence of `put`s. The other operations are
functions. The model makes these choices:

- A `LinkedHashMap` is the sequence of its entries (`LinkedMaps`). A `put` of a key that is
  already present overwrites that key's value where it stands.
- Java's `null` and an empty `Optional` are both `None`.
- The conversion service and `NameUtils.hyphenate` are opaque, total function parameters.
  `DoBind`'s contract states exactly what the service receives, and what is done with its
  answer.
- The cast `(Optional<T>) result.get()` is a checked cast. The model therefore has an outcome
  `ClassCastFailure` for the case where the service returns a non-`Optional` for an
  `Optional` target.

Two points where the code's behaviour may be unexpected are modelled as written:

- Suppose the first lookup misses and the hyphenated name equals the annotation value. The
  code neither retries nor returns early: it calls the conversion service with a null value.
  `DoBind` states this case separately.
- The retry guard compares the hyphenated name with the annotation value *as given*. It does
  not compare it with the key that was actually looked up. Take an empty annotation value
  and a name that hyphenates to itself (`id`): the same key is looked up twice, and a miss
  then ends in an empty result, not in a conversion of null. `EmptyKeyRetriesSameName`
  shows that the two lookups coincide.

## Model

Three one-line helpers copy their source definitions and carry no contract of their own:
`ValueResolver.IsManyObjects` (lines 113-115), `ValueResolver.EffectiveKey` (lines 94-96) and
`ArgumentBinder.FallbackName` (lines 127-129). Their behaviour is stated by the rows for
`ValueResolver.ResolveValue` and `ValueResolver.ManyValuedUsesGetAll`, by
`ValueResolver.EmptyKeyUsesName` and `ValueResolver.NonEmptyKeyIsUsedAsIs`, and by
`ArgumentBinder.DoBind` and `ArgumentBinder.FallbackDependsOnNameOnly`.

| member | source | states |
|---|---|---|
| `ValueResolver.ResolveValue` | inject/src/main/groovy/org/particleframework/bind/annotation/AbstractAnnotatedArgumentBinder.java:93-111 | a list is produced only for a many-valued target bound from a multi-valued source, is never empty, and is exactly `getAll` of the effective key; the whole source is produced only for a Map target; a single value is exactly the lookup under the effective key; and the result is absent exactly when `getAll` is null or empty (many-valued case), or when the target is not a Map and the key is missing |
| `ValueResolver.EmptyKeyUsesName` | inject/src/main/groovy/org/particleframework/bind/annotation/AbstractAnnotatedArgumentBinder.java:94-97 | an empty annotation value resolves exactly as the argument's name would |
| `ValueResolver.NonEmptyKeyIsUsedAsIs` | inject/src/main/groovy/org/particleframework/bind/annotation/AbstractAnnotatedArgumentBinder.java:94-97 | a non-empty annotation value is the key itself: the argument's name then has no influence |
| `ValueResolver.ManyValuedUsesGetAll` | inject/src/main/groovy/org/particleframework/bind/annotation/AbstractAnnotatedArgumentBinder.java:98-115 | for an array/Iterable/Stream target bound from a multi-valued source, the result is null for a missing or empty `getAll` list and is the whole list otherwise; it does not depend on the single-value lookup |
| `ValueResolver.MapTargetTakesWholeSource` | inject/src/main/groovy/org/particleframework/bind/annotation/AbstractAnnotatedArgumentBinder.java:107-109 | outside the many-valued case, a Map target resolves to the entire source, and any two keys give the same result |
| `ValueResolver.OtherTargetTakesSingleValue` | inject/src/main/groovy/org/particleframework/bind/annotation/AbstractAnnotatedArgumentBinder.java:97-110 | every other target resolves to the single value under the effective key, or to null if it is missing |
| `LinkedMaps.Put` | inject/src/main/groovy/org/particleframework/bind/annotation/AbstractAnnotatedArgumentBinder.java:68 | a `put` grows the map by at most one entry and never shrinks it |
| `LinkedMaps.PutKeys` | inject/src/main/groovy/org/particleframework/bind/annotation/AbstractAnnotatedArgumentBinder.java:68 | after `put(k, v)` the key order is unchanged, or `k` is appended if it is new |
| `LinkedMaps.PutGet` | inject/src/main/groovy/org/particleframework/bind/annotation/AbstractAnnotatedArgumentBinder.java:68 | after `put(k, v)`, `k` maps to `v` and every other key keeps its value |
| `LinkedMaps.PutNewKeyAppends` | inject/src/main/groovy/org/particleframework/bind/annotation/AbstractAnnotatedArgumentBinder.java:68 | a new key is appended after all existing entries |
| `LinkedMaps.PutKeepsKeysDistinct` | inject/src/main/groovy/org/particleframework/bind/annotation/AbstractAnnotatedArgumentBinder.java:68 | `put` keeps the keys of a map distinct |
| `ContextBuilder.Filled` | inject/src/main/groovy/org/particleframework/bind/annotation/AbstractAnnotatedArgumentBinder.java:64-69 | the map the `put` loop fills has no more entries than there were puts |
| `ContextBuilder.FilledKeys` | inject/src/main/groovy/org/particleframework/bind/annotation/AbstractAnnotatedArgumentBinder.java:64-69 | the filled map's keys are distinct, and they are exactly the type-parameter names |
| `ContextBuilder.FilledInDeclarationOrder` | inject/src/main/groovy/org/particleframework/bind/annotation/AbstractAnnotatedArgumentBinder.java:64-69 | with distinct names, the map has one entry per type parameter: entry i is (name of parameter i, generic type i) |
| `ContextBuilder.FilledLooksUp` | inject/src/main/groovy/org/particleframework/bind/annotation/AbstractAnnotatedArgumentBinder.java:64-69 | the last `put` of a name wins: when no later type parameter has the same name, looking up parameter i's name yields generic type i |
| `ArgumentBinder.FillTypeParameterMap` | inject/src/main/groovy/org/particleframework/bind/annotation/AbstractAnnotatedArgumentBinder.java:64-69 | the `for` loop's map equals `Filled`; its keys are distinct and are exactly the type-parameter names, and with distinct names entry i is (name of parameter i, generic type i) |
| `ContextBuilder.TypeParameterMap` | inject/src/main/groovy/org/particleframework/bind/annotation/AbstractAnnotatedArgumentBinder.java:58-71 | the map exists exactly when there is at least one generic type and the target's type-parameter count equals the number of generic types; its keys are then exactly the parameter names, and with distinct names it lists them in declaration order, paired with the generic types |
| `ContextBuilder.BuildContext` | inject/src/main/groovy/org/particleframework/bind/annotation/AbstractAnnotatedArgumentBinder.java:73-89 | the four shapes: map+format+locale, format+locale, map only, or `DEFAULT`, one for each combination of format present/absent and map present/absent; the context yields back exactly the map and the (format, locale) pair it was built from |
| `ContextBuilder.BuildContextInjective` | inject/src/main/groovy/org/particleframework/bind/annotation/AbstractAnnotatedArgumentBinder.java:73-89 | equal contexts come from the same format and map, and from the same locale when a format is present |
| `ArgumentBinder.FallbackDependsOnNameOnly` | inject/src/main/groovy/org/particleframework/bind/annotation/AbstractAnnotatedArgumentBinder.java:127-129 | two arguments with the same name have the same fallback key, whatever their types and annotations |
| `ArgumentBinder.DoConvert` | inject/src/main/groovy/org/particleframework/bind/annotation/AbstractAnnotatedArgumentBinder.java:117-125 | the service's result is returned unchanged unless it is a present result for the `Optional` target; in that case an inner `Optional` is returned one level unwrapped, and a non-`Optional` is a failed cast |
| `ArgumentBinder.OptionalTargetCollapses` | inject/src/main/groovy/org/particleframework/bind/annotation/AbstractAnnotatedArgumentBinder.java:119-121 | a present value bound to the `Optional` target was the service's optional-of-optional of that value |
| `ArgumentBinder.DoBind` | inject/src/main/groovy/org/particleframework/bind/annotation/AbstractAnnotatedArgumentBinder.java:42-91 | `resolveValue` runs once or twice; the second call uses the hyphenated name, and happens exactly when the first missed and that name differs from the annotation value; the service is skipped, with an empty result, exactly when the retry also missed; otherwise the service gets the last resolved value (null when the fallback equals the annotation value), the argument type and the context built from `@Format` and the type-parameter map, and the result is `doConvert`'s |
| `ArgumentBinder.EmptyKeyRetriesSameName` | inject/src/main/groovy/org/particleframework/bind/annotation/AbstractAnnotatedArgumentBinder.java:46-51 | with an empty annotation value and a name that hyphenates to itself, the retry guard passes, yet the retry looks up the same key with the same result |

## Left out

- `http-client/src/main/java/io/micronaut/http/client/LoadBalancer.java` is not part of this model. It is a one-method selection interface over reactive service-discovery types and holds no binding logic.
- The conversion service's own conversions (string to integer, and so on) are not modelled. The service is an opaque function; only its inputs and the use made of its output are specified.
- `NameUtils.hyphenate` is not part of this model. It is an opaque function from string to string.
- Java reflection is replaced by fields of `ArgType`: `isArray`, assignability to `Iterable`/`Stream`/`Map`, identity with `Optional.class`, and `getTypeParameters` names. Annotation lookup becomes the optional `@Format` value on the argument. `getTypeParameters` never returns null, so the null test on it is not modelled.
- `Locale` is an opaque value passed through.
- The conversion done by `values.get(key, Object.class)` is not modelled. The lookup yields the stored value as it is.
- A multi-valued source's single-value lookups and `getAll` lists are independent maps. The model does not require `get` to return an element of `getAll`.
- Holding the conversion service in a final field, and the class's annotation type parameters, are not modelled. The service is passed to `DoBind` directly.
- Exceptions thrown by the collaborators are not modelled. The only failure modelled is the binder's own cast in `doConvert`.
