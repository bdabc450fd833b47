/** Building the conversion context from the generic type bindings and an optional `@Format`. */
module ContextBuilder {
  import opened Wrappers
  import opened LinkedMaps
  import opened BindingTypes

  /**
   * The map the binder's loop fills: starting empty, `put(names[i], types[i])`
   * for each i in turn.
   */
  function Filled(names: seq<string>, types: seq<ArgType>): (m: TypeMap)
    requires |names| == |types|
    // never more entries than puts
    ensures |m| <= |names|
  {
    if names == [] then []
    else
      var n := |names| - 1;
      Put(Filled(names[..n], types[..n]), names[n], types[n])
  }

  /** The filled map has one entry per distinct name and no other keys. */
  lemma {:induction false} FilledKeys(names: seq<string>, types: seq<ArgType>)
    requires |names| == |types|
    ensures Distinct(Keys(Filled(names, types)))
    ensures forall k :: k in Keys(Filled(names, types)) <==> k in names
  {
    if names != [] {
      var n := |names| - 1;
      FilledKeys(names[..n], types[..n]);
      PutKeys(Filled(names[..n], types[..n]), names[n], types[n]);
      PutKeepsKeysDistinct(Filled(names[..n], types[..n]), names[n], types[n]);
      assert names == names[..n] + [names[n]];
    }
  }

  /** With distinct type parameter names, the entries are the parameters in declaration order. */
  lemma {:induction false} FilledInDeclarationOrder(names: seq<string>, types: seq<ArgType>)
    requires |names| == |types| && Distinct(names)
    ensures |Filled(names, types)| == |names|
    ensures forall i :: 0 <= i < |names| ==> Filled(names, types)[i] == (names[i], types[i])
  {
    if names != [] {
      var n := |names| - 1;
      var prefix := Filled(names[..n], types[..n]);
      DistinctPrefix(names, n);
      FilledInDeclarationOrder(names[..n], types[..n]);
      LastIsNew(names, types);
      PutNewKeyAppends(prefix, names[n], types[n]);
      var full := prefix + [(names[n], types[n])];
      assert Filled(names, types) == full;
      forall i | 0 <= i < |names| ensures full[i] == (names[i], types[i]) {
        if i < n {
          assert full[i] == prefix[i];
          assert names[..n][i] == names[i] && types[..n][i] == types[i];
        }
      }
    }
  }

  /** With distinct names, the last name is not yet a key when it is put. */
  lemma LastIsNew(names: seq<string>, types: seq<ArgType>)
    requires |names| == |types| && Distinct(names) && names != []
    ensures names[|names| - 1] !in Keys(Filled(names[..|names| - 1], types[..|names| - 1]))
  {
    var n := |names| - 1;
    FilledKeys(names[..n], types[..n]);
    forall j | 0 <= j < n ensures names[..n][j] != names[n] {
      assert names[..n][j] == names[j];
    }
  }

  /** A prefix of a sequence with distinct elements has distinct elements. */
  lemma DistinctPrefix<K>(s: seq<K>, n: nat)
    requires Distinct(s) && n <= |s|
    ensures Distinct(s[..n])
  {
    forall i, j | 0 <= i < j < n ensures s[..n][i] != s[..n][j] {
      assert s[..n][i] == s[i] && s[..n][j] == s[j];
    }
  }

  /**
   * The last `put` of a name wins: when no later type parameter has the same name,
   * looking up parameter i's name yields generic type i.
   */
  lemma {:induction false} FilledLooksUp(names: seq<string>, types: seq<ArgType>, i: nat)
    requires |names| == |types| && i < |names|
    requires forall j :: i < j < |names| ==> names[j] != names[i]
    ensures Get(Filled(names, types), names[i]) == Some(types[i])
  {
    var n := |names| - 1;
    var prefix := Filled(names[..n], types[..n]);
    assert Filled(names, types) == Put(prefix, names[n], types[n]);
    PutGet(prefix, names[n], types[n], names[i]);
    if i < n {
      assert names[..n][i] == names[i] && types[..n][i] == types[i];
      forall j | i < j < n ensures names[..n][j] != names[..n][i] {
        assert names[..n][j] == names[j];
      }
      FilledLooksUp(names[..n], types[..n], i);
    }
  }

  /**
   * The type-parameter map: built only when the argument has generic types and
   * their number equals the target type's type-parameter count; absent otherwise.
   */
  function TypeParameterMap(arg: Argument): (r: Option<TypeMap>)
    ensures r.Some? <==>
      |arg.genericTypes| > 0 && |arg.typ.typeParameters| == |arg.genericTypes|
    ensures r.Some? ==>
      Distinct(Keys(r.value)) && forall k :: k in Keys(r.value) <==> k in arg.typ.typeParameters
    ensures r.Some? && Distinct(arg.typ.typeParameters) ==>
      |r.value| == |arg.genericTypes|
      && forall i :: 0 <= i < |r.value| ==> r.value[i] == (arg.typ.typeParameters[i], arg.genericTypes[i])
  {
    var params := arg.typ.typeParameters;
    if |arg.genericTypes| > 0 && |params| == |arg.genericTypes| then
      FilledKeys(params, arg.genericTypes);
      if Distinct(params) then
        FilledInDeclarationOrder(params, arg.genericTypes);
        Some(Filled(params, arg.genericTypes))
      else
        Some(Filled(params, arg.genericTypes))
    else
      None
  }

  /**
   * The context: format and locale exactly when a `@Format` value is present, the
   * type-parameter map exactly when one was built, `DEFAULT` when neither is.
   */
  function BuildContext(format: Option<string>, typeParameterMap: Option<TypeMap>, locale: Locale): (ctx: ConversionContext)
    ensures TypeArgumentsOf(ctx) == typeParameterMap
    ensures FormatOf(ctx) == if format.Some? then Some((format.value, locale)) else None
    ensures ctx.WithTypeArgumentsAndFormat? <==> format.Some? && typeParameterMap.Some?
    ensures ctx.WithFormat? <==> format.Some? && typeParameterMap.None?
    ensures ctx.WithTypeArguments? <==> format.None? && typeParameterMap.Some?
    ensures ctx.Default? <==> format.None? && typeParameterMap.None?
  {
    if format.Some? then
      if typeParameterMap.Some? then WithTypeArgumentsAndFormat(typeParameterMap.value, format.value, locale)
      else WithFormat(format.value, locale)
    else
      if typeParameterMap.Some? then WithTypeArguments(typeParameterMap.value)
      else Default
  }

  /** Different inputs give different contexts: nothing the binder passes is lost. */
  lemma BuildContextInjective(f1: Option<string>, m1: Option<TypeMap>, l1: Locale,
                              f2: Option<string>, m2: Option<TypeMap>, l2: Locale)
    requires BuildContext(f1, m1, l1) == BuildContext(f2, m2, l2)
    ensures f1 == f2 && m1 == m2
    ensures f1.Some? ==> l1 == l2
  {
    assert FormatOf(BuildContext(f1, m1, l1)) == FormatOf(BuildContext(f2, m2, l2));
  }
}
