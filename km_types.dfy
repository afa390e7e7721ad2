/**
 * Types as Kotlin metadata (kotlinx.metadata) describes them, and the
 * accessors that name them: `KmClassifier.asClassName`, `KmType.packageName`,
 * `KmType.simpleName` and `KmType.asTypeName`.
 */
module KmTypes {
  import opened Wrappers
  import opened Strings
  import CN = ClassNames

  /** What a type refers to; class and alias names are metadata class names. */
  datatype KmClassifier =
    | Class(name: string)
    | TypeAlias(name: string)
    | TypeParameter(id: int)

  datatype KmVariance = Invariant | In | Out

  /** A type argument; a star projection has neither variance nor type. */
  datatype KmTypeProjection = KmTypeProjection(variance: Option<KmVariance>, typ: Option<KmType>)

  /**
   * A `KmType`: its classifier, its arguments, the nullable flag (the
   * IS_NULLABLE bit of its flags) and the optional abbreviated type.
   */
  datatype KmType = KmType(
    classifier: KmClassifier,
    arguments: seq<KmTypeProjection>,
    isNullable: bool,
    abbreviatedType: Option<KmType>)

  /** `KmClassifier.asClassName`: a type parameter has no class name. */
  function ClassifierAsClassName(c: KmClassifier): (r: Option<CN.ClassName>)
    ensures r.None? <==> c.TypeParameter?
    ensures r.Some? ==> r.value == CN.AsClassName(c.name)
  {
    match c
    case Class(name) => Some(CN.AsClassName(name))
    case TypeAlias(name) => Some(CN.AsClassName(name))
    case TypeParameter(_) => None
  }

  /**
   * The type at the end of the chain of abbreviated types: the alias form as
   * written, which the accessors read in place of the expanded `classifier`.
   */
  function AbbreviationEnd(t: KmType): (e: KmType)
    ensures e.abbreviatedType.None?
  {
    if t.abbreviatedType.Some? then AbbreviationEnd(t.abbreviatedType.value) else t
  }

  /** `KmType.packageName`. */
  function PackageName(t: KmType): (r: string)
    ensures AbbreviationEnd(t).classifier.TypeParameter? ==> r == ""
    ensures !AbbreviationEnd(t).classifier.TypeParameter? ==> r == CN.PackageName(AbbreviationEnd(t).classifier.name)
  {
    if t.abbreviatedType.Some? then PackageName(t.abbreviatedType.value)
    else
      match t.classifier
      case Class(name) => CN.PackageName(name)
      case TypeAlias(name) => CN.PackageName(name)
      case TypeParameter(_) => ""
  }

  /** `KmType.simpleName`. */
  function SimpleName(t: KmType): (r: string)
    ensures AbbreviationEnd(t).classifier.TypeParameter? ==> r == ""
    ensures !AbbreviationEnd(t).classifier.TypeParameter? ==> r == CN.SimpleName(AbbreviationEnd(t).classifier.name)
  {
    if t.abbreviatedType.Some? then SimpleName(t.abbreviatedType.value)
    else
      match t.classifier
      case Class(name) => CN.SimpleName(name)
      case TypeAlias(name) => CN.SimpleName(name)
      case TypeParameter(_) => ""
  }

  /** A KotlinPoet type name: a class name, or a class name with type arguments. */
  datatype TypeName =
    | ClassTypeName(className: CN.ClassName, nullable: bool)
    | ParameterizedTypeName(rawType: CN.ClassName, typeArguments: seq<TypeName>, nullable: bool)
  {
    function RawClassName(): CN.ClassName
    {
      if ClassTypeName? then className else rawType
    }
  }

  /**
   * What `KmType.asTypeName()` does: return a name, return null, or throw
   * the NullPointerException of a `!!`.
   */
  datatype TypeNameResult = Named(typeName: TypeName) | Unnamed | NullPointer

  /** `KmType.asTypeName`. */
  function AsTypeName(t: KmType): TypeNameResult
    decreases t, |t.arguments| + 1
  {
    if t.abbreviatedType.Some? then AsTypeName(t.abbreviatedType.value)
    else
      match ClassifierAsClassName(t.classifier)
      case None => Unnamed
      case Some(className) =>
        if |t.arguments| == 0 then Named(ClassTypeName(className, t.isNullable))
        else
          match ArgumentTypeNames(t, |t.arguments|)
          case None => NullPointer
          case Some(names) => Named(ParameterizedTypeName(className, names, t.isNullable))
  }

  /**
   * `arguments.map { it.type!!.asTypeName()!! }` over the first `n` arguments:
   * the names, or None where a `!!` throws.
   */
  function ArgumentTypeNames(t: KmType, n: nat): (r: Option<seq<TypeName>>)
    requires n <= |t.arguments|
    ensures r.Some? <==> forall i :: 0 <= i < n ==>
      t.arguments[i].typ.Some? && AsTypeName(t.arguments[i].typ.value).Named?
    ensures r.Some? ==> |r.value| == n && forall i :: 0 <= i < n ==>
      AsTypeName(t.arguments[i].typ.value) == Named(r.value[i])
    decreases t, n
  {
    if n == 0 then Some([])
    else
      match ArgumentTypeNames(t, n - 1)
      case None => None
      case Some(names) =>
        var argument := t.arguments[n - 1];
        if argument.typ.None? then None
        else
          match AsTypeName(argument.typ.value)
          case Named(name) => Some(names + [name])
          case _ => None
  }

  /**
   * Every type in the tree, after following abbreviations, has a class or
   * alias classifier, and no argument is a star projection.
   */
  predicate FullyNamed(t: KmType)
    decreases t
  {
    if t.abbreviatedType.Some? then FullyNamed(t.abbreviatedType.value)
    else
      !t.classifier.TypeParameter? &&
      forall i :: 0 <= i < |t.arguments| ==>
        t.arguments[i].typ.Some? && FullyNamed(t.arguments[i].typ.value)
  }

  /** `asTypeName` returns null exactly for a type parameter (after following abbreviations). */
  lemma {:induction false} AsTypeNameUnnamed(t: KmType)
    ensures AsTypeName(t) == Unnamed <==> AbbreviationEnd(t).classifier.TypeParameter?
    decreases t
  {
    if t.abbreviatedType.Some? {
      AsTypeNameUnnamed(t.abbreviatedType.value);
    }
  }

  /** `asTypeName` returns a name exactly for a fully named tree. */
  lemma {:induction false} AsTypeNameNamed(t: KmType)
    ensures AsTypeName(t).Named? <==> FullyNamed(t)
    decreases t
  {
    if t.abbreviatedType.Some? {
      AsTypeNameNamed(t.abbreviatedType.value);
    } else {
      forall i | 0 <= i < |t.arguments| && t.arguments[i].typ.Some?
        ensures AsTypeName(t.arguments[i].typ.value).Named? <==> FullyNamed(t.arguments[i].typ.value)
      {
        AsTypeNameNamed(t.arguments[i].typ.value);
      }
    }
  }

  /**
   * A name from `asTypeName` is built from the type reached by following
   * abbreviations: its class name is that type's classifier's, agreeing with
   * `packageName` and `simpleName`, its nullability is that type's, and it
   * has one argument per argument of that type.
   */
  lemma {:induction false} AsTypeNameShape(t: KmType)
    requires AsTypeName(t).Named?
    ensures var n := AsTypeName(t).typeName; var e := AbbreviationEnd(t);
      !e.classifier.TypeParameter? &&
      n.RawClassName() == CN.AsClassName(e.classifier.name) &&
      n.RawClassName().packageName == PackageName(t) &&
      Join(n.RawClassName().simpleNames, ".") == SimpleName(t) &&
      n.nullable == e.isNullable &&
      (n.ClassTypeName? <==> e.arguments == []) &&
      (n.ParameterizedTypeName? ==> |n.typeArguments| == |e.arguments|)
    decreases t
  {
    if t.abbreviatedType.Some? {
      AsTypeNameShape(t.abbreviatedType.value);
    } else {
      CN.AccessorsAgree(t.classifier.name);
    }
  }

  /** A type parameter (after following abbreviations) has no package, no simple name and no type name. */
  lemma {:induction false} TypeParameterUnnameable(t: KmType)
    requires AbbreviationEnd(t).classifier.TypeParameter?
    ensures PackageName(t) == "" && SimpleName(t) == "" && AsTypeName(t) == Unnamed
    decreases t
  {
    if t.abbreviatedType.Some? {
      TypeParameterUnnameable(t.abbreviatedType.value);
    }
  }

  /**
   * A parameter typed `StringList`, for `typealias StringList = List<String>`,
   * has the classifier `List` and the abbreviated type `StringList`; its type
   * name is the alias's.
   */
  lemma AliasNameWins()
    ensures var str := KmType(Class("kotlin/String"), [], false, None);
      var alias := KmType(TypeAlias("p/StringList"), [], false, None);
      var list := KmType(Class("kotlin/collections/List"), [KmTypeProjection(Some(Invariant), Some(str))], false, Some(alias));
      AsTypeName(list) == Named(ClassTypeName(CN.AsClassName("p/StringList"), false))
  {
  }
}
