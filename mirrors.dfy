/**
 * The part of the javax.lang.model API that the core reads: elements with
 * their enclosing chain, type mirrors, executable elements and annotation
 * mirrors, as plain values.
 */
module Mirrors {

  /** The primitive `TypeKind`s, together with VOID. */
  datatype PrimitiveKind = Boolean | Byte | Char | Short | Int | Long | Float | Double | Void

  /**
   * An element and its chain of enclosing elements, which always ends at a
   * package. A `TypeElement` is any element that is not a package (a class,
   * an interface, or the method that encloses a local class).
   */
  datatype Element =
    | PackageElement(qualifiedName: string)
    | TypeElement(simpleName: string, enclosingElement: Element)

  /** The element of a declared type is never a package. */
  type ClassElement = e: Element | e.TypeElement? witness TypeElement("Object", PackageElement("java.lang"))

  /**
   * A `TypeMirror`: a primitive (or void), an array, a declared type, or any
   * other kind (type variable, wildcard, intersection, ...).
   */
  datatype TypeMirror =
    | PrimitiveType(kind: PrimitiveKind)
    | ArrayType(componentType: TypeMirror)
    | DeclaredType(element: ClassElement, typeArguments: seq<TypeMirror>)
    | OtherType

  /** An `ExecutableElement`: a method's simple name and its parameters' types. */
  datatype ExecutableElement = ExecutableElement(simpleName: string, parameters: seq<TypeMirror>)

  /** The primitive kinds whose values box to integral objects. */
  type IntegralKind = k: PrimitiveKind | k.Byte? || k.Short? || k.Char? || k.Int? || k.Long? witness Int

  /**
   * What `AnnotationValue.getValue()` returns. An integral value is boxed by
   * its primitive kind (`Byte`, `Short`, `Character`, `Integer`, `Long`), and
   * boxes of different kinds are never equal. An enum constant is a variable
   * of its enum type, so equal names in different enums stay apart.
   */
  datatype Constant =
    | BooleanConstant(b: bool)
    | IntegralConstant(kind: IntegralKind, i: int)
    | StringConstant(s: string)
    | ClassConstant(t: TypeMirror)
    | EnumConstant(enumType: TypeMirror, name: string)

  datatype AnnotationValue = AnnotationValue(value: Constant)

  /** One entry of `elementValues`: the annotation member and its value. */
  datatype ElementValue = ElementValue(member: string, annotationValue: AnnotationValue)

  /**
   * An `AnnotationMirror`: its annotation type and the explicitly given member
   * values, in the iteration order of `elementValues`.
   */
  datatype AnnotationMirror = AnnotationMirror(annotationType: TypeMirror, elementValues: seq<ElementValue>)

  /** The qualified name of the package at the end of the enclosing chain. */
  function PackageOf(e: Element): string
  {
    match e
    case PackageElement(q) => q
    case TypeElement(_, enclosing) => PackageOf(enclosing)
  }

  /** The simple names on the enclosing chain, outermost first. */
  function NamesOf(e: Element): seq<string>
  {
    match e
    case PackageElement(_) => []
    case TypeElement(n, enclosing) => NamesOf(enclosing) + [n]
  }

  /** No simple name on the chain, nor the package name, contains `c`. */
  predicate ElementNamesAvoid(e: Element, c: char)
  {
    match e
    case PackageElement(q) => c !in q
    case TypeElement(n, enclosing) => c !in n && ElementNamesAvoid(enclosing, c)
  }

  /** The names that erasure can put into a descriptor of `t` avoid `c`. */
  predicate TypeNamesAvoid(t: TypeMirror, c: char)
  {
    match t
    case PrimitiveType(_) => true
    case ArrayType(component) => TypeNamesAvoid(component, c)
    case DeclaredType(e, _) => ElementNamesAvoid(e, c)
    case OtherType => true
  }
}
