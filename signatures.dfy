/**
 * Return-type-free method signature keys: `ExecutableElement.simpleSig`
 * builds one from a method's name and erased parameter types, and
 * `JvmMethodSignature.simpleSig` cuts one out of a method descriptor read
 * from Kotlin metadata (section 4.3.3 of the Java Virtual Machine
 * Specification). The two must agree for the same method, and a key must
 * determine the name and the erased parameter types.
 */
module Signatures {
  import opened Strings
  import opened Mirrors
  import D = Descriptors

  /** A package name in internal form with its trailing `/`, or nothing for the root package. */
  function PackagePrefix(packageName: string): string
  {
    if packageName == "" then "" else Replace(packageName, '.', '/') + "/"
  }

  /** The binary name of a class element: package path, then nested names joined by `$`. */
  function BinaryName(e: Element): string
  {
    PackagePrefix(PackageOf(e)) + Join(NamesOf(e), "$")
  }

  /**
   * The JVM erasure that the encoder applies: primitives stay, arrays erase
   * their component, declared types become their class, and everything else
   * becomes `java/lang/Object`.
   */
  function Erase(t: TypeMirror): D.FieldType
  {
    match t
    case PrimitiveType(k) => D.BaseType(k)
    case ArrayType(component) => D.ArrayType(Erase(component))
    case DeclaredType(e, _) => D.ObjectType(BinaryName(e))
    case OtherType => D.ObjectType("java/lang/Object")
  }

  /** The field descriptor that the encoder writes for one type. */
  function Descriptor(t: TypeMirror): string
  {
    D.Render(Erase(t))
  }

  function Erasures(ps: seq<TypeMirror>): (fs: seq<D.FieldType>)
    ensures |fs| == |ps|
  {
    seq(|ps|, i requires 0 <= i < |ps| => Erase(ps[i]))
  }

  /** The parameter descriptors, in declaration order. */
  function ParametersDescriptor(ps: seq<TypeMirror>): string
  {
    D.RenderAll(Erasures(ps))
  }

  /** The key: name, `(`, the parameter descriptors, `)`; no return type. */
  function SignatureKey(e: ExecutableElement): string
  {
    e.simpleName + "(" + ParametersDescriptor(e.parameters) + ")"
  }

  lemma ParametersDescriptorSnoc(ps: seq<TypeMirror>, p: TypeMirror)
    ensures ParametersDescriptor(ps + [p]) == ParametersDescriptor(ps) + Descriptor(p)
  {
    assert Erasures(ps + [p]) == Erasures(ps) + [Erase(p)];
    D.RenderAllSnoc(Erasures(ps), Erase(p));
  }

  /**
   * Walks the enclosing chain of `element` up to its package, collecting the
   * simple names innermost first, then reverses them.
   */
  method EnclosingNames(element: Element) returns (packageName: string, parts: seq<string>)
    ensures packageName == PackageOf(element)
    ensures parts == NamesOf(element)
  {
    parts := [];
    var parent := element;
    while !parent.PackageElement?
      invariant NamesOf(element) == NamesOf(parent) + Reversed(parts)
      invariant PackageOf(parent) == PackageOf(element)
      decreases parent
    {
      ReversedSnoc(parts, parent.simpleName);
      parts := parts + [parent.simpleName];
      parent := parent.enclosingElement;
    }
    parts := Reversed(parts);
    packageName := parent.qualifiedName;
  }

  /** Appending `L`, a binary name and `;` appends the object descriptor (a regrouping step of `Convert`). */
  lemma ObjectDescriptorAppended(before: string, prefix: string, names: string)
    ensures before + "L" + prefix + names + ";" == before + D.Render(D.ObjectType(prefix + names))
  {
  }

  /** Anything that is neither primitive, array nor declared erases to `Ljava/lang/Object;`. */
  lemma ObjectDescriptor()
    ensures Descriptor(OtherType) == "Ljava/lang/Object;"
  {
  }

  /** `convert`: appends the descriptor of `t` to `out`. */
  method Convert(t: TypeMirror, out: StringBuilder)
    modifies out
    ensures out.contents == old(out.contents) + Descriptor(t)
    decreases t
  {
    match t
    case PrimitiveType(k) =>
      out.Append([D.BaseTypeChar(k)]);
    case ArrayType(component) =>
      out.Append("[");
      Convert(component, out);
    case DeclaredType(element, _) =>
      ghost var before := out.contents;
      out.Append("L");
      var packageName, parts := EnclosingNames(element);
      if packageName != "" {
        out.Append(Replace(packageName, '.', '/'));
        out.Append("/");
      }
      ghost var prefix := PackagePrefix(packageName);
      assert out.contents == before + "L" + prefix;
      out.Append(Join(parts, "$"));
      out.Append(";");
      ObjectDescriptorAppended(before, prefix, Join(parts, "$"));
    case OtherType =>
      ObjectDescriptor();
      out.Append("Ljava/lang/Object;");
  }

  lemma ParametersPrefixStep(prefix: string, ps: seq<TypeMirror>, i: nat)
    requires i < |ps|
    ensures prefix + ParametersDescriptor(ps[..i]) + Descriptor(ps[i]) == prefix + ParametersDescriptor(ps[..i + 1])
  {
    assert ps[..i + 1] == ps[..i] + [ps[i]];
    ParametersDescriptorSnoc(ps[..i], ps[i]);
  }

  /** `ExecutableElement.simpleSig`. */
  method SimpleSig(e: ExecutableElement) returns (sig: string)
    ensures sig == SignatureKey(e)
  {
    var name := e.simpleName;
    var out := new StringBuilder();
    out.Append(name);
    out.Append("(");
    ghost var prefix := out.contents;
    assert ParametersDescriptor(e.parameters[..0]) == "";
    for i := 0 to |e.parameters|
      invariant out.contents == prefix + ParametersDescriptor(e.parameters[..i])
    {
      ParametersPrefixStep(prefix, e.parameters, i);
      Convert(e.parameters[i], out);
    }
    out.Append(")");
    assert e.parameters[..|e.parameters|] == e.parameters;
    sig := out.contents;
  }

  /** A `JvmMethodSignature` from Kotlin metadata: a name and a full method descriptor. */
  datatype JvmMethodSignature = JvmMethodSignature(name: string, desc: string)

  /**
   * `JvmMethodSignature.simpleSig`: the name, then `desc` up to and including
   * its last `)`, or nothing of `desc` when it has no `)`.
   */
  function JvmSimpleSig(m: JvmMethodSignature): (r: string)
    ensures |m.name| <= |r| && r[..|m.name|] == m.name
    ensures |r| - |m.name| <= |m.desc| && r[|m.name|..] == m.desc[..|r| - |m.name|]
    ensures ')' !in m.desc ==> r == m.name
    ensures ')' in m.desc ==> |r| > |m.name| && r[|r| - 1] == ')' && ')' !in m.desc[|r| - |m.name|..]
  {
    m.name + m.desc[..LastIndexOf(m.desc, ')') + 1]
  }

  /** A method descriptor: the parameter descriptors in parentheses, then the return descriptor. */
  function MethodDescriptor(ps: seq<TypeMirror>, returnType: TypeMirror): string
  {
    "(" + ParametersDescriptor(ps) + ")" + Descriptor(returnType)
  }

  lemma {:induction false} NamesOfAvoid(e: Element, c: char)
    requires ElementNamesAvoid(e, c)
    ensures c !in PackageOf(e)
    ensures forall i :: 0 <= i < |NamesOf(e)| ==> c !in NamesOf(e)[i]
  {
    match e
    case PackageElement(_) =>
    case TypeElement(_, enclosing) => NamesOfAvoid(enclosing, c);
  }

  /** Erasure adds only `/`, `$` and the letters of `java/lang/Object` to the names it is given. */
  lemma {:induction false} EraseAvoids(t: TypeMirror, c: char)
    requires TypeNamesAvoid(t, c)
    requires c != '/' && c != '$' && c !in "java/lang/Object"
    ensures D.ClassNamesAvoid(Erase(t), c)
  {
    match t
    case PrimitiveType(_) =>
    case ArrayType(component) => EraseAvoids(component, c);
    case DeclaredType(e, _) =>
      NamesOfAvoid(e, c);
      JoinAvoids(NamesOf(e), "$", c);
      if PackageOf(e) != "" {
        ReplaceAvoids(PackageOf(e), '.', '/', c);
      }
    case OtherType =>
  }

  /** Cutting at the last `)` keeps everything up to a `)` after which none follows. */
  lemma CutAtLastParen(name: string, front: string, back: string)
    requires ')' !in back
    ensures JvmSimpleSig(JvmMethodSignature(name, front + [')'] + back)) == name + (front + [')'])
  {
    var desc := front + [')'] + back;
    LastIndexOfBefore(front, ')', back);
    assert desc[..|front| + 1] == front + [')'];
  }

  /** A method descriptor regrouped around the `)` that closes its parameters. */
  lemma MethodDescriptorShape(ps: seq<TypeMirror>, returnType: TypeMirror)
    ensures MethodDescriptor(ps, returnType) == ("(" + ParametersDescriptor(ps)) + [')'] + Descriptor(returnType)
  {
  }

  /** A key regrouped around its `(` and its closing `)`. */
  lemma SignatureKeyShape(e: ExecutableElement)
    ensures SignatureKey(e) == e.simpleName + (("(" + ParametersDescriptor(e.parameters)) + [')'])
    ensures SignatureKey(e) == e.simpleName + ['('] + (ParametersDescriptor(e.parameters) + [')'])
  {
  }

  /**
   * The key cut from the metadata descriptor of a method equals the key
   * built from its element, provided the return type's names hold no `)`.
   */
  lemma JvmSimpleSigAgrees(e: ExecutableElement, returnType: TypeMirror)
    requires TypeNamesAvoid(returnType, ')')
    ensures JvmSimpleSig(JvmMethodSignature(e.simpleName, MethodDescriptor(e.parameters, returnType))) == SignatureKey(e)
  {
    EraseAvoids(returnType, ')');
    D.RenderAvoids(Erase(returnType), ')');
    var front := "(" + ParametersDescriptor(e.parameters);
    var back := Descriptor(returnType);
    MethodDescriptorShape(e.parameters, returnType);
    CutAtLastParen(e.simpleName, front, back);
    SignatureKeyShape(e);
  }

  /** The first `(` separates the name from the parenthesised descriptors. */
  lemma KeyParts(n1: string, d1: string, n2: string, d2: string)
    requires '(' !in n1 && '(' !in n2
    requires n1 + ['('] + (d1 + [')']) == n2 + ['('] + (d2 + [')'])
    ensures n1 == n2 && d1 == d2
  {
    var key := n1 + ['('] + (d1 + [')']);
    IndexOfAfter(n1, '(', d1 + [')']);
    IndexOfAfter(n2, '(', d2 + [')']);
    var k := |n1|;
    assert n1 == key[..k] == n2;
    assert d1 == key[k + 1..|key| - 1] == d2;
  }

  /**
   * Two keys are equal exactly when the names and the erased parameter
   * types are, for names without `(` and types whose names hold no `;`.
   */
  lemma SignatureKeyInjective(e1: ExecutableElement, e2: ExecutableElement)
    requires '(' !in e1.simpleName && '(' !in e2.simpleName
    requires forall i :: 0 <= i < |e1.parameters| ==> TypeNamesAvoid(e1.parameters[i], ';')
    requires forall i :: 0 <= i < |e2.parameters| ==> TypeNamesAvoid(e2.parameters[i], ';')
    ensures SignatureKey(e1) == SignatureKey(e2)
      <==> e1.simpleName == e2.simpleName && Erasures(e1.parameters) == Erasures(e2.parameters)
  {
    if SignatureKey(e1) == SignatureKey(e2) {
      SignatureKeyShape(e1);
      SignatureKeyShape(e2);
      KeyParts(e1.simpleName, ParametersDescriptor(e1.parameters), e2.simpleName, ParametersDescriptor(e2.parameters));
      forall i | 0 <= i < |e1.parameters|
        ensures D.ClassNamesAvoid(Erasures(e1.parameters)[i], ';')
      {
        EraseAvoids(e1.parameters[i], ';');
      }
      forall i | 0 <= i < |e2.parameters|
        ensures D.ClassNamesAvoid(Erasures(e2.parameters)[i], ';')
      {
        EraseAvoids(e2.parameters[i], ';');
      }
      D.ParseRenderAll(Erasures(e1.parameters));
      D.ParseRenderAll(Erasures(e2.parameters));
    }
  }

  /** A class `S` of package `p` and an `int` give `f(I, S)` the key `f(ILp/S;)`. */
  lemma ShortKeyExample()
    ensures var s := DeclaredType(TypeElement("S", PackageElement("p")), []);
      SignatureKey(ExecutableElement("f", [PrimitiveType(Int), s])) == "f(ILp/S;)"
  {
    var s := DeclaredType(TypeElement("S", PackageElement("p")), []);
    assert BinaryName(TypeElement("S", PackageElement("p"))) == "p/S" by {
      assert Replace("p", '.', '/') == "p";
    }
    assert Erasures([PrimitiveType(Int), s]) == [D.BaseType(Int), D.ObjectType("p/S")];
    assert D.RenderAll([D.ObjectType("p/S")]) == "Lp/S;";
    assert [D.BaseType(Int), D.ObjectType("p/S")][1..] == [D.ObjectType("p/S")];
    SignatureKeyShape(ExecutableElement("f", [PrimitiveType(Int), s]));
  }

  /** A nested class `A.B` of package `p.q` has the binary name `p/q/A$B`. */
  lemma NestedClassBinaryName()
    ensures BinaryName(TypeElement("B", TypeElement("A", PackageElement("p.q")))) == "p/q/A$B"
  {
    assert Replace("p.q", '.', '/') == "p/q";
    assert Join(["A", "B"], "$") == "A$B";
  }

  /** Arrays nest, type variables erase to Object, and the root package adds no prefix. */
  lemma ErasureExamples()
    ensures Descriptor(ArrayType(ArrayType(PrimitiveType(Long)))) == "[[J"
    ensures Erase(ArrayType(OtherType)) == D.ArrayType(D.ObjectType("java/lang/Object"))
    ensures Erase(DeclaredType(TypeElement("Foo", PackageElement("")), [])) == D.ObjectType("Foo")
  {
  }
}
