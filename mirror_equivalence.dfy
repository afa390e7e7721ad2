/**
 * Equivalence and hashing on the reflective side: `AnnotationMirror.eqv`,
 * `AnnotationMirror.eqvHashCode`, and the coarse `TypeMirror.eqvHashCode`
 * that sees only simple names and type arguments.
 */
module MirrorEquivalence {
  import opened Mirrors
  import opened HashCollectors

  /** The objects that the reflective `eqvHashCode` functions pass to `hash`. */
  datatype HashInput =
    | AnnotationTypeInput(annotationType: TypeMirror)
    | ValueInput(value: Constant)
    | NameInput(name: string)

  /** `elementValues.values`, in iteration order. */
  function Values(a: AnnotationMirror): (vs: seq<AnnotationValue>)
    ensures |vs| == |a.elementValues|
  {
    seq(|a.elementValues|, i requires 0 <= i < |a.elementValues| => a.elementValues[i].annotationValue)
  }

  /**
   * `AnnotationMirror.eqv`: the same annotation type, and the values equal
   * position by position (the members they belong to are not compared).
   */
  predicate AnnotationEqv(a: AnnotationMirror, b: AnnotationMirror)
  {
    a.annotationType == b.annotationType &&
    |Values(a)| == |Values(b)| &&
    forall i :: 0 <= i < |Values(a)| ==> Values(a)[i].value == Values(b)[i].value
  }

  function ValueInputs(vs: seq<AnnotationValue>): (r: seq<HashInput>)
    ensures |r| == |vs|
  {
    seq(|vs|, i requires 0 <= i < |vs| => ValueInput(vs[i].value))
  }

  /** What `AnnotationMirror.eqvHashCode` hashes: the annotation type, then each value. */
  function AnnotationHashInputs(a: AnnotationMirror): seq<HashInput>
  {
    [AnnotationTypeInput(a.annotationType)] + ValueInputs(Values(a))
  }

  /** One more value is mixed into the hash of those before it. */
  lemma ValueStep(head: seq<HashInput>, values: seq<AnnotationValue>, i: nat, hc: HashInput -> int)
    requires i < |values|
    ensures Fold(Seed, head + ValueInputs(values[..i + 1]), hc) ==
            Mix(Fold(Seed, head + ValueInputs(values[..i]), hc), hc(ValueInput(values[i].value)))
  {
    assert ValueInputs(values[..i + 1]) == ValueInputs(values[..i]) + [ValueInput(values[i].value)];
    assert (head + ValueInputs(values[..i + 1]))[..|head| + i] == head + ValueInputs(values[..i]);
  }

  /** `AnnotationMirror.eqvHashCode`. */
  method AnnotationEqvHashCode(a: AnnotationMirror, hc: HashInput -> int) returns (r: int)
    ensures r == Fold(Seed, AnnotationHashInputs(a), hc)
  {
    var collector := new HashCollector();
    ghost var head := [AnnotationTypeInput(a.annotationType)];
    collector.Hash(hc(AnnotationTypeInput(a.annotationType)));
    assert head[..0] == [];
    var values := Values(a);
    for i := 0 to |values|
      invariant collector.hash == Fold(Seed, head + ValueInputs(values[..i]), hc)
    {
      ValueStep(head, values, i, hc);
      collector.Hash(hc(ValueInput(values[i].value)));
    }
    assert values[..|values|] == values;
    r := collector.hash;
  }

  /** Equivalent annotations hash the same objects, so their hashes agree. */
  lemma AnnotationEqvHashConsistent(a: AnnotationMirror, b: AnnotationMirror, hc: HashInput -> int)
    requires AnnotationEqv(a, b)
    ensures AnnotationHashInputs(a) == AnnotationHashInputs(b)
    ensures Fold(Seed, AnnotationHashInputs(a), hc) == Fold(Seed, AnnotationHashInputs(b), hc)
  {
    assert ValueInputs(Values(a)) == ValueInputs(Values(b));
  }

  /** Annotation equivalence is reflexive, symmetric and transitive. */
  lemma AnnotationEqvIsEquivalence(a: AnnotationMirror, b: AnnotationMirror, c: AnnotationMirror)
    ensures AnnotationEqv(a, a)
    ensures AnnotationEqv(a, b) ==> AnnotationEqv(b, a)
    ensures AnnotationEqv(a, b) && AnnotationEqv(b, c) ==> AnnotationEqv(a, c)
  {
  }

  /** `@Named("a")` is equivalent to itself, not to `@Named("b")`; the member's name plays no part. */
  lemma NamedExamples()
    ensures var named := DeclaredType(TypeElement("Named", PackageElement("me.tatarka.inject.annotations")), []);
      var a := AnnotationMirror(named, [ElementValue("value", AnnotationValue(StringConstant("a")))]);
      var b := AnnotationMirror(named, [ElementValue("value", AnnotationValue(StringConstant("b")))]);
      var other := AnnotationMirror(named, [ElementValue("name", AnnotationValue(StringConstant("a")))]);
      AnnotationEqv(a, a) && !AnnotationEqv(a, b) && AnnotationEqv(a, other)
  {
    var named := DeclaredType(TypeElement("Named", PackageElement("me.tatarka.inject.annotations")), []);
    var a := AnnotationMirror(named, [ElementValue("value", AnnotationValue(StringConstant("a")))]);
    var b := AnnotationMirror(named, [ElementValue("value", AnnotationValue(StringConstant("b")))]);
    assert Values(a)[0].value != Values(b)[0].value;
  }

  /**
   * Boxed values of different kinds differ even when the numbers agree
   * (`@A(x = 1)` against `@A(y = 1L)`), and so do equally named constants
   * of two enum types.
   */
  lemma ConstantKindsMatter()
    ensures var ann := DeclaredType(TypeElement("A", PackageElement("p")), []);
      var one := AnnotationMirror(ann, [ElementValue("x", AnnotationValue(IntegralConstant(Int, 1)))]);
      var oneL := AnnotationMirror(ann, [ElementValue("y", AnnotationValue(IntegralConstant(Long, 1)))]);
      !AnnotationEqv(one, oneL)
    ensures var ann := DeclaredType(TypeElement("A", PackageElement("p")), []);
      var e := DeclaredType(TypeElement("E", PackageElement("p")), []);
      var f := DeclaredType(TypeElement("F", PackageElement("p")), []);
      var none1 := AnnotationMirror(ann, [ElementValue("x", AnnotationValue(EnumConstant(e, "NONE")))]);
      var none2 := AnnotationMirror(ann, [ElementValue("x", AnnotationValue(EnumConstant(f, "NONE")))]);
      !AnnotationEqv(none1, none2)
  {
    var ann := DeclaredType(TypeElement("A", PackageElement("p")), []);
    var one := AnnotationMirror(ann, [ElementValue("x", AnnotationValue(IntegralConstant(Int, 1)))]);
    var oneL := AnnotationMirror(ann, [ElementValue("y", AnnotationValue(IntegralConstant(Long, 1)))]);
    assert Values(one)[0].value != Values(oneL)[0].value;
    var e := DeclaredType(TypeElement("E", PackageElement("p")), []);
    var f := DeclaredType(TypeElement("F", PackageElement("p")), []);
    var none1 := AnnotationMirror(ann, [ElementValue("x", AnnotationValue(EnumConstant(e, "NONE")))]);
    var none2 := AnnotationMirror(ann, [ElementValue("x", AnnotationValue(EnumConstant(f, "NONE")))]);
    assert Values(none1)[0].value != Values(none2)[0].value;
  }

  /**
   * What `TypeMirror.eqvHashCode` hashes: for a declared type its element's
   * simple name, then what each type argument hashes; for any other type nothing.
   */
  function MirrorHashInputs(t: TypeMirror): seq<HashInput>
    decreases t, if t.DeclaredType? then |t.typeArguments| + 1 else 0
  {
    if t.DeclaredType? then [NameInput(t.element.simpleName)] + TypeArgumentInputs(t, |t.typeArguments|)
    else []
  }

  /** What the first `n` type arguments of a declared type contribute. */
  function TypeArgumentInputs(t: TypeMirror, n: nat): seq<HashInput>
    requires t.DeclaredType? && n <= |t.typeArguments|
    decreases t, n
  {
    if n == 0 then [] else TypeArgumentInputs(t, n - 1) + MirrorHashInputs(t.typeArguments[n - 1])
  }

  /** One more type argument folds in what it hashes. */
  lemma TypeArgumentStep(h0: int, head: seq<HashInput>, t: TypeMirror, i: nat, hc: HashInput -> int)
    requires t.DeclaredType? && i < |t.typeArguments|
    ensures Fold(h0, head + TypeArgumentInputs(t, i + 1), hc) ==
            Fold(Fold(h0, head + TypeArgumentInputs(t, i), hc), MirrorHashInputs(t.typeArguments[i]), hc)
  {
    var before := head + TypeArgumentInputs(t, i);
    FoldAppend(h0, before, MirrorHashInputs(t.typeArguments[i]), hc);
    assert head + TypeArgumentInputs(t, i + 1) == before + MirrorHashInputs(t.typeArguments[i]);
  }

  /** `TypeMirror.eqvHashCode(collector)`: feeds `t` into `collector` and returns its hash. */
  method MirrorEqvHashCodeInto(t: TypeMirror, hc: HashInput -> int, collector: HashCollector) returns (r: int)
    modifies collector
    ensures collector.hash == Fold(old(collector.hash), MirrorHashInputs(t), hc)
    ensures r == collector.hash
    decreases t
  {
    if t.DeclaredType? {
      ghost var h0 := collector.hash;
      ghost var head := [NameInput(t.element.simpleName)];
      collector.Hash(hc(NameInput(t.element.simpleName)));
      assert head[..0] == [];
      for i := 0 to |t.typeArguments|
        invariant collector.hash == Fold(h0, head + TypeArgumentInputs(t, i), hc)
      {
        TypeArgumentStep(h0, head, t, i, hc);
        var inner := MirrorEqvHashCodeInto(t.typeArguments[i], hc, collector);
      }
    }
    r := collector.hash;
  }

  /** `TypeMirror.eqvHashCode()` with its default, fresh collector. */
  method MirrorEqvHashCode(t: TypeMirror, hc: HashInput -> int) returns (r: int)
    ensures r == Fold(Seed, MirrorHashInputs(t), hc)
  {
    var collector := new HashCollector();
    r := MirrorEqvHashCodeInto(t, hc, collector);
  }

  /**
   * The coarse structure the fallback hash sees: declared types with equal
   * simple names and pairwise alike type arguments; every other type alike.
   */
  predicate SameSkeleton(a: TypeMirror, b: TypeMirror)
    decreases a
  {
    if a.DeclaredType? then
      b.DeclaredType? && a.element.simpleName == b.element.simpleName &&
      |a.typeArguments| == |b.typeArguments| &&
      forall i :: 0 <= i < |a.typeArguments| ==> SameSkeleton(a.typeArguments[i], b.typeArguments[i])
    else !b.DeclaredType?
  }

  /** Types of the same skeleton hash the same objects in the same order. */
  lemma {:induction false} SameSkeletonHashInputs(a: TypeMirror, b: TypeMirror)
    requires SameSkeleton(a, b)
    ensures MirrorHashInputs(a) == MirrorHashInputs(b)
    decreases a, if a.DeclaredType? then |a.typeArguments| + 1 else 0
  {
    if a.DeclaredType? {
      SameSkeletonArgumentInputs(a, b, |a.typeArguments|);
    }
  }

  lemma {:induction false} SameSkeletonArgumentInputs(a: TypeMirror, b: TypeMirror, n: nat)
    requires SameSkeleton(a, b) && a.DeclaredType? && n <= |a.typeArguments|
    ensures b.DeclaredType? && n <= |b.typeArguments| && TypeArgumentInputs(a, n) == TypeArgumentInputs(b, n)
    decreases a, n
  {
    if n > 0 {
      SameSkeletonArgumentInputs(a, b, n - 1);
      SameSkeletonHashInputs(a.typeArguments[n - 1], b.typeArguments[n - 1]);
    }
  }

  /**
   * The fallback hash is coarse: it ignores packages and enclosing classes,
   * and gives every array, primitive and type variable the collector's
   * current value.
   */
  lemma FallbackHashIsCoarse(hc: HashInput -> int)
    ensures var mine := DeclaredType(TypeElement("Key", PackageElement("com.a")), []);
      var theirs := DeclaredType(TypeElement("Key", TypeElement("Outer", PackageElement("com.b"))), []);
      Fold(Seed, MirrorHashInputs(mine), hc) == Fold(Seed, MirrorHashInputs(theirs), hc)
    ensures Fold(Seed, MirrorHashInputs(ArrayType(PrimitiveType(Int))), hc) == Seed
    ensures Fold(Seed, MirrorHashInputs(OtherType), hc) == Seed
  {
    var mine := DeclaredType(TypeElement("Key", PackageElement("com.a")), []);
    var theirs := DeclaredType(TypeElement("Key", TypeElement("Outer", PackageElement("com.b"))), []);
    SameSkeletonHashInputs(mine, theirs);
  }
}
