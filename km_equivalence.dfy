/**
 * Structural equivalence of metadata types (`KmType.eqv`) and the hash fed
 * to a HashCollector (`KmType.eqvHashCode`), with the facts that tie them:
 * reflexivity, symmetry and transitivity where both sides use abbreviations
 * at the same places, and the hash agreeing with the equivalence there.
 */
module KmEquivalence {
  import opened Wrappers
  import opened KmTypes
  import opened HashCollectors

  /**
   * `KmType.eqv`. An abbreviated receiver compares abbreviations (and fails
   * against a type without one); otherwise the classifiers must be equal and
   * the arguments pairwise alike: equal variance, and both types absent or
   * both present and equivalent. Nullability is not compared.
   */
  predicate Eqv(a: KmType, b: KmType)
    decreases a
  {
    if a.abbreviatedType.Some? then
      b.abbreviatedType.Some? && Eqv(a.abbreviatedType.value, b.abbreviatedType.value)
    else
      a.classifier == b.classifier &&
      |a.arguments| == |b.arguments| &&
      forall i :: 0 <= i < |a.arguments| ==>
        a.arguments[i].variance == b.arguments[i].variance &&
        a.arguments[i].typ.Some? == b.arguments[i].typ.Some? &&
        (a.arguments[i].typ.Some? ==> Eqv(a.arguments[i].typ.value, b.arguments[i].typ.value))
  }

  /** Wherever the comparison looks, both sides have an abbreviated type or neither has. */
  predicate SameAbbreviationShape(a: KmType, b: KmType)
    decreases a
  {
    a.abbreviatedType.Some? == b.abbreviatedType.Some? &&
    if a.abbreviatedType.Some? then
      SameAbbreviationShape(a.abbreviatedType.value, b.abbreviatedType.value)
    else
      forall i ::
        (0 <= i < |a.arguments| && i < |b.arguments| &&
         a.arguments[i].typ.Some? && b.arguments[i].typ.Some?) ==>
        SameAbbreviationShape(a.arguments[i].typ.value, b.arguments[i].typ.value)
  }

  /** The objects that `eqvHashCode` passes to `hash`. */
  datatype HashInput =
    | ClassifierInput(classifier: KmClassifier)
    | VarianceInput(variance: Option<KmVariance>)

  /**
   * The objects `eqvHashCode` hashes, in order: those of the abbreviated type
   * if there is one, otherwise the classifier and then, per argument, its
   * variance followed by whatever its type (if any) hashes.
   */
  function HashInputs(t: KmType): seq<HashInput>
    decreases t, |t.arguments| + 1
  {
    if t.abbreviatedType.Some? then HashInputs(t.abbreviatedType.value)
    else [ClassifierInput(t.classifier)] + ArgumentInputs(t, |t.arguments|)
  }

  /** What the first `n` arguments of `t` contribute. */
  function ArgumentInputs(t: KmType, n: nat): seq<HashInput>
    requires n <= |t.arguments|
    decreases t, n
  {
    if n == 0 then []
    else
      var argument := t.arguments[n - 1];
      ArgumentInputs(t, n - 1) + [VarianceInput(argument.variance)] +
      (if argument.typ.Some? then HashInputs(argument.typ.value) else [])
  }

  /** The value of `eqvHashCode()` with a fresh collector. */
  function EqvHash(t: KmType, hc: HashInput -> int): int
  {
    Fold(Seed, HashInputs(t), hc)
  }

  /** What the argument `a` contributes after its variance. */
  function TypeInputs(a: KmTypeProjection): seq<HashInput>
  {
    if a.typ.Some? then HashInputs(a.typ.value) else []
  }

  /** One more argument: its variance is mixed in, then its type's inputs are folded. */
  lemma ArgumentStep(h0: int, head: seq<HashInput>, t: KmType, i: nat, hc: HashInput -> int)
    requires i < |t.arguments|
    ensures Fold(h0, head + ArgumentInputs(t, i + 1), hc) ==
            Fold(Mix(Fold(h0, head + ArgumentInputs(t, i), hc), hc(VarianceInput(t.arguments[i].variance))),
                 TypeInputs(t.arguments[i]), hc)
  {
    var before := head + ArgumentInputs(t, i);
    var variance := [VarianceInput(t.arguments[i].variance)];
    assert (before + variance)[..|before|] == before;
    FoldAppend(h0, before + variance, TypeInputs(t.arguments[i]), hc);
    assert head + ArgumentInputs(t, i + 1) == before + variance + TypeInputs(t.arguments[i]);
  }

  /** `eqvHashCode(collector)`: feeds `t` into `collector` and returns its hash. */
  method EqvHashCodeInto(t: KmType, hc: HashInput -> int, collector: HashCollector) returns (r: int)
    modifies collector
    ensures collector.hash == Fold(old(collector.hash), HashInputs(t), hc)
    ensures r == collector.hash
    decreases t
  {
    if t.abbreviatedType.Some? {
      var inner := EqvHashCodeInto(t.abbreviatedType.value, hc, collector);
    } else {
      ghost var h0 := collector.hash;
      ghost var head := [ClassifierInput(t.classifier)];
      collector.Hash(hc(ClassifierInput(t.classifier)));
      assert head + ArgumentInputs(t, 0) == head;
      for i := 0 to |t.arguments|
        invariant collector.hash == Fold(h0, head + ArgumentInputs(t, i), hc)
      {
        var argument := t.arguments[i];
        ArgumentStep(h0, head, t, i, hc);
        collector.Hash(hc(VarianceInput(argument.variance)));
        if argument.typ.Some? {
          var inner := EqvHashCodeInto(argument.typ.value, hc, collector);
        }
      }
    }
    r := collector.hash;
  }

  /** `eqvHashCode()` with its default, fresh collector. */
  method EqvHashCode(t: KmType, hc: HashInput -> int) returns (r: int)
    ensures r == EqvHash(t, hc)
  {
    var collector := new HashCollector();
    r := EqvHashCodeInto(t, hc, collector);
  }

  /** Every type is equivalent to itself. */
  lemma {:induction false} EqvReflexive(a: KmType)
    ensures Eqv(a, a)
    decreases a
  {
    if a.abbreviatedType.Some? {
      EqvReflexive(a.abbreviatedType.value);
    } else {
      forall i | 0 <= i < |a.arguments| && a.arguments[i].typ.Some?
        ensures Eqv(a.arguments[i].typ.value, a.arguments[i].typ.value)
      {
        EqvReflexive(a.arguments[i].typ.value);
      }
    }
  }

  /** Where both sides use abbreviations at the same places, the relation is symmetric. */
  lemma {:induction false} EqvSymmetric(a: KmType, b: KmType)
    requires SameAbbreviationShape(a, b)
    requires Eqv(a, b)
    ensures Eqv(b, a)
    decreases a
  {
    if a.abbreviatedType.Some? {
      EqvSymmetric(a.abbreviatedType.value, b.abbreviatedType.value);
    } else {
      forall i | 0 <= i < |a.arguments| && a.arguments[i].typ.Some?
        ensures Eqv(b.arguments[i].typ.value, a.arguments[i].typ.value)
      {
        EqvSymmetric(a.arguments[i].typ.value, b.arguments[i].typ.value);
      }
    }
  }

  /** Transitivity, when the first two use abbreviations at the same places. */
  lemma {:induction false} EqvTransitive(a: KmType, b: KmType, c: KmType)
    requires SameAbbreviationShape(a, b)
    requires Eqv(a, b) && Eqv(b, c)
    ensures Eqv(a, c)
    decreases a
  {
    if a.abbreviatedType.Some? {
      EqvTransitive(a.abbreviatedType.value, b.abbreviatedType.value, c.abbreviatedType.value);
    } else {
      forall i | 0 <= i < |a.arguments| && a.arguments[i].typ.Some?
        ensures Eqv(a.arguments[i].typ.value, c.arguments[i].typ.value)
      {
        EqvTransitive(a.arguments[i].typ.value, b.arguments[i].typ.value, c.arguments[i].typ.value);
      }
    }
  }

  /** Equivalent types of the same abbreviation shape hash the same objects in the same order. */
  lemma {:induction false} EqvHashInputs(a: KmType, b: KmType)
    requires SameAbbreviationShape(a, b)
    requires Eqv(a, b)
    ensures HashInputs(a) == HashInputs(b)
    decreases a, |a.arguments| + 1
  {
    if a.abbreviatedType.Some? {
      EqvHashInputs(a.abbreviatedType.value, b.abbreviatedType.value);
    } else {
      EqvArgumentInputs(a, b, |a.arguments|);
    }
  }

  lemma {:induction false} EqvArgumentInputs(a: KmType, b: KmType, n: nat)
    requires a.abbreviatedType.None? && SameAbbreviationShape(a, b)
    requires Eqv(a, b)
    requires n <= |a.arguments|
    ensures n <= |b.arguments| && ArgumentInputs(a, n) == ArgumentInputs(b, n)
    decreases a, n
  {
    if n > 0 {
      EqvArgumentInputs(a, b, n - 1);
      var argument := a.arguments[n - 1];
      if argument.typ.Some? {
        EqvHashInputs(argument.typ.value, b.arguments[n - 1].typ.value);
      }
    }
  }

  /** Hence their hashes agree, whatever the objects' hash codes. */
  lemma EqvHashConsistent(a: KmType, b: KmType, hc: HashInput -> int)
    requires SameAbbreviationShape(a, b)
    requires Eqv(a, b)
    ensures EqvHash(a, hc) == EqvHash(b, hc)
  {
    EqvHashInputs(a, b);
  }

  /** Only the receiver's abbreviation is consulted, so the relation is not symmetric in general. */
  lemma EqvNotSymmetric()
    ensures var list := KmType(Class("kotlin/collections/List"), [KmTypeProjection(Some(Invariant), Some(KmType(Class("kotlin/String"), [], false, None)))], false, None);
      var alias := KmType(TypeAlias("com/example/StringList"), [], false, None);
      var aliased := list.(abbreviatedType := Some(alias));
      Eqv(list, aliased) && !Eqv(aliased, list)
  {
  }

  /** Nor is it transitive: an abbreviation on the middle type hides its classifier from the third. */
  lemma EqvNotTransitive()
    ensures var alias := KmType(TypeAlias("com/example/Names"), [], false, None);
      var list := KmType(Class("kotlin/collections/List"), [], false, None);
      var listAlias := list.(abbreviatedType := Some(alias));
      var setAlias := KmType(Class("kotlin/collections/Set"), [], false, Some(alias));
      Eqv(list, listAlias) && Eqv(listAlias, setAlias) && !Eqv(list, setAlias)
  {
  }

  /** An abbreviation on the argument side alone can make equivalent types hash differently. */
  lemma EqvHashNeedsSameShape()
    ensures var list := KmType(Class("kotlin/collections/List"), [], false, None);
      var alias := KmType(TypeAlias("com/example/Names"), [], false, None);
      var aliased := list.(abbreviatedType := Some(alias));
      Eqv(list, aliased) && HashInputs(list) != HashInputs(aliased)
  {
    var list := KmType(Class("kotlin/collections/List"), [], false, None);
    var alias := KmType(TypeAlias("com/example/Names"), [], false, None);
    var aliased := list.(abbreviatedType := Some(alias));
    assert HashInputs(list)[0] == ClassifierInput(list.classifier);
    assert HashInputs(aliased)[0] == ClassifierInput(alias.classifier);
  }

  /** Variance is part of identity: `List<out String>`, `List<in String>` and `List<String>` differ. */
  lemma EqvVarianceSensitive()
    ensures var str := Some(KmType(Class("kotlin/String"), [], false, None));
      var list := Class("kotlin/collections/List");
      var outList := KmType(list, [KmTypeProjection(Some(Out), str)], false, None);
      var inList := KmType(list, [KmTypeProjection(Some(In), str)], false, None);
      var plainList := KmType(list, [KmTypeProjection(Some(Invariant), str)], false, None);
      !Eqv(outList, inList) && !Eqv(outList, plainList) && !Eqv(inList, plainList)
  {
    var str := Some(KmType(Class("kotlin/String"), [], false, None));
    var list := Class("kotlin/collections/List");
    var outList := KmType(list, [KmTypeProjection(Some(Out), str)], false, None);
    var inList := KmType(list, [KmTypeProjection(Some(In), str)], false, None);
    var plainList := KmType(list, [KmTypeProjection(Some(Invariant), str)], false, None);
    assert outList.arguments[0].variance != inList.arguments[0].variance;
    assert outList.arguments[0].variance != plainList.arguments[0].variance;
    assert inList.arguments[0].variance != plainList.arguments[0].variance;
  }
}
