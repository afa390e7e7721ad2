# kotlin-inject kapt utilities, modelled in Dafny

This project models the identity primitives that the kapt backend of
kotlin-inject uses to match declarations across its two views of a program:
the javax.lang.model reflective API (`Element`, `TypeMirror`,
`AnnotationMirror`) and Kotlin metadata (`KmType`, `KmClassifier`,
`JvmMethodSignature`). All of it lives in
`kotlin-inject-compiler-kapt/src/main/kotlin/me/tatarka/inject/compiler/kapt/Util.kt`.

- **Signature keys.** `ExecutableElement.simpleSig` writes a method's name
  and its parameters' JVM field descriptors (section 4.3.2 of the Java
  Virtual Machine Specification) into a `StringBuilder`, with no return
  type. `JvmMethodSignature.simpleSig` cuts the same kind of key out of a
  metadata method descriptor (section 4.3.3) at its last `)`. The model
  proves that the two keys agree for the same method, and that a key
  determines the method name and the erased parameter types. It proves the
  second fact with a descriptor parser that reads back what the encoder
  writes.
- **Class names.** A metadata class name such as `kotlin/collections/Map.Entry`
  is split at its last `/` into a KotlinPoet `ClassName`. The `KmType`
  accessors `packageName`, `simpleName` and `asTypeName` follow
  `abbreviatedType` first. A type parameter has no name.
- **Equivalence and hashing.** `KmType.eqv`, `AnnotationMirror.eqv` and the
  three `eqvHashCode` functions. They feed a mutable `HashCollector`. Here
  it is a class whose `hash` field follows `h' = h * 31 + x`, starting
  from 1. Each hashed object's `hashCode()` is a function parameter `hc`.
  The hash facts are proved first for the sequence of objects hashed, and
  from that for every `hc`.

In `KmType.eqv` only the receiver decides whether abbreviations are
compared. With a receiver abbreviation, `other` must have one too and the two
are compared. Without one, `other`'s abbreviation is ignored and the
classifiers and arguments are compared. The relation is therefore neither
symmetric nor transitive in general, and equivalent types can hash
differently. The model keeps this behaviour. It shows each failure with a
concrete pair or triple (`EqvNotSymmetric`, `EqvNotTransitive`,
`EqvHashNeedsSameShape`). It proves reflexivity. It proves symmetry,
transitivity and hash consistency for pairs whose abbreviations sit at the
same places (`SameAbbreviationShape`).

In kotlinx.metadata, `abbreviatedType` is the type as written with its
alias, and `classifier` holds the expansion. The accessors and `eqv` look at
`abbreviatedType` first, so the alias form decides. The model follows the
field as the code reads it.

Modules: `Wrappers` (Option), `Strings` (the Kotlin string functions used
and a `StringBuilder` class), `HashCollectors`, `Mirrors` (the javax model),
`Descriptors` (field descriptors: rendering and parsing), `Signatures`,
`ClassNames`, `KmTypes`, `KmEquivalence`, `MirrorEquivalence`.

## Model

| member | source | states |
|---|---|---|
| Signatures.EnclosingNames | kotlin-inject-compiler-kapt/src/main/kotlin/me/tatarka/inject/compiler/kapt/Util.kt:79-87 | The walk up the enclosing chain, followed by the reverse, gives the package at the end of the chain and the simple names from outermost to innermost. |
| Signatures.Convert | kotlin-inject-compiler-kapt/src/main/kotlin/me/tatarka/inject/compiler/kapt/Util.kt:59-103 | Appends exactly the field descriptor of the type's erasure. Primitives and void are one letter `Z B C S I J F D V`; `[` comes before an array's component; a declared type is `L`, the package with `/` and a trailing `/` (none for the root package), the nested names joined by `$`, then `;`; anything else is `Ljava/lang/Object;`. Nothing else in the builder changes. |
| Signatures.SimpleSig | kotlin-inject-compiler-kapt/src/main/kotlin/me/tatarka/inject/compiler/kapt/Util.kt:105-112 | The key is the name, `(`, the parameter descriptors in declaration order, `)`. No return type. |
| Signatures.JvmSimpleSig | kotlin-inject-compiler-kapt/src/main/kotlin/me/tatarka/inject/compiler/kapt/Util.kt:115-116 | The result is the name followed by a prefix of `desc`. If `desc` has no `)`, that prefix is empty. Otherwise it ends with `)` and no `)` of `desc` comes after it. |
| Signatures.JvmSimpleSigAgrees | kotlin-inject-compiler-kapt/src/main/kotlin/me/tatarka/inject/compiler/kapt/Util.kt:53-54 | For a method descriptor of the method's parameters and any return type whose names hold no `)`, the metadata key equals the element key. |
| Signatures.SignatureKeyInjective | kotlin-inject-compiler-kapt/src/main/kotlin/me/tatarka/inject/compiler/kapt/Util.kt:53-54 | Two keys are equal iff the names are equal and the erased parameter lists are equal. This holds for names without `(` and type names without `;`. |
| Signatures.ShortKeyExample | kotlin-inject-compiler-kapt/src/main/kotlin/me/tatarka/inject/compiler/kapt/Util.kt:105-112 | `f(int, p.S)` has the key `f(ILp/S;)`. |
| Signatures.NestedClassBinaryName | kotlin-inject-compiler-kapt/src/main/kotlin/me/tatarka/inject/compiler/kapt/Util.kt:77-94 | The nested class `p.q.A.B` has the binary name `p/q/A$B`. |
| Signatures.ErasureExamples | kotlin-inject-compiler-kapt/src/main/kotlin/me/tatarka/inject/compiler/kapt/Util.kt:73-98 | `long[][]` is `[[J`. An array of a type variable erases to an array of `java/lang/Object`. A root-package class gets no package prefix. |
| Descriptors.BaseTypeRoundTrip | kotlin-inject-compiler-kapt/src/main/kotlin/me/tatarka/inject/compiler/kapt/Util.kt:62-70 | Each primitive kind has its own letter, which reads back as that kind. |
| Descriptors.ParseRender | kotlin-inject-compiler-kapt/src/main/kotlin/me/tatarka/inject/compiler/kapt/Util.kt:59-103 | Parsing a rendered field descriptor gives back the field type and the rest of the text. Class names must be free of `;`. |
| Descriptors.ParseRenderAll | kotlin-inject-compiler-kapt/src/main/kotlin/me/tatarka/inject/compiler/kapt/Util.kt:108-110 | Parsing concatenated descriptors gives back the whole list, in order. |
| ClassNames.AsClassName | kotlin-inject-compiler-kapt/src/main/kotlin/me/tatarka/inject/compiler/kapt/Util.kt:124-131 | With no `/`, the result is the root package with the whole name as its only simple name. With a `/`, the package holds no `/`, no simple name holds a `.`, and there is at least one simple name. |
| ClassNames.AccessorsAgree | kotlin-inject-compiler-kapt/src/main/kotlin/me/tatarka/inject/compiler/kapt/Util.kt:171-185 | `packageName` is the split's package. `simpleName` is the split's simple names joined by `.`. |
| ClassNames.MetadataNameOfSplit | kotlin-inject-compiler-kapt/src/main/kotlin/me/tatarka/inject/compiler/kapt/Util.kt:124-131 | The split loses nothing. The metadata name is rebuilt from it, provided its package part is non-empty and free of `.`. |
| ClassNames.SplitOfMetadataName | kotlin-inject-compiler-kapt/src/main/kotlin/me/tatarka/inject/compiler/kapt/Util.kt:124-131 | Splitting the metadata form of a class name in a named package gives the class name back. |
| KmTypes.ClassifierAsClassName | kotlin-inject-compiler-kapt/src/main/kotlin/me/tatarka/inject/compiler/kapt/Util.kt:118-122 | A type parameter has no class name. Classes and aliases get their name's split. |
| KmTypes.ArgumentTypeNames | kotlin-inject-compiler-kapt/src/main/kotlin/me/tatarka/inject/compiler/kapt/Util.kt:197 | The argument mapping succeeds iff every argument has a type that names to a type name, and then it gives those names in order. Otherwise a `!!` throws. |
| KmTypes.AsTypeNameUnnamed | kotlin-inject-compiler-kapt/src/main/kotlin/me/tatarka/inject/compiler/kapt/Util.kt:187-193 | `asTypeName` returns null iff the type reached by following abbreviations has a type-parameter classifier. |
| KmTypes.AsTypeNameNamed | kotlin-inject-compiler-kapt/src/main/kotlin/me/tatarka/inject/compiler/kapt/Util.kt:187-199 | `asTypeName` returns a name iff the tree is fully named: at every level, after following abbreviations, the classifier is not a type parameter and no argument is a star projection. |
| KmTypes.AsTypeNameShape | kotlin-inject-compiler-kapt/src/main/kotlin/me/tatarka/inject/compiler/kapt/Util.kt:145-198 | A name from `asTypeName` has the class name of the classifier reached by following abbreviations (for a parameter typed `StringList`, the alias `StringList`, not `List`), which agrees with `packageName` and `simpleName`. It has that type's nullability and one type argument per argument of that type. It is a plain class name exactly when there are no arguments. |
| KmTypes.AliasNameWins | kotlin-inject-compiler-kapt/src/main/kotlin/me/tatarka/inject/compiler/kapt/Util.kt:187-191 | A type with classifier `kotlin/collections/List` and abbreviated type `p/StringList` gets the type name `p.StringList`, the alias, not `List`. |
| KmTypes.TypeParameterUnnameable | kotlin-inject-compiler-kapt/src/main/kotlin/me/tatarka/inject/compiler/kapt/Util.kt:145-169 | A type parameter, after following abbreviations, has package `""`, simple name `""` and no type name. |
| KmEquivalence.EqvHashCodeInto | kotlin-inject-compiler-kapt/src/main/kotlin/me/tatarka/inject/compiler/kapt/Util.kt:234-247 | The collector's new hash is its old hash with the objects of `HashInputs` folded in. For the abbreviated type those are its objects; otherwise the classifier, then each argument's variance and type, in order. The method returns the new hash. |
| KmEquivalence.EqvHashCode | kotlin-inject-compiler-kapt/src/main/kotlin/me/tatarka/inject/compiler/kapt/Util.kt:234 | With its default fresh collector, the result is the fold of `HashInputs` from the seed. |
| KmEquivalence.EqvReflexive | kotlin-inject-compiler-kapt/src/main/kotlin/me/tatarka/inject/compiler/kapt/Util.kt:217-232 | Every type is `eqv` to itself. |
| KmEquivalence.EqvSymmetric | kotlin-inject-compiler-kapt/src/main/kotlin/me/tatarka/inject/compiler/kapt/Util.kt:217-232 | For types whose abbreviations sit at the same places, `eqv` is symmetric. |
| KmEquivalence.EqvTransitive | kotlin-inject-compiler-kapt/src/main/kotlin/me/tatarka/inject/compiler/kapt/Util.kt:217-232 | When the first pair's abbreviations sit at the same places, `eqv` is transitive. |
| KmEquivalence.EqvHashInputs | kotlin-inject-compiler-kapt/src/main/kotlin/me/tatarka/inject/compiler/kapt/Util.kt:217-247 | Equivalent types whose abbreviations sit at the same places hash the same objects in the same order. |
| KmEquivalence.EqvArgumentInputs | kotlin-inject-compiler-kapt/src/main/kotlin/me/tatarka/inject/compiler/kapt/Util.kt:228-231 | The same holds argument by argument, within the same prefix of the argument lists. |
| KmEquivalence.EqvHashConsistent | kotlin-inject-compiler-kapt/src/main/kotlin/me/tatarka/inject/compiler/kapt/Util.kt:234-247 | Under the same condition, `eqv` implies equal `eqvHashCode`, for any hash codes of the hashed objects. |
| KmEquivalence.EqvNotSymmetric | kotlin-inject-compiler-kapt/src/main/kotlin/me/tatarka/inject/compiler/kapt/Util.kt:218-227 | `List<String>` is `eqv` to the same type carrying a `StringList` abbreviation, but not the other way round. |
| KmEquivalence.EqvNotTransitive | kotlin-inject-compiler-kapt/src/main/kotlin/me/tatarka/inject/compiler/kapt/Util.kt:218-227 | A middle type with an abbreviation makes `eqv` fail transitivity. |
| KmEquivalence.EqvHashNeedsSameShape | kotlin-inject-compiler-kapt/src/main/kotlin/me/tatarka/inject/compiler/kapt/Util.kt:236-240 | When only the argument side has an abbreviation, two `eqv` types can hash different objects. |
| KmEquivalence.EqvVarianceSensitive | kotlin-inject-compiler-kapt/src/main/kotlin/me/tatarka/inject/compiler/kapt/Util.kt:228-229 | `List<out String>`, `List<in String>` and `List<String>` are pairwise not `eqv`. |
| MirrorEquivalence.AnnotationEqvHashCode | kotlin-inject-compiler-kapt/src/main/kotlin/me/tatarka/inject/compiler/kapt/Util.kt:208-215 | The result is the fold, from the seed, of the annotation type and then each value of `elementValues`, in order. |
| MirrorEquivalence.AnnotationEqvHashConsistent | kotlin-inject-compiler-kapt/src/main/kotlin/me/tatarka/inject/compiler/kapt/Util.kt:201-215 | Equivalent annotations hash the same objects, so their `eqvHashCode` agree. |
| MirrorEquivalence.AnnotationEqvIsEquivalence | kotlin-inject-compiler-kapt/src/main/kotlin/me/tatarka/inject/compiler/kapt/Util.kt:201-206 | Annotation `eqv` is reflexive, symmetric and transitive. |
| MirrorEquivalence.NamedExamples | kotlin-inject-compiler-kapt/src/main/kotlin/me/tatarka/inject/compiler/kapt/Util.kt:201-206 | `@Named("a")` is `eqv` to itself and not to `@Named("b")`. Member names are not compared. |
| MirrorEquivalence.MirrorEqvHashCodeInto | kotlin-inject-compiler-kapt/src/main/kotlin/me/tatarka/inject/compiler/kapt/Util.kt:249-257 | For a declared type, the collector folds in the element's simple name, then each type argument's objects. For other types it is left unchanged. The method returns the new hash. |
| MirrorEquivalence.MirrorEqvHashCode | kotlin-inject-compiler-kapt/src/main/kotlin/me/tatarka/inject/compiler/kapt/Util.kt:249 | With a fresh collector, the result is the fold from the seed. |
| MirrorEquivalence.SameSkeletonHashInputs | kotlin-inject-compiler-kapt/src/main/kotlin/me/tatarka/inject/compiler/kapt/Util.kt:249-257 | Types alike in simple names and type-argument structure hash the same objects. |
| MirrorEquivalence.FallbackHashIsCoarse | kotlin-inject-compiler-kapt/src/main/kotlin/me/tatarka/inject/compiler/kapt/Util.kt:249-257 | The fallback hash ignores packages and enclosing classes. Arrays, primitives and type variables leave the seed unchanged. |
| ClassNames.PackageName | kotlin-inject-compiler-kapt/src/main/kotlin/me/tatarka/inject/compiler/kapt/Util.kt:171-179 | `ClassName.packageName`: the package holds no `/`, and a name without `/` is in the root package `""`. Agreement with the split is `AccessorsAgree`. |
| ClassNames.SimpleName | kotlin-inject-compiler-kapt/src/main/kotlin/me/tatarka/inject/compiler/kapt/Util.kt:181-185 | `ClassName.simpleName`: a suffix of the name holding no `/`, and the whole name when it has no `/`. Agreement with the split is `AccessorsAgree`. |
| ClassNames.RootPackageNotSplit | kotlin-inject-compiler-kapt/src/main/kotlin/me/tatarka/inject/compiler/kapt/Util.kt:124-131 | `Outer.Inner` without a `/` gives the root package and the single simple name `Outer.Inner`, so the class name `("", [Outer, Inner])` does not come back from its metadata form. |
| KmTypes.PackageName | kotlin-inject-compiler-kapt/src/main/kotlin/me/tatarka/inject/compiler/kapt/Util.kt:145-156 | `KmType.packageName`: `""` when the type reached through abbreviations has a type-parameter classifier, otherwise the package of that classifier's name. |
| KmTypes.SimpleName | kotlin-inject-compiler-kapt/src/main/kotlin/me/tatarka/inject/compiler/kapt/Util.kt:158-169 | `KmType.simpleName`: `""` for a type parameter reached through abbreviations, otherwise the simple name of that classifier's name. |
| KmTypes.AsTypeName | kotlin-inject-compiler-kapt/src/main/kotlin/me/tatarka/inject/compiler/kapt/Util.kt:187-199 | `KmType.asTypeName`. Its contract is carried by `AsTypeNameUnnamed` (null), `AsTypeNameNamed` (a name), `AsTypeNameShape` (what the name holds) and `ArgumentTypeNames` (the arguments). |
| KmEquivalence.Eqv | kotlin-inject-compiler-kapt/src/main/kotlin/me/tatarka/inject/compiler/kapt/Util.kt:217-232 | `KmType.eqv`. Its properties are carried by `EqvReflexive`, `EqvSymmetric`, `EqvTransitive`, `EqvNotSymmetric`, `EqvNotTransitive` and `EqvVarianceSensitive`. |
| MirrorEquivalence.AnnotationEqv | kotlin-inject-compiler-kapt/src/main/kotlin/me/tatarka/inject/compiler/kapt/Util.kt:201-206 | `AnnotationMirror.eqv`. Its properties are carried by `AnnotationEqvIsEquivalence`, `AnnotationEqvHashConsistent`, `NamedExamples` and `ConstantKindsMatter`. |
| MirrorEquivalence.ConstantKindsMatter | kotlin-inject-compiler-kapt/src/main/kotlin/me/tatarka/inject/compiler/kapt/Util.kt:205 | `@A(x = 1)` with an `int` is not `eqv` to `@A(y = 1L)` with a `long`, and `NONE` of enum `E` is not `eqv` to `NONE` of enum `F`: values are compared with their boxed kind and enum type. |
| HashCollectors.HashCollector.Hash | kotlin-inject-compiler-kapt/src/main/kotlin/me/tatarka/inject/compiler/kapt/Util.kt:238-241 | `hash(x)`: the collector's state becomes `Mix` of the old state and `x`. Nothing else changes. |
| HashCollectors.Mix | kotlin-inject-compiler-kapt/src/main/kotlin/me/tatarka/inject/compiler/kapt/Util.kt:10-11 | One step of the collector, `h * 31 + x`. Its properties are carried by `FoldInjective` and `FoldSwap`. |
| HashCollectors.Fold | kotlin-inject-compiler-kapt/src/main/kotlin/me/tatarka/inject/compiler/kapt/Util.kt:234-247 | The state after hashing a sequence of objects in order, as `collectHash` runs its block on one collector. Its properties are carried by `FoldAppend`, `FoldInjective` and `FoldSwap`. |
| HashCollectors.FoldAppend | kotlin-inject-compiler-kapt/src/main/kotlin/me/tatarka/inject/compiler/kapt/Util.kt:235-246 | Passing one collector down through recursive calls is the same as hashing the concatenation of their objects. |
| HashCollectors.FoldSwap | kotlin-inject-compiler-kapt/src/main/kotlin/me/tatarka/inject/compiler/kapt/Util.kt:209-214 | The collector is order-sensitive. Swapping two adjacent objects with different hash codes changes the result. |
| HashCollectors.FoldInjective | kotlin-inject-compiler-kapt/src/main/kotlin/me/tatarka/inject/compiler/kapt/Util.kt:209-214 | Different collector states stay different whatever is hashed next. |

## Left out

- Reading `@Metadata` into `KotlinClassMetadata`, and `toKmClass`/`toKmPackage` (Util.kt:26-51), are left out. They call the kotlinx.metadata library and parse its binary format.
- `hasAnnotation` and `annotationAnnotatedWith` (Util.kt:17-24) are left out. They compare `toString()` renderings of javac mirrors.
- The `isAbstract`, `isPrivate` and `isInterface` predicates (Util.kt:259-271) are left out. Each is a single bit test on library `Flag` objects.
- `TypeMirror.asTypeName(kmType)` (Util.kt:133-141) is left out. Its fallback is KotlinPoet's reflective `asTypeName()`, a foreign library call.
- `KmClass.packageName` (Util.kt:143) has no separate member. It is `ClassNames.PackageName` applied to the class name.
- KotlinPoet's own checks in `ClassName`, `parameterizedBy` and `copy(nullable = ...)` are not modelled. A type name is an abstract tree (`KmTypes.TypeName`).
- `HashCollector`, `collectHash`, `eqvItr` and the nullable `eqv` are defined elsewhere in the repository, not in Util.kt. The collector is modelled as the fold `h * 31 + x` from 1, with unbounded integers. Its real constants and 32-bit wrap-around are not modelled.
- `hashCode()` of the hashed objects (classifiers, variances, names, annotation types and values) is a parameter, because the JVM's hash codes are not values this model can compute.
- The annotation type comparison and the comparison of class-valued annotation members (`ClassConstant`, through `a.value == b.value`) use javac's `Type.equals`. Both are modelled as structural equality of `TypeMirror` values.
- Annotation values are limited to booleans, integral values tagged with their primitive kind, strings, classes and enum constants tagged with their enum type. Floating-point values, arrays and nested annotations are not modelled.
- Kotlin's `map` stops at the first `!!` that throws. The model reports the same single NullPointerException, so the order of evaluation is not modelled.
- Kotlin strings are UTF-16 code units. Here a string is a `seq<char>`.
- `SimpleSig` and `Convert` erase every type that is not primitive, array or declared to `Ljava/lang/Object;`, as the code does. The JVM erases a bounded type variable to its bound, so for such parameters a descriptor from metadata can differ. The model has no bounds, so `JvmSimpleSigAgrees` takes the descriptor as built from this erasure.
- EqvSymmetric: only proved for pairs of the same abbreviation shape, because `eqv` is not symmetric in general (`EqvNotSymmetric`).
- EqvTransitive: only proved when the first pair has the same abbreviation shape (see `EqvNotTransitive`).
- EqvHashConsistent: only proved for pairs of the same abbreviation shape, because an abbreviation on the argument side alone breaks it (`EqvHashNeedsSameShape`).
- JvmSimpleSigAgrees: requires that the return type's names hold no `)`. A `)` there would move the last `)` of the descriptor.
- SignatureKeyInjective: requires a method name without `(` and type names without `;`. Section 4.2.2 of the Java Virtual Machine Specification forbids `;` in names but allows `(` in a method name, so the lemma excludes such method names; with one, a key could split at the wrong `(`.
- SplitOfMetadataName: requires a named package, because `asClassName` splits at `.` only after a `/` (Util.kt:126-127). The root-package nested class `Outer.Inner` becomes `ClassName("", ["Outer.Inner"])` (`RootPackageNotSplit`).
- MetadataNameOfSplit: requires that the package part, when there is one, be non-empty and free of `.`. A leading `/` is dropped by the round trip, and a `.` in the package part comes back as `/`.
- FoldSwap: with a 32-bit hash the swap can go unnoticed. It changes the state by 30 * (x - y), which wraps to 0 when the two hash codes differ by 2^31.
