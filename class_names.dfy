/**
 * Class names as Kotlin metadata writes them ("kotlin/collections/Map.Entry":
 * package segments separated by `/`, nested classes by `.`) and their split
 * into a KotlinPoet `ClassName`.
 */
module ClassNames {
  import opened Strings

  /** A KotlinPoet `ClassName`: a dotted package name and the simple names, outermost first. */
  datatype ClassName = ClassName(packageName: string, simpleNames: seq<string>)

  /**
   * `ClassName.asClassName`: split at the last `/`. Without one, the whole
   * name is the single simple name in the root package (it is not split at
   * `.`); otherwise the package is the part before it with `/` turned into `.`,
   * and the part after it, split at `.`, gives the simple names.
   */
  function AsClassName(name: string): (r: ClassName)
    ensures |r.simpleNames| >= 1
    ensures '/' !in name ==> r == ClassName("", [name])
    ensures '/' in name ==> '/' !in r.packageName
    ensures '/' in name ==> forall i :: 0 <= i < |r.simpleNames| ==> '.' !in r.simpleNames[i]
  {
    var split := LastIndexOf(name, '/');
    if split == -1 then ClassName("", [name])
    else ClassName(Replace(name[..split], '/', '.'), Split(name[split + 1..], '.'))
  }

  /** `ClassName.packageName` of a metadata class name. */
  function PackageName(name: string): (r: string)
    ensures '/' !in r
    ensures '/' !in name ==> r == ""
  {
    var split := LastIndexOf(name, '/');
    if split == -1 then "" else Replace(name[..split], '/', '.')
  }

  /** `ClassName.simpleName` of a metadata class name: everything after the last `/`. */
  function SimpleName(name: string): (r: string)
    ensures '/' !in r
    ensures |r| <= |name| && r == name[|name| - |r|..]
    ensures '/' !in name ==> r == name
  {
    name[LastIndexOf(name, '/') + 1..]
  }

  /** The two accessors give the package and the dotted nesting of the split. */
  lemma AccessorsAgree(name: string)
    ensures PackageName(name) == AsClassName(name).packageName
    ensures SimpleName(name) == Join(AsClassName(name).simpleNames, ".")
  {
    var split := LastIndexOf(name, '/');
    if split != -1 {
      JoinSplit(name[split + 1..], '.');
    }
  }

  /** The metadata form of a class name: package path, `/`, nested names joined by `.`. */
  function MetadataName(c: ClassName): string
  {
    (if c.packageName == "" then "" else Replace(c.packageName, '.', '/') + "/") + Join(c.simpleNames, ".")
  }

  /** A metadata name whose package part, if any, is non-empty and has no `.`. */
  predicate WellFormedMetadataName(name: string)
  {
    var split := LastIndexOf(name, '/');
    split != 0 && (split > 0 ==> '.' !in name[..split])
  }

  /** A split loses nothing of a well-formed metadata name. */
  lemma MetadataNameOfSplit(name: string)
    requires WellFormedMetadataName(name)
    ensures MetadataName(AsClassName(name)) == name
  {
    var split := LastIndexOf(name, '/');
    if split != -1 {
      var front := name[..split];
      ReplaceBack(front, '/', '.');
      JoinSplit(name[split + 1..], '.');
      assert name == front + "/" + name[split + 1..];
    }
  }

  /**
   * Splitting the metadata form of a class name in a named package gives it
   * back, when its package has no `/` and its simple names no `.` or `/`.
   */
  lemma SplitOfMetadataName(c: ClassName)
    requires c.packageName != "" && '/' !in c.packageName
    requires |c.simpleNames| >= 1
    requires forall i :: 0 <= i < |c.simpleNames| ==> '.' !in c.simpleNames[i] && '/' !in c.simpleNames[i]
    ensures AsClassName(MetadataName(c)) == c
  {
    var path := Replace(c.packageName, '.', '/');
    var nested := Join(c.simpleNames, ".");
    JoinAvoids(c.simpleNames, ".", '/');
    var name := MetadataName(c);
    assert name == path + ['/'] + nested;
    LastIndexOfBefore(path, '/', nested);
    assert name[..|path|] == path && name[|path| + 1..] == nested;
    ReplaceBack(c.packageName, '.', '/');
    SplitJoin(c.simpleNames, '.');
  }

  /**
   * Without a `/` nothing is split at `.`: the root-package nested class
   * `Outer.Inner` becomes one simple name, so its class name does not come back.
   */
  lemma RootPackageNotSplit()
    ensures AsClassName("Outer.Inner") == ClassName("", ["Outer.Inner"])
    ensures AsClassName(MetadataName(ClassName("", ["Outer", "Inner"]))) != ClassName("", ["Outer", "Inner"])
  {
    var name := "Outer.Inner";
    assert forall i :: 0 <= i < |name| ==> name[i] != '/';
    assert Join(["Outer", "Inner"], ".") == name;
    assert AsClassName(name).simpleNames == [name];
  }
}
