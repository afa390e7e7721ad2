/**
 * JVM field descriptors (section 4.3.2 of the Java Virtual Machine
 * Specification): the grammar that the signature keys are written in, with
 * a renderer and a parser, so that a key can be shown to determine the
 * erased parameter types it was built from.
 */
module Descriptors {
  import opened Wrappers
  import opened Strings
  import M = Mirrors

  /** A field type: a base type, a class in internal binary form, or an array. */
  datatype FieldType =
    | BaseType(kind: M.PrimitiveKind)
    | ObjectType(className: string)
    | ArrayType(componentType: FieldType)

  /** The one-letter descriptor of a primitive kind (V is the void descriptor). */
  function BaseTypeChar(k: M.PrimitiveKind): char
  {
    match k
    case Boolean => 'Z'
    case Byte => 'B'
    case Char => 'C'
    case Short => 'S'
    case Int => 'I'
    case Long => 'J'
    case Float => 'F'
    case Double => 'D'
    case Void => 'V'
  }

  function BaseTypeOf(c: char): (r: Option<M.PrimitiveKind>)
    ensures r.Some? ==> BaseTypeChar(r.value) == c
  {
    match c
    case 'Z' => Some(M.Boolean)
    case 'B' => Some(M.Byte)
    case 'C' => Some(M.Char)
    case 'S' => Some(M.Short)
    case 'I' => Some(M.Int)
    case 'J' => Some(M.Long)
    case 'F' => Some(M.Float)
    case 'D' => Some(M.Double)
    case 'V' => Some(M.Void)
    case _ => None
  }

  /** Each kind has its own letter, which reads back as that kind. */
  lemma BaseTypeRoundTrip(k: M.PrimitiveKind)
    ensures BaseTypeOf(BaseTypeChar(k)) == Some(k)
  {
    match k
    case Boolean =>
    case Byte =>
    case Char =>
    case Short =>
    case Int =>
    case Long =>
    case Float =>
    case Double =>
    case Void =>
  }

  /** The descriptor of a field type. */
  function Render(f: FieldType): string
  {
    match f
    case BaseType(k) => [BaseTypeChar(k)]
    case ObjectType(n) => "L" + n + ";"
    case ArrayType(component) => "[" + Render(component)
  }

  /** The descriptors of a list of field types, one after the other. */
  function RenderAll(fs: seq<FieldType>): string
  {
    if fs == [] then "" else Render(fs[0]) + RenderAll(fs[1..])
  }

  /** No class name in `f` contains `c`. */
  predicate ClassNamesAvoid(f: FieldType, c: char)
  {
    match f
    case BaseType(_) => true
    case ObjectType(n) => c !in n
    case ArrayType(component) => ClassNamesAvoid(component, c)
  }

  /** Reads one field descriptor from the front of `s`; gives it and the rest. */
  function ParseField(s: string): (r: Option<(FieldType, string)>)
    ensures r.Some? ==> |r.value.1| < |s|
  {
    if |s| == 0 then None
    else if BaseTypeOf(s[0]).Some? then Some((BaseType(BaseTypeOf(s[0]).value), s[1..]))
    else if s[0] == '[' then
      match ParseField(s[1..])
      case None => None
      case Some((component, rest)) => Some((ArrayType(component), rest))
    else if s[0] == 'L' then
      var k := IndexOf(s, ';');
      if k == -1 then None else Some((ObjectType(s[1..k]), s[k + 1..]))
    else None
  }

  /** Reads field descriptors until `s` is used up. */
  function ParseFields(s: string): Option<seq<FieldType>>
    decreases |s|
  {
    if s == [] then Some([])
    else
      match ParseField(s)
      case None => None
      case Some((f, rest)) =>
        match ParseFields(rest)
        case None => None
        case Some(fs) => Some([f] + fs)
  }

  /** Parsing reads back exactly the field type that was rendered. */
  lemma {:induction false} ParseRender(f: FieldType, rest: string)
    requires ClassNamesAvoid(f, ';')
    ensures ParseField(Render(f) + rest) == Some((f, rest))
  {
    var s := Render(f) + rest;
    match f
    case BaseType(k) =>
      assert s[0] == BaseTypeChar(k) && s[1..] == rest;
      BaseTypeRoundTrip(k);
    case ObjectType(n) =>
      ParseObjectType(n, rest);
    case ArrayType(component) =>
      assert s[0] == '[' && s[1..] == Render(component) + rest;
      ParseRender(component, rest);
  }

  /** Parsing reads a class name back up to its `;`. */
  lemma ParseObjectType(n: string, rest: string)
    requires ';' !in n
    ensures ParseField(Render(ObjectType(n)) + rest) == Some((ObjectType(n), rest))
  {
    var p := "L" + n;
    var s := p + [';'] + rest;
    assert Render(ObjectType(n)) + rest == s;
    assert s[0] == 'L' && BaseTypeOf('L').None?;
    assert ';' !in p;
    IndexOfAfter(p, ';', rest);
    assert s[1..|p|] == n;
    assert s[|p| + 1..] == rest;
  }

  /** Parsing a run of rendered field types gives back the whole list. */
  lemma {:induction false} ParseRenderAll(fs: seq<FieldType>)
    requires forall i :: 0 <= i < |fs| ==> ClassNamesAvoid(fs[i], ';')
    ensures ParseFields(RenderAll(fs)) == Some(fs)
    decreases |fs|
  {
    if fs != [] {
      ParseRender(fs[0], RenderAll(fs[1..]));
      ParseRenderAll(fs[1..]);
      assert Render(fs[0]) != [];
      assert fs == [fs[0]] + fs[1..];
    }
  }

  /** Rendering one more field type appends its descriptor. */
  lemma {:induction false} RenderAllSnoc(fs: seq<FieldType>, f: FieldType)
    ensures RenderAll(fs + [f]) == RenderAll(fs) + Render(f)
    decreases |fs|
  {
    if fs == [] {
      assert [f][1..] == [];
    } else {
      assert (fs + [f])[1..] == fs[1..] + [f];
      RenderAllSnoc(fs[1..], f);
    }
  }

  /** A descriptor holds no character that its class names and the grammar lack. */
  lemma {:induction false} RenderAvoids(f: FieldType, c: char)
    requires ClassNamesAvoid(f, c)
    requires c != 'L' && c != ';' && c != '['
    requires BaseTypeOf(c).None?
    ensures c !in Render(f)
  {
    match f
    case BaseType(k) =>
    case ObjectType(n) =>
    case ArrayType(component) => RenderAvoids(component, c);
  }
}
