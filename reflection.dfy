/**
 * The part of the Java runtime the converter talks to, abstracted: runtime
 * values with their classes, and an ordered method table standing for
 * `Class.getMethods()` together with the outcome of invoking each method.
 */
module Reflection {
  import opened Wrappers

  /** A runtime value as the converter handles it. */
  datatype Value =
    | Null
    | Bool(b: bool)             // a java.lang.Boolean
    | Int(i: int)               // a java.lang.Integer
    | Str(s: string)            // a java.lang.String
    | Obj(cls: string, ref: nat) // an instance of any other class, by fully-qualified name

  /** The fully-qualified name of the runtime class of a non-null value. */
  function QualifiedName(v: Value): string
    requires v != Null
  {
    match v
    case Bool(_) => "java.lang.Boolean"
    case Int(_) => "java.lang.Integer"
    case Str(_) => "java.lang.String"
    case Obj(cls, _) => cls
  }

  /** `value.getClass().toString()`: the runtime class of an object is always a class. */
  function ClassText(v: Value): (r: string)
    requires v != Null
    ensures |r| == |QualifiedName(v)| + 6 && r[..6] == "class " && r[6..] == QualifiedName(v)
  {
    "class " + QualifiedName(v)
  }

  /** `v instanceof Boolean` (Boolean is final, so this is an exact class test). */
  predicate IsBoolean(v: Value)
    ensures IsBoolean(v) <==> v.Bool? || (v.Obj? && v.cls == "java.lang.Boolean")
  {
    v != Null && QualifiedName(v) == "java.lang.Boolean"
  }

  /** The checked exceptions `Method.invoke` declares. */
  datatype Checked = IllegalAccess | InvocationTarget

  /** What invoking a method does: return a value or throw a checked exception. */
  datatype Outcome = Returns(value: Value) | Throws(error: Checked)

  /**
   * One public method of a class: its name, its parameter type names, its
   * `Method.toString()` text, and the outcome of invoking it (with no
   * arguments for a reader, with the entry's value for a writer).
   */
  datatype MethodInfo = MethodInfo(name: string, params: seq<string>, descriptor: string, outcome: Outcome)

  /** The parameter list of `Method.toString()`: the type names separated by commas. */
  function JoinParams(ps: seq<string>): string {
    if ps == [] then ""
    else if |ps| == 1 then ps[0]
    else ps[0] + "," + JoinParams(ps[1..])
  }

  /**
   * `m.descriptor` is `head(p1,...,pn)tail` for the parameter types of `m`,
   * as `Method.toString()` writes it: no parenthesis in the modifiers,
   * return type and qualified name before the list, and no comma or
   * parenthesis inside a parameter type name.
   */
  predicate Describes(m: MethodInfo, head: string, tail: string) {
    && m.descriptor == head + "(" + JoinParams(m.params) + ")" + tail
    && '(' !in head && ')' !in head
    && forall k :: 0 <= k < |m.params| ==> m.params[k] != [] && ',' !in m.params[k] && ')' !in m.params[k]
  }

  /** A class: its method table in `getMethods()` order, and whether its public no-argument constructor succeeds. */
  datatype ClassInfo = ClassInfo(methods: seq<MethodInfo>, constructible: bool)

  /** One key/value pair of a `Map<String, Object>`. */
  datatype Entry = Entry(key: string, value: Value)

  predicate IsZeroArg(m: MethodInfo, name: string) {
    m.name == name && m.params == []
  }

  /**
   * `Class.getMethod(name)` with no parameter types: the first public
   * zero-argument method of that name, or None where Java throws
   * NoSuchMethodException.
   */
  function FindZeroArg(table: seq<MethodInfo>, name: string): (r: Option<nat>)
    ensures r.Some? ==> r.value < |table| && IsZeroArg(table[r.value], name)
    ensures r.Some? ==> forall j :: 0 <= j < r.value ==> !IsZeroArg(table[j], name)
    ensures r.None? <==> forall j :: 0 <= j < |table| ==> !IsZeroArg(table[j], name)
  {
    if table == [] then None
    else if IsZeroArg(table[0], name) then Some(0)
    else match FindZeroArg(table[1..], name)
      case None => None
      case Some(j) => Some(j + 1)
  }
}
