/**
 The slice of the Babel syntax tree that the class patcher looks at: a class
 declaration with its optional super type arguments and its list of body
 members, the keys and values of class properties, and the entries of object
 literals.
 */
module Ast {
  import opened Wrappers

  /** The key of a class member or of an object literal entry. Only identifier
      keys are ever matched; string and numeric literal keys are `OtherKey`. Whether an identifier key is written as computed
      (`[name]`) is not recorded, because the patcher never looks at it. */
  datatype Key = Identifier(name: string) | OtherKey(text: string)

  /** An expression in value position. The patcher only distinguishes object
      literals and call expressions; everything else (an identifier reference,
      a literal, an arrow function, a property without an initializer) is
      `OtherExpr`. */
  datatype Expr =
    | ObjectExpr(entries: seq<ObjectEntry>)
    | CallExpr(text: string)
    | OtherExpr(text: string)

  /** An entry of an object literal: a plain `key: value` property, a method
      shorthand `key() { … }`, or a spread `...argument`. */
  datatype ObjectEntry =
    | Property(key: Key, value: Expr)
    | ObjectMethod(key: Key)
    | SpreadElement(argument: Expr)

  /** A member of a class body: a class property (static or not) or any other
      member (a method, a getter, a private property, a static block). */
  datatype Member =
    | ClassProperty(isStatic: bool, key: Key, value: Expr)
    | OtherMember(text: string)

  /** A type argument of the super class. The patcher never inspects one; it
      only hands the first to the type-name extractor, so its source text is
      all that is kept. */
  datatype TypeArg = TypeArg(text: string)

  /** A class declaration: `superTypeParameters` is `None` when the class
      has no `extends Base<…>` type arguments at all. */
  datatype ClassDecl = ClassDecl(superTypeParameters: Option<seq<TypeArg>>, body: seq<Member>)

  /** One derived validator entry, as produced by the converter and consumed
      by the object builder and the merger. */
  datatype PropTypeEntry = PropTypeEntry(name: string, validator: Expr)

  /** The name under which a class declares its default property values. */
  const DefaultPropsName: string := "defaultProps"

  /** The name of the static validator property the patcher writes. */
  const PropTypesName: string := "propTypes"

  /** The member lookup's test: a static class property whose key is the
      identifier `name` and whose value is an object literal or a call. */
  predicate IsStaticProperty(m: Member, name: string)
  {
    && m.ClassProperty?
    && m.isStatic
    && m.key == Identifier(name)
    && (m.value.ObjectExpr? || m.value.CallExpr?)
  }

  /** True when the object literal entry `e` is a plain property whose key is
      the identifier `k`: the only kind of entry that declares a default. */
  predicate DeclaresKey(e: ObjectEntry, k: string)
  {
    e.Property? && e.key == Identifier(k)
  }
}
