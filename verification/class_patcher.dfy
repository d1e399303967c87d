/**
 The class patcher of `src/addToClass.ts`: given a class declaration it decides
 whether the class is a typed component, collects the keys of its hand-written
 `defaultProps`, asks the converter for validator entries and then either leaves
 the class alone, replaces the value of its static `propTypes` in place, or
 puts a new static `propTypes` property in front of the class body.

 The four collaborators the patcher calls are not part of this model; they are
 passed in as plain functions, with nothing assumed about what they return.
 The converter state they share is closed over by those functions, since the
 patcher itself only hands it on.
 */
module ClassPatcher {
  import opened Wrappers
  import opened Ast

  /** The collaborators of the patcher, each already bound to the converter
      state of the module being transformed. */
  datatype Helpers = Helpers(
    /** type names referenced by one super type argument */
    extractGenericTypeNames: TypeArg -> seq<string>,
    /** derived validator entries for the type names, given the default keys */
    convertToPropTypes: (seq<string>, seq<string>) -> seq<PropTypeEntry>,
    /** a fresh validator object holding the entries */
    createPropTypesObject: seq<PropTypeEntry> -> Expr,
    /** the existing validator value combined with the entries */
    mergePropTypes: (Expr, seq<PropTypeEntry>) -> Expr
  )

  /** How a call of the patcher ended. `NotApplicable` and `SkippedEmpty` are
      the two early returns; `Replaced` and `Prepended` are the two ways the
      body is changed. */
  datatype Outcome = NotApplicable | SkippedEmpty | Replaced(index: nat) | Prepended

  /** The outcome together with the class body after the call. */
  datatype Patch = Patch(outcome: Outcome, body: seq<Member>)

  /** The index of the first member of `body` that is a static class property
      called `name` with an object or call value, or `None` if there is none. */
  function FindStaticProperty(body: seq<Member>, name: string): (r: Option<nat>)
    ensures r.Some? ==> r.value < |body| && IsStaticProperty(body[r.value], name)
    ensures r.Some? ==> forall j :: 0 <= j < r.value ==> !IsStaticProperty(body[j], name)
    ensures r.None? ==> forall j :: 0 <= j < |body| ==> !IsStaticProperty(body[j], name)
  {
    if |body| == 0 then None
    else if IsStaticProperty(body[0], name) then Some(0)
    else
      match FindStaticProperty(body[1..], name)
      case None => None
      case Some(i) => Some(i + 1)
  }

  /** The keys an object literal declares defaults for: the identifier keys of
      its plain properties, in the order they are written. Spreads, methods and
      properties with any other kind of key contribute nothing. */
  function IdentifierKeys(entries: seq<ObjectEntry>): (keys: seq<string>)
    ensures |keys| <= |entries|
    ensures forall k :: k in keys <==> exists i :: 0 <= i < |entries| && DeclaresKey(entries[i], k)
  {
    if |entries| == 0 then []
    else
      var rest := IdentifierKeys(entries[1..]);
      assert forall i :: 1 <= i < |entries| ==> entries[i] == entries[1..][i - 1];
      match entries[0]
      case Property(Identifier(n), _) => [n] + rest
      case _ => rest
  }

  /** The default keys handed to the converter: the identifier keys of the
      object literal of the first static `defaultProps` found by the lookup;
      empty when there is none or when its value is a call expression. */
  function DefaultPropsKeyList(body: seq<Member>): (keys: seq<string>)
    ensures FindStaticProperty(body, DefaultPropsName).None? ==> keys == []
    ensures forall i :: FindStaticProperty(body, DefaultPropsName) == Some(i) && body[i].value.CallExpr? ==> keys == []
    ensures forall i :: FindStaticProperty(body, DefaultPropsName) == Some(i) && body[i].value.ObjectExpr? ==>
      keys == IdentifierKeys(body[i].value.entries)
    ensures forall k :: k in keys <==>
      exists i, j :: FindStaticProperty(body, DefaultPropsName) == Some(i)
        && body[i].value.ObjectExpr?
        && 0 <= j < |body[i].value.entries|
        && DeclaresKey(body[i].value.entries[j], k)
  {
    match FindStaticProperty(body, DefaultPropsName)
    case None => []
    case Some(i) =>
      if body[i].value.ObjectExpr? then IdentifierKeys(body[i].value.entries) else []
  }

  /** A typed component is a class with at least one super type argument. */
  predicate IsTypedComponent(c: ClassDecl)
  {
    c.superTypeParameters.Some? && |c.superTypeParameters.value| > 0
  }

  /** The type names extracted from the first super type argument only. */
  function TypeNames(c: ClassDecl, h: Helpers): seq<string>
    requires IsTypedComponent(c)
  {
    h.extractGenericTypeNames(c.superTypeParameters.value[0])
  }

  /** The converter's entries for the class: its type names together with the
      default keys of its body, passed on unchanged. */
  function PropTypesList(c: ClassDecl, h: Helpers): seq<PropTypeEntry>
    requires IsTypedComponent(c)
  {
    h.convertToPropTypes(TypeNames(c, h), DefaultPropsKeyList(c.body))
  }

  /** The static `propTypes` property the patcher inserts when the class has
      none. A later `propTypes` lookup recognises it exactly when the builder
      made an object literal or a call, and no lookup of another name ever
      does. */
  function NewPropTypesMember(list: seq<PropTypeEntry>, h: Helpers): (m: Member)
    ensures IsStaticProperty(m, PropTypesName) <==>
      (h.createPropTypesObject(list).ObjectExpr? || h.createPropTypesObject(list).CallExpr?)
    ensures forall n :: n != PropTypesName ==> !IsStaticProperty(m, n)
  {
    ClassProperty(true, Identifier(PropTypesName), h.createPropTypesObject(list))
  }

  /** The patcher. It leaves the body alone when the class is not a typed
      component or when there is nothing to add; otherwise it changes the body
      by exactly one replace-in-place or one insertion at the front. */
  function AddToClass(c: ClassDecl, h: Helpers): (r: Patch)
    // Not a typed component: nothing is changed.
    ensures r.outcome == NotApplicable <==> !IsTypedComponent(c)
    // Nothing derived: nothing is changed.
    ensures r.outcome == SkippedEmpty <==>
      IsTypedComponent(c) && (|TypeNames(c, h)| == 0 || |PropTypesList(c, h)| == 0)
    ensures r.outcome.NotApplicable? || r.outcome.SkippedEmpty? ==> r.body == c.body
    // Replace: only the value of the first static `propTypes` changes.
    ensures r.outcome.Replaced? <==>
      IsTypedComponent(c) && |TypeNames(c, h)| > 0 && |PropTypesList(c, h)| > 0
      && FindStaticProperty(c.body, PropTypesName).Some?
    ensures r.outcome.Replaced? ==>
      var i := r.outcome.index;
      && FindStaticProperty(c.body, PropTypesName) == Some(i)
      && |r.body| == |c.body|
      && r.body[i] == c.body[i].(value := h.mergePropTypes(c.body[i].value, PropTypesList(c, h)))
      && forall j :: 0 <= j < |c.body| && j != i ==> r.body[j] == c.body[j]
    // Prepend: a new static `propTypes` in front, the old body after it.
    ensures r.outcome.Prepended? <==>
      IsTypedComponent(c) && |TypeNames(c, h)| > 0 && |PropTypesList(c, h)| > 0
      && FindStaticProperty(c.body, PropTypesName).None?
    ensures r.outcome.Prepended? ==>
      && |r.body| == |c.body| + 1
      && r.body[0] == NewPropTypesMember(PropTypesList(c, h), h)
      && r.body[1..] == c.body
  {
    if !IsTypedComponent(c) then Patch(NotApplicable, c.body)
    else
      var typeNames := TypeNames(c, h);
      var list := h.convertToPropTypes(typeNames, DefaultPropsKeyList(c.body));
      if |typeNames| == 0 || |list| == 0 then Patch(SkippedEmpty, c.body)
      else
        match FindStaticProperty(c.body, PropTypesName)
        case Some(i) =>
          var merged := c.body[i].(value := h.mergePropTypes(c.body[i].value, list));
          Patch(Replaced(i), c.body[i := merged])
        case None =>
          Patch(Prepended, [NewPropTypesMember(list, h)] + c.body)
  }
}
