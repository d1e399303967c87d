/**
 Properties of the class patcher that relate several calls: how the member
 lookup behaves on a longer body, how the default keys of an object literal
 are built entry by entry, which inputs the patcher does not depend on, and
 what a second run of the patcher does to a class it has already patched.
 */
module ClassPatcherLemmas {
  import opened Wrappers
  import opened Ast
  import opened ClassPatcher

  /** `Some(i)` moved `n` places to the right; `None` stays `None`. */
  function Shift(r: Option<nat>, n: nat): Option<nat>
  {
    match r
    case None => None
    case Some(i) => Some(i + n)
  }

  /** The lookup's result is the unique first match: any index that matches
      and has no match before it is the result, and if nothing matches the
      result is `None`. */
  lemma FindStaticPropertyIsFirstMatch(body: seq<Member>, name: string, i: nat)
    ensures FindStaticProperty(body, name) == Some(i) <==>
      (i < |body| && IsStaticProperty(body[i], name)
       && forall j :: 0 <= j < i ==> !IsStaticProperty(body[j], name))
    ensures FindStaticProperty(body, name).None? <==>
      forall j :: 0 <= j < |body| ==> !IsStaticProperty(body[j], name)
  {
  }

  /** Members in front that do not match do not change which member is
      found; they only move its index. */
  lemma {:induction false} FindSkipsNonMatchingPrefix(prefix: seq<Member>, rest: seq<Member>, name: string)
    requires forall j :: 0 <= j < |prefix| ==> !IsStaticProperty(prefix[j], name)
    ensures FindStaticProperty(prefix + rest, name) == Shift(FindStaticProperty(rest, name), |prefix|)
  {
    if |prefix| == 0 {
      assert prefix + rest == rest;
    } else {
      assert (prefix + rest)[0] == prefix[0];
      assert (prefix + rest)[1..] == prefix[1..] + rest;
      FindSkipsNonMatchingPrefix(prefix[1..], rest, name);
    }
  }

  /** A static property with the right name whose value is neither an object
      literal nor a call (here: any other expression) is passed over, and the
      next matching member is found instead. */
  lemma WrongValueKindIsSkipped(text: string, rest: seq<Member>, name: string)
    ensures FindStaticProperty([ClassProperty(true, Identifier(name), OtherExpr(text))] + rest, name)
         == Shift(FindStaticProperty(rest, name), 1)
  {
  }

  /** A non-static property, or one whose key is not the identifier `name`,
      is passed over in the same way. */
  lemma NonStaticOrOtherKeyIsSkipped(m: Member, rest: seq<Member>, name: string)
    requires m.ClassProperty? && (!m.isStatic || m.key != Identifier(name))
    ensures FindStaticProperty([m] + rest, name) == Shift(FindStaticProperty(rest, name), 1)
  {
  }

  /** The default keys of one entry: its name if it is a plain property with an
      identifier key, nothing otherwise. */
  lemma IdentifierKeysOfOneEntry(e: ObjectEntry)
    ensures e.Property? && e.key.Identifier? ==> IdentifierKeys([e]) == [e.key.name]
    ensures !(e.Property? && e.key.Identifier?) ==> IdentifierKeys([e]) == []
  {
  }

  /** Keys are collected in source order: the keys of two consecutive runs of
      entries are the keys of the first run followed by those of the second. */
  lemma {:induction false} IdentifierKeysAppend(a: seq<ObjectEntry>, b: seq<ObjectEntry>)
    ensures IdentifierKeys(a + b) == IdentifierKeys(a) + IdentifierKeys(b)
  {
    if |a| == 0 {
      assert a + b == b;
    } else {
      assert (a + b)[0] == a[0];
      assert (a + b)[1..] == a[1..] + b;
      IdentifierKeysAppend(a[1..], b);
    }
  }

  /** A worked case: of an object literal holding an identifier property, a
      spread, a string-keyed property, a method and another identifier
      property, only the two identifier properties declare defaults, in the
      order they are written; a render method before `defaultProps` does not
      disturb the lookup. */
  lemma DefaultKeysOfMixedObject()
    ensures DefaultPropsKeyList([
      OtherMember("render"),
      ClassProperty(true, Identifier(DefaultPropsName), ObjectExpr([
        Property(Identifier("size"), OtherExpr("1")),
        SpreadElement(OtherExpr("base")),
        Property(OtherKey("'label'"), OtherExpr("''")),
        ObjectMethod(Identifier("onClick")),
        Property(Identifier("tone"), OtherExpr("'dark'"))]))]) == ["size", "tone"]
  {
    var entries := [
      Property(Identifier("size"), OtherExpr("1")),
      SpreadElement(OtherExpr("base")),
      Property(OtherKey("'label'"), OtherExpr("''")),
      ObjectMethod(Identifier("onClick")),
      Property(Identifier("tone"), OtherExpr("'dark'"))];
    assert entries == [entries[0]] + [entries[1]] + [entries[2]] + [entries[3]] + [entries[4]];
    IdentifierKeysAppend([entries[0]] + [entries[1]] + [entries[2]] + [entries[3]], [entries[4]]);
    IdentifierKeysAppend([entries[0]] + [entries[1]] + [entries[2]], [entries[3]]);
    IdentifierKeysAppend([entries[0]] + [entries[1]], [entries[2]]);
    IdentifierKeysAppend([entries[0]], [entries[1]]);
    IdentifierKeysOfOneEntry(entries[0]);
    IdentifierKeysOfOneEntry(entries[1]);
    IdentifierKeysOfOneEntry(entries[2]);
    IdentifierKeysOfOneEntry(entries[3]);
    IdentifierKeysOfOneEntry(entries[4]);
    var body := [OtherMember("render"), ClassProperty(true, Identifier(DefaultPropsName), ObjectExpr(entries))];
    FindStaticPropertyIsFirstMatch(body, DefaultPropsName, 1);
  }

  /** A class that is not a typed component is returned as it is whatever the
      collaborators would have answered: none of them is consulted. */
  lemma UntypedClassConsultsNoHelper(c: ClassDecl, h1: Helpers, h2: Helpers)
    requires !IsTypedComponent(c)
    ensures AddToClass(c, h1) == AddToClass(c, h2) == Patch(NotApplicable, c.body)
  {
  }

  /** Only the first super type argument is used: type arguments after it
      have no influence on the patch. */
  lemma OnlyFirstTypeArgumentMatters(first: TypeArg, others: seq<TypeArg>, body: seq<Member>, h: Helpers)
    ensures AddToClass(ClassDecl(Some([first] + others), body), h)
         == AddToClass(ClassDecl(Some([first]), body), h)
  {
  }

  /** The converter is asked with the default keys of the class body and
      nothing else from the body: two bodies with the same default keys lead
      to the same entries. */
  lemma ConverterSeesOnlyDefaultKeys(c: ClassDecl, d: ClassDecl, h: Helpers)
    requires IsTypedComponent(c) && d.superTypeParameters == c.superTypeParameters
    requires DefaultPropsKeyList(d.body) == DefaultPropsKeyList(c.body)
    ensures PropTypesList(d, h) == PropTypesList(c, h)
  {
  }

  /** Replacing a member by one that does not match `name`, where the old one
      did not match either, leaves the lookup of `name` unchanged. */
  lemma FindUnchangedByReplacing(body: seq<Member>, i: nat, m: Member, name: string)
    requires i < |body|
    requires !IsStaticProperty(body[i], name) && !IsStaticProperty(m, name)
    ensures FindStaticProperty(body[i := m], name) == FindStaticProperty(body, name)
  {
    var body' := body[i := m];
    assert forall j :: 0 <= j < |body| ==> (IsStaticProperty(body'[j], name) <==> IsStaticProperty(body[j], name));
    match FindStaticProperty(body, name)
    case None =>
      FindStaticPropertyIsFirstMatch(body', name, 0);
    case Some(k) =>
      FindStaticPropertyIsFirstMatch(body, name, k);
      FindStaticPropertyIsFirstMatch(body', name, k);
  }

  /** Patching never changes the default keys of the class: the member it
      writes is a `propTypes` property, which the `defaultProps` lookup
      passes over. */
  lemma PatchPreservesDefaultKeys(c: ClassDecl, h: Helpers)
    ensures DefaultPropsKeyList(AddToClass(c, h).body) == DefaultPropsKeyList(c.body)
  {
    var r := AddToClass(c, h);
    match r.outcome
    case Replaced(i) =>
      assert r.body == c.body[i := r.body[i]];
      FindUnchangedByReplacing(c.body, i, r.body[i], DefaultPropsName);
    case Prepended =>
      assert r.body == [r.body[0]] + c.body;
      FindSkipsNonMatchingPrefix([r.body[0]], c.body, DefaultPropsName);
    case _ =>
  }

  /** After a run that prepended a new `propTypes`, a second run with the same
      collaborators selects that new member (index 0) for merging, provided
      the object builder produced an object literal or a call; if merging the
      entries into the freshly built object changes nothing, the second run
      leaves the body exactly as the first run left it. */
  lemma SecondRunAfterPrepend(c: ClassDecl, h: Helpers)
    requires AddToClass(c, h).outcome == Prepended
    requires h.createPropTypesObject(PropTypesList(c, h)).ObjectExpr?
          || h.createPropTypesObject(PropTypesList(c, h)).CallExpr?
    ensures var c' := c.(body := AddToClass(c, h).body);
      && AddToClass(c', h).outcome == Replaced(0)
      && (h.mergePropTypes(h.createPropTypesObject(PropTypesList(c, h)), PropTypesList(c, h))
            == h.createPropTypesObject(PropTypesList(c, h))
          ==> AddToClass(c', h).body == AddToClass(c, h).body)
  {
    var r := AddToClass(c, h);
    var c' := c.(body := r.body);
    PatchPreservesDefaultKeys(c, h);
    assert PropTypesList(c', h) == PropTypesList(c, h);
    FindStaticPropertyIsFirstMatch(r.body, PropTypesName, 0);
  }

  /** After a run that replaced the value of the `propTypes` member at index
      `i`, a second run selects the same member again, provided the merged
      value is an object literal or a call; if merging is stable on that value
      the second run changes nothing. */
  lemma SecondRunAfterReplace(c: ClassDecl, h: Helpers, i: nat)
    requires AddToClass(c, h).outcome == Replaced(i)
    requires var v := AddToClass(c, h).body[i].value; v.ObjectExpr? || v.CallExpr?
    ensures var r := AddToClass(c, h);
      var c' := c.(body := r.body);
      && AddToClass(c', h).outcome == Replaced(i)
      && (h.mergePropTypes(r.body[i].value, PropTypesList(c, h)) == r.body[i].value
          ==> AddToClass(c', h).body == r.body)
  {
    var r := AddToClass(c, h);
    var c' := c.(body := r.body);
    PatchPreservesDefaultKeys(c, h);
    assert PropTypesList(c', h) == PropTypesList(c, h);
    FindStaticPropertyIsFirstMatch(c.body, PropTypesName, i);
    FindStaticPropertyIsFirstMatch(r.body, PropTypesName, i);
    var r' := AddToClass(c', h);
    if h.mergePropTypes(r.body[i].value, PropTypesList(c, h)) == r.body[i].value {
      assert r'.body == r.body;
    }
  }

  /** If the object builder produces something the lookup does not recognise
      (neither an object literal nor a call), a second run does not find the
      member the first run inserted and inserts another one in front of it. */
  lemma SecondRunStacksUnrecognisedValue(c: ClassDecl, h: Helpers)
    requires AddToClass(c, h).outcome == Prepended
    requires h.createPropTypesObject(PropTypesList(c, h)).OtherExpr?
    ensures var r := AddToClass(c, h);
      var r' := AddToClass(c.(body := r.body), h);
      && r'.outcome == Prepended
      && r'.body == [r.body[0]] + r.body
  {
    var r := AddToClass(c, h);
    var c' := c.(body := r.body);
    PatchPreservesDefaultKeys(c, h);
    assert PropTypesList(c', h) == PropTypesList(c, h);
    assert r.body == [r.body[0]] + c.body;
    FindSkipsNonMatchingPrefix([r.body[0]], c.body, PropTypesName);
  }
}
