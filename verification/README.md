# Class patcher of typescript-type-transformer, in Dafny

This project models the class-patching step of typescript-type-transformer
(`src/addToClass.ts`). That step is a compile-time transform that mirrors a
component's props type into a runtime `propTypes` validator object. Given a
class declaration, the patcher:

- decides whether the class is a typed component, meaning it has at least one
  super type argument;
- collects the identifier keys of the object literal in its static
  `defaultProps`;
- asks the converter for validator entries;
- then does exactly one of three things. It leaves the class alone, or it
  replaces the value of the existing static `propTypes` member in place, or it
  puts a new static `propTypes` member at the front of the class body.

The Babel tree is cut down to the parts the patcher reads (`ast.dfy`): a
class has optional super type arguments and a list of members. A member is a
class property (static flag, key, value) or some other member. A key is an
identifier or some other key. A value is an object literal, a call
expression or some other expression. An object literal entry is a plain
property, a method or a spread.

The model is pure. `ClassPatcher.AddToClass` returns a `Patch`: the outcome
(`NotApplicable`, `SkippedEmpty`, `Replaced(i)` or `Prepended`) and the class
body after the call. The in-place write on line 47 becomes a sequence update
at the index that `FindStaticProperty` returns. The `unshift` on line 57
becomes a sequence concatenation.

The four collaborators are passed in as function-valued fields of a
`Helpers` record, and nothing is assumed about what they return. They are
`extractGenericTypeNames`, `convertToPropTypes`, `createPropTypesObject` and
`mergePropTypes`. The converter state (`ConvertState`, including
`componentTypes`) only flows through to these collaborators, so each one is
taken to be already bound to that state.

Files:
- `wrappers.dfy`: `Option`.
- `ast.dfy`: the syntax tree slice, the two property names, and the lookup
  predicate `IsStaticProperty`.
- `class_patcher.dfy`: the lookup, default-key collection and the patcher.
- `class_patcher_lemmas.dfy`: properties that relate several calls. These
  cover the first-match lookup, source order of keys, independence from
  unused inputs, and what a second run does.

Details of the code in `src/addToClass.ts:21-28` that the model keeps:
- Default keys are a list in source order, and a duplicated key appears twice.
  They are not a set.
- An identifier key written as computed (`[size]: 1`) is counted as a default,
  because line 26 does not look at the `computed` flag.
- A static `defaultProps` whose value is a call expression is still selected
  by the lookup on line 21. It then contributes no keys, because line 24 needs
  an object literal. A later object-literal `defaultProps` is therefore not
  consulted.

## Model

| member | source | states |
|---|---|---|
| ClassPatcher.FindStaticProperty | src/addToClass.ts:7-14 | The result is the index of a member that is a static class property whose key is the identifier `name` and whose value is an object literal or a call. No earlier member has that property. `None` means no member of the body has it. |
| ClassPatcherLemmas.FindStaticPropertyIsFirstMatch | src/addToClass.ts:8-13 | Both directions: the lookup returns `Some(i)` exactly when `i` is the first matching index, and returns `None` exactly when no member matches. |
| ClassPatcherLemmas.FindSkipsNonMatchingPrefix | src/addToClass.ts:8-13 | Adding non-matching members in front of a body never changes which member is found. It only moves the found index by the length of the prefix. |
| ClassPatcherLemmas.WrongValueKindIsSkipped | src/addToClass.ts:10-12 | A static property with the right identifier key but a value that is neither an object literal nor a call is never selected. The next matching member is returned instead. |
| ClassPatcherLemmas.NonStaticOrOtherKeyIsSkipped | src/addToClass.ts:10-11 | A non-static property, or one whose key is not the identifier asked for, is never selected. |
| ClassPatcher.IdentifierKeys | src/addToClass.ts:25-29 | The collected keys are no more numerous than the entries. A name is among them exactly when some entry is a plain property with that identifier key. |
| ClassPatcherLemmas.IdentifierKeysOfOneEntry | src/addToClass.ts:26-28 | A plain property with an identifier key contributes exactly its name. A spread, a method or a property with any other key contributes nothing. |
| ClassPatcherLemmas.IdentifierKeysAppend | src/addToClass.ts:25-29 | Keys are collected in source order: the keys of `a + b` are the keys of `a` followed by the keys of `b`. |
| ClassPatcher.DefaultPropsKeyList | src/addToClass.ts:21-30 | The list is empty when there is no static `defaultProps` object or call, and empty when the first one found is a call. Otherwise it is exactly `IdentifierKeys` of that first member's object literal: the identifier keys of its plain properties, in source order and with repeats kept. A name is in the list exactly when it is such a key. |
| ClassPatcherLemmas.DefaultKeysOfMixedObject | src/addToClass.ts:21-30 | Worked case: `{size: 1, ...base, 'label': '', onClick() {}, tone: 'dark'}` behind a render method yields exactly `["size", "tone"]`. |
| ClassPatcher.NewPropTypesMember | src/addToClass.ts:49-55 | A later `propTypes` lookup selects the inserted member exactly when `createPropTypesObject` returned an object literal or a call. A lookup of any other name, such as `defaultProps`, never selects it. |
| ClassPatcher.AddToClass | src/addToClass.ts:16-59 | `NotApplicable` holds exactly when the class has no super type arguments or an empty list of them. `SkippedEmpty` holds exactly when the type names or the converter's entries are empty. In both cases the body is unchanged. `Replaced(i)` holds exactly when a static `propTypes` is found, at `i`. Then the length is kept and only member `i` changes, its value becoming the merge of the old value with the entries. `Prepended` holds exactly when none is found. Then the body is the new `propTypes` member followed by the old body. |
| ClassPatcherLemmas.UntypedClassConsultsNoHelper | src/addToClass.ts:17-19 | For a class that is not a typed component, the result is the same for any collaborators (none is consulted), and the body is returned unchanged. |
| ClassPatcherLemmas.OnlyFirstTypeArgumentMatters | src/addToClass.ts:32 | Super type arguments after the first have no influence on the patch. |
| ClassPatcherLemmas.ConverterSeesOnlyDefaultKeys | src/addToClass.ts:33-38 | The only thing the converter receives from the body is the default-key list. Two bodies with equal default keys get equal entries. |
| ClassPatcherLemmas.FindUnchangedByReplacing | src/addToClass.ts:44-47 | Replacing a non-matching member by another non-matching member does not change the lookup's result. |
| ClassPatcherLemmas.PatchPreservesDefaultKeys | src/addToClass.ts:21-58 | Whatever the outcome, the patched body has the same default keys as the original body. |
| ClassPatcherLemmas.SecondRunAfterPrepend | src/addToClass.ts:44-58 | After a prepend, a second run selects the inserted member at index 0 for merging, provided the builder returned an object literal or a call. If merging into the fresh object changes nothing, the second run leaves the body as the first run did. |
| ClassPatcherLemmas.SecondRunAfterReplace | src/addToClass.ts:44-47 | After a replace at `i`, a second run selects index `i` again, provided the merged value is an object literal or a call. If merging is stable on that value, the second run changes nothing. |
| ClassPatcherLemmas.SecondRunStacksUnrecognisedValue | src/addToClass.ts:44-57 | If the builder returns something other than an object literal or a call, a second run does not recognise the member it inserted and puts another `propTypes` in front. |

## Left out

- The bodies of `extractGenericTypeNames`, `convertToPropTypes` (`src/convertBabelToPropTypes`), `createPropTypesObject` and `mergePropTypes` (`src/propTypes`): these files are not part of this model. They are parameters with no assumed contract. So the type resolver, the validator synthesis and the append-only merge policy are not modelled. Idempotence is therefore proved only under stated assumptions about the builder and the merger.
- `ConvertState` and its `componentTypes` registry: they are opaque and only passed on, so each collaborator is taken as already bound to them. Any change the converter makes to that state is not modelled.
- Babel node identity and aliasing: the in-place write through `as any` on line 47 is modelled as a sequence update at the found index. The AST node is not shared.
- Babel's `computed` flag on keys, the optional `value` of a class property (a property without an initializer is an `OtherExpr`), and source locations and comments are not represented.
- `src/utils/__tests__/setUpdateComment.test.ts`: it tests a staleness-marker writer whose implementation is not part of this model. That writer is file I/O plumbing.
- `src/transformerFunctions.ts`: it only holds no-op marker functions that return `{}` or `[]`, so there is nothing to state about them.
- The fixtures under `tests/fixtures/`: they are inputs for the converter's own tests, not patcher logic.
