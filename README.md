# graphql-list-fields, modelled in Dafny

graphql-list-fields is a small GraphQL selection analyzer. A field resolver
passes it the resolve-info context it was called with. The analyzer reports
which sub-fields the query asked for: either as a flat list of dot-joined
leaf paths, or as a tree of field descriptors that gives each field's type,
kind (ONE, LIST or CONNECTION), call arguments, sub-fields and the
directives on its schema declaration.

The repository ships three variants that have drifted apart. Each is
modelled as written:

- `src/index.js` exports `getFieldList`, `getFieldSelection` and `getField`.
  Fields are keyed by name, and directive arguments nest.
- `lib/index.js` is the compiled form of a later source. It keys fields by
  alias and records the alias. It narrows an interface parent to the type
  condition of the fragment being walked, hands argument coercion to
  graphql-js, and throws on a directive that the schema does not define.
- `index.js` is the oldest variant and exports `getFieldListWithDirective`.
  Leaf fields get a stub descriptor with only a name and directives. A
  connection's type name is taken from its `edges.node` field, and
  directive arguments are flat.

## Modules

| file | module | what it holds |
|---|---|---|
| js.dfy | Js | JavaScript values and truthiness. Plain objects are ordered association lists (`Obj`) with `o[k] = v` (`Put`) and `Object.assign({}, a, b)` (`Assign`). |
| graphql.dfy | GraphQL | The query AST, the schema's type graph, type references and their printed form, and the resolve-info context. |
| inclusion.dfy | Inclusion | `getBooleanArgumentValue` and `isExcludedByDirective`, shared by all variants. |
| field_list.dfy | FieldList | `dotConcat`, `getFieldSet` and `getFieldList`, shared by all variants. |
| arguments.dfy | CallArguments | The `__args` reduction of the src and legacy variants. |
| classification.dfy | Classification | The `__type`/`__kind` rules of the src and lib variants. |
| src_selection.dfy | SrcSelection | The tree walker of `src/index.js`. |
| lib_selection.dfy | LibSelection | The tree walker of `lib/index.js`. |
| legacy_selection.dfy | LegacySelection | The tree walker of `index.js`. |

The code builds results by writing into an accumulator in a loop
(`forEach`/`reduce` with `set[k] = v`, `obj[k] = ...`). That code is a
`method` with a `while` loop, proved equal to a specification function. The
properties are then proved about that function. Code that only builds fresh
objects (`getFieldSelectionSet`, `getField` and `_getField`) is a function.

When a call throws, the model returns `Err`. The `Error` datatype in
graphql.dfy names the TypeError each failure stands for.

Fragment spreads can recurse without bound, so every walker takes a `fuel`
argument that stands for the call stack. Each spread uses one unit of fuel,
and running out gives `Err(StackOverflow)`.

A spread of a fragment missing from `context.fragments` does not make the
call read `selectionSet` of `undefined`, as one might expect.
`context.fragments[name]` is `undefined`, so the recursive call gets its
default parameter, `context.fieldNodes`. The walk then restarts from the
root. If that spread is reached again, the recursion never ends.
`SpreadSource` and the three `UnknownFragmentAtRootOverflows` lemmas model
this.

The helpers on `src/index.js:1-61` behave the same as those on
`lib/index.js:11-80`, which are their Babel-compiled form, and as those on
`index.js:1-75`. The model has one copy of them, cited at the `src/index.js`
lines.

## Model

| member | source | states |
|---|---|---|
| Js.Put | index.js:127 | `o[k] = v`: an existing key keeps its position and a new key is appended. `k` then reads `v`, and every other key reads as before. |
| Js.Assign | src/index.js:154-156 | `Object.assign({}, a, b)`: the keys are those of `a`, then the new keys of `b` in first-seen order. |
| Js.AssignGet | src/index.js:154-156 | After the merge, a key of `b` reads its last value in `b`, and any other key reads its value in `a`. |
| Js.AssignReads | src/index.js:154-156 | When `b` repeats no key, after the merge a key of `b` reads its value in `b` and any other key reads its value in `a`. |
| Js.AssignLastWins | src/index.js:154-156 | In a merge, the last entry of `b` under a key is the value the merged object holds. |
| Js.PutDistinct | src/index.js:52 | A write never makes a key appear twice. |
| Js.AssignDistinct | src/index.js:50 | A merge never makes a key appear twice. |
| GraphQL.PrintStartsWithBracket | src/index.js:97 | A printed type starts with `[` exactly when it is a list type, possibly non-null. |
| GraphQL.PrintEndsWithConnection | src/index.js:100 | A printed type ends with `Connection` exactly when it is a named type whose name ends so. Wrapped connection types never match. |
| GraphQL.ReplaceFirstAt | src/index.js:101 | `String.prototype.replace` with a string pattern cuts out the first occurrence and only that one. |
| Inclusion.BooleanArgumentValue | src/index.js:1-9 | Only the first argument is read, whatever its name. A literal boolean gives its flag, and a variable gives its bound value or `undefined`. Any other literal gives `undefined`. A directive without arguments throws. |
| Inclusion.IsExcludedByDirective | src/index.js:11-25 | The `forEach` loop computes `Excluded`. |
| Inclusion.ShortCircuit | src/index.js:17-20 | Once a selection is excluded, later conditions are not evaluated, so they cannot throw. |
| Inclusion.ExcludedCharacterised | src/index.js:11-25 | Both directions: a selection is excluded iff some `@include` is falsy or some `@skip` is truthy, with no argument-less condition before it. The call throws iff an argument-less condition comes before any excluding directive. Other directive names play no part. |
| Inclusion.ExcludedWithoutFaults | src/index.js:11-25 | When every condition has an argument, a selection is excluded exactly when one of its directives excludes it. |
| Inclusion.UnboundVariable | src/index.js:1-9 | A condition naming an unbound variable excludes under `@include` and not under `@skip`. |
| FieldList.GetFieldSet | src/index.js:31-61 | The loop computes `FieldSet`. Identical code is in lib/index.js:44-80 and index.js:45-75. |
| FieldList.FieldSetIsDedupedLeaves | src/index.js:31-61 | The keys of the set are the paths of the kept leaf fields (`Leaves`, a reference walk) in traversal order, each kept at its first position. |
| FieldList.CollectIsDedupedLeaves | src/index.js:42-60 | The fold over the selections adds the new leaf paths to the keys already present, in order and without repeats. |
| FieldList.StepIsDedupedLeaves | src/index.js:43-59 | A field adds its own name as a segment; inline fragments and spreads add none. A leaf adds one path, and an excluded selection adds nothing. |
| FieldList.PathOfJoins | src/index.js:27-29 | A path is its segments joined by dots. An empty prefix adds no leading dot. |
| FieldList.ExcludedContributesNothing | src/index.js:43-45 | Removing an excluded selection, subtree included, leaves the result unchanged. |
| FieldList.UnknownFragmentAtRootOverflows | src/index.js:58 | A root spread of an undefined fragment never returns a list: it restarts the walk until the stack overflows. |
| FieldList.GetFieldList | src/index.js:162-164 | `getFieldList` returns the deduplicated paths of the kept leaves, rooted at the resolver's field nodes, with no prefix. |
| CallArguments.ResolveArgument | src/index.js:110 | The value is the literal if truthy, else the truthy variable bound under the argument's own name, else `null`. It is never falsy other than `null`, and it is `null` exactly when neither source gives a truthy value. |
| CallArguments.ReduceArguments | index.js:118-121 | The `reduce` computes `ArgumentsOf`. |
| CallArguments.ArgumentsMeaning | src/index.js:109-112 | `__args` has one key per distinct call-site argument name, in first-seen order, and no other keys, so no schema defaults. The last argument of a name gives its value. |
| Classification.ClassifyMeaning | src/index.js:92-106 | These are iffs for every type graphql-js can build. CONNECTION holds exactly for a named type ending in `Connection`, and LIST exactly for list types; ONE holds otherwise. `__type` is `""` for an interface target. For a connection it is the name with its first `Connection` removed; otherwise it is the name of the type unwrapped once. |
| Classification.ConnectionTypeName | src/index.js:100-103 | For `XConnection`, with no earlier `Connection` in the name (as in the tests' `ActorConnection`), the result is `X` and CONNECTION. |
| SrcSelection.GetDirectiveArguments | src/index.js:63-72 | The recursive `reduce` computes `DirectiveArguments`. |
| SrcSelection.DirectiveArgumentsMeaning | src/index.js:63-72 | There is one key per distinct argument name, in first-seen order. The last argument of a name wins, and an object value becomes a nested object, recursively. |
| SrcSelection.FindDirective | src/index.js:74-81 | The loop computes the directive table of the field's schema declaration, or fails when the field is not declared. |
| SrcSelection.SchemaDirectivesMeaning | src/index.js:74-81 | There is one entry per distinct directive name on the schema declaration, never one from the call site. The last directive of a name wins. |
| SrcSelection.GetField | src/index.js:83-122 | A descriptor carries the field's own name. |
| SrcSelection.GetFieldMeaning | src/index.js:83-122 | A declared field's descriptor succeeds iff its sub-walk does. `__kind` is CONNECTION exactly for a named type ending in `Connection`, LIST exactly for list types, and ONE otherwise. `__type` is `""` for an interface target, the name with its first `Connection` removed for a connection, and otherwise the name of the type unwrapped once. `__args` is the call-site arguments: one key per argument name, the last argument of a name giving its value. `__fields` is `{}` for a leaf and otherwise the walk against the declared type unwrapped once. `__directives` comes from the schema declaration. |
| SrcSelection.WrappedTargetFails | src/index.js:92-93 | A field of type `[T]!` or `[T!]` with a selection set throws. One unwrapping leaves a wrapper, which has no fields. |
| SrcSelection.KeptFieldPresent | src/index.js:145-151 | A kept field that the parent declares is written under its name. The step fails exactly when the descriptor does, with its error. Otherwise the name reads the descriptor and every other key reads as before. |
| SrcSelection.InlineFragmentMerged | src/index.js:153-154 | A kept inline fragment merges its walk: the step succeeds iff the walk does. A key the walk wrote reads the walk's value, overwriting an earlier one, and every other key reads as before. |
| SrcSelection.SpreadMerged | src/index.js:155-156 | A kept spread merges the walk of its fragment (or of the root for an unknown name) in the same way, one level of stack down. With no stack left it overflows. |
| SrcSelection.SelectionSetKeys | src/index.js:124-159 | A successful walk's keys are the names of all kept fields that their parent declares (`KeptNames`, a reference traversal), in traversal order, each once at its first position. |
| SrcSelection.SelectionSetShape | src/index.js:124-159 | Every entry is keyed by its field's name (never an alias) and is declared on the effective parent, which is the return type unwrapped once by default. No key occurs twice. |
| SrcSelection.StepShape | src/index.js:140-158 | Each selection keeps the shape invariant. |
| SrcSelection.UndeclaredFieldSkipped | src/index.js:146-148 | A field that the parent type does not declare is skipped. |
| SrcSelection.TypeConditionIgnored | src/index.js:153-154 | An inline fragment is walked against the enclosing parent whatever its type condition. |
| SrcSelection.ExcludedContributesNothing | src/index.js:141-143 | An excluded selection contributes nothing. |
| SrcSelection.UnknownFragmentAtRootOverflows | src/index.js:155-156 | A root spread of an undefined fragment restarts the walk until the stack overflows. |
| LibSelection.FindDirective | lib/index.js:82-95 | The loop computes `FieldDirectives`: strict directives, or an error when the field is not declared. |
| LibSelection.StrictDirectivesMeaning | lib/index.js:82-95 | The table succeeds iff every directive is defined and coerces. The first undefined directive, with all before it coercing, is the one the error names. |
| LibSelection.StrictDirectivesLastWins | lib/index.js:84-93 | When every directive coerces, there is one entry per distinct name and the last of a name wins. |
| LibSelection.GetField | lib/index.js:97-131 | A descriptor carries the field's own name and alias. |
| LibSelection.GetFieldMeaning | lib/index.js:97-131 | Success holds iff argument coercion, the sub-walk and every directive succeed. The descriptor carries the name and alias. `__kind` is CONNECTION exactly for a named type ending in `Connection`, LIST exactly for list types, and ONE otherwise. `__type` is `""` for an interface target, the name with its first `Connection` removed for a connection, and otherwise the name of the type unwrapped once. `__args` is the coercion's result. `__fields` is `{}` for a leaf and otherwise the walk against the declared type unwrapped once. `__directives` is the strict table of the declaration. |
| LibSelection.WrappedTargetFails | lib/index.js:104-106 | A field of type `[T]!` or `[T!]` with a selection set throws: the unwrapped wrapper has no definition node. |
| LibSelection.KeptFieldPresent | lib/index.js:160-165 | A kept field that the parent declares is written under its alias, or its name without one. The step fails exactly when the descriptor does, with its error. Otherwise that key reads the descriptor and every other key reads as before. |
| LibSelection.UndeclaredFieldSkipped | lib/index.js:161-163 | A kept field that the parent type does not declare is skipped. |
| LibSelection.InlineFragmentMerged | lib/index.js:167-168 | A kept inline fragment merges its walk: the step succeeds iff the walk does. A key the walk wrote reads the walk's value, overwriting an earlier one, and every other key reads as before. |
| LibSelection.SpreadMerged | lib/index.js:170-171 | A kept spread merges the walk of its fragment (or of the root for an unknown name) in the same way, one level of stack down. With no stack left it overflows. |
| LibSelection.SelectionSetKeys | lib/index.js:133-174 | A successful walk's keys are the alias, or else the name, of all kept fields that their narrowed parent declares (`KeptKeys`, a reference traversal), in traversal order, each once at its first position. |
| LibSelection.SelectionSetShape | lib/index.js:133-174 | Every entry is keyed by its alias if present, else its name. No key occurs twice. |
| LibSelection.StepShape | lib/index.js:154-173 | Each selection keeps the alias-keying invariant. |
| LibSelection.NarrowsToCondition | lib/index.js:139-143 | Under an interface parent, an inline fragment's selections are walked against the type its condition names. |
| LibSelection.FragmentNarrowsToCondition | lib/index.js:139-143 | The same holds for a named fragment under an interface parent. |
| LibSelection.NoNarrowingOutsideInterfaces | lib/index.js:141-143 | A parent that is not an interface is never narrowed. |
| LibSelection.ExcludedContributesNothing | lib/index.js:155-157 | An excluded selection contributes nothing. |
| LibSelection.UnknownFragmentAtRootOverflows | lib/index.js:170-171 | A root spread of an undefined fragment restarts the walk until the stack overflows. |
| LegacySelection.FindDirective | index.js:31-43 | The nested loops compute the flat directive table of the declaration. An undeclared field throws. |
| LegacySelection.FlatArgumentsMeaning | index.js:35-38 | There is one key per distinct argument name and the last argument of a name wins. Each value is `argument.value.value`, so an object value reads `undefined`. |
| LegacySelection.FlatAgreesWithNested | index.js:35-38 | Without object-valued arguments, the flat reading equals the src variant's nested one. |
| LegacySelection.FlatDirectivesMeaning | index.js:31-43 | There is one entry per distinct directive name on the declaration, and the last of a name wins. |
| LegacySelection.FlatDirectivesAgreeWithNested | index.js:31-43 | Without object-valued arguments, the directive table equals the src variant's. |
| LegacySelection.EdgesListResolvesNode | index.js:112-115 | For a connection whose `edges` field is `[Edge]` or `Edge!`, `__type` is the type name of the edge type's `node` field. |
| LegacySelection.EdgesLookupFailures | index.js:114 | A connection without `edges` throws. So does an `edges` field of a bare named type (`edges: Edge`), since only a wrapper has `.ofType`, and one wrapped twice, such as `[Edge]!` or `[Edge!]`. |
| LegacySelection.NestedEntry | index.js:100-136 | A descriptor written for a nested field is a full descriptor under the field's own name. |
| LegacySelection.NestedEntryMeaning | index.js:105-134 | A target type wrapped twice throws (`endsWith` of `undefined`). `__kind` is LIST iff the type is a list type, else ONE, never CONNECTION. `__type` is `""` for an interface; for a connection it comes from `edges.node`, and otherwise it is the target's name. `__args` is the call-site arguments: one key per argument name, the last argument of a name giving its value. `__fields` is the walk against the target, and `__directives` is the flat table. |
| LegacySelection.GetNestedEntry | index.js:100-136 | The nested-field branch computes `NestedEntry`. |
| LegacySelection.GetFieldStep | index.js:99-143 | The Field case computes `FieldStep`. |
| LegacySelection.GetStep | index.js:94-148 | The callback computes `Step`. |
| LegacySelection.GetFieldSetWithDirective | index.js:77-150 | The loop, writing into its accumulator, computes `FieldSet`. |
| LegacySelection.GetFieldListWithDirective | index.js:156-158 | The export walks the resolver's field nodes from the root type. |
| LegacySelection.KeptNestedFieldPresent | index.js:100-136 | A kept field with a selection set that the parent declares is written under its name. The step fails exactly when the descriptor does, with its error. Otherwise the name reads the descriptor and every other key reads as before. |
| LegacySelection.InlineFragmentMerged | index.js:144-145 | A kept inline fragment merges its walk: the step succeeds iff the walk does. A key the walk wrote reads the walk's value, overwriting an earlier one, and every other key reads as before. |
| LegacySelection.SpreadMerged | index.js:146-147 | A kept spread merges the walk of its fragment (or of the root for an unknown name) in the same way, one level of stack down. With no stack left it overflows. |
| LegacySelection.FieldSetKeys | index.js:77-150 | A successful walk's keys are the names of all kept fields that their parent declares, in traversal order, each once at its first position: the same keys as the src walker's reference `KeptNames`. |
| LegacySelection.FieldSetShape | index.js:77-150 | Every entry, at every depth, is keyed by its field's name and is never of kind CONNECTION. No key occurs twice. |
| LegacySelection.StepShape | index.js:94-148 | Each selection keeps the shape invariant. |
| LegacySelection.UndeclaredField | index.js:100-103 | An undeclared field with a selection set is skipped. An undeclared leaf throws in `findDirective`. |
| LegacySelection.DeclaredLeaf | index.js:137-142 | A declared leaf writes exactly `{__name, __directives}` under its name. |
| LegacySelection.ExcludedContributesNothing | index.js:95-97 | An excluded selection contributes nothing. |
| LegacySelection.UnknownFragmentAtRootOverflows | index.js:146-147 | A root spread of an undefined fragment restarts the walk until the stack overflows. |

## Left out

- No I/O, concurrency or clock is involved.
- graphql-js `getArgumentValues` (used in lib/index.js) is a function parameter, `Coercion`, which may fail. Its coercion rules, and any merging of schema defaults, are not modelled.
- The `__resolve` entry of lib/index.js (`field.resolve || defaultFieldResolver`) is a function handle and is not modelled.
- The graphql-js schema objects become a finite map of type definitions. `getFields` (`FieldsOf`), `getType` (`GetType`), `getDirective`, `toString` and `astNode` are replaced by it and by `Print`. They are part of this abstraction and carry no contract of their own. A field declaration is taken to have a definition node.
- A type's definition node (`HasAstNode`) is derived from its kind: every named type the schema defines has one unless it is a built-in scalar. This is the schema built from SDL, as in the tests. A schema built in code (`new GraphQLObjectType` without `astNode`) cannot be represented, so the `astNode.kind` failures of src/index.js:84 and lib/index.js:141 on such a schema are not modelled.
- `context.fieldASTs` (older graphql-js) is not modelled. Only `fieldNodes` is.
- The `argument.defaultValue` term of src/index.js:110 is left out. Argument nodes of a query never carry one, so the term is always `undefined`.
- The `ast.typeCondition` test of `getField`/`_getField` is modelled away: it is applied to a Field node, which never has a type condition.
- A Field with an empty `selectionSet` list stands for a field without one. The parser never builds an empty selection set.
- Keys that JavaScript orders specially are not modelled: integer-like keys and inherited `Object.prototype` names such as `__proto__`. GraphQL names and dot-joined paths of names never have the integer-like shape.
- Numbers: Int and Float literals stay the raw source strings graphql-js stores. No numeric behaviour is involved.
- Variable values are `JsValue`s whose numbers are integers (`Num(n: int)`). A Float variable value, which can reach `__args` through index.js:119 and src/index.js:110, cannot be represented.
- The Babel helpers `_defineProperty`, `_extends` and `_toConsumableArray` are modelled by `Put`, `Assign` and sequence concatenation.
- The `switch` fall-through for unknown AST kinds returns `undefined`. The closed `Selection` datatype makes it unreachable.
- The call stack is modelled as `fuel`. The real limit depends on the engine, so the model gives `Err(StackOverflow)` after a chosen number of nested spreads.
- The test suites are used only as evidence of expected outputs. Schema construction, query execution and the resolvers in them are not modelled.
- The three variants are not reconciled into one contract. Their differences are the behaviour the model captures.
- LegacySelection.EdgesListResolvesNode: stated for an `edges` field of type `[Edge]` or `Edge!`. Other shapes are covered by EdgesLookupFailures or fall to `FieldsOf` failing.
- SrcSelection.WrappedTargetFails: stated for a first sub-selection that is a plain field without directives. An excluded first sub-selection would defer the failure to a later one.
