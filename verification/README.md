# Upload-on-query validation rule (async-graphql)

This project models one static validation rule of async-graphql: the rule that
rejects `Upload`-typed variables on query operations. It is implemented by
`UploadFile`'s `Visitor::enter_operation_definition` hook in
`src/validation/rules/upload_file.rs`.

The hook runs when the validator enters an operation definition. It acts only
on `Query` operations. It visits the variable definitions in declaration order
and resolves each declared type to its underlying named type through the
schema's type registry. When that type is declared and its name is exactly
`Upload`, the hook reports one error to the validator context. The error holds
the variable's position and the fixed message "The Upload type is only allowed
to be defined on a mutation". Mutations, subscriptions and shorthand selection
sets are ignored.

Modules:

- `Wrappers` (`wrappers.dfy`): `Option`.
- `Ast` (`ast.dfy`): the part of the parsed query document the rule reads.
  This covers source positions, type references (`NamedType`, `ListType`,
  `NonNullType`), variable definitions, and the four kinds of operation
  definition.
- `Registry` (`registry.dfy`): declared types (`MetaType`), the registry map,
  and `BasicTypeByParsedType`. That function strips list and non-null wrappers
  and looks up the base name.
- `Context` (`context.dfy`): the validator context, reduced to its registry
  handle and its append-only sequence of `RuleError`s, plus `ReportError`.
- `UploadFileRule` (`upload_file.dfy`): the rule, a reference definition of
  which variables are reported (`UploadIndices`), and the properties.

The rule is a unit struct with no state, so the hook is modelled as a pure
function from (context, operation) to the new context. The loop over variable
definitions is `CheckVariables`. It is a left fold that checks the variables
in declaration order. The main contract is `ReportsUploadsAfter`. It says the
new error sequence is the old one unchanged, followed by exactly one error per
Upload-typed variable, in increasing variable order. Each such error has that
variable's position as its only position, and the fixed message.

## Model

| member | source | states |
|---|---|---|
| `Registry.BasicTypeByParsedType` | src/validation/rules/upload_file.rs:17 | the registry lookup the rule relies on: it resolves a type reference through any nesting of list and non-null wrappers; the result is present exactly when the base type name is declared, and it is then that name's declared definition |
| `Context.ReportError` | src/validation/rules/upload_file.rs:19-22 | reporting appends exactly one error with the given positions and message, and keeps every earlier error unchanged as a prefix; the registry is untouched |
| `UploadFileRule.UploadIndices` | src/validation/rules/upload_file.rs:16-18 | reference definition of the offending variables: strictly increasing indices, all in range, and an index is listed exactly when that variable's type resolves to a declared type named `Upload` |
| `UploadFileRule.CheckVariablesReportsUploads` | src/validation/rules/upload_file.rs:16-25 | the loop over variable definitions keeps the old errors as a prefix and appends one error per offending variable, in declaration order; each error has that variable's position as its only position and carries the fixed message; the registry is unchanged |
| `UploadFileRule.EnterOperationDefinition` | src/validation/rules/upload_file.rs:9-29 | on a query, the context gains exactly the errors described by `UploadIndices` after its existing ones; on a mutation, a subscription or a shorthand selection set the context is returned unchanged; the registry is never changed |
| `UploadFileRule.CheckVariablesAppend` | src/validation/rules/upload_file.rs:16 | checking a concatenated variable list is checking the first part, then the second, starting from the resulting context |
| `UploadFileRule.NonUploadVariableChangesNothing` | src/validation/rules/upload_file.rs:17-18 | inserting a variable that is not Upload-typed anywhere in a query's variable list leaves the result of the hook unchanged |
| `UploadFileRule.UnresolvedVariableIgnored` | src/validation/rules/upload_file.rs:17 | a variable whose type does not resolve in the registry produces no error wherever it appears |
| `UploadFileRule.OtherTypeNameIgnored` | src/validation/rules/upload_file.rs:18 | a variable whose type resolves to a declared type named anything other than exactly `Upload` produces no error |
| `UploadFileRule.UploadErrorCount` | src/validation/rules/upload_file.rs:15-25 | a query gains as many errors as there are variable definitions whose resolved type is named `Upload`, counted as a set of indices |
| `UploadFileRule.NoUploadVariableNoError` | src/validation/rules/upload_file.rs:16-24 | a query with no Upload-typed variable leaves the context unchanged |
| `UploadFileRule.OneUploadVariableOneError` | src/validation/rules/upload_file.rs:15-22 | a query with exactly one Upload-typed variable gains exactly one error, with that variable's position and the fixed message |
| `UploadFileRule.UploadAllowedOnlyOnMutation` | src/validation/rules/upload_file.rs:14-27 | if a variable list holds an Upload-typed variable, as a query the appended errors include the error at that variable's position with the fixed message; as a mutation the context is unchanged |
| `UploadFileRule.AppendedErrorsIgnoreExisting` | src/validation/rules/upload_file.rs:5-25 | the rule has no state and only reads the registry, so the errors it appends depend only on the registry and the operation, not on errors already present |
| `UploadFileRule.RunningTwiceAppendsTwice` | src/validation/rules/upload_file.rs:5-29 | running the hook twice on the same operation appends the same errors twice, after the original errors |
| `UploadFileRule.UploadVariableIffDeclaredUpload` | src/validation/rules/upload_file.rs:17-18 | if every registry entry is stored under its own name, a variable is reported exactly when its base type name is `Upload` and the schema declares `Upload` |
| `UploadFileRule.ExampleUploadOnQuery` | src/validation/rules/upload_file.rs:14-22 | `query Q($f: [Upload!])` gains one error at `$f` with the fixed message; the same variable on a mutation gains none |
| `UploadFileRule.ExampleNameComparisonIsExact` | src/validation/rules/upload_file.rs:17-18 | types declared as `upload` and `Upload2`, and an undeclared `Upload`, are not reported |

## Left out

- `async-graphql-tide/src/lib.rs` is left out entirely. It is HTTP glue over Tide: it reads the Content-Type header, calls the query-builder conversion, applies the caller's configuration closure, runs the executor and serialises the response to JSON. All of these are foreign calls or I/O with no logic of their own.
- Registry internals are not modelled; the source of `basic_type_by_parsed_type` and of the registry is not part of this model. `BasicTypeByParsedType` is given a body only because every member needs one. Its two ensures clauses already fix the result uniquely (present exactly when the base name is declared, and then that name's definition), so no lemma relies on anything beyond that wrapper-stripping contract.
- Registry well-formedness (every type stored under its own name) is not assumed by the rule. Only `UploadVariableIffDeclaredUpload` assumes it. Everything else compares the name of the resolved definition, as the source does.
- The visitor traversal engine, the composite visitor, the other `Visitor` hooks, fragment collection and cycle detection are not modelled. Their code is not part of this model. The hook is modelled as it is called on one operation definition.
- The validator context's fragment and variable lookup tables are not modelled. The rule never reads them.
- A variable definition's default value and an operation's directives and selection set are not modelled. The rule never reads them.
- The `&mut self` receiver is not modelled. `UploadFile` is a unit struct with no fields, so the hook cannot change it.
- The rule is usually summarised as "Upload only on mutations". The code reports only on queries, so subscriptions and shorthand selection sets are skipped too. The model follows the code.
