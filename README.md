# no-one-time-vars, modelled in Dafny

The ESLint rule `no-one-time-vars` flags variables that are used only once.
In this repository the rule is one visitor object. ESLint calls `Identifier` for
every identifier node, passing along the type of its parent node. It calls
`addFunction` for every arrow function, function expression and function
declaration. It calls `Program:exit` once at the end of a file.

- The rule keeps a dictionary `data` from names to `{node, count}`. Each
  `create` call gets a new one.
- An identifier whose parent is a `VariableDeclarator` registers its name the
  first time that name is seen. The entry holds that node and a count of 0.
- An identifier whose parent is one of the other eleven listed node types adds
  one to the count of its name, if the name is already registered.
- At program exit, every entry whose count is exactly 1 is reported, in the order
  the names were registered.
- Function ranges go into one list at module level. Every rule instance shares
  that list and it is never cleared. The walk over it at program exit
  does nothing, because its `return` only ends the current callback.

Files:

- `no_one_time_vars.dfy`, module `NoOneTimeVars`. The data model and `Visit`,
  the `Identifier` step as a pure function whose contract lists what one visit
  does. `Reported` is the list of reports at exit. Five lemmas state which
  reports it holds and in what order, and `ReportedStep` unfolds it one name
  at a time. `FunctionList` is a class for
  the module-level `functions` array. `Rule` is a class for the object `create`
  returns, with the visitor methods `Identifier`, `Function` and `ProgramExit`.
  `Identifier` is proved against `Visit` and `ProgramExit` against `Reported`;
  `Function` appends the node's span to the shared list and changes nothing
  else.
- `rule_traces.dfy`, module `RuleTraces`. A traversal is a sequence of visitor
  events. `Run` folds the events through `Visit`. The lemmas state, in terms of
  the events alone, what each count ends up as and which names are reported.
  It also holds traces for the code of the tests at
  tests/lib/rules/no-one-time-vars.js:22-26 and :58-61 (`LogCalls`), :40-47
  (`TopLevelTest`) and :70-78 (`CallbackTest`), with what the rule reports for
  each. The code of the test at :29-31 has no trace of its own: it differs
  from `LogCalls(1)` only in its string literal, and the names, parent types and
  declaration offsets are the same, so the rule code reports `testVar` there.

The rule keys `data` by the bare identifier name: it has no notion of scope,
so two variables of the same name in different functions share one entry. It
exempts nothing (no closures, loops, `await` or exports), has no ignore list and
offers no fix (`fixable: null`). The model has none of these either. The
`functions` list lives at module level, so it is shared by every rule instance
and outlives a single traversal; the model keeps it shared (`FunctionList`,
`TwoFiles`).

The rule's option check, `(context.options[0] || {allowInsideFunctions: true}).allowInsideFunctions`
(lib/rules/no-one-time-vars.js:77), is the function `InsideFunctionsChecked`.
Without options the walk happens; an option object that reaches the rule
without the property turns it off. It decides only whether the walk over the spans happens. `ProgramExit`'s contract
mentions neither the options nor the spans.

Code and tests disagree in some places. The model follows the code:

- The tests at tests/lib/rules/no-one-time-vars.js:28-38, :39-54 and :69-90
  give the options `ignoredVariables` (:33-37) and `allowInsideCallback`
  (:49-53, :79-83). The schema at lib/rules/no-one-time-vars.js:40-51 allows
  only `allowInsideFunctions` and forbids any other property
  (`additionalProperties: false`, :49), so those option objects do not satisfy
  it, and the code never reads either name.
- The test at :69-90 expects `testVar` to be reported. Its only read is the
  operand of a `BinaryExpression`, which is not one of the twelve node types, so
  the rule code counts nothing and reports nothing on that input
  (`CallbackTestNotReported`). The same holds for the read at :45 in the test
  at :39-54 (`TopLevelTestNotReported`).

## Model

| member | source | states |
|---|---|---|
| `NoOneTimeVars.Visit` | lib/rules/no-one-time-vars.js:60-71 | A parent outside the twelve node types changes nothing. A name gets an entry only from a `VariableDeclarator` parent, holding that node with count 0, and is appended to the order. A repeated declarator occurrence, or an occurrence of an unregistered name under any other parent, changes nothing. A registered name keeps its first node, and its count rises by exactly 1 when counted. No other name is touched. The table only grows and stays well formed. |
| `NoOneTimeVars.Reported` | lib/rules/no-one-time-vars.js:75-93 | The reports at exit, walked in registration order. There are never more reports than registered names. |
| `NoOneTimeVars.ReportedSound` | lib/rules/no-one-time-vars.js:84-92 | Every report names a registered name whose count is exactly 1 and carries that entry's node. |
| `NoOneTimeVars.ReportedComplete` | lib/rules/no-one-time-vars.js:76-92 | Every registered name with count 1 is reported, with the node of its entry. |
| `NoOneTimeVars.ReportedDistinct` | lib/rules/no-one-time-vars.js:76-92 | When each name is listed once, as `Object.entries` lists keys, no name is reported twice. |
| `NoOneTimeVars.ReportedAppend` | lib/rules/no-one-time-vars.js:76 | Reports follow `Object.entries` order. The reports for the names registered first come before all the others. |
| `NoOneTimeVars.FunctionList.constructor` | lib/rules/no-one-time-vars.js:23 | The shared function list starts empty. |
| `NoOneTimeVars.FunctionList.AddFunction` | lib/rules/no-one-time-vars.js:25-30 | Appends exactly one `{start, end}` span, the node's range, and removes nothing. |
| `NoOneTimeVars.Rule.Create` | lib/rules/no-one-time-vars.js:56-57 | `create` starts with an empty `data`. It holds the shared list and does not reset it. |
| `NoOneTimeVars.Rule.Identifier` | lib/rules/no-one-time-vars.js:60-71 | The new `data` and order are exactly `Visit` of the old ones. The function list is unchanged. |
| `NoOneTimeVars.Rule.Function` | lib/rules/no-one-time-vars.js:72-74 | Each of the three function visitors appends the node's span to the shared list and leaves `data` untouched. |
| `NoOneTimeVars.Rule.ProgramExit` | lib/rules/no-one-time-vars.js:75-94 | Returns exactly `Reported(data, order)`, whatever the options and the recorded spans are. The walk at :77-82 cannot drop a report. |
| `NoOneTimeVars.TwoFiles` | lib/rules/no-one-time-vars.js:23-30 | A second `create` starts with an empty `data`, yet sees the span recorded while the first instance ran. |
| `RuleTraces.FirstDecl` | lib/rules/no-one-time-vars.js:62-68 | The position of the first declarator occurrence of a name. No earlier event declares it. |
| `RuleTraces.RunGrows` | lib/rules/no-one-time-vars.js:60-71 | Over any traversal no name is dropped, no entry's node is replaced and no count decreases. The order only grows at its end and keeps listing each key once. |
| `RuleTraces.RunRegistered` | lib/rules/no-one-time-vars.js:63-69 | After registration, a name's count grows by exactly its number of counted occurrences, and its node never changes. |
| `RuleTraces.RunUnregistered` | lib/rules/no-one-time-vars.js:62-69 | A name is registered exactly when some declarator occurrence of it comes. Its entry holds the first such node and counts only the occurrences after it. |
| `RuleTraces.RegisteredAreDeclared` | lib/rules/no-one-time-vars.js:62-69 | Only names that occur under a `VariableDeclarator` parent somewhere in the traversal get an entry. |
| `RuleTraces.ReportedExactly` | lib/rules/no-one-time-vars.js:60-93 | After a traversal, a name is reported exactly when it is declared and counted exactly once after its first declaration. The report carries that declaration's node. |
| `RuleTraces.ReportedOnce` | lib/rules/no-one-time-vars.js:76-92 | After a traversal, no name is reported twice. |
| `RuleTraces.OnlyNameDeclared` | lib/rules/no-one-time-vars.js:75-93 | When a single name is declared, the whole report is that name alone at its first declaration if it was counted once after it, and nothing otherwise. |
| `RuleTraces.LogCallsReported` | tests/lib/rules/no-one-time-vars.js:21-67 | A declaration followed by `n` calls `console.log(testVar)` reports `testVar` at its declaration exactly when `n` is 1. Two calls give no report. |
| `RuleTraces.InitializerIsRegistered` | lib/rules/no-one-time-vars.js:62-68 | In `var a = b` the initializer `b` also has the declarator as parent, so both names are registered with count 0. |
| `RuleTraces.SoleDeclaration` | lib/rules/no-one-time-vars.js:60-93 | When a traversal has a single declarator occurrence, its name is reported at that occurrence exactly when it is counted once afterwards, and nothing is reported otherwise. |
| `RuleTraces.TopLevelTestNotReported` | tests/lib/rules/no-one-time-vars.js:39-54 | For the visitor calls of the code at :40-47 the rule reports nothing: the only read of `testVar` is an operand of `-`. |
| `RuleTraces.CallbackTestNotReported` | tests/lib/rules/no-one-time-vars.js:69-90 | For the visitor calls of the code at :70-78 the rule reports nothing, although the test expects one report. |
| `NoOneTimeVars.InsideFunctionsChecked` | lib/rules/no-one-time-vars.js:77 | Without options the walk over the spans happens. A first option object without `allowInsideFunctions` turns it off; otherwise that property's value decides. |
| `NoOneTimeVars.ReportedKeepsOrder` | lib/rules/no-one-time-vars.js:76 | Reports keep the relative order their names have in the key order: any ranking that increases along the keys increases along the reports. |
| `RuleTraces.OrderByFirstDecl` | lib/rules/no-one-time-vars.js:62-68 | After a traversal, the names are listed in the order of their first declarator occurrences. |
| `RuleTraces.ReportsInDeclarationOrder` | lib/rules/no-one-time-vars.js:76-92 | After a traversal, the reports come in the order of the reported names' first declarator occurrences. |

## Left out

- The ESLint host is not modelled: parsing, traversal order and `node.parent`
  links. Each visitor call is an input: an identifier node with the type of its
  parent, a function node, or the exit.
- `context.report`, the message template and the `meta` block are left out,
  schema validation included. `ProgramExit` returns the reports as
  `(name, node)` values instead of sending them.
- Plain-object prototype names such as `constructor` or `toString` already
  "exist" on `{}`, which changes the lookups at lib/rules/no-one-time-vars.js:63 and :69. `data` is a Dafny `map`,
  so these quirks are not modelled.
- `Object.entries` lists integer-like keys first. Identifier names can never be
  integer-like, so insertion order is the whole story. It is kept in `order`.
- `count` is a JavaScript number. It is modelled as an unbounded `nat`, which
  matches for every count below 2^53.
- `RuleOptions` holds only what the schema allows, `allowInsideFunctions` as an
  optional boolean. Any other value a host might pass is not modelled.
- Schema defaulting is not modelled. ESLint may fill in `default: true` for
  `allowInsideFunctions` before the rule runs (lib/rules/no-one-time-vars.js:46);
  `InsideFunctionsChecked` reads the options as the rule receives them. No
  report depends on it.
