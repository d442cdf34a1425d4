# Structural pattern matching, modelled in Dafny

The repository is a small runtime library that brings ML-style structural
pattern matching to JavaScript/TypeScript. A caller builds patterns (`_`,
`Variable`, `Const`, `Cons`, `Tuple`) and hands `match(value)._with(...)` an
ordered list of `[pattern, handler]` clauses. The engine classifies the value,
matches the clauses in order, and applies the first matching clause's handler
to the bindings. It throws `"Pattern match failed. Maybe you forgot _?"` when
no clause matches.

The repository has two variants of the same algorithm with different rules.
Each is modelled on its own:

- `pattern-match.ts` (module `PatternMatchTs`, file `pattern_match_ts.dfy`):
  patterns are records tagged `_patternType`; tuple values come from
  `MakeTuple` and are tagged `_valueType: 'tuple'`; `Const` binds nothing;
  `Cons` with at most one slot matches only an array of exactly that length.
- `pattern-match.js` (module `PatternMatchJs`, file `pattern_match_js.dfy`):
  patterns are closures told apart by their function `name` and `length`;
  tuple values are closures named `TupleP` built by `Tuple`; a tuple pattern
  is written flat inside a clause; `Const` binds the matched value; `Cons`
  with `k >= 1` slots accepts any non-empty array of at least `k - 1`
  elements.

Shared pieces are in `values.dfy` (module `Values`): the value type, `Option`
(`None` is JS `null`), `Result` (`Throw` carries the source's error message)
and `Selection` (the chosen clause and its bindings). The examples the source
prints are stated as lemmas in `ts_examples.dfy` and `js_examples.dfy`. That
includes the recursive `non_decreasing` client, which is proved to decide
sortedness. `variants.dfy` proves where the two matchers agree and shows
inputs on which they differ.

How JS runtime introspection is represented:

- `typeof`, `Array.isArray` and the tuple tags become the constructors of
  `Values.Value` and the `ValueType` that the classifiers return.
- A closure's `name` and `length` become the constructors of
  `PatternMatchJs.JsPattern` and the `PatternType` that
  `DeterminePatternType` returns. An array pattern of fewer than two entries
  has no `name`, which the model calls `Unnamed`.
- Handlers are replaced by their position in the clause list. The dispatcher
  returns `Selection(index, bindings)`: which handler runs, and the arguments
  it gets.

Three behaviours of the code that are easy to miss, and which the model
follows:

- A `Const` pattern never matches a boolean. Both matchers send booleans to
  their `default` branch, so `Const(true)` fails on `true`.
- In `pattern-match.js`, `Tuple` builds tuple values, not patterns. Tuple
  patterns are arrays, so they have at least two entries.
- The fold over tuple components keeps calling its reducer after a component
  fails, but the accumulator stays `null`. `ReduceComponents` models that
  and is proved equal to an all-or-nothing reference (`TupleMatches`).

## Model

| member | source | states |
|---|---|---|
| `PatternMatchTs.MakeTuple` | pattern-match.ts:35-44 | throws "Tuple should have more than 1 arg" exactly when given at most one component; otherwise the value classifies as `tuple` with exactly the given components as data |
| `PatternMatchTs.DetermineValueAndType` | pattern-match.ts:53-62 | numbers, strings and booleans classify as `number`, `string` and `boolean`; tagged tuples, and only they, classify as `tuple` with their component list as data; arrays and other objects, and only they, classify as `object`; every non-tuple value is passed through as its own data |
| `PatternMatchTs.WildcardMatchesAll` | pattern-match.ts:72-74 | `_` matches every value with no bindings |
| `PatternMatchTs.VariableBindsValue` | pattern-match.ts:76-78 | `Variable` matches every value and binds exactly `[value]` |
| `PatternMatchTs.ConstMatches` | pattern-match.ts:80-86 | `Const(c)` yields `[]` iff the value is a number or string equal to `c`, and `null` otherwise (arrays, tuples, booleans, other values included) |
| `PatternMatchTs.ConsShortArity` | pattern-match.ts:96-98 | `Cons` of arity 0 or 1 matches an array iff its length equals the arity, and then binds its elements (none, or the single element) |
| `PatternMatchTs.ConsLongArity` | pattern-match.ts:100-103 | `Cons` of arity `k >= 2` matches an `n`-element array iff `n >= 2` and `n >= k - 1`; it binds the first `k - 1` elements and then the array of the rest, which together rebuild the array |
| `PatternMatchTs.ShapeRequired` | pattern-match.ts:87-122 | only arrays (not plain objects) match `Cons` and only tuple values match `Tuple` |
| `PatternMatchTs.ReduceStaysNull` | pattern-match.ts:109-118 | once the fold's accumulator is `null` it stays `null` |
| `PatternMatchTs.ReduceFailsAt` | pattern-match.ts:109-118 | one failing component makes the fold `null`, whatever the accumulator |
| `PatternMatchTs.ReduceAllMatch` | pattern-match.ts:109-118 | when every component matches, the fold appends the component bindings in order |
| `PatternMatchTs.TupleMatches` | pattern-match.ts:106-120 | a tuple pattern matches a tuple value iff the component counts are equal and every component matches; the bindings are the component bindings concatenated in order |
| `PatternMatchTs.SelectFrom` | pattern-match.ts:129-137 | from a given clause on, the result is the first clause that matches, with its bindings, or the exhaustion error when none does |
| `PatternMatchTs.Select` | pattern-match.ts:126-145 | `_with` selects the lowest-index matching clause with that clause's bindings; it throws "Pattern match failed. Maybe you forgot _?" iff no clause matches |
| `PatternMatchTs.SelectIsFirstMatch` | pattern-match.ts:129-137 | a clause that matches after every earlier clause failed is the one selected, so a later matching clause is ignored |
| `PatternMatchTs.With` | pattern-match.ts:126-145 | the `findIndex` loop that reassigns `bindings` per clause computes exactly `Select` |
| `PatternMatchJs.Tuple` | pattern-match.js:24-32 | throws "Tuple should have more than 1 arg" exactly when given at most one argument; otherwise the value classifies as `tuple` and holds exactly the arguments |
| `PatternMatchJs.DetermineValueType` | pattern-match.js:51-57 | the `TupleP` closure, and only it, is a `tuple`; arrays, plain objects and `null`, and only they, are `object`; numbers, strings and booleans keep their `typeof` |
| `PatternMatchJs.DeterminePatternType` | pattern-match.js:59-65 | arrays of two or more patterns, and only they, classify as `tuple`; shorter arrays have no name; each closure (`_`, `VariableP`, `UnitP`, `ConstP`, `ConsP`), and only it, is told by its own name |
| `PatternMatchJs.WildcardMatchesAll` | pattern-match.js:75-77 | the function `_` matches every value with no bindings |
| `PatternMatchJs.VariableBindsValue` | pattern-match.js:79-81 | `Variable()` matches every value and binds exactly `[value]` |
| `PatternMatchJs.ConstMatches` | pattern-match.js:84-89 | `Const(c)` yields `[value]` iff the value is a number or string equal to `c`, and `null` otherwise |
| `PatternMatchJs.UnitMatchesNothing` | pattern-match.js:83-125 | no branch accepts `UnitP`, so `Unit()` matches no value |
| `PatternMatchJs.ConsEmpty` | pattern-match.js:97-99 | `Cons()` matches only `[]` and binds nothing |
| `PatternMatchJs.ConsNonEmpty` | pattern-match.js:101-103 | `Cons` of arity `k >= 1` matches iff the array is non-empty and has at least `k - 1` elements; it binds the first `k - 1` elements and then the array of the rest, which rebuild the array; `Cons(x)` binds the whole array |
| `PatternMatchJs.ShapeRequired` | pattern-match.js:83-125 | only arrays (not plain objects or `null`) match `Cons`; only tuple values match an array pattern, and never one of fewer than two entries |
| `PatternMatchJs.ReduceStaysNull` | pattern-match.js:111-120 | once the fold's accumulator is `null` it stays `null` |
| `PatternMatchJs.ReduceFailsAt` | pattern-match.js:111-120 | one failing component makes the fold `null`, whatever the accumulator |
| `PatternMatchJs.ReduceAllMatch` | pattern-match.js:111-120 | when every component matches, the fold appends the component bindings in order |
| `PatternMatchJs.TupleMatches` | pattern-match.js:107-122 | a tuple pattern of two or more entries matches a tuple value iff the lengths are equal and every component matches; the bindings are the component bindings concatenated in order |
| `PatternMatchJs.ClausePattern` | pattern-match.js:131-132 | a two-entry clause uses its first entry as the pattern; a longer clause reads all entries but the callback as a tuple pattern |
| `PatternMatchJs.SelectFrom` | pattern-match.js:130-140 | from a given clause on, the result is the first clause that matches, with its bindings, or the exhaustion error when none does |
| `PatternMatchJs.Select` | pattern-match.js:128-145 | `_with` invokes only the callback of the lowest-index matching clause, with its bindings; it throws "Pattern match failed. Maybe you forgot _?" iff no clause matches |
| `PatternMatchJs.SelectIsFirstMatch` | pattern-match.js:130-140 | a clause that matches after every earlier clause failed is the one whose callback runs |
| `PatternMatchJs.With` | pattern-match.js:128-145 | the `findIndex` loop that invokes the first matching callback and stops computes exactly `Select` |
| `TsExamples.NonDecreasingIsSorted` | pattern-match.ts:202-207 | on an array of numbers, `non_decreasing` never throws and returns true iff every element is at most every later element |
| `TsExamples.NonDecreasingExamples` | pattern-match.ts:209-210 | `non_decreasing([1,1,2,3])` is true and `non_decreasing([1,2,1])` is false |
| `TsExamples.FirstMatchWins` | pattern-match.ts:156-179 | on "Hello world", the first matching clause is chosen even when a later one also matches; `Variable` binds the string |
| `TsExamples.ConsTwoSlots` | pattern-match.ts:100-103 | `Cons('h','t')` splits an array of two or more numbers into its head and the array of the rest |
| `TsExamples.ConsExamples` | pattern-match.ts:181-189 | `[1,2,3]` selects `Cons('h','t')` with bindings `1, [2,3]`; `[]` selects `Cons()` with none |
| `TsExamples.EmptyComponentFails` | pattern-match.ts:192-193 | `Tuple(Cons(), _)` and `Tuple(_, Cons())` fail on `([1,2,3],[4,5,6])` |
| `TsExamples.HeadTailComponents` | pattern-match.ts:194 | `Tuple(Cons('ha','ta'), Cons('hb','tb'))` binds `1, [2,3], 4, [5,6]` |
| `TsExamples.TupleExample` | pattern-match.ts:191-195 | the tuple `([1,2,3],[4,5,6])` skips the clauses needing an empty component and binds `1, [2,3], 4, [5,6]` |
| `JsExamples.FirstMatchWins` | pattern-match.js:156-179 | on "Hello world", the first matching clause is chosen and a matching literal binds the string |
| `JsExamples.ConsTwoSlots` | pattern-match.js:101-103 | `Cons('h','t')` splits any non-empty array of numbers into its head and the array of the rest, possibly empty |
| `JsExamples.ConsExamples` | pattern-match.js:181-189 | `[1,2,3]` selects `Cons('h','t')` with bindings `1, [2,3]`; `[]` selects `Cons()` with none |
| `JsExamples.EmptyComponentFails` | pattern-match.js:192-193 | the flat tuple patterns `Cons(), _` and `_, Cons()` fail on `([1,2,3],[4,5,6])` |
| `JsExamples.HeadTailComponents` | pattern-match.js:194 | the flat tuple pattern `Cons('ha','ta'), Cons('hb','tb')` binds `1, [2,3], 4, [5,6]` |
| `JsExamples.TupleExample` | pattern-match.js:191-195 | `Tuple([1,2,3],[4,5,6])` builds the tuple, and dispatch picks the third clause with bindings `1, [2,3], 4, [5,6]` |
| `VariantComparison.PortableAgree` | pattern-match.ts:68-124 | the two matchers give the same result on every value for patterns without literals, without one- or two-slot `Cons` and without tuples of fewer than two components (the JS side is pattern-match.js:71-126) |
| `VariantComparison.ConstBindingDiffers` | pattern-match.ts:83-84 | a literal matches its own value in both variants, binding nothing in the TS variant and the value in the JS one (pattern-match.js:86-88) |
| `VariantComparison.TwoSlotsOnSingleton` | pattern-match.ts:100-103 | `Cons('h','t')` fails on a one-element array in the TS variant and binds the element and `[]` in the JS one (pattern-match.js:101-103) |
| `VariantComparison.OneSlotDiffers` | pattern-match.ts:96-98 | with one slot, the TS variant accepts only a one-element array and binds its element; the JS one binds any non-empty array whole (pattern-match.js:97-103) |

## Left out

- The demonstration calls and their `console.log` output (pattern-match.ts:152-210, pattern-match.js:152-197). Their expected outcomes are the example lemmas instead.
- `square_funny` (pattern-match.ts:197-200): its handler only squares the bound value, and handlers are not modelled.
- Handler closures, `apply` and spread invocation. Dispatch returns the chosen clause's position and bindings. Handler results, and errors raised by handlers, are not modelled. `non_decreasing` is the one handler set written out.
- `TsExamples.LessEq`: models JS `<=` only on two numbers and is false otherwise, because `non_decreasing` only compares array elements that are numbers.
- Record and Constructor patterns: they exist only as TODO comments in the source.
- JS numbers as IEEE doubles (NaN, -0): numbers are `int`, since the code only compares them with `===`.
- `determineValueAndType(null)` throws a `TypeError` in the TS variant. `null` is not a `Matchable`, so it is not a model value.
- In the JS variant, a clause made of only a callback would have the callback itself inspected as a pattern. A `JsClause` always has at least one pattern entry before its callback, so that case is not modelled.
- Functions of `length` 2 or more used as patterns (a callback in pattern position) are not modelled. So are factories passed without calling them, except `_`: the uncalled `Variable` has `name` `'Variable'` and would never match.
- The unused `import { win32 }`, the TypeScript type annotations, and the slot and label strings. Only the number of `Cons` slots is kept.
