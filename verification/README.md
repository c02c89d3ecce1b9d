# SOLID examples: the open-closed save pipeline and the Liskov filter

The repository is a set of short teaching snippets for the five SOLID
principles. Only two of them contain behaviour. This project models those two
and proves properties about them:

- **Open-closed: `saveRecord(record, save, beforeSave, afterSave)`**
  (`open_closed.dfy`, module `OpenClosed`). This library function lets a
  caller add hooks around the save and swap out the built-in `defaultSave`,
  without changing the library. The hooks' effects are opaque, so running
  `saveRecord` is modelled as the trace of calls it makes. Each `Call` pairs a
  `Step` (`BeforeSave(h)`, `Save(h)`, `DefaultSave`, `AfterSave(h)`) with the
  record passed to it. Optional arguments are `Option<H>`. `H` identifies the
  caller's function value and `R` is the opaque record. `saveRecord` has no
  try/catch around its calls (solid-examples.js:39-46), so an exception
  thrown by any step leaves `saveRecord` at once. `RunCalls` and
  `SaveRecordThrowing` model this: the first throwing call ends the run.
- **Liskov substitution: `isEven`, `isOdd`, `printFiltered`** (`liskov.dfy`,
  module `Liskov`). `printFiltered` logs the accepted array elements in
  order. The log is returned as a sequence: `Filtered` is the reference
  definition and `PrintFiltered` is the `forEach` loop. JavaScript's `%`
  truncates toward zero, which Dafny's does not. `js_number.dfy` (module
  `JsNumber`) therefore defines `JsRem`. Because of this, `isOdd(-3)` is false.
- `wrappers.dfy` (module `Wrappers`) holds the `Option` type.

## Model

| member | source | states |
|---|---|---|
| OpenClosed.SaveRecord | solid-examples.js:34-47 | Every step receives the caller's record. Steps run strictly in before / primary / after order. `beforeSave`, when supplied, runs first and otherwise never runs. Exactly one primary step runs: the caller's `save` if supplied, else `defaultSave`. `afterSave`, when supplied, runs last and otherwise never runs. |
| OpenClosed.NoHooksRunsDefault | solid-examples.js:34-47 | With no hooks the only call is `defaultSave(record)`. |
| OpenClosed.CustomSaveOnly | solid-examples.js:51-52 | The sample call `saveRecord(myRecord, customSave)` makes exactly one call: `customSave(myRecord)`. |
| OpenClosed.NeverBothPrimaries | solid-examples.js:40-45 | `defaultSave` runs if and only if no `save` is supplied. The caller's `save` runs if and only if one is supplied. |
| OpenClosed.RunCalls | solid-examples.js:39-46 | Calls are made in order and the first throwing call ends the run. The calls made are a prefix of the planned ones. The run completes if and only if no planned call throws. Every call before a thrown one returned normally. |
| OpenClosed.SaveRecordThrowing | solid-examples.js:34-47 | `saveRecord` when some calls throw. The calls made are a prefix of the no-throw trace, each on the caller's record. The run completes if and only if none of the planned calls throws, and then it has made every planned call. Otherwise the run stops at the first throwing call: every earlier call returned normally and the last call made is the one that threw. |
| OpenClosed.BeforeThrowAborts | solid-examples.js:39-46 | If `beforeSave` throws, that is the only call made: neither save nor `afterSave` runs. |
| OpenClosed.PrimaryThrowSkipsAfter | solid-examples.js:40-46 | If the save step (custom or default) throws after a normal before hook, the run ends there and `afterSave` is never invoked. |
| OpenClosed.NoThrowCompletes | solid-examples.js:34-47 | When none of the calls `saveRecord` makes throws, the run completes with exactly the trace of `SaveRecord`. |
| JsNumber.JsRem | solid-examples.js:58-59 | JavaScript's `%` for a non-zero divisor. The result lies on the dividend's side of zero and strictly inside the divisor's magnitude. It differs from the dividend by a multiple of the divisor. |
| JsNumber.JsRemUnique | solid-examples.js:58-59 | Any value with those three properties is the truncated remainder, so they define it completely. |
| JsNumber.JsRemNonNegative | solid-examples.js:58-59 | For non-negative dividends JavaScript's remainder equals the Euclidean one. |
| Liskov.IsEven | solid-examples.js:58 | `isEven(x)` holds if and only if `x` is even, negative numbers included. |
| Liskov.IsOdd | solid-examples.js:59 | `isOdd(x)` holds if and only if `x` is odd and non-negative. |
| Liskov.ParityComplementNonNegative | solid-examples.js:58-59 | On non-negative numbers exactly one of `isEven` and `isOdd` holds. |
| Liskov.NegativeOddIsNeither | solid-examples.js:58-59 | A negative odd number has remainder -1, so neither `isEven` nor `isOdd` holds for it. |
| Liskov.MinusThreeIsNeither | solid-examples.js:59 | `isEven(-3)` and `isOdd(-3)` are both false. |
| Liskov.MinusThreeDropped | solid-examples.js:58-71 | `printFiltered([-3], isEven)` and `printFiltered([-3], isOdd)` both log nothing, so the two calls do not split an array holding -3. |
| Liskov.IsOddCorrected | solid-examples.js:59 | The intended `isOdd` (any non-zero remainder) holds if and only if `x` is odd. |
| Liskov.CorrectedParityComplement | solid-examples.js:58-59 | The corrected `isOdd` is the exact complement of `isEven` on every integer. |
| Liskov.CorrectedAgreesNonNegative | solid-examples.js:59 | The corrected `isOdd` and the original agree on non-negative numbers. |
| Liskov.Filtered | solid-examples.js:61-67 | Everything logged is accepted by the filter, and it logs at most as many values as the array holds. |
| Liskov.FilteredCounts | solid-examples.js:61-67 | An accepted value is logged exactly as often as it occurs in the array. A rejected value is never logged. |
| Liskov.FilteredAppend | solid-examples.js:62-66 | Filtering two concatenated arrays gives the first array's output followed by the second's, so array order is kept. |
| Liskov.FilteredSingleton | solid-examples.js:63-65 | A single element is logged exactly when the filter accepts it. |
| Liskov.FilteredPartition | solid-examples.js:61-67 | A filter's output and its negation's output together hold exactly the array's elements. |
| Liskov.PrintFiltered | solid-examples.js:61-67 | The `forEach` loop logs exactly the reference output `Filtered(arr, filterFunc)`. Every logged element is accepted, and each accepted value appears as often as in the array. |
| Liskov.ParityPartitionNonNegative | solid-examples.js:58-71 | On arrays of non-negative numbers, the outputs for `isEven` and `isOdd` together hold exactly the array's elements. |
| Liskov.CorrectedParityPartition | solid-examples.js:58-71 | With the corrected `isOdd`, the two outputs split every integer array. |
| Liskov.SampleEvens | solid-examples.js:69-70 | Filtering `[1, 2, 3, 4, 5, 6]` by `isEven` gives `[2, 4, 6]`. |
| Liskov.SampleOdds | solid-examples.js:69-71 | Filtering `[1, 2, 3, 4, 5, 6]` by `isOdd` gives `[1, 3, 5]`. |
| Liskov.SamplePartition | solid-examples.js:69-71 | The outputs of filtering the sample array by `isEven` and by `isOdd` together hold every element of that array exactly once. |
| Liskov.SampleCalls | solid-examples.js:69-71 | The two sample calls log `[2, 4, 6]` and then `[1, 3, 5]`, which together partition the sample array. |

## Left out

- The single-responsibility `Order` class and the exported `saveUserDetails`, `performOrder` and `shipItem` (solid-examples.js:5-26): their bodies are empty, so there is no behaviour to model.
- The interface-segregation `PrintRequest` classes and interfaces (solid-examples.js:77-96): they have empty methods and type structure only.
- The dependency-inversion `Logger`, `FileLogger`, `StandardOutLogger` and `doStuff` (solid-examples.js:102-121): these are placeholders for file and console output.
- What `defaultSave`, the hooks and `customSave` actually do, including any mutation of the record object: their bodies are empty or elided. The model records only which function is called, in what order, and on which record.
- Which step throws is a parameter (`throws`) of `SaveRecordThrowing`. The model cannot see the hooks' code.
- Real `console.log` output: the logged values are returned as a sequence.
- JavaScript numbers are modelled as unbounded integers. Fractions, `NaN`, infinities and floating-point rounding are left out.
- JsNumber.JsRem: requires a non-zero divisor because a zero divisor gives `NaN` in JavaScript. The source only ever divides by 2.
- Liskov.PrintFiltered: `filterFunc` is modelled as a pure, total predicate. A filter that throws is left out; `forEach` would then have logged only a prefix. A filter that changes `arr` during the `forEach` is also left out.
- JavaScript truthiness: hook arguments are modelled as `Option` (supplied or not). Filter results are modelled as booleans. Non-function truthy arguments and non-boolean filter results are left out.

## Findings

| source | as written | input that shows it | evidently intended | confidence | as-written member | corrected member |
|---|---|---|---|---|---|---|
| solid-examples.js:59 | `isOdd = x => x % 2 == 1`, where `%` truncates toward zero | `x = -3`: `-3 % 2` is `-1`, so `isOdd(-3)` and `isEven(-3)` are both false, and `printFiltered` with either predicate drops -3 | `isOdd` is the complement of `isEven`, so every integer is logged by exactly one of the two calls | medium, not executed | Liskov.MinusThreeDropped | Liskov.CorrectedParityPartition |

The sample calls at solid-examples.js:69-71 are modelled with `isOdd` as written. On their non-negative array the two definitions agree (`Liskov.CorrectedAgreesNonNegative`), so the logged output is the same either way.
