# Todo task store — a Dafny model

This project models the core of a small "todo list" REST service written in
Kotlin: the task entity and its lifecycle, the immutable in-memory registry
(`TodoState`), the validation of the `id` request parameter (`asId`) and the
parts of `TodoService` that act on the in-memory state or are pure mappings.

- `todo_item.dfy` (module `Items`): `TodoId` as a Kotlin `Int` with `next()`
  wrapping at 2^31 - 1, the sealed `TodoItem` hierarchy as a datatype
  `Active | Done | Cancelled`, `isActive()`, the `Done(item)` and
  `Cancelled(item)` constructors, `Active.done()` and `Active.cancel()`, and
  the transition relation they define, with the proof that a task leaves
  `Active` at most once and never comes back.
- `todo_state.dfy` (module `Registry`): `TodoState` as a value; `addItem`,
  `getItem`, `getAll`, `markDone`, `markCancelled` and the shared
  `changeItem`, each returning the new state with its result. The invariant
  "every stored id lies in `1 .. nextId - 1`" is proved to be kept, as are
  consecutive id allocation and terminal absorption.
- `todo_server.dfy` (module `IdParam`): `asId` as a check against
  `-?[0-9]+` followed by `toLong`, with `NumberFormatException` on values
  outside the `Long` range modelled as its own outcome; round trip with the
  decimal text of every `Long`.
- `todo_service.dfy` (module `Service`): the class `TodoService` with its
  `state` cell, `cancelItem`, `findDone` and `findCancelled`; the record to
  item mapping of `findItem`; the decision steps of the database-backed
  `markDone`, with the query and insert outcomes as inputs.
- `wrappers.dfy`, `errors.dfy`: vavr's `Option`/`Either` and the four-case
  `TodoError`.

The model keeps these behaviours of the code as written:
- `markDone` in `TodoService.kt` (lines 67-80) marks any task it finds as
  `Done`. It does not check that the task is `Active`, so it never returns
  `InvalidState`. The test at `TodoTest.kt:104-113` expects 409
  (`InvalidState`) on a second `done` of the same task. Through the
  database path that second call succeeds, or fails with `InternalError`
  if the insert fails. `Service.SecondMarkDoneInDbNotInvalidState` states
  this. The in-memory `markDone` of `TodoState.kt` does return
  `InvalidState` there (`Registry.DoneIsTerminal`).
- `TodoId` wraps around at the top of the Kotlin `Int` range. From the
  default state, adds number 1 to 2^31 - 1 issue the positive ids
  1 to 2^31 - 1. Add number 2^31 issues -2^31, the first id that is not
  positive (`Registry.AddItemWrapsAtTop`). The counter then runs through
  the remaining values, so ids stay unique up to 2^32 adds.
- `TodoServer.kt` hands the `Long` from `asId` to `TodoId`, which is declared
  over `Int` in `TodoItem.kt`. That conversion is not part of this model.
- The in-memory `state` and the database never share data. So the model does
  not relate ids issued by the database-backed `addItem` to `cancelItem`.

## Model

| member | source | states |
|---|---|---|
| Items.Next | src/main/kotlin/dev/neeffect/example/todo/TodoItem.kt:9-11 | the next id is one greater, except at the top of the `Int` range where it wraps to the most negative id |
| Items.NextIncreases | src/main/kotlin/dev/neeffect/example/todo/TodoItem.kt:10-11 | below the top of the range `next()` is strictly increasing and strictly monotone |
| Items.IsActive | src/main/kotlin/dev/neeffect/example/todo/TodoItem.kt:21-27 | `isActive()` holds exactly when the task is neither `Done` nor `Cancelled` |
| Items.AsDone | src/main/kotlin/dev/neeffect/example/todo/TodoItem.kt:30-33 | `Done(item)` is a non-active `Done` with the item's title and creation instant |
| Items.AsCancelled | src/main/kotlin/dev/neeffect/example/todo/TodoItem.kt:35-38 | `Cancelled(item)` is a non-active `Cancelled` with the item's title and creation instant |
| Items.Complete | src/main/kotlin/dev/neeffect/example/todo/TodoItem.kt:25 | `done()` exists on `Active` only and yields a different task, `Done` with the same fields |
| Items.Cancel | src/main/kotlin/dev/neeffect/example/todo/TodoItem.kt:26 | `cancel()` exists on `Active` only and yields a different task, `Cancelled` with the same fields |
| Items.Apply | src/main/kotlin/dev/neeffect/example/todo/TodoItem.kt:24-38 | a transition exists exactly on an active task, keeps its fields and lands in a non-active stage: `Done` for the done step and `Cancelled` for the cancel step |
| Items.TerminalIsAbsorbing | src/main/kotlin/dev/neeffect/example/todo/TodoItem.kt:30-38 | from `Done` or `Cancelled` every non-empty sequence of transitions fails |
| Items.AtMostOneTransition | src/main/kotlin/dev/neeffect/example/todo/TodoItem.kt:24-38 | a sequence of transitions succeeds exactly when it is one transition from `Active`; it ends non-active with the original fields |
| Registry.Empty | src/main/kotlin/dev/neeffect/example/todo/TodoState.kt:9-12 | the default state has counter 1, no tasks, and satisfies the invariant |
| Registry.GetItem | src/main/kotlin/dev/neeffect/example/todo/TodoState.kt:32 | `getItem` is present exactly for stored ids and gives the stored task |
| Registry.GetAll | src/main/kotlin/dev/neeffect/example/todo/TodoState.kt:34 | `getAll` agrees with `getItem` on every id |
| Registry.AddItem | src/main/kotlin/dev/neeffect/example/todo/TodoState.kt:13-16 | returns the old counter as the id, advances the counter with `next()`, stores the item under that id and changes no other entry |
| Registry.ChangeItem | src/main/kotlin/dev/neeffect/example/todo/TodoState.kt:36-45 | missing id gives `NotFound` and a failing change gives its error, both with the state unchanged; otherwise the entry is replaced and the new task returned |
| Registry.MarkDone | src/main/kotlin/dev/neeffect/example/todo/TodoState.kt:18-23 | `NotFound` or `InvalidState` with the state unchanged; on an active task `Right(Done)` with the same fields, stored under the id, counter and every other entry unchanged |
| Registry.MarkCancelled | src/main/kotlin/dev/neeffect/example/todo/TodoState.kt:25-30 | as `markDone`, with `Cancelled` as the new stage |
| Registry.AddItemKeepsValid | src/main/kotlin/dev/neeffect/example/todo/TodoState.kt:10-16 | below the top of the `Int` range, `addItem` keeps the id invariant, uses an id not yet stored and grows the map by one |
| Registry.AddItemWrapsAtTop | src/main/kotlin/dev/neeffect/example/todo/TodoState.kt:13-16 | at counter 2^31 - 1 the counter wraps to -2^31 and the id invariant breaks |
| Registry.MarkDoneKeepsValid | src/main/kotlin/dev/neeffect/example/todo/TodoState.kt:18-23 | `markDone` keeps the id invariant |
| Registry.MarkCancelledKeepsValid | src/main/kotlin/dev/neeffect/example/todo/TodoState.kt:25-30 | `markCancelled` keeps the id invariant |
| Registry.DoneIsTerminal | src/main/kotlin/dev/neeffect/example/todo/TodoState.kt:18-29 | after a successful `markDone`, both `markDone` and `markCancelled` of that id fail with `InvalidState` and leave the state unchanged |
| Registry.CancelledIsTerminal | src/main/kotlin/dev/neeffect/example/todo/TodoState.kt:18-29 | the same after a successful `markCancelled` |
| Registry.AddAllIssuesConsecutiveIds | src/main/kotlin/dev/neeffect/example/todo/TodoState.kt:13-16 | successive adds issue consecutive ids from the counter. Each task is found under its id. Earlier tasks stay, no other id is used, and the invariant holds |
| Registry.FromEmptyIssuesOneToN | src/main/kotlin/dev/neeffect/example/todo/TodoState.kt:9-16 | `n` adds from the default state issue `n` ids, `1..n` in order, pairwise distinct, and store exactly those ids |
| Registry.AddThenMarkDone | src/main/kotlin/dev/neeffect/example/todo/TodoState.kt:13-23 | the first task added gets id 1; `markDone` returns and stores `Done` with its title, leaving it the only entry |
| IdParam.ToLong | src/main/kotlin/dev/neeffect/example/todo/TodoServer.kt:52 | a matching string converts to exactly its value when that fits in a `Long`, and throws exactly when it does not |
| IdParam.AsId | src/main/kotlin/dev/neeffect/example/todo/TodoServer.kt:50-55 | `InvalidParam` exactly for a missing parameter or text not matching `-?[0-9]+`. Matching text gives `Right` of its value when that fits in a `Long`, and throws `NumberFormatException` when it does not |
| IdParam.NaturalStringRoundTrip | src/main/kotlin/dev/neeffect/example/todo/TodoServer.kt:51-52 | the decimal digits of a natural number are a digit string whose value is that number |
| IdParam.DecimalStringRoundTrip | src/main/kotlin/dev/neeffect/example/todo/TodoServer.kt:51-52 | the decimal text of every integer matches the pattern and has that integer as its value |
| IdParam.AsIdRoundTrip | src/main/kotlin/dev/neeffect/example/todo/TodoServer.kt:50-52 | `asId` of the decimal text of any `Long` is `Right` of that `Long` |
| IdParam.OutOfRangeThrows | src/main/kotlin/dev/neeffect/example/todo/TodoServer.kt:51-52 | the decimal text of a value outside the `Long` range passes the pattern and throws `NumberFormatException`, not `InvalidParam` |
| IdParam.LeadingZeroIgnored | src/main/kotlin/dev/neeffect/example/todo/TodoServer.kt:52 | a leading zero does not change the value of a digit string |
| IdParam.LeadingZerosAccepted | src/main/kotlin/dev/neeffect/example/todo/TodoServer.kt:51-52 | a leading zero, with or without a minus sign, gives the same outcome as the text without it |
| IdParam.NegativeAccepted | src/main/kotlin/dev/neeffect/example/todo/TodoServer.kt:51-52 | a minus sign before digits worth at most 2^63 gives `Right` of the negated value |
| IdParam.RejectedExamples | src/main/kotlin/dev/neeffect/example/todo/TodoServer.kt:50-55 | a missing parameter, `""`, `"-"`, `"zupka"` and `"+1"` give `InvalidParam` |
| Service.ItemOfRecord | src/main/kotlin/dev/neeffect/example/todo/TodoService.kt:92-98 | the record's title and instant are kept; the result is `Done` exactly when the done marker is present and `Active` otherwise, and never `Cancelled` |
| Service.FindItem | src/main/kotlin/dev/neeffect/example/todo/TodoService.kt:86-100 | no row gives no task; a row gives its mapped task |
| Service.MarkDoneInDb | src/main/kotlin/dev/neeffect/example/todo/TodoService.kt:67-80 | a failed lookup transaction gives `InternalError` with its text and no row gives `NotFound`, both without an insert. A found row is inserted. The result is `InternalError` with the insert's failure text, or `Done` with the row's fields. `InvalidState` never occurs |
| Service.SecondMarkDoneInDbNotInvalidState | src/main/kotlin/dev/neeffect/example/todo/TodoService.kt:67-80 | on a row already marked done, `markDone` inserts again and gives back the same `Done` task (or `InternalError`), never `InvalidState` |
| Service.DoneEntries | src/main/kotlin/dev/neeffect/example/todo/TodoService.kt:114-119 | exactly the stored entries whose task is `Done`, with their tasks |
| Service.CancelledEntries | src/main/kotlin/dev/neeffect/example/todo/TodoService.kt:107-112 | exactly the stored entries whose task is `Cancelled`, with their tasks |
| Service.DoneAndCancelledDisjoint | src/main/kotlin/dev/neeffect/example/todo/TodoService.kt:107-119 | done and cancelled entries are disjoint and contain no active task |
| Service.CancelMovesToCancelled | src/main/kotlin/dev/neeffect/example/todo/TodoService.kt:103-112 | a successful cancellation adds the id to the cancelled entries and leaves the done entries as they were |
| Service.TodoService.constructor | src/main/kotlin/dev/neeffect/example/todo/TodoService.kt:29-33 | a new service holds the default, empty state |
| Service.TodoService.CancelItem | src/main/kotlin/dev/neeffect/example/todo/TodoService.kt:103-105 | the state becomes the first component of `markCancelled` and the result is its second. On failure (`NotFound` or `InvalidState`) the state is unchanged. The invariant is kept |
| Service.TodoService.FindDone | src/main/kotlin/dev/neeffect/example/todo/TodoService.kt:114-119 | returns exactly the `(id, task)` entries of the current state whose task is `Done`; the state is not changed |
| Service.TodoService.FindCancelled | src/main/kotlin/dev/neeffect/example/todo/TodoService.kt:107-112 | returns exactly the `(id, task)` entries whose task is `Cancelled`; the state is not changed |

## Left out

- All SQL work: the bodies in `TodoDAO.kt` and the transactions of the database-backed `addItem`, `findActive`, `markDone` and `findItem`. The view lookup and the insert outcome of `markDone` are inputs to `Service.MarkDoneInDb`. The database-backed `addItem` and `findActive` are not modelled, because they consist only of SQL calls.
- Effect composition (`Nee.with`, `flatMap`, `handleError`, `e()`, `neeMerge`). Results are plain `Either` values. A failed transaction is an input holding the failure's text. `Service.MarkDoneInDb` turns that text into `InternalError`, as `handleError` does at `TodoService.kt:35`.
- The compare-and-swap retry of `AtomicRef.modifyGet`. `cancelItem` replaces the `state` field in one sequential step. Interleavings and retries are not modelled.
- Routing (`TodoServer.defineRouting`), `Hello.kt`, the mapping of errors to HTTP statuses, JSON annotations and the build script.
- Timestamps and the time provider. `created` is an uninterpreted integer that is only copied.
- Iteration order of vavr's hash map. `getAll`, `findDone` and `findCancelled` yield maps, not ordered sequences.
- IdParam.ToLong: models `toLong` only on text that already matches `-?[0-9]+`. That is the only way `asId` calls it. Other inputs that `toLong` accepts, such as a leading `+`, are not modelled.
