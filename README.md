# mvi-flow login view model, in Dafny

This project models the Model-View-Intent core of the mvi-flow login screen:
the `MainViewModel` of `MainActivity.kt` and its data types.

- **Actions** reach the view model through `dispatch`, which is public and accepts any action. The activity sends only `LoginRequest`. `Init` is the action stream's seed and is never dispatched.
- Two **pipelines**, `loginChanges` and `registerChanges`, each keep only their own request kind.
  For each request they emit `Loading` and then the repository's result as a `Logged`/`Registered` change.
  A repository failure becomes an `Error` change.
- The two change streams are **merged**.
  A **reducer** folds the merged changes into an immutable **state** with `scan`, seeded with `State()`.

Everything is pure, so the model uses datatypes, functions over sequences, and lemmas:

- `domain.dfy` (`Domain`): `State`, `Change`, `Actions`, the initial `State()`, and an uninspected `Throwable`.
- `reducer.dfy` (`Reducer`): the reducer. Its contract is a transition table that says which fields each change may write and what it writes.
- `pipelines.dfy` (`Pipelines`): the repository interface, the shipped stub repository, and the two pipelines.
- `streams.dfy` (`Streams`): merge as an arbitrary interleaving, made concrete by a schedule.
- `state_stream.dfy` (`StateStream`): fold, `scan` and `state()`, and the lemma that the final flags do not depend on the merge order.
- `scenarios.dfy` (`Scenarios`): the final state under the stub repository for any dispatched actions and any merge order, plus the test's scenario.

How the source is read:

- **Action history.** The model reads the action stream as `[Init]` followed by every dispatched action, in dispatch order (`History`). A real `StateFlow` collector starts from the current value and then sees only the latest one; the "## Left out" line on `MutableStateFlow` says what this reading does not capture. `Init` matches neither pipeline (`PipelineSeesOnlyItsKind`), so whether a pipeline starts from `Init` or from the first dispatched action makes no difference to its output.
- **Repository.** The repository is two total functions, `login(email, password)` and `register(email, password, displayName)`. Each returns a `Reply`: the booleans its flow emits, then either completion or a failure. This covers both a call that raises before emitting (`Failed(e)`) and a single-value answer (`Succeeded(b)`). The stub answers `Succeeded(true)` to every call.
- **Merge.** `merge` is any interleaving of the two change sequences that keeps each one's order. `Merge(a, b, schedule)` produces one. `ScheduleOf` proves that every interleaving comes from some schedule.
- **Failure ends a pipeline.** In `loginChanges`/`registerChanges` the `catch` wraps the whole `transform`. So the first failure emits `Error` and ends that pipeline, and later requests of its kind produce nothing.
- **Order.** `transform` handles one action at a time. So a pipeline's changes follow action order, and interleaving happens only between the two pipelines.

## Model

| member | source | states |
|---|---|---|
| `Reducer.Reduce` | app/src/main/java/com/geniusforapp/mvi/MainActivity.kt:119-136 | The reducer satisfies the transition table. `Loading` writes only `isIdle` (to false) and `isLoading` (to true). `Logged(r)` writes only `isLoading` (false) and `isLogged` (r). `Registered(r)` writes only `isLoading` and `isRegistered`. `Error(t)` writes only `isLoading` and `throwable` (t). No change ever sets `isIdle` back to true. |
| `Reducer.TransitionDeterministic` | app/src/main/java/com/geniusforapp/mvi/MainActivity.kt:119-136 | The table leaves no freedom: any state that satisfies it for `(s, c)` equals `Reduce(s, c)`. |
| `Reducer.ReduceIdempotent` | app/src/main/java/com/geniusforapp/mvi/MainActivity.kt:121 | Applying a change twice equals applying it once. `Loading` on a state that is already loading and not idle changes nothing. |
| `Pipelines.Stub` | app/src/main/java/com/geniusforapp/mvi/MainActivity.kt:90-107 | The shipped repository: every `login` and `register` call answers `Succeeded(true)`, one `true` and completion. Its consequences are the `StubPipeline` and `StubFinalState` rows. |
| `Pipelines.Pipeline` | app/src/main/java/com/geniusforapp/mvi/MainActivity.kt:139-160 | `filterIsInstance`, then `transform` emitting each matching request's segment in action order, then `catch` outside `transform`. It has no contract of its own; its properties are the `PipelineEmpty`, `PipelineErrors`, `PipelineSeesOnlyItsKind`, `PipelineAppend` and `RequestContribution` rows. |
| `Pipelines.Segment` | app/src/main/java/com/geniusforapp/mvi/MainActivity.kt:141-146 | One matching request contributes `Loading`, then each emitted repository value wrapped as this pipeline's result, then the error if the call fails. |
| `Pipelines.PipelineEmpty` | app/src/main/java/com/geniusforapp/mvi/MainActivity.kt:139-145 | Output is empty exactly when no action is the pipeline's kind. A non-empty output starts with `Loading`. |
| `Pipelines.PipelineErrors` | app/src/main/java/com/geniusforapp/mvi/MainActivity.kt:141-146 | Output holds only `Loading`, the pipeline's own result kind and errors that carry a cause. An `Error` appears only as the final change (catch outside transform), and never when every call succeeds. |
| `Pipelines.PipelineSeesOnlyItsKind` | app/src/main/java/com/geniusforapp/mvi/MainActivity.kt:139-160 | `Init` matches neither pipeline. Dropping every action that is not the pipeline's own kind (`filterIsInstance`) leaves its output unchanged. |
| `Pipelines.PipelineAppend` | app/src/main/java/com/geniusforapp/mvi/MainActivity.kt:141-145 | Until a call fails, the output for `pre + post` is the output for `pre` followed by the output for `post`, so contributions come in action order. |
| `Pipelines.RequestContribution` | app/src/main/java/com/geniusforapp/mvi/MainActivity.kt:141-146 | After failure-free actions, a request answered `Succeeded(b)` contributes exactly `[Loading, Logged(b)]` (or `Registered(b)`), and later actions follow. A request answered `Failed(e)` contributes `[Loading, Error(e)]`, and no later action contributes anything. |
| `Pipelines.StubPipeline` | app/src/main/java/com/geniusforapp/mvi/MainActivity.kt:90-107 | With the shipped repository, a pipeline emits one `[Loading, true result]` pair per request of its kind, and nothing else. |
| `Streams.Merge` | app/src/main/java/com/geniusforapp/mvi/MainActivity.kt:163 | The merge under any schedule is an interleaving of the two change streams. |
| `Streams.ScheduleOf` | app/src/main/java/com/geniusforapp/mvi/MainActivity.kt:163 | Every interleaving is the merge under some schedule, so statements about all schedules cover all merges. |
| `Streams.InterleavingContents` | app/src/main/java/com/geniusforapp/mvi/MainActivity.kt:163 | A merge loses and invents nothing: its length and multiset are the sums of the two streams'. |
| `Streams.InterleavingLast` | app/src/main/java/com/geniusforapp/mvi/MainActivity.kt:163 | The last change of a merge is the last change of one of the two streams. |
| `StateStream.Fold` | app/src/main/java/com/geniusforapp/mvi/MainActivity.kt:164 | The accumulation `scan` performs: every change applied by the reducer, first to last. It has no contract of its own; its properties are the `FoldFields`, `FoldAppend` and `Scan` rows. |
| `StateStream.History` | app/src/main/java/com/geniusforapp/mvi/MainActivity.kt:117 | The action stream as the model reads it: the seed `Init`, then every dispatched action in dispatch order. No contract of its own; see the "## Left out" line on `MutableStateFlow`. |
| `StateStream.LoginChanges` | app/src/main/java/com/geniusforapp/mvi/MainActivity.kt:139-147 | The login pipeline over the action history. No contract of its own; its properties are the `Pipelines` rows with the login kind. |
| `StateStream.RegisterChanges` | app/src/main/java/com/geniusforapp/mvi/MainActivity.kt:149-160 | The register pipeline over the action history. No contract of its own; its properties are the `Pipelines` rows with the register kind. |
| `StateStream.FoldFields` | app/src/main/java/com/geniusforapp/mvi/MainActivity.kt:119-136 | The folded state field by field, with no fold in the statement. It is idle iff the start was idle and no `Loading` occurred. It is loading iff the last change was `Loading`. `isLogged`, `isRegistered` and `throwable` each hold the value carried by the last change that writes them, or the starting value if no change does. |
| `StateStream.FoldAppend` | app/src/main/java/com/geniusforapp/mvi/MainActivity.kt:164 | Folding `a + b` is folding `b` from the state `a` leads to. |
| `StateStream.Scan` | app/src/main/java/com/geniusforapp/mvi/MainActivity.kt:164 | `scan` emits the seed first and then one state per change. Each emission is `reduce(previous, change)` and equals the fold of the prefix consumed so far. |
| `StateStream.IdleNeverRestored` | app/src/main/java/com/geniusforapp/mvi/MainActivity.kt:116-121 | Once an emitted state is not idle, no later emitted state is idle. |
| `StateStream.InterleavingResults` | app/src/main/java/com/geniusforapp/mvi/MainActivity.kt:163 | Merging with a stream that carries no results of a kind leaves the sequence of results of that kind unchanged. |
| `StateStream.PipelineResultsOwn` | app/src/main/java/com/geniusforapp/mvi/MainActivity.kt:139-160 | The login pipeline carries no `Registered` results, and the register pipeline carries no `Logged` results. |
| `StateStream.InterleavingIndependence` | app/src/main/java/com/geniusforapp/mvi/MainActivity.kt:163-164 | For every interleaving of the two pipelines, the final `isLogged` is the last login result (false if there is none). The final `isRegistered` is the last register result. The final state is idle iff nothing but `Init` was dispatched. |
| `StateStream.StateOf` | app/src/main/java/com/geniusforapp/mvi/MainActivity.kt:163-165 | `state()` emits `State()` first and then one state per merged change. Its last state's `isLogged`/`isRegistered` are the last login/register results, whatever the schedule. |
| `Scenarios.StubFinalState` | app/src/main/java/com/geniusforapp/mvi/MainActivity.kt:90-107 | With the shipped repository, for any dispatched actions and any merge order, the final state is: idle iff no request, not loading, logged iff a login was requested, registered iff a registration was requested, no error. |
| `Scenarios.NothingDispatched` | app/src/main/java/com/geniusforapp/mvi/MainActivity.kt:116-117 | With nothing dispatched, the stream emits `State()` and nothing else. |
| `Scenarios.LoginScenario` | app/src/test/java/com/geniusforapp/mvi/MainViewModelTest.kt:24-30 | One login with the stub emits exactly `State()`, then the loading state, then `State(isIdle = false, isLogged = true)`, whatever the credentials and schedule. |
| `Scenarios.TestAssertionAsWritten` | app/src/test/java/com/geniusforapp/mvi/MainViewModelTest.kt:28-29 | The test's expected state differs from the first and second emissions of that stream. |
| `Scenarios.LoginAndRegisterScenario` | app/src/main/java/com/geniusforapp/mvi/MainActivity.kt:163-164 | A login and a registration dispatched together end, under every schedule, in a state that is logged and registered, not idle, not loading, with no error. |

## Left out

- The Android activity (`onCreate`, `render`, progress bar, toast, enabling widgets) is UI and is not modelled.
- The text-change and click flows and their `combine`/`flatMapConcat` binding are not modelled. The dispatched actions are a parameter.
- Dispatchers, `flowOn`, `asLiveData`, `viewModelScope.launch` and the replay of the latest state to new observers are not modelled. `state()` is read as the finite sequence it emits.
- The `MutableStateFlow` action stream keeps only its latest value. A collector that starts late begins at the current value rather than at `Init`. An action equal to the current one is dropped. An action dispatched while a pipeline's `transform` is busy waiting on the repository may be replaced by a later one before that pipeline sees it. None of this is modelled: every dispatched action reaches both pipelines, in dispatch order. So `Scenarios.LoginAndRegisterScenario`, `Scenarios.StubFinalState` and `StateStream.InterleavingIndependence` hold under that reading; in the source, requests sent in quick succession may be lost.
- The real-time order of `merge` is not modelled. It is an arbitrary interleaving, fixed by a schedule.
- The delays in the stub repository are timing only. Only their outcome is kept.
- The contents of a `Throwable` are not inspected. Kotlin compares throwables by identity, but the model compares them by value, so two failures with the same message are equal.
- The test's main-dispatcher substitution and executor rule are not modelled.
- Every repository call is taken to end after finitely many values (a `Reply`). A `login`/`register` flow that never completes is not modelled. In the source such a call leaves `transform` suspended in `emitAll`: that pipeline emits only `Loading`, and every later request of its kind goes unserved, while the other pipeline carries on.
- `Pipelines.Call`: the repository is a pure function of its arguments. A repository that answers the same arguments differently on different calls is not covered.

## Findings

| source | as written | input that shows it | evidently intended | confidence | as-written member | corrected member |
|---|---|---|---|---|---|---|
| app/src/test/java/com/geniusforapp/mvi/MainViewModelTest.kt:28-29 | The observer asserts that every emitted state equals `State(isIdle = false, isLogged = true)`. | `LoginRequest("ahmadnajar@10@gmail.com", "123")` with the shipped repository: the first emission is `State()`, and the second is the loading state. | The last emitted state equals `State(isIdle = false, isLogged = true)`. | not executed; medium | `Scenarios.TestAssertionAsWritten` | `Scenarios.LoginScenario` |
