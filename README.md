# Banker's-algorithm safety check, modelled in Dafny

This project models `is_safe_state` of the deadlock detector (`app.py`): given an
allocation matrix, a maximum matrix (P processes by R resource types) and an
available vector (R entries), it derives the need matrix (maximum minus
allocation), copies `available` into a work vector, and repeatedly scans the
processes from index 0 for the first unfinished one whose need fits in the work
vector in every resource type. That process finishes: its allocation returns to
the work vector, it is flagged finished and appended to the sequence, and the
scan restarts from 0. If a full scan finds nothing, the answer is unsafe with the
partial sequence; once every process has finished it is safe with the full
sequence. The source also stops as soon as the sequence is exactly `[0, 3]`
(P0 then P3) and answers unsafe with that partial sequence.

Files and modules:

- `banker_state.dfy`, module `BankerState`: the inputs (`System`), their shape
  (`WellShaped`), the need matrix (`Need`), "process i can finish with work w"
  (`CanFinish`), and the work accounting: `WorkAfter(s, done)` is `available`
  plus the allocation rows of the processes in `done`.
- `safety_spec.dfy`, module `SafetySpec`: the verdict (`Safe(sequence)` or
  `Unsafe(partialSequence)`), one scan (`FirstFit`), the run of rounds (`Run`,
  `SafetyCheck`) and what is proved about them: every verdict is a completion
  order chosen lowest index first, a safe verdict is a permutation of
  `0..P-1`, an unsafe verdict is stuck or is the `[0, 3]` stop, and the exact
  effect of that stop.
- `safety_theory.dfy`, module `SafetyTheory`: the textbook notion of a safe
  state (some order exists in which every process can finish in turn) and the
  Banker's theorem for the classical scan, the state that shows the effect of
  the `[0, 3]` stop, and the demonstration state.
- `app.dfy`, module `App`: `IsSafeState`, the imperative check with the work
  vector and the finish flags as arrays updated in place, proved equal to
  `SafetyCheck`.

The `[0, 3]` stop is a separate, named step: `HitsDebugStop` with the constant
`DebugStop`, switched by the parameter `stopAtDebugSequence`. The source as
written is `IsSafeState(..., true)`; `false` gives the classical algorithm. The
stop has no role in the Banker's safety test and makes the check answer unsafe
for a safe state (see Findings); the comment at `app.py:24` shows it is
deliberate, so the model keeps it and proves both variants.

## Model

| member | source | states |
|---|---|---|
| `BankerState.Need` | app.py:9 | the need matrix has P rows of R entries and entry (i, j) is `maximum[i][j] - allocation[i][j]` |
| `BankerState.CanFinishIffMaximumCovered` | app.py:17 | a process passes the fit test exactly when, in every resource type, its maximum is at most the work plus what it already holds |
| `BankerState.NeedNonNegative` | app.py:9 | when no allocation exceeds its maximum, no need entry is negative |
| `BankerState.CanFinishMonotone` | app.py:17 | a process that fits some work also fits any work at least as large in every resource type |
| `BankerState.WorkAfterNone` | app.py:10 | before any process has finished, the work vector is the available vector |
| `BankerState.WorkAfterAppend` | app.py:18-19 | finishing one more process adds exactly its allocation row to the work vector |
| `BankerState.WorkAfterMonotone` | app.py:18-19 | with non-negative allocations, the work after a set of finished processes is at most the work after any superset of them |
| `SafetySpec.FirstFit` | app.py:15-17 | a scan from index `from` returns an index in `[from, P)` that is unfinished and fits, and every smaller index it passed over is finished or does not fit; it returns nothing only when no index in `[from, P)` qualifies |
| `SafetySpec.Run` | app.py:14-33 | the rest of the check after the processes in `done` have finished; its verdict's sequence always extends `done` |
| `SafetySpec.RunOrder` | app.py:14-28 | from a valid prefix, every run yields a completion order in which each entry is the lowest-index unfinished process that fits |
| `SafetySpec.RunOutcome` | app.py:14-33 | a safe verdict carries at least P processes; an unsafe one is the `[0, 3]` stop or is stuck with fewer than P processes |
| `SafetySpec.VerdictIsLowestFirstCompletionOrder` | app.py:16-21 | every index in the verdict (safe or partial) is in `[0, P)` and occurs once, each process could finish with the work its predecessors released, and each was the lowest-index unfinished process that fit at that point |
| `SafetySpec.SafeVerdictIsPermutation` | app.py:14-33 | a safe verdict carries exactly P processes and contains every index `0..P-1`: a permutation |
| `SafetySpec.UnsafeVerdictIsStuck` | app.py:15-31 | an unsafe verdict other than the `[0, 3]` stop has fewer than P processes and no unfinished process fits the work left |
| `SafetySpec.NoProcessesIsSafe` | app.py:14-33 | with P = 0 the answer is safe with the empty sequence |
| `SafetySpec.SingleFittingProcessIsSafe` | app.py:14-33 | a single process whose need fits the available vector is safe with sequence `[0]` |
| `SafetySpec.DebugStopPassed` | app.py:24-26 | once two processes have finished, the `[0, 3]` stop can no longer fire, so both variants give the same verdict |
| `SafetySpec.DebugStopEffect` | app.py:24-26 | the check with the stop answers unsafe `[0, 3]` exactly when the classical order begins with P0 then P3, and otherwise answers as the classical check |
| `SafetyTheory.StuckMeansNoSafeSequence` | app.py:30-31 | with non-negative allocations, a stuck scan proves that no safe sequence exists |
| `SafetyTheory.ClassicalCheckDecidesSafety` | app.py:5-33 | with non-negative allocations, the classical check answers safe exactly when a safe sequence exists |
| `SafetyTheory.SafeAnswerIsSafeSequence` | app.py:33 | a safe answer, with or without the stop, is a safe sequence of all P processes |
| `SafetyTheory.DebugStopRejectsSafeState` | app.py:24-26 | on a four-process state the source answers unsafe `[0, 3]` while the classical check answers safe `[0, 3, 1, 2]` and the state is safe |
| `SafetyTheory.NoResourceTypesIsSafe` | app.py:5-33 | with no resource types and an empty `maximum`, two processes finish in index order: safe with `[0, 1]`, with or without the stop |
| `SafetyTheory.DemoNeed` | app.py:9 | the need matrix of the demonstration state is `[[7,4,3],[1,2,2],[6,0,1],[2,1,1]]` |
| `SafetyTheory.DemoStateIsStuckAtOnce` | app.py:30-31 | on the demonstration state the first scan finds nothing: unsafe with `[]`, and no safe sequence exists |
| `App.Release` | app.py:18-19 | `work[j] += allocation[i][j]` for every resource type, in place |
| `App.Scan` | app.py:15-17 | the scan over the finish flags and the work array finds a process exactly when `FirstFit` does, and then the same one |
| `App.IsSafeState` | app.py:5-33 | the imperative check returns exactly `SafetyCheck` of its inputs (safe with the empty sequence when P = 0) |

## Left out

- The Flask application, its routes, request parsing and `jsonify` (app.py:1-3, 36-51): HTTP plumbing that only calls `is_safe_state`.
- `static/script.js`: the browser page, the `fetch` to `/bankers`, field clearing and the d3 graph drawing; presentation with no invariants.
- A strategy generator and a resolution simulator (terminating or preempting processes, policy changes) are described for the system but appear in neither `app.py` nor `static/script.js`; they are not part of this model.
- Malformed input: with at least one resource type, a missing row or entry makes the Python code fail with an index error, and the model requires `WellShaped` instead. With no resource types `maximum` is never read, and `WellShaped` accepts any `maximum`, as the source does. Extra rows of `maximum` and extra entries in a row are ignored, as in the source.
- Negative entries and allocations above the maximum are not rejected by the source and are accepted by the model; only the Banker's theorem (`ClassicalCheckDecidesSafety`, `StuckMeansNoSafeSequence`) assumes non-negative allocations.
- Floating-point matrix entries, which the untyped Python would accept: the model uses unbounded integers, like Python's `int`.
- `App.Scan` returns as soon as it finds a process, where the source sets `found` and breaks out of the `for` loop; the finished process's update then happens in `IsSafeState` after the scan. The effect on work, flags and sequence is the same.
- The bound of at most P rounds is the loop's termination measure `P - |sequence|` together with `|sequence| <= P`, not a separate counter.
- Determinism: `IsSafeState` returns the value of the function `SafetyCheck` of its inputs, so equal inputs give equal verdicts; there is no separate lemma.

## Findings

| source | as written | input that shows it | evidently intended | confidence | as-written member | corrected member |
|---|---|---|---|---|---|---|
| app.py:24-26 | after an append, a sequence equal to `[0, 3]` ends the check with `safe: False` | allocation `[[1],[0],[0],[3]]`, maximum `[[2],[5],[5],[5]]`, available `[1]`: the answer is unsafe with `[0, 3]`, yet `0, 3, 1, 2` is a safe sequence | the classical scan continues and answers safe with `[0, 3, 1, 2]`; it answers safe exactly when a safe sequence exists | medium (the comment marks the stop as deliberate, but it has no role in the Banker's safety test); not executed | `SafetyTheory.DebugStopRejectsSafeState` | `SafetyTheory.ClassicalCheckDecidesSafety` |
