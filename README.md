# paradigm-play trace generators and playback, in Dafny

paradigm-play teaches algorithm design paradigms by replaying a precomputed
trace of steps. Each step is a snapshot of the algorithm's state with a caption.
This project models the three trace generators that exist in the source, plus
the playback controller they share. It then proves what the traces contain.

- **Divide and conquer** (`mergesort.dfy`, module `DivideConquer`): a top-down
  merge sort of `[38, 27, 43, 3, 9, 82, 10]`.
  - Each call on a slice of length two or more pushes one "Divide" step and one
    "Merge" step.
  - An initial step and a final step frame the trace.
  - `merge`'s two-index loop is the method `Merge`. It is proved equal to the
    reference merge `Merged`.
  - `Merged` is proved to be a permutation of its inputs. It is sorted when both
    halves are sorted, and stable: it is an interleaving of the halves, and on a
    tie it takes from the left.
- **Greedy** (`greedy.dfy`, module `Greedy`): a scripted shortest-path walk over
  six nodes. The script is a fold of thirteen updates over the nodes and the
  distance map.
  - The reference trace is `TraceOf`. Its flag chooses how nodes are copied.
    `Trace` is the page's trace, whose copies are JSON round trips.
    `IntendedTrace` keeps `Infinity` in its copies.
  - The generator, `GenerateTrace`, updates an `array` of nodes in place and is
    proved to produce exactly `Trace`.
  - Proved for every step:
    - the map agrees with the nodes. In `Trace` an unreached node shows `null`
      where its map entry is `Infinity`; in `IntendedTrace` it shows `Infinity`.
    - distances never grow;
    - a visited flag stays set.
  - The pseudo-code line follows the caption's words.
  - On the page's data: fifteen steps and final distances A 0, B 3, C 2, D 5,
    E 6, F 7. Node A is never marked visited, even though the last caption says
    "All nodes visited".
- **Dynamic programming** (`fibonacci.dfy`, module `DynamicProgramming`):
  Fibonacci by tabulation in a 2 × (n + 1) table.
  - The generator, `GenerateTrace`, writes an `array2` in place and pushes a deep
    copy after each write. It is proved to produce the reference trace `FibTrace`.
  - Every step shows exactly F(0), F(1), … in its first cells and null after
    them. Row 1 stays null. Each filled cell is the sum of the two before it.
  - For n = 10 the last step reads "Complete! F(10) = 55".
- **Playback** (`playback.dfy`, class `Playback.Player`): `currentStep`,
  `isPlaying` and `speed`, driven by:
  - the play, pause, next, previous and reset handlers;
  - the auto-advance effect, one firing of which is `Tick`.

  The three visualizers repeat this code verbatim, so it is modelled once.
- `text.dfy` (module `Text`) holds decimal rendering for template literals and
  `String.prototype.includes`. `option.dfy` holds `Option`.

These details of the code shape the model:

- The tabulation table has two rows. Row 1 is allocated but never written.
- The Fibonacci trace has n + 3 steps, which is 13 for n = 10: one initial, two
  base cases, n − 1 fills and one final.
- The Greedy final step holds `currentNodes` itself rather than a copy. Nothing
  writes to it afterwards, so its values are those of the last update step, and
  the model stores those values.
- Every other Greedy snapshot of the nodes is `JSON.parse(JSON.stringify(…))`,
  and JSON has no `Infinity`. An unreached node therefore has distance `null`
  in every snapshot, while the spread copy of the map keeps `Infinity`. See
  "## Findings".

## Model

| member | source | states |
|---|---|---|
| DivideConquer.Merge | src/components/visualizers/DivideConquer.tsx:52-66 | the two-index loop with its tie-to-the-left choice and the appended remainders computes exactly the reference merge `Merged` |
| DivideConquer.MergedPermutation | src/components/visualizers/DivideConquer.tsx:52-66 | the merge has as many elements as `left` and `right` together, and the same multiset |
| DivideConquer.MergedSorted | src/components/visualizers/DivideConquer.tsx:56-66 | merging two sorted halves gives a sorted sequence |
| DivideConquer.MergedInterleaves | src/components/visualizers/DivideConquer.tsx:56-66 | the merge is an interleaving: the elements taken from the left, in order, are exactly `left`, and those from the right are exactly `right` |
| DivideConquer.OriginsFromLeft | src/components/visualizers/DivideConquer.tsx:57-59 | an element the merge marks as taken from the left is an element of `left` |
| DivideConquer.MergedStable | src/components/visualizers/DivideConquer.tsx:57-62 | with a sorted left half, a right element placed before a left element is strictly smaller than it, so equal keys keep left before right |
| DivideConquer.Range | src/components/visualizers/DivideConquer.tsx:40 | the highlight `Array.from({length}, (_, i) => start + i)` has `len` entries and entry `k` is `start + k` |
| DivideConquer.Overlay | src/components/visualizers/DivideConquer.tsx:69-74 | the displayed array keeps the length of the sample, takes `merged[idx - start]` inside the window and the sample value outside it |
| DivideConquer.DivideStepInWindow | src/components/visualizers/DivideConquer.tsx:38-43 | the step `DivideStep` builds is a Divide step, shows the unmodified sample, highlights exactly the indices of its slice and carries its call's level, so it lies in the call's window |
| DivideConquer.MergeStepInWindow | src/components/visualizers/DivideConquer.tsx:68-78 | the step `MergeStep` builds is not a Divide step, shows the merged run over its window and the sample elsewhere, highlights exactly the window's indices and carries its call's level |
| DivideConquer.StepsInWindow | src/components/visualizers/DivideConquer.tsx:38-48 | a call's Divide step, the steps of its two sub-calls over `[start, start+mid)` and `[start+mid, start+len)` one level deeper, and its Merge step all stay inside the call's window and level |
| DivideConquer.MergeSort | src/components/visualizers/DivideConquer.tsx:31-50 | the result is a sorted permutation of the slice; slices of length at most one come back unchanged with no step; otherwise 2(len−1) steps, the first being the Divide step at `mid = floor(len/2)` and the last the Merge step of the result; every step lies in the slice's window |
| DivideConquer.Trace | src/components/visualizers/DivideConquer.tsx:22-89 | 2n steps for n ≥ 1; step 0 is the unsorted input with empty highlight; the last step has empty highlight, the final caption and a sorted permutation of the input; every Divide step shows the input unmodified |
| DivideConquer.SortedUnique | src/components/visualizers/DivideConquer.tsx:83-85 | two sorted sequences with the same elements are equal, so the final array is determined by the input alone |
| DivideConquer.TraceEndsSorted | src/components/visualizers/DivideConquer.tsx:83-89 | the final step's array is the sorted arrangement of the input |
| DivideConquer.SampleTrace | src/components/visualizers/DivideConquer.tsx:19-29 | on the page's array the trace has 14 steps and ends with `[3, 9, 10, 27, 38, 43, 82]` |
| Greedy.FindIndex | src/components/visualizers/Greedy.tsx:69 | `findIndex` by id: the first position holding the id, or −1 exactly when no node has it |
| Greedy.InitialMap | src/components/visualizers/Greedy.tsx:39-40 | the `forEach` fill gives every node's id an entry |
| Greedy.InitialConsistent | src/components/visualizers/Greedy.tsx:39-40 | with distinct ids the initial map holds exactly every node's distance |
| Greedy.FillDistanceMap | src/components/visualizers/Greedy.tsx:39-40 | the loop over the nodes builds exactly `InitialMap` |
| Greedy.ApplyUpdate | src/components/visualizers/Greedy.tsx:68-78 | only the first node with the named id changes: its distance becomes the update's (when given) and it becomes visited only if the update says so; ids and positions are kept; all other nodes and map entries are unchanged; an unknown id changes nothing |
| Greedy.ApplyInPlace | src/components/visualizers/Greedy.tsx:69-78 | the in-place writes to the node array and the map leave exactly the state `ApplyUpdate` describes |
| Greedy.RunKeepsNodes | src/components/visualizers/Greedy.tsx:68-78 | folding any script over the state keeps every node's id and position |
| Greedy.LineFor | src/components/visualizers/Greedy.tsx:80-83 | line 1 iff the caption contains "Start"; else 2 iff it contains "Select"; else 3 iff it contains "Update"; else none |
| Greedy.JsonDist | src/components/visualizers/Greedy.tsx:43 | a JSON round trip never yields `Infinity` and leaves every other distance as it was |
| Greedy.JsonCopy | src/components/visualizers/Greedy.tsx:43 | `JSON.parse(JSON.stringify(nodes))` keeps the length and every node's id, position and visited flag, and turns an `Infinity` distance into `null`; no copy holds `Infinity` |
| Greedy.JsonCopyKeeps | src/components/visualizers/Greedy.tsx:86 | nodes without `Infinity` survive the round trip unchanged, so the copy at each update step equals `currentNodes` |
| Greedy.StartConsistent | src/components/visualizers/Greedy.tsx:39-50 | with distinct ids the generator's starting copy keeps the ids distinct and agrees with the map: exactly when copies keep `Infinity`, with `null` for `Infinity` for the JSON copy, which holds no `Infinity` |
| Greedy.Run | src/components/visualizers/Greedy.tsx:68-92 | folding the script over the state keeps the number of nodes |
| Greedy.RunNoInfinity | src/components/visualizers/Greedy.tsx:70-74 | updates write only finite distances, so a run from nodes without `Infinity` never shows it |
| Greedy.UpdateSteps | src/components/visualizers/Greedy.tsx:68-92 | the loop pushes one step per update, each showing all the nodes |
| Greedy.UpdateStepsGrow | src/components/visualizers/Greedy.tsx:68-92 | one more update applies that update to the state so far and pushes one step showing the state it left |
| Greedy.UpdateStepAt | src/components/visualizers/Greedy.tsx:85-91 | the step pushed for update k (`StepAfter`) shows the nodes and the map after the first k + 1 updates, with update k's node and caption |
| Greedy.ReplayScript | src/components/visualizers/Greedy.tsx:68-92 | the in-place loop leaves the node array and the map as the fold of the script, and pushes exactly `UpdateSteps` |
| Greedy.TraceOf | src/components/visualizers/Greedy.tsx:42-100 | the trace has one step more than the script on each side, and every step shows all the nodes |
| Greedy.TraceHidesInfinity | src/components/visualizers/Greedy.tsx:43-99 | no step of the page's trace shows `Infinity` on a node |
| Greedy.FirstStep | src/components/visualizers/Greedy.tsx:42-48 | step 0 shows a JSON copy of the nodes beside the map filled from the nodes themselves, with no highlighted node and no line |
| Greedy.TraceStateAt | src/components/visualizers/Greedy.tsx:42-100 | step k shows the nodes and the map after the first min(k, number of updates) updates |
| Greedy.TraceStates | src/components/visualizers/Greedy.tsx:85-100 | that holds for every step, so the final step repeats the last update step's state |
| Greedy.TraceLabels | src/components/visualizers/Greedy.tsx:42-99 | step 0 shows the generator's copy of the nodes; the first and last steps have neither node nor line; the last has the final caption; step k shows update k−1's node, caption and the line its caption selects |
| Greedy.UpdateConsistent | src/components/visualizers/Greedy.tsx:70-74 | with distinct ids one update keeps the map in agreement with the nodes, in either sense of agreement |
| Greedy.RunConsistent | src/components/visualizers/Greedy.tsx:68-92 | so does any number of updates |
| Greedy.TraceConsistent | src/components/visualizers/Greedy.tsx:39-100 | with distinct ids, in every step of the page's trace node `id` shows `distanceMatrix[id]`, except `null` where that entry is `Infinity`; with copies that keep `Infinity` it shows exactly `distanceMatrix[id]` |
| Greedy.Label | src/components/visualizers/Greedy.tsx:199 | the label is empty exactly for `null` and "∞" exactly for `Infinity` |
| Greedy.IntendedLabelsAgree | src/components/visualizers/Greedy.tsx:199 | with copies that keep `Infinity`, every node in every step has the same label as its entry in the map panel (line 257) |
| Greedy.LastWriteAt | src/components/visualizers/Greedy.tsx:71-74 | the position of the last update that writes a distance to an id, or −1 when none does |
| Greedy.WrittenCopy | src/components/visualizers/Greedy.tsx:50-74 | the writes land on the same nodes of a copy; an unwritten node keeps its copied distance |
| Greedy.RunDistance | src/components/visualizers/Greedy.tsx:68-74 | after a script a node's distance is the one its last write gave it, or its initial distance if nothing wrote it |
| Greedy.RunVisited | src/components/visualizers/Greedy.tsx:75-77 | after a script a node is visited iff it was visited initially or some update marked it |
| Greedy.WrittenShrinks | src/components/visualizers/Greedy.tsx:52-66 | under a script whose writes never raise a distance, a longer prefix never leaves a larger distance |
| Greedy.DistanceShrinks | src/components/visualizers/Greedy.tsx:52-74 | under such a script a node's distance never grows from one prefix to a longer one |
| Greedy.CopyKeeps | src/components/visualizers/Greedy.tsx:43-50 | copying keeps ids distinct and keeps a descending script descending |
| Greedy.TraceDistancesShrink | src/components/visualizers/Greedy.tsx:52-100 | across the trace each node's distance is non-increasing |
| Greedy.VisitedPersists | src/components/visualizers/Greedy.tsx:75-77 | once a prefix leaves a node visited every longer prefix does too |
| Greedy.TraceVisitedPersists | src/components/visualizers/Greedy.tsx:75-100 | across the trace a visited flag never goes back to false |
| Greedy.GenerateTrace | src/components/visualizers/Greedy.tsx:28-100 | the generator's loop over the script, updating the node array and the map in place, produces exactly `Trace` |
| Greedy.SampleUnique | src/components/visualizers/Greedy.tsx:29-36 | the page's node ids are distinct |
| Greedy.SampleDescends | src/components/visualizers/Greedy.tsx:29-66 | on the page's nodes a script with the page's columns never raises a distance |
| Greedy.SampleColumns | src/components/visualizers/Greedy.tsx:52-66 | the page's script has the page's columns: 13 entries with the listed nodes, distances and selections |
| Greedy.SampleStart | src/components/visualizers/Greedy.tsx:29-48 | on the page's nodes step 0 has A at 0 and the others at `null` while the map holds `Infinity` for them; nothing is visited and there is neither node nor line |
| Greedy.SampleLabels | src/components/visualizers/Greedy.tsx:43-48 | on the page's nodes step 0 labels nodes B to F with nothing while the map panel shows "∞" for them; with copies that keep `Infinity` the nodes show "∞" |
| Greedy.ColumnWritten | src/components/visualizers/Greedy.tsx:52-74 | in a script with the page's columns a node's distance is the one the last entry naming it writes |
| Greedy.SampleWritten | src/components/visualizers/Greedy.tsx:52-66 | the last writes of such a script are A 0, B 3, C 2, D 5, E 6, F 7 |
| Greedy.SampleFinalDistance | src/components/visualizers/Greedy.tsx:50-92 | after such a script the generator's nodes hold A 0, B 3, C 2, D 5, E 6, F 7 |
| Greedy.SampleTrace | src/components/visualizers/Greedy.tsx:42-100 | on the page's nodes and any script with its columns the trace has 15 steps and ends with distances A 0, B 3, C 2, D 5, E 6, F 7 |
| Greedy.SampleNeverVisitsA | src/components/visualizers/Greedy.tsx:30-97 | on the page's nodes and any script with its columns node A is unvisited in every step, the last included |
| Greedy.SampleFinalVisits | src/components/visualizers/Greedy.tsx:52-100 | on the page's nodes and any script with its columns nodes B to F are visited in the last step |
| DynamicProgramming.TableUpTo | src/components/visualizers/DynamicProgramming.tsx:23-25 | a 2 × (n + 1) table whose first `filled` cells of row 0 hold F(0), F(1), … and every other cell is null |
| DynamicProgramming.FibTrace | src/components/visualizers/DynamicProgramming.tsx:21-62 | the trace has n + 3 steps, each showing a 2 × (n + 1) table |
| DynamicProgramming.FibTraceFill | src/components/visualizers/DynamicProgramming.tsx:49-56 | step i + 1 is the step that fills cell i, for 2 ≤ i ≤ n |
| DynamicProgramming.FibTraceEnds | src/components/visualizers/DynamicProgramming.tsx:27-62 | the trace opens with `Opening(n)`, the empty table and the two base-case steps, and closes with `Closing(n)`, the full table and the answer |
| DynamicProgramming.FibTraceTables | src/components/visualizers/DynamicProgramming.tsx:23-56 | step k's table has exactly its first `FilledAt(n, k)` cells filled |
| DynamicProgramming.StepCells | src/components/visualizers/DynamicProgramming.tsx:23-56 | in every step row 0 holds Fibonacci numbers in its filled prefix and null after it, and row 1 is null |
| DynamicProgramming.OpeningSteps | src/components/visualizers/DynamicProgramming.tsx:23-46 | step 0 is all null with no cell; steps 1 and 2 show the same table with F(0) = 0 and F(1) = 1 and differ only in the highlighted cell |
| DynamicProgramming.FillStepSums | src/components/visualizers/DynamicProgramming.tsx:50-55 | the fill step for cell i highlights (0, i), shows the cell as the sum of the two before it and captions that sum |
| DynamicProgramming.FillSteps | src/components/visualizers/DynamicProgramming.tsx:49-56 | step i + 1 of the trace is that fill step |
| DynamicProgramming.ClosingStep | src/components/visualizers/DynamicProgramming.tsx:58-62 | the last step has no cell, a full row 0 and the caption reporting F(n) |
| DynamicProgramming.TablesOnlyGrow | src/components/visualizers/DynamicProgramming.tsx:28-59 | a cell filled in one step has the same value in every later step, and row 1 never changes |
| DynamicProgramming.SampleTrace | src/components/visualizers/DynamicProgramming.tsx:18-62 | for n = 10 the trace has 13 steps, F(10) = 55, and the last step reads "Complete! F(10) = 55" with no cell |
| DynamicProgramming.Snapshot | src/components/visualizers/DynamicProgramming.tsx:28 | the deep copy has the table's dimensions and cell values |
| DynamicProgramming.GenerateTrace | src/components/visualizers/DynamicProgramming.tsx:21-62 | the generator writing an `array2` in place and pushing copies produces exactly `FibTrace(n)` |
| DynamicProgramming.Initialise | src/components/visualizers/DynamicProgramming.tsx:22-46 | a fresh all-null table, then both base cases written and the three opening steps pushed |
| DynamicProgramming.FillCell | src/components/visualizers/DynamicProgramming.tsx:49-56 | one loop pass fills cell i with the sum of the two cells before it and pushes the step `FillStep(n, i)` |
| Playback.Player.constructor | src/components/visualizers/Greedy.tsx:23-26 | a new view starts at step 0, not playing, speed 1 |
| Playback.Player.Current | src/components/visualizers/DivideConquer.tsx:114 | the step on screen is a step of the trace |
| Playback.Player.Play | src/components/visualizers/Greedy.tsx:114 | raises the playing flag and moves nothing |
| Playback.Player.Pause | src/components/visualizers/Greedy.tsx:115 | lowers the playing flag and changes nothing else, so pausing twice equals pausing once |
| Playback.Player.Next | src/components/visualizers/Greedy.tsx:116 | cursor becomes min(cursor + 1, len − 1); playing and speed unchanged |
| Playback.Player.Previous | src/components/visualizers/Greedy.tsx:117 | cursor becomes max(cursor − 1, 0); playing and speed unchanged |
| Playback.Player.Reset | src/components/visualizers/Greedy.tsx:118-121 | cursor 0, not playing, speed unchanged |
| Playback.Player.SetSpeed | src/components/visualizers/Greedy.tsx:25 | stores the speed as given; cursor and playing unchanged |
| Playback.Player.Tick | src/components/visualizers/Greedy.tsx:105-112 | playing with steps left advances the cursor by exactly one; at or past the last step playing is turned off; paused before the end nothing moves; speed is unchanged |
| Playback.Player.PlayAtEnd | src/components/visualizers/DynamicProgramming.tsx:67-79 | pressing play on the last step ends, after the next firing of the effect, not playing and on the same step |
| Text.NatToString | src/components/visualizers/DynamicProgramming.tsx:54 | the decimal rendering of a number is a non-empty string of digits that reads back as that number |
| Text.ContainsAt | src/components/visualizers/Greedy.tsx:81-83 | `includes` holds iff the word occurs at some position of the caption |

## Findings

| source | as written | input that shows it | evidently intended | confidence | as-written member | corrected member |
|---|---|---|---|---|---|---|
| src/components/visualizers/Greedy.tsx:43-50 | The snapshots at lines 43, 50 and 86 are JSON round trips. They turn every `Infinity` distance into `null`, and the label at line 199 renders `null` as nothing. | The page's own nodes: in step 0 nodes B to F have distance `null` and an empty label, while the map panel (line 257) shows "∞" for them. | Copies that keep `Infinity`, so an unreached node shows "∞" on the node as in the map panel. | not executed | Greedy.SampleLabels | Greedy.IntendedLabelsAgree |

## Left out

- Rendering (JSX, animation and the charts), the pseudo-code panels and the
  ControlPanel widget are outside the model.
- Timers: `setTimeout`, `clearTimeout`, the `1000 / speed` delay and cleanup on
  unmount. One firing of the auto-advance effect is the method `Tick`. Speed is a
  `real` that no handler reads.
- Playback.Player.SetSpeed: the range [0.5, 2] is enforced by the slider widget,
  not the handler, and is not modelled.
- Playback.Player: the moment after mounting, when `steps` is still empty, is
  not modelled. The player is built from a generated trace, which always has a
  step.
- DynamicProgramming.GenerateTrace: requires n ≥ 1. The page fixes n = 10. For
  n = 0 the code writes `table[0][1]` outside a one-column row, and that
  behaviour is not modelled.
- Numbers are unbounded integers. JavaScript's floating-point numbers are exact
  for every value these traces reach.
- Greedy: `Infinity` is the `Inf` case of `Dist` and the `null` of a JSON
  round trip its `Null` case. Update distances are `Option` values, which models
  the `!== undefined` guard; every entry of the page's script gives a distance.
- Greedy.GenerateTrace: the final step's sharing of `currentNodes` is not
  modelled. The model stores its values, which nothing changes afterwards.
- Greedy.SampleTrace: the per-step pseudo-code line numbers of the page's script
  are not enumerated. `TraceLabels` and `LineFor` state the rule that selects
  them.
- DivideConquer: the step field `array` is called `values`.
- Backtracking, branch-and-bound, a memoized Fibonacci and recursion trees are
  not part of the source, and so not of this model.
