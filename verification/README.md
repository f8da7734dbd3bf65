# Timer wheel and id diff of fastgo, in Dafny

This project models two parts of the `fastgo` Go library.

**The hashed timer wheel** (`pkg/timewheel/core.go`). A wheel has `slotNums` slots. Each slot holds an ordered list of tasks. A hand (`currentPosition`) moves one slot per tick of `interval` seconds. An index `taskRecords` maps each task key to the slot that holds it. A task waits in its slot for `circle` more passes of the hand. When the hand reaches it with no rotation left, it fires. After firing, it is dropped if its repeat count `times` is used up. Otherwise it is placed again, one period ahead.

The model keeps the wheel as an immutable value:

- `Wheel`: the wheel record, its validity invariant (slots and index agree, keys are unique), and the three primitive edits (append, remove, count down a rotation).
- `Placement`: the two placement formulas, by period and by creation time.
- `Core`: `New`, `AddTask`/`addTask` and `RemoveTask`/`removeTask`, each as one step.
- `Rolling`: one tick (`rollAndRunTask`), with the list walk exactly as the source writes it.
- `TickFacts` and `Schedule`: what a tick and a run of ticks do to one key.
- `Countdown`: the abstract countdown a task follows, its closed-form firing pattern, and how it links back to the wheel.
- `ScanFinding`: what the walk of one slot does when a fired task comes back to that slot (it may never end, fire a task twice, or take a rotation off it), and a corrected walk over the tasks the slot held when the tick began.
- `AddFinding`: where a newly added task first runs, as the source places it and as it evidently should.

**The id diff** (`pkg/utils/collection/diff.go`, module `Collection`). It splits a client's list of ids against the ids stored for it into three lists: negative request ids (to create), stored ids the request names (to update) and stored ids it does not name (to delete).

Time is whole seconds throughout. The seconds elapsed since a task was created are a parameter. A job is an opaque identity. Dispatching a job is recorded as a `Firing`: the task's own job, else the wheel's default job, else nothing (the case where the source only prints a diagnostic).

## Model

| member | source | states |
|---|---|---|
| Core.New | pkg/timewheel/core.go:23-50 | no wheel exactly when the tick length or slot count is not positive; otherwise a valid wheel with the given settings, hand at 0, every slot empty and an empty index |
| Core.PlaceTask | pkg/timewheel/core.go:195-208 | the task goes at the back of the slot its placement names, with that placement's rotation count; its key is indexed there; every other slot and every other indexed task is unchanged; the wheel stays valid |
| Core.AddTask | pkg/timewheel/core.go:170-190 | `InvalidParams` exactly for a non-positive period or a missing key; `DuplicateTaskKey` exactly for a valid request whose key is already indexed; otherwise success: the key is indexed with the creation-time placement, the task is appended to that slot, every other slot is unchanged and every task already held is unchanged |
| Core.DetachTask | pkg/timewheel/core.go:265-275 | the key leaves the index and every slot; its slot loses exactly that element, the others keeping their order; other slots are unchanged; every task still indexed is unchanged |
| Core.RemoveTask | pkg/timewheel/core.go:247-262 | a missing key is a no-op that succeeds; an unindexed key gives `TaskKeyNotFound`; an indexed key leaves the index and its slot, the rest of that slot keeping its order, and no other slot or task changes |
| Core.RemoveUndoesAdd | pkg/timewheel/core.go:195-275 | removing a task just added gives back exactly the wheel before the add |
| Core.AddTwiceIsDuplicate | pkg/timewheel/core.go:175-179 | registering a key that is already registered fails with `DuplicateTaskKey` |
| Core.RemoveTwiceIsNotFound | pkg/timewheel/core.go:252-256 | removing a key a second time fails with `TaskKeyNotFound` |
| Placement.GoRem | pkg/timewheel/core.go:236 | Go's remainder is smaller in size than the divisor, has the sign of the dividend, and differs from the dividend by a multiple of the divisor |
| Placement.ByInterval | pkg/timewheel/core.go:211-226 | the slot is on the wheel and the rotation count is not negative |
| Placement.ByCreatedTime | pkg/timewheel/core.go:229-244 | the slot is on the wheel and the rotation count is not negative |
| Placement.SettleDue | pkg/timewheel/core.go:211-226 | the settle step is what makes a placement made while slot `cur` is walked, `position - cur` slots and `circle` rotations ahead, due exactly that many ticks later, also when it lands on `cur` itself with at least one rotation |
| Placement.ByIntervalDue | pkg/timewheel/core.go:211-226 | a task placed by period (at least one tick) becomes due exactly one period of ticks after the tick that placed it |
| Placement.ByIntervalIsOnlyPlacementDueOnTime | pkg/timewheel/core.go:211-226 | placement by period is the only placement on the wheel that is due exactly one period later |
| Placement.ByIntervalSubTick | pkg/timewheel/core.go:216-223 | a period shorter than one tick lands in the slot being walked with no rotation to wait |
| Placement.ByCreatedTimeAligned | pkg/timewheel/core.go:229-244 | a task created a whole number of periods ago, or just now, has no part of a period behind it and is placed exactly as placement by period would place it |
| Placement.ByCreatedTimeSpreads | pkg/timewheel/core.go:229-244 | with one-second ticks and a period no longer than a rotation, two tasks of the same period share a slot exactly when their elapsed times agree modulo the period |
| Wheel.Find | pkg/timewheel/core.go:253-258 | the index found holds the key and is its first occurrence in the slot |
| Wheel.TaskOf | pkg/timewheel/core.go:253-258 | the task looked up by key carries that key, sits in the slot the index names, and records that slot as its position |
| Wheel.IndexedIffStored | pkg/timewheel/core.go:206-207 | a key is in a slot exactly when the index maps it to that slot |
| Wheel.Insert | pkg/timewheel/core.go:203-207 | the task is appended to the chosen slot with its position set, its key is indexed there, and the wheel stays valid |
| Wheel.InsertFrame | pkg/timewheel/core.go:203-207 | after an insert, the new key leads to the appended task and every other indexed task is unchanged |
| Wheel.RemoveUndoesInsert | pkg/timewheel/core.go:125-127 | taking out the element just appended restores the wheel exactly |
| Wheel.SlotRemove | pkg/timewheel/core.go:127 | removing one element of a slot removes exactly its key and keeps the other keys distinct |
| Wheel.RemoveAt | pkg/timewheel/core.go:125-127 | the element leaves its slot, the others keeping their order, its key leaves the index, and the wheel stays valid |
| Wheel.RemoveFrameAll | pkg/timewheel/core.go:268-273 | after a removal the key is in no slot |
| Wheel.DecrementAt | pkg/timewheel/core.go:102-104 | only the visited task changes, losing one rotation; the index is unchanged and the wheel stays valid |
| Wheel.DecrementFrame | pkg/timewheel/core.go:102-104 | through the index, the visited task loses exactly one rotation and every other task is unchanged |
| Rolling.Reschedule | pkg/timewheel/core.go:133-143 | nothing is put back exactly when no repeat is left; a negative count stays as it is; a positive count goes down by one; nothing but the repeat count changes |
| Rolling.VisitAt | pkg/timewheel/core.go:96-143 | one loop iteration keeps the wheel valid and its settings, and makes progress: either a unit of fuel is used or fewer elements remain ahead of the cursor |
| Rolling.FireAt | pkg/timewheel/core.go:112-143 | a due task fires with the dispatched job, is removed and put back as Reschedule says; the walk stops exactly when it was the last element, and otherwise goes on from the same cursor |
| Rolling.FireAtRunsJob | pkg/timewheel/core.go:112-119 | the firing a due task leaves in the log names its own job when it has one, else the wheel's job, else no job |
| Rolling.ScanSlot | pkg/timewheel/core.go:96-145 | a finished walk leaves a valid wheel with the same settings and hand |
| Rolling.NextPosition | pkg/timewheel/core.go:148-152 | the next slot is `(currentPosition + 1) mod slotNums` |
| Rolling.Tick | pkg/timewheel/core.go:91-153 | a finished tick leaves a valid wheel with the same settings and the hand one slot further, modulo the slot count |
| TickFacts.TickLeavesOtherSlots | pkg/timewheel/core.go:91-153 | a task outside the slot being walked is untouched by a tick and does not fire |
| TickFacts.TickIgnoresUnknownKey | pkg/timewheel/core.go:91-153 | a key that is not held never fires and does not appear |
| TickFacts.TickPassesWaiting | pkg/timewheel/core.go:101-110 | a task indexed in the slot being walked with rotations left stays there, loses exactly one rotation and does not fire |
| Schedule.WaitIsModular | pkg/timewheel/core.go:215-218 | the number of ticks a task still waits is `(position - currentPosition) mod slotNums + circle * slotNums` |
| Schedule.TickWaitingElsewhere | pkg/timewheel/core.go:91-153 | a task in another slot is unchanged by a tick, does not fire, and waits one tick less |
| Schedule.TickWaitingHere | pkg/timewheel/core.go:101-110 | a task indexed in the slot being walked with rotations left loses one rotation, does not fire, and waits one tick less |
| Schedule.TickDue | pkg/timewheel/core.go:112-143 | a due task fires once with its job or the wheel's; with no repeat left it is dropped; otherwise it keeps its key, period and job, its repeat count goes down as Reschedule says, and it waits one period less the tick just spent |
| Schedule.RunMovesHand | pkg/timewheel/core.go:148-152 | after `m` ticks the hand is at `(currentPosition + m) mod slotNums` |
| Schedule.FullRotation | pkg/timewheel/core.go:148-152 | after `slotNums` ticks the hand is back where it started |
| Schedule.RunIgnoresUnknownKey | pkg/timewheel/core.go:91-153 | a key the wheel does not hold never fires and never appears during a run |
| Schedule.RemovedNeverFires | pkg/timewheel/core.go:265-275 | after RemoveTask succeeds, the key never fires again during any later run |
| Schedule.TickStep | pkg/timewheel/core.go:91-153 | one tick moves a key one step along its countdown, and fires it with its job or the wheel's exactly when the countdown was due |
| Schedule.RunEndsAsCounted | pkg/timewheel/core.go:91-153 | after a run, a key is where its countdown says |
| Schedule.RunFiresWhenDue | pkg/timewheel/core.go:91-153 | during a run, a key fires once on each tick where its countdown is due, and on no other tick |
| Schedule.RunCountsFirings | pkg/timewheel/core.go:91-153 | the firings of a key over a run equal the due ticks of its countdown |
| Schedule.Periodic | pkg/timewheel/core.go:91-153 | a task fires on tick `Wait`, then every period while repeats last (forever if negative), with its job or the wheel's, and on no other tick |
| Schedule.FiresExactly | pkg/timewheel/core.go:133-143 | a task with `times = N >= 0` fires exactly `N + 1` times and is then gone, once the run passes its last due tick |
| Countdown.DueExactlyOnPattern | pkg/timewheel/core.go:100-143 | the countdown is due on tick `j` exactly when `j` is the wait plus a whole number of periods, and that number is within the repeat count (any number if the count is negative) |
| Countdown.FiresRepeatsPlusOne | pkg/timewheel/core.go:133-143 | a countdown with `N >= 0` repeats fires `N + 1` times and then stays gone |
| ScanFinding.PairSwaps | pkg/timewheel/core.go:122-143 | visiting the first of two due tasks whose period is one rotation and which repeat forever fires it and puts it back behind the other; the cursor stays at the front and one unit of fuel is used |
| ScanFinding.PairNeverFinishes | pkg/timewheel/core.go:96-145 | the walk over such a pair never ends, however much fuel it is given |
| ScanFinding.TickNeverFinishes | pkg/timewheel/core.go:91-153 | the tick that reaches such a pair never finishes |
| ScanFinding.ExampleNeverFinishes | pkg/timewheel/core.go:91-153 | on a wheel of sixty one-second slots, with tasks "A" and "B" (period sixty seconds, repeating forever) in the slot being walked, the tick never finishes |
| ScanFinding.DueThenWaitingFiresTwice | pkg/timewheel/core.go:96-145 | a due task that repeats forever with a period of one rotation, followed in its slot by a waiting task, fires twice in one tick: from the front, then again from the back where it was put back with no rotation to wait |
| ScanFinding.DueThenWaitingLosesRotation | pkg/timewheel/core.go:96-145 | the same with a period of `q >= 2` rotations: the task fires once, is reached again at the back of the slot and is left `q - 2` rotations away, one rotation short of its period |
| ScanFinding.DueThenWaitingCutOff | pkg/timewheel/core.go:96-145 | with no fuel, the tick over such a slot is reported as not finishing, although with any fuel it finishes |
| ScanFinding.SnapshotScan | pkg/timewheel/core.go:96-145 | the corrected walk keeps the wheel valid, with the same settings and hand |
| ScanFinding.SnapshotScanFires | pkg/timewheel/core.go:96-145 | the corrected walk fires no more tasks than it visits, each key at most once, and only keys it visits |
| ScanFinding.SnapshotHandles | pkg/timewheel/core.go:96-143 | the corrected walk does to each visited task what the loop body says: a waiting task stays in the slot, loses one rotation and does not fire; a due task fires exactly once, with its own job or else the wheel's, and is then dropped when no repeat is left or indexed where placement by period puts it, with the repeat count Reschedule leaves |
| ScanFinding.SnapshotFrame | pkg/timewheel/core.go:96-143 | a key the corrected walk does not visit keeps its index entry and its task, and does not fire |
| ScanFinding.SnapshotTick | pkg/timewheel/core.go:91-153 | the corrected tick always finishes, moves the hand one slot, fires at most as many tasks as the slot held, each key at most once, and only keys from that slot |
| ScanFinding.SnapshotTickHandles | pkg/timewheel/core.go:91-153 | the corrected tick does to every task of the walked slot what the loop body says, as in SnapshotHandles |
| ScanFinding.SnapshotTickLeaves | pkg/timewheel/core.go:91-153 | a key outside the walked slot, or not held at all, keeps its index entry and its task, and does not fire |
| ScanFinding.SnapshotTickFiresOnce | pkg/timewheel/core.go:91-153 | under the corrected tick a key fires exactly once when it is in the walked slot with no rotation left, with its task's job or else the wheel's, and does not fire otherwise |
| ScanFinding.SnapshotPairFiresBoth | pkg/timewheel/core.go:96-143 | over a due pair, whose walk as written never ends, the corrected tick fires the first task and then the second, once each |
| ScanFinding.ExampleFiresEachOnce | pkg/timewheel/core.go:91-153 | on the same example, the corrected tick fires "A" and then "B", once each |
| ScanFinding.ScanIsSnapshot | pkg/timewheel/core.go:96-145 | when no task at or behind the cursor comes back to the slot, the walk as written from that cursor finishes with any fuel and matches the corrected walk from there: same wheel, same firings in the same order |
| ScanFinding.TickIsSnapshot | pkg/timewheel/core.go:91-153 | when no task of the slot comes back to it, the tick as written finishes and equals the corrected tick |
| ScanFinding.TickIsSnapshotWhenNoneRepeatsPerRotation | pkg/timewheel/core.go:91-153 | when every task of the walked slot has no repeat left or a period that is not a whole number of rotations, the tick as written finishes and equals the corrected tick |
| ScanFinding.SnapshotTickKeeps | pkg/timewheel/core.go:122-143 | a wheel on which no task repeats on a whole number of rotations stays so after the corrected tick |
| ScanFinding.SnapshotRun | pkg/timewheel/core.go:91-153 | a run of corrected ticks always finishes, keeps the wheel valid with the same settings, logs one list of firings per tick, and leaves the hand `m` slots further, modulo the slot count |
| ScanFinding.RunIsSnapshot | pkg/timewheel/core.go:91-153 | on a wheel where no task repeats on a whole number of rotations, a run of any length as written, with any fuel, equals the corrected run: the same wheel and the same firings, tick by tick |
| ScanFinding.RunFinishes | pkg/timewheel/core.go:91-153 | on such a wheel, every run of ticks as written finishes, for any number of ticks and any fuel |
| AddFinding.CreatedTimeRunsRotationEarly | pkg/timewheel/core.go:229-244 | as written, a task created a whole number of periods ago whose period is a whole number of rotations is placed in the slot the next tick walks, and runs one rotation before the rest of its period is up |
| AddFinding.CreatedTimeRunsLate | pkg/timewheel/core.go:229-244 | as written, a 120-second task created 30 seconds ago on sixty one-second slots first runs after 150 ticks, not after the 90 left of its period |
| AddFinding.AddedMinuteTaskRunsAtOnce | pkg/timewheel/core.go:170-244 | a 60-second task added when it is created to a wheel of sixty one-second slots sits in the slot the next tick walks with no rotation to wait, so it runs on the very next tick |
| AddFinding.FirstPlacement | pkg/timewheel/core.go:229-244 | corrected created-time placement: the task first runs exactly when what is left of its period has passed |
| AddFinding.FirstPlacementAgrees | pkg/timewheel/core.go:229-244 | the corrected placement is the source's whenever the task was created a whole number of periods ago and its period is not a whole number of rotations |
| Collection.Created | pkg/utils/collection/diff.go:5-10 | the create list is no longer than the request |
| Collection.Updated | pkg/utils/collection/diff.go:12-20 | the update list is no longer than the stored list |
| Collection.Deleted | pkg/utils/collection/diff.go:22-34 | the delete list is no longer than the stored list |
| Collection.Diff | pkg/utils/collection/diff.go:3-37 | the three lists are the create, update and delete lists defined entry by entry |
| Collection.CreateScan | pkg/utils/collection/diff.go:5-10 | the loop collects the negative request ids in order |
| Collection.FirstMatch | pkg/utils/collection/diff.go:14-19 | the scan that stops at the first match reports a match exactly when the id is in the request |
| Collection.UpdateScan | pkg/utils/collection/diff.go:12-20 | the nested loop collects, in stored order, each stored id the request names |
| Collection.AnyMatch | pkg/utils/collection/diff.go:24-29 | the full scan reports a match exactly when the id is in the request |
| Collection.DeleteScan | pkg/utils/collection/diff.go:22-34 | the nested loop collects, in stored order, each stored id the request does not name |
| Collection.CreatedMembers | pkg/utils/collection/diff.go:5-10 | an id is in the create list exactly when it is a negative request id, and appears as often as the request repeats it |
| Collection.UpdatedMembers | pkg/utils/collection/diff.go:12-20 | an id is in the update list exactly when it is stored and requested, and appears as often as it is stored |
| Collection.DeletedMembers | pkg/utils/collection/diff.go:22-34 | an id is in the delete list exactly when it is stored and not requested, and appears as often as it is stored |
| Collection.UpdatedDeletedPartition | pkg/utils/collection/diff.go:12-34 | the update and delete lists together hold exactly the stored ids as a multiset, so their lengths add up to the stored list's length |
| Collection.SplitAppend | pkg/utils/collection/diff.go:12-34 | the update and delete lists of two stored lists joined are the joined lists of each, so stored order is kept |
| Collection.CreatedAppend | pkg/utils/collection/diff.go:5-10 | the create list of two requests joined is the joined create lists, so request order is kept |
| Collection.EmptyInputs | pkg/utils/collection/diff.go:3-37 | an empty request creates and updates nothing and deletes every stored id; with nothing stored, nothing is updated or deleted |
| Collection.DeletedAll | pkg/utils/collection/diff.go:22-34 | when no stored id is requested, the delete list is the whole stored list |

`Collection.Created` takes only the request ids, so the create list does not depend on the stored ids.

## Left out

- The control loop's channels, `Start`, `Stop`, `IsRunning` and the ticker (pkg/timewheel/core.go:57-88, 155-164) are left out. Each message the loop would receive is modelled as one sequential step on the wheel value, in the order the loop would handle it.
- AddTask's duplicate check runs on the caller's goroutine before the loop inserts the task. Two concurrent calls with one key can both pass it. The model checks and inserts in one step.
- RemoveTask looks the task up on the caller's side. If the task fires and is dropped before the loop handles the request, `removeTask` panics on a missing index entry. The model removes in one step, so this race is not modelled.
- The package-level wheel is left out. `New` assigns every wheel it builds to it (pkg/timewheel/core.go:28), `CreateTimeWheel` builds it once and `GetTimeWheel` returns the last one built. The model passes the wheel as a value, so `Core.New` only returns it.
- Jobs run on new goroutines, and the no-job case prints a message. Both are left out. Each is recorded as a `Firing`, so the model states which job was chosen, not what it did.
- Wall-clock time and floating-point seconds are left out. Periods and tick lengths are whole seconds. `time.Since(createdTime)` is the parameter `passedSecs`.
- Sub-second periods and tick lengths are left out. The source truncates them to 0 seconds and divides by that value, which panics. Whole seconds cannot express them.
- 64-bit integer overflow is left out. Ids, counts and seconds are unbounded integers.
- Rolling.Tick: a tick gets `fuel`, a bound on how often a fired task may go back into the slot being walked while that walk goes on. A walk that ends puts tasks back only finitely often, so some fuel lets the model finish it. Too little fuel also reports a walk that ends as `Diverged` (ScanFinding.DueThenWaitingCutOff). Only a walk that is `Diverged` for every fuel never ends (ScanFinding.TickNeverFinishes).
- Schedule.TickDue: restricted to tasks with no repeat left, or with a period of at least one tick that is not a whole number of rotations. Other due tasks go back into the slot being walked, and the walk as written may reach them again in the same tick (see Findings).
- Schedule.TickStep: restricted to periods of at least one tick that are not a whole number of rotations. Other periods put the fired task back into the slot being walked, and the walk may visit it again in the same tick.
- Schedule.RunEndsAsCounted: restricted to the same periods as TickStep, and to runs that finish. ScanFinding.RunFinishes shows every run finishes on a wheel where no task repeats on a whole number of rotations.
- Schedule.RunFiresWhenDue: restricted to the same periods as TickStep, and to runs that finish.
- Schedule.RunCountsFirings: restricted to the same periods as TickStep, and to runs that finish.
- Schedule.Periodic: restricted to the same periods as TickStep, and to runs that finish.
- Schedule.FiresExactly: restricted to the same periods as TickStep, and to runs that finish.
- Placement.ByInterval: its contract gives only the ranges. The due-time meaning of the formula is stated in Placement.ByIntervalDue and Placement.ByIntervalIsOnlyPlacementDueOnTime.
- Placement.ByCreatedTime: its contract gives only the ranges. Its meaning is stated in Placement.ByCreatedTimeAligned and Placement.ByCreatedTimeSpreads, and its faults in the AddFinding lemmas.
- ScanFinding.SnapshotScan: its own contract gives only validity and the unchanged settings. What it does to each key is stated in ScanFinding.SnapshotHandles, ScanFinding.SnapshotFrame and ScanFinding.SnapshotScanFires.
- ScanFinding.SnapshotTick: its own contract gives validity, the hand and the bounds on firing. What it does to each key is stated in ScanFinding.SnapshotTickHandles, ScanFinding.SnapshotTickLeaves and ScanFinding.SnapshotTickFiresOnce.

## Findings

| source | as written | input that shows it | evidently intended | confidence | as-written member | corrected member |
|---|---|---|---|---|---|---|
| pkg/timewheel/core.go:122-143 | The walk saves the successor, removes the fired task and puts it back by period. A task whose period is one rotation goes back at the end of the list being walked, with no rotation to wait. | A wheel of 60 one-second slots. Slot 0 holds tasks "A" and "B", each with a 60-second period and `times = -1`. The hand is at 0. | Each task present at the start of the tick is handled once in that tick, and the tick then finishes. | not executed | ScanFinding.TickNeverFinishes | ScanFinding.SnapshotTickFiresOnce |
| pkg/timewheel/core.go:122-143 | The same put-back, when a waiting task follows the fired one: the walk reaches the put-back task again and fires it a second time, then ends. | Slot 0 holds "A" (60-second period, `times = -1`, due) and then "X" (one rotation still to wait). The hand is at 0. | "A" fires once in the tick. | not executed | ScanFinding.DueThenWaitingFiresTwice | ScanFinding.SnapshotTickFiresOnce |
| pkg/timewheel/core.go:100-143 | A task whose period is `q >= 2` rotations goes back at the end of the list with `q - 1` rotations, and the walk reaches it again and takes one off. | As above, with "A" given a 120-second period. | "A" is left `q - 1` rotations away and runs one period later. | not executed | ScanFinding.DueThenWaitingLosesRotation | ScanFinding.SnapshotTickHandles |
| pkg/timewheel/core.go:229-244 | Created-time placement applies the settle step, which takes a rotation off a task placed in the current slot. Between ticks the current slot has not been walked yet. | A fresh wheel of 60 one-second slots. A 60-second task is added when it is created. | The task first runs 60 ticks later. | not executed | AddFinding.AddedMinuteTaskRunsAtOnce | AddFinding.FirstPlacement |
| pkg/timewheel/core.go:229-244 | Created-time placement counts rotations from the whole period, not from the part of it that is left. | 60 one-second slots. A 120-second task created 30 seconds ago. | The task first runs after the 90 ticks left of its period. | not executed | AddFinding.CreatedTimeRunsLate | AddFinding.FirstPlacement |

In the first input, firing A puts it back behind B. Firing B puts it back behind A. The two fire in turn without end, and the tick never returns. `ScanFinding.ExampleNeverFinishes` proves this for the example wheel. In the second, the tick does end, but "A" fires twice in it. In the third, "A" fires once but is left due one rotation before its period is up. The corrected walk, `ScanFinding.SnapshotScan`, visits only the tasks the slot held when the tick began. `ScanFinding.SnapshotTickFiresOnce` and `ScanFinding.SnapshotTickHandles` show it fires each due task exactly once and takes exactly one rotation off each waiting task. On the first example, `ScanFinding.ExampleFiresEachOnce` shows it fires A and then B, once each. `ScanFinding.TickIsSnapshotWhenNoneRepeatsPerRotation` shows the two walks agree whenever no task in the walked slot repeats with a period of a whole number of rotations. On a wheel where no task at all repeats on a whole number of rotations, `ScanFinding.RunIsSnapshot` shows that every run as written equals the corrected run `ScanFinding.SnapshotRun`, tick by tick and for any fuel. On such wheels, the results about runs in `Schedule` therefore hold for the corrected walk too. On other wheels the two walks can differ, as `ScanFinding.DueThenWaitingFiresTwice` shows. There the results in `Schedule` describe only the walk as written, not the corrected one.

The settle step is right during a tick, when the current slot is the one being walked (`Placement.SettleDue`). When a task is first added, the next tick walks the current slot, so the step takes off a rotation the task has not waited. `AddFinding.CreatedTimeRunsRotationEarly` states this for every task created a whole number of periods ago whose period is a whole number of rotations. `Core.AddTask` models the placement as written. `AddFinding.FirstPlacement` is the corrected placement, which waits exactly what is left of the period. `AddFinding.FirstPlacementAgrees` shows it coincides with the source's placement for the other periods of such tasks.
