# Tacora core, modelled in Dafny

Tacora is a personal task tracker. Each task has an id, a title, a type (Work, School, Group,
Club or Other), a deadline, an estimated effort in minutes and a priority (Low, Medium, High).
This project models the logic behind the application's screens and proves properties of it:

- **Conflict detection** (`conflict.dfy`, module `Conflict`). `FindConflicts` is the detector's
  nested loop: it sorts a copy of the tasks by deadline, pairs each task with the later ones,
  and stops a row early once the deadline gap exceeds the window. Its result is proved equal to
  `ConflictSet`, a definition with no loop and no order. An id is in `ConflictSet` exactly when
  some task carrying it has a *risky partner*: another task due within `windowHours`, where the
  pair is either heavy (the larger estimate reaches `minHeavyMins`) or important (the priority
  weights sum to at least `minPrioritySum`).
- **Status and counters** (`task_utils.dfy`, module `TaskUtils`):
  - hours left until a deadline, and the status derived from it (Dangerous, Warning, Incoming);
  - the single-pass summary counter `CountTasksByStatus`;
  - the per-status count and the conflicting-task count.
- **The task store** (`task_store.dfy`, module `TaskStore`):
  - the live list and the table of pending deletions, with their undo timers;
  - each store operation as a pure transition of the whole state;
  - a `TaskStore` class whose methods perform the same updates on its fields.
- **Settings** (`settings.dfy`, module `Settings`): the undo delay (3, 5 or 10 seconds) and the
  three conflict thresholds. Each threshold setter sanitises its input.
- **Suggestion heuristic** (`suggest.dfy`, module `Suggest`):
  - it proposes an estimate and a priority from a task's title keywords, type and deadline;
  - the source's single function is modelled as `EstimateMins` and `SuggestPriority`, which
    `Heuristic` combines;
  - both are proved equal to closed forms: `ExpectedEstimate`, and the two priority
    equivalences.
- `task_types.dfy` (module `TaskTypes`) holds the shared task record, the set of ids of a list,
  and the unique-id predicate.

Deadlines are integers: milliseconds since the epoch, already parsed. The current time is a
parameter `now`. Hours are compared exactly, in milliseconds (`MsPerHour` = 3 600 000).

## Model

| member | source | states |
|---|---|---|
| Conflict.PriorityWeight | src/utils/Conflict.ts:3-7 | Every priority has a weight in 1..3: High is 3, Low is 1 and Medium is the one left (2). |
| Conflict.ResolveOptions | src/utils/Conflict.ts:19-21 | A missing option defaults to 48 hours, 45 minutes or weight 5. A supplied option, zero or negative included, is used as given. |
| Conflict.ConflictSetMembership | src/utils/Conflict.ts:29-49 | An id is flagged iff some task carrying it has a risky partner at another position. |
| Conflict.ConflictSetWithinIds | src/utils/Conflict.ts:46-49 | Only ids of tasks in the input are ever flagged. |
| Conflict.ConflictSetOfFewerThanTwo | src/utils/Conflict.ts:29-30 | With fewer than two tasks (the empty list included) nothing is flagged. |
| Conflict.SortedAt | src/utils/Conflict.ts:23-25 | In the sorted copy, deadlines never decrease from a position to any later one. |
| Conflict.InsertByDue | src/utils/Conflict.ts:23-25 | Inserting into a sorted list keeps it sorted and adds exactly the one task. |
| Conflict.SortByDue | src/utils/Conflict.ts:23-25 | The copy is sorted by ascending deadline and holds the same tasks (same multiset). |
| Conflict.RowStep | src/utils/Conflict.ts:36-49 | Within the window, pair (i, j) adds both ids exactly when it is heavy or important. |
| Conflict.RowTail | src/utils/Conflict.ts:31-34 | The early break is sound. Once a later task is beyond the window, no pair further along the row is risky. |
| Conflict.ScanComplete | src/utils/Conflict.ts:29-51 | After all rows, the pairs flagged by the scan give exactly the specification's set. |
| Conflict.ConflictSetPermutation | src/utils/Conflict.ts:23-25 | Reordering the tasks does not change the flagged set, so scanning the sorted copy answers for the input. |
| Conflict.ScanResult | src/utils/Conflict.ts:23-53 | Scanning the sorted copy gives the specification's set for the input, and the empty set for fewer than two tasks. |
| Conflict.FindConflicts | src/utils/Conflict.ts:15-54 | The loop with its early break returns exactly `ConflictSet` of the input under the resolved options. With fewer than two tasks it returns the empty set. |
| Conflict.ConflictSymmetric | src/utils/Conflict.ts:46-49 | Whenever a pair is risky, both of its ids are flagged. |
| Conflict.ConflictSetMonotone | src/utils/Conflict.ts:34-46 | A wider window, a lower heavy threshold or a lower weight threshold never removes a flagged id. |
| TaskUtils.HoursLeft | src/utils/TaskUtils.ts:6-8 | Hours left are never negative. They are the millisecond difference divided by an hour, or 0 once the deadline has passed. |
| TaskUtils.ComputeStatus | src/utils/TaskUtils.ts:10-15 | Dangerous iff due within 24 hours (or overdue), Warning iff due in more than 24 and at most 72 hours, Incoming iff due in more than 72 hours. |
| TaskUtils.FilterByStatus | src/utils/TaskUtils.ts:66-68 | The filtered list keeps every input task with the requested status and only such tasks, and is no longer than the input. |
| TaskUtils.CountByStatus | src/utils/TaskUtils.ts:66-68 | The count is the number of positions whose task has the requested status, and at most the number of tasks. |
| TaskUtils.StatusCountsPartition | src/utils/TaskUtils.ts:37-63 | The three per-status counts add up to the number of tasks. |
| TaskUtils.CountMembers | src/utils/TaskUtils.ts:52-54 | The number of tasks whose id is flagged never exceeds the number of tasks. |
| TaskUtils.IdsBoundedByLength | src/utils/TaskUtils.ts:70-76 | A list carries no more distinct ids than it has tasks. |
| TaskUtils.CountMembersUnique | src/utils/TaskUtils.ts:52-54 | With unique ids, counting tasks whose id is in a set counts the set's ids present in the list. |
| TaskUtils.CountTasksByStatus | src/utils/TaskUtils.ts:25-64 | Each status count equals `countByStatus` for that status. The conflicting count counts the tasks flagged under 48/45/5. The total is the list length, and the status counts sum to it. The conflicting count is at most the total. |
| TaskUtils.CountConflictingTasks | src/utils/TaskUtils.ts:70-77 | The result is the size of the flagged set under 48/45/5 and is at most the number of tasks. With unique ids it equals the summary's conflicting count. |
| TaskStore.FindById | src/utils/TaskStore.ts:44 | Finds nothing iff no task carries the id. Otherwise it returns a task of the list carrying that id. |
| TaskStore.FindByIdFirst | src/utils/TaskStore.ts:44 | The task found is the one at the first position carrying the id. |
| TaskStore.WithoutId | src/utils/TaskStore.ts:39 | The filtered list is never longer than the input; `WithoutIdIds` and `WithoutIdAppend` give its ids and order. |
| TaskStore.PatchWhere | src/utils/TaskStore.ts:33-35 | The mapped list has the input's length; position by position, `Updated` states which tasks are patched. |
| TaskStore.WithoutIdIds | src/utils/TaskStore.ts:38-40 | Filtering removes exactly the given id from the live ids. |
| TaskStore.WithoutIdAppend | src/utils/TaskStore.ts:38-40 | Filtering distributes over concatenation, so the kept tasks keep their relative order. |
| TaskStore.WithoutAbsentId | src/utils/TaskStore.ts:38-40 | Filtering out an id that no task carries leaves the list unchanged. |
| TaskStore.WithoutIdUnique | src/utils/TaskStore.ts:38-40 | Filtering keeps unique ids unique. |
| TaskStore.WithoutUniqueId | src/utils/TaskStore.ts:48-50 | With unique ids, filtering out the id of task k removes exactly position k. |
| TaskStore.ApplyPatch | src/utils/TaskStore.ts:34 | Each field the patch carries replaces the task's field, and every other field is kept. |
| TaskStore.PatchWhereKeepsIds | src/utils/TaskStore.ts:32-36 | A patch without an id keeps every task's id, and so keeps ids unique. |
| TaskStore.PatchWhereAbsentId | src/utils/TaskStore.ts:32-36 | Updating an id that no task carries leaves the list unchanged. |
| TaskStore.Valid | src/utils/TaskStore.ts:11-13 | The store invariant: live ids are unique, no id is both live and pending, each pending entry holds the task with its key and owns an armed timer aimed at that key, and every armed handle was issued earlier. |
| TaskStore.ValidTimersDistinct | src/utils/TaskStore.ts:71 | Under the invariant, two pending entries never share a timer, so undoing one never disarms another's. |
| TaskStore.InitialValid | src/utils/TaskStore.ts:25-26 | The empty initial store satisfies the store invariant. |
| TaskStore.Added | src/utils/TaskStore.ts:28-30 | Appends exactly one task with the given fields under the fresh id. Earlier tasks and the pending table are unchanged, and the invariant is kept. |
| TaskStore.Updated | src/utils/TaskStore.ts:32-36 | Same length; matching tasks are patched and the others are untouched. An unknown id changes nothing. The invariant is kept when the patch carries no id. |
| TaskStore.Removed | src/utils/TaskStore.ts:38-40 | Every task with the id is dropped, in order, and an absent id changes nothing. The pending table is unchanged and the invariant is kept. |
| TaskStore.DeleteScheduled | src/utils/TaskStore.ts:42-63 | A non-live id changes nothing. Otherwise the id leaves the list, its first task is filed under it, a timer is armed for `delaySeconds` seconds, and the invariant is kept. |
| TaskStore.DeleteUndone | src/utils/TaskStore.ts:65-78 | No entry means no change. Otherwise the entry's timer is disarmed, the entry is dropped, and the snapshot is appended unchanged; the invariant is kept. |
| TaskStore.PermanentlyDeleted | src/utils/TaskStore.ts:80-83 | Only the pending entry is dropped; the live list and the timers are untouched, and the invariant is kept. |
| TaskStore.TimerFired | src/utils/TaskStore.ts:52-54 | A firing timer is disarmed, its callback drops the pending entry, the live list is unchanged, and the invariant is kept. |
| TaskStore.ScheduleThenUndo | src/utils/TaskStore.ts:42-78 | Deleting then undoing leaves the same tasks as a multiset, with that task last and unchanged, and the same pending table. |
| TaskStore.PermanentlyDeleteIdempotent | src/utils/TaskStore.ts:80-83 | Permanent deletion twice is the same as once. |
| TaskStore.NoUndoAfterTimerFired | src/utils/TaskStore.ts:52-54 | After the timer fires, undo is a no-op and a task that was pending stays out of the live list. |
| TaskStore.ScheduleNeverReplacesWhenValid | src/utils/TaskStore.ts:62 | Under the invariant a live id has no pending entry, so the overwrite at line 62 never drops an armed timer. One timer and one entry are added. |
| TaskStore.UpdateWithIdBreaksUniqueness | src/utils/TaskStore.ts:32-36 | Concrete case: a patch carrying another task's id produces two live tasks with the same id. |
| TaskStore.TaskStore.constructor | src/utils/TaskStore.ts:25-26 | The store starts empty and valid. |
| TaskStore.TaskStore.Add | src/utils/TaskStore.ts:28-30 | The new state is `Added` of the old one. |
| TaskStore.TaskStore.Update | src/utils/TaskStore.ts:32-36 | The new state is `Updated` of the old one. |
| TaskStore.TaskStore.Remove | src/utils/TaskStore.ts:38-40 | The new state is `Removed` of the old one. |
| TaskStore.TaskStore.ScheduleDelete | src/utils/TaskStore.ts:42-63 | The new state is `DeleteScheduled` of the old one. |
| TaskStore.TaskStore.UndoDelete | src/utils/TaskStore.ts:65-78 | The new state is `DeleteUndone` of the old one. |
| TaskStore.TaskStore.PermanentlyDelete | src/utils/TaskStore.ts:80-83 | The new state is `PermanentlyDeleted` of the old one. |
| TaskStore.TaskStore.FireTimer | src/utils/TaskStore.ts:52-54 | The new state is `TimerFired` of the old one. |
| Settings.Sanitize | src/utils/SettingsStore.ts:27 | The stored value is at least 1: exactly the floor of the input when that is at least 1, and 1 for any input below 1. |
| Settings.SanitizeKeepsValid | src/utils/SettingsStore.ts:27 | A whole number of at least 1 is stored unchanged. |
| Settings.SanitizeIdempotent | src/utils/SettingsStore.ts:27 | Setting a threshold to the value it already holds changes nothing. |
| Settings.SanitizeIsFloor | src/utils/SettingsStore.ts:27 | No whole number of at least 1 below the input exceeds the stored value. |
| Settings.SettingsStore.constructor | src/utils/SettingsStore.ts:23-32 | Defaults are a 10-second delay, 48 hours, 45 minutes and weight 5. |
| Settings.SettingsStore.SetDeleteDelay | src/utils/SettingsStore.ts:24 | Stores the delay, which its type restricts to 3, 5 or 10. The other fields are kept. |
| Settings.SettingsStore.SetConflictWindowHours | src/utils/SettingsStore.ts:27 | Stores the sanitised input in this field only. Thresholds stay at least 1. |
| Settings.SettingsStore.SetConflictMinHeavyMins | src/utils/SettingsStore.ts:30 | Stores the sanitised input in this field only. Thresholds stay at least 1. |
| Settings.SettingsStore.SetConflictMinPrioritySum | src/utils/SettingsStore.ts:33 | Stores the sanitised input in this field only. Thresholds stay at least 1. |
| Suggest.ToLower | api/suggest.ts:18 | Same length, each character lower-cased. |
| Suggest.MentionsAnyFinds | api/suggest.ts:19-23 | A whole-word occurrence of any listed keyword makes the keyword test succeed. |
| Suggest.ContainsAnyFinds | api/suggest.ts:34 | An occurrence anywhere of any listed word makes the case-insensitive test succeed. |
| Suggest.MentionsAnySound | api/suggest.ts:19-23 | The keyword test succeeds only if some listed keyword occurs as a whole word, the converse of `MentionsAnyFinds`. |
| Suggest.ContainsAnySound | api/suggest.ts:34 | The case-insensitive test succeeds only if some listed word occurs, the converse of `ContainsAnyFinds`. |
| Suggest.UrgentExact | api/suggest.ts:34 | A title is urgent iff its lower-cased text contains "exam", "final", "report" or "presentation". |
| Suggest.BaseMins | api/suggest.ts:11-16 | The base is 60 for School, 90 for Work, 45 for Group and 30 for Club and Other. All are multiples of 15 between 30 and 90. |
| Suggest.ExpectedEstimate | api/suggest.ts:11-23 | The base plus keyword bonuses is a multiple of 15, at least the base and at most the base plus 120, so it lies in 30..210. |
| Suggest.RoundToQuarterHour | api/suggest.ts:25 | Rounding to the nearest multiple of 15 moves the value by at most 7. |
| Suggest.RoundKeepsMultiples | api/suggest.ts:25 | A multiple of 15 is not moved by the rounding. |
| Suggest.HoursLeftWithin | api/suggest.ts:9 | Comparing the real hours left with a whole number of hours is the same as comparing milliseconds. |
| Suggest.EstimateMins | api/suggest.ts:11-26 | The estimate equals `ExpectedEstimate`: the meeting rule, the rounding and the clamp never change it. It is a multiple of 15 in 15..240. |
| Suggest.SuggestPriority | api/suggest.ts:28-34 | High iff the title is urgent or the deadline is known and within 24 hours. Low iff not urgent, not School or Work, and not known to be within 72 hours. School and Work are never Low. The result equals the closed form `PriorityFor`. |
| Suggest.Heuristic | api/suggest.ts:6-41 | The suggestion carries both closed forms above. |
| Suggest.LaterDueNeverMoreUrgent | api/suggest.ts:28-34 | For the same title and type, a later deadline never gets a higher priority. |
| Suggest.UnknownDueNeverMoreUrgent | api/suggest.ts:28-34 | An unparseable deadline never gets a higher priority than any valid deadline. |
| Suggest.EstimateWithoutKeywords | api/suggest.ts:11-23 | A title with no bonus keyword as a whole word gets exactly its type's base estimate. |
| Suggest.DebugLabReportExample | api/suggest.ts:18-34 | Any title lower-casing to "debug lab report before exam" is estimated at 180 minutes for School, and is urgent. |

## Left out

- Date parsing is not modelled. Deadlines are integer milliseconds. In the store, the status code and the detector, an unparseable deadline (`NaN` in the running system) is not modelled. The heuristic does model it (`due == None`): there both hour comparisons fail.
- The clock is not modelled. `Date.now()`, `new Date()` and the timer's due time come from a `now` parameter. `countTasksByStatus` reads the clock once per task; the model uses one `now` for the whole pass.
- Floating point is not modelled. Hours are exact reals and millisecond differences are exact integers. Window lengths and estimates are integers; a fractional `windowHours` passed directly to the detector is not modelled.
- `crypto.randomUUID` is not modelled. The new id is a parameter that must be neither live nor pending.
- Real timers are not modelled. `setTimeout` and `clearTimeout` become a map of armed handles, and a timer firing is an explicit `FireTimer` call. Each timer records its due time, but nothing makes it fire at that time.
- The state library is not modelled: `set`, `get`, subscriber notification, and persistence to browser storage (including how the `deletedTasks` map survives a reload).
- A patch key that is present with the value `undefined` is not modelled. In the model, a present key always carries a value and replaces the field.
- Lower-casing and the case-insensitive test cover ASCII letters only. Full Unicode case mapping is not modelled.
- The rationale string of the heuristic and the HTTP handler around it are not modelled: they are text formatting and I/O.
- A `NaN` or infinite input to the threshold setters is not modelled. Setter inputs are exact reals, and `n || 0` is the identity on them.
- A task type outside the five is not modelled. The heuristic's starting estimate of 45 (api/suggest.ts:11) survives only for such a type, which reaches it only through the untyped HTTP handler; the model's closed type makes that starting value dead.
- TaskStore.Valid does not require every armed timer to target a pending entry. A direct `permanentlyDelete` call leaves that entry's timer armed, so such a requirement would not be preserved.

