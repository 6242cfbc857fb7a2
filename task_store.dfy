/**
 * The task store: the live task list, the table of pending deletions and the armed
 * permanent-removal timers. The pure functions below give each operation's effect on the
 * whole state; the class TaskStore at the end performs the same updates on its fields.
 */
module TaskStore {
  import opened TaskTypes

  /** The fields a caller supplies when adding a task: everything except the id. */
  datatype NewTask = NewTask(title: string, taskType: TaskType, dueAt: int, estimatedMins: int, priority: Priority)

  /** A partial task: each present field replaces the task's own (an object spread). */
  datatype Patch = Patch(
    id: Option<Id>,
    title: Option<string>,
    taskType: Option<TaskType>,
    dueAt: Option<int>,
    estimatedMins: Option<int>,
    priority: Option<Priority>
  )

  /** The snapshot kept while a deletion is pending, with the handle of its timer. */
  datatype DeletedTask = DeletedTask(task: Task, deletedAt: int, timeoutId: nat)

  /** An armed one-shot timer: when it fires it permanently deletes `target`. */
  datatype Timer = Timer(target: Id, firesAt: int)

  datatype StoreState = StoreState(
    tasks: seq<Task>,
    deletedTasks: map<Id, DeletedTask>,
    timers: map<nat, Timer>,
    nextTimeoutId: nat
  )

  const Initial: StoreState := StoreState([], map[], map[], 0)

  // ---------------------------------------------------------------------------
  // List helpers: the find, map and filter the store applies to its task list

  /** The first task carrying `id`, if any. */
  function FindById(s: seq<Task>, id: Id): (r: Option<Task>)
    ensures r.None? <==> id !in Ids(s)
    ensures r.Some? ==> r.value in s && r.value.id == id
  {
    if s == [] then None
    else if s[0].id == id then Some(s[0])
    else
      assert s == [s[0]] + s[1..];
      IdsAppend([s[0]], s[1..]);
      IdsSingleton(s[0]);
      FindById(s[1..], id)
  }

  /** The task found is the one at the first position carrying the id, as `find` returns. */
  lemma {:induction false} FindByIdFirst(s: seq<Task>, id: Id, k: int)
    requires 0 <= k < |s| && s[k].id == id && id !in Ids(s[..k])
    ensures FindById(s, id) == Some(s[k])
  {
    if k > 0 {
      assert s[..k] == [s[0]] + s[1..][..k - 1];
      IdsAppend([s[0]], s[1..][..k - 1]);
      IdsSingleton(s[0]);
      FindByIdFirst(s[1..], id, k - 1);
    }
  }

  /** The list without the tasks carrying `id`, the others kept in order. */
  function WithoutId(s: seq<Task>, id: Id): (r: seq<Task>)
    ensures |r| <= |s|
  {
    if s == [] then []
    else (if s[0].id == id then [] else [s[0]]) + WithoutId(s[1..], id)
  }

  /** A field-wise overwrite by the fields present in the patch. */
  function ApplyPatch(t: Task, patch: Patch): (r: Task)
    ensures r.id == (if patch.id.Some? then patch.id.value else t.id)
    ensures r.title == (if patch.title.Some? then patch.title.value else t.title)
    ensures r.taskType == (if patch.taskType.Some? then patch.taskType.value else t.taskType)
    ensures r.dueAt == (if patch.dueAt.Some? then patch.dueAt.value else t.dueAt)
    ensures r.estimatedMins == (if patch.estimatedMins.Some? then patch.estimatedMins.value else t.estimatedMins)
    ensures r.priority == (if patch.priority.Some? then patch.priority.value else t.priority)
  {
    Task(
      match patch.id case Some(v) => v case None => t.id,
      match patch.title case Some(v) => v case None => t.title,
      match patch.taskType case Some(v) => v case None => t.taskType,
      match patch.dueAt case Some(v) => v case None => t.dueAt,
      match patch.estimatedMins case Some(v) => v case None => t.estimatedMins,
      match patch.priority case Some(v) => v case None => t.priority)
  }

  /** Every task carrying `id` patched, every other task as it was. */
  function PatchWhere(s: seq<Task>, id: Id, patch: Patch): (r: seq<Task>)
    ensures |r| == |s|
  {
    seq(|s|, k requires 0 <= k < |s| => if s[k].id == id then ApplyPatch(s[k], patch) else s[k])
  }

  // ---------------------------------------------------------------------------
  // Properties of the helpers

  /** Filtering distributes over concatenation: the kept tasks stay in their relative order. */
  lemma {:induction false} WithoutIdAppend(a: seq<Task>, b: seq<Task>, id: Id)
    ensures WithoutId(a + b, id) == WithoutId(a, id) + WithoutId(b, id)
  {
    if a != [] {
      var c := a + b;
      assert c[0] == a[0];
      assert c[1..] == a[1..] + b;
      WithoutIdAppend(a[1..], b, id);
      var head := if a[0].id == id then [] else [a[0]];
      assert WithoutId(c, id) == head + WithoutId(c[1..], id);
      assert WithoutId(a, id) == head + WithoutId(a[1..], id);
      assert head + (WithoutId(a[1..], id) + WithoutId(b, id))
          == (head + WithoutId(a[1..], id)) + WithoutId(b, id);
    } else {
      assert a + b == b;
    }
  }

  /** Exactly the id that was filtered out is gone from the list. */
  lemma {:induction false} WithoutIdIds(s: seq<Task>, id: Id)
    ensures Ids(WithoutId(s, id)) == Ids(s) - {id}
  {
    if s != [] {
      assert s == [s[0]] + s[1..];
      IdsAppend([s[0]], s[1..]);
      IdsSingleton(s[0]);
      WithoutIdIds(s[1..], id);
      var head := if s[0].id == id then [] else [s[0]];
      IdsAppend(head, WithoutId(s[1..], id));
    }
  }

  /** Removing an id no task carries changes nothing. */
  lemma {:induction false} WithoutAbsentId(s: seq<Task>, id: Id)
    requires id !in Ids(s)
    ensures WithoutId(s, id) == s
  {
    if s != [] {
      assert s == [s[0]] + s[1..];
      IdsAppend([s[0]], s[1..]);
      WithoutAbsentId(s[1..], id);
    }
  }

  /** Filtering keeps unique ids unique. */
  lemma {:induction false} WithoutIdUnique(s: seq<Task>, id: Id)
    requires UniqueIds(s)
    ensures UniqueIds(WithoutId(s, id))
  {
    if s != [] {
      assert s == [s[0]] + s[1..];
      UniqueIdsAppend([s[0]], s[1..]);
      IdsSingleton(s[0]);
      WithoutIdUnique(s[1..], id);
      WithoutIdIds(s[1..], id);
      var head := if s[0].id == id then [] else [s[0]];
      UniqueIdsAppend(head, WithoutId(s[1..], id));
    }
  }

  /** Filtering a one-task list by that task's id leaves nothing. */
  lemma WithoutOwnId(t: Task)
    ensures WithoutId([t], t.id) == []
  {
  }

  /** With unique ids, removing the id of task k removes exactly that task. */
  lemma WithoutUniqueId(s: seq<Task>, k: int)
    requires UniqueIds(s) && 0 <= k < |s|
    ensures WithoutId(s, s[k].id) == s[..k] + s[k + 1..]
  {
    var id := s[k].id;
    var pre, post := s[..k], s[k + 1..];
    assert s == (pre + [s[k]]) + post;
    assert id !in Ids(pre) && id !in Ids(post) by {
      UniqueIdsAppend(pre + [s[k]], post);
      UniqueIdsAppend(pre, [s[k]]);
      IdsSingleton(s[k]);
      IdsAppend(pre, [s[k]]);
    }
    var front := pre + [s[k]];
    WithoutIdAppend(front, post, id);
    WithoutIdAppend(pre, [s[k]], id);
    WithoutAbsentId(pre, id);
    WithoutAbsentId(post, id);
    WithoutOwnId(s[k]);
    assert WithoutId(front, id) == pre;
    assert WithoutId(s, id) == WithoutId(front, id) + WithoutId(post, id);
  }

  /** A patch with no id keeps the list's ids, and keeps them unique. */
  lemma PatchWhereKeepsIds(s: seq<Task>, id: Id, patch: Patch)
    requires patch.id.None?
    ensures Ids(PatchWhere(s, id, patch)) == Ids(s)
    ensures UniqueIds(s) ==> UniqueIds(PatchWhere(s, id, patch))
  {
    var r := PatchWhere(s, id, patch);
    assert forall k :: 0 <= k < |s| ==> r[k].id == s[k].id;
  }

  /** Patching an id no task carries changes nothing. */
  lemma PatchWhereAbsentId(s: seq<Task>, id: Id, patch: Patch)
    requires id !in Ids(s)
    ensures PatchWhere(s, id, patch) == s
  {
  }

  // ---------------------------------------------------------------------------
  // The store invariant

  /**
   * No two live tasks share an id; no id is both live and pending; each pending entry is the
   * snapshot of the task with its key and owns an armed timer aimed at that key; and every
   * armed handle lies below the next one to be issued.
   */
  predicate Valid(st: StoreState) {
    UniqueIds(st.tasks)
    && Ids(st.tasks) !! st.deletedTasks.Keys
    && (forall x :: x in st.deletedTasks ==>
          st.deletedTasks[x].task.id == x
          && st.deletedTasks[x].timeoutId in st.timers
          && st.timers[st.deletedTasks[x].timeoutId].target == x)
    && (forall h :: h in st.timers ==> h < st.nextTimeoutId)
  }

  /** Under the invariant, distinct pending entries own distinct timers. */
  lemma ValidTimersDistinct(st: StoreState, x: Id, y: Id)
    requires Valid(st) && x in st.deletedTasks && y in st.deletedTasks && x != y
    ensures st.deletedTasks[x].timeoutId != st.deletedTasks[y].timeoutId
  {
  }

  lemma InitialValid()
    ensures Valid(Initial)
  {
  }

  // ---------------------------------------------------------------------------
  // The operations, as transitions of the whole state

  /** `add`: appends the new task under a fresh id. */
  function Added(st: StoreState, t: NewTask, id: Id): (r: StoreState)
    requires id !in Ids(st.tasks) && id !in st.deletedTasks
    ensures r.tasks == st.tasks + [Task(id, t.title, t.taskType, t.dueAt, t.estimatedMins, t.priority)]
    ensures r.deletedTasks == st.deletedTasks && r.timers == st.timers && r.nextTimeoutId == st.nextTimeoutId
    ensures Ids(r.tasks) == Ids(st.tasks) + {id}
    ensures Valid(st) ==> Valid(r)
  {
    var task := Task(id, t.title, t.taskType, t.dueAt, t.estimatedMins, t.priority);
    IdsAppend(st.tasks, [task]);
    IdsSingleton(task);
    UniqueIdsAppend(st.tasks, [task]);
    st.(tasks := st.tasks + [task])
  }

  /** `update`: patches every task carrying `id`; the pending table and timers are untouched. */
  function Updated(st: StoreState, id: Id, patch: Patch): (r: StoreState)
    ensures |r.tasks| == |st.tasks|
    ensures forall k :: 0 <= k < |st.tasks| ==>
      r.tasks[k] == (if st.tasks[k].id == id then ApplyPatch(st.tasks[k], patch) else st.tasks[k])
    ensures r.deletedTasks == st.deletedTasks && r.timers == st.timers && r.nextTimeoutId == st.nextTimeoutId
    ensures id !in Ids(st.tasks) ==> r == st
    ensures Valid(st) && patch.id.None? ==> Valid(r)
  {
    assert id !in Ids(st.tasks) ==> PatchWhere(st.tasks, id, patch) == st.tasks by {
      if id !in Ids(st.tasks) { PatchWhereAbsentId(st.tasks, id, patch); }
    }
    assert patch.id.None? && UniqueIds(st.tasks) ==>
      Ids(PatchWhere(st.tasks, id, patch)) == Ids(st.tasks) && UniqueIds(PatchWhere(st.tasks, id, patch)) by {
      if patch.id.None? { PatchWhereKeepsIds(st.tasks, id, patch); }
    }
    st.(tasks := PatchWhere(st.tasks, id, patch))
  }

  /** `remove`: drops every task carrying `id`, keeping the others in order. */
  function Removed(st: StoreState, id: Id): (r: StoreState)
    ensures r.tasks == WithoutId(st.tasks, id)
    ensures Ids(r.tasks) == Ids(st.tasks) - {id}
    ensures r.deletedTasks == st.deletedTasks && r.timers == st.timers && r.nextTimeoutId == st.nextTimeoutId
    ensures id !in Ids(st.tasks) ==> r == st
    ensures Valid(st) ==> Valid(r)
  {
    WithoutIdIds(st.tasks, id);
    assert id !in Ids(st.tasks) ==> WithoutId(st.tasks, id) == st.tasks by {
      if id !in Ids(st.tasks) { WithoutAbsentId(st.tasks, id); }
    }
    assert UniqueIds(st.tasks) ==> UniqueIds(WithoutId(st.tasks, id)) by {
      if UniqueIds(st.tasks) { WithoutIdUnique(st.tasks, id); }
    }
    st.(tasks := WithoutId(st.tasks, id))
  }

  /**
   * `scheduleDelete`: for a live id, takes every task carrying it out of the list, arms a timer
   * due `delaySeconds` seconds after `now` and files the snapshot of the first such task under
   * the id, replacing any earlier entry without disarming its timer. For an id that is not
   * live, nothing happens.
   */
  function DeleteScheduled(st: StoreState, id: Id, delaySeconds: int, now: int): (r: StoreState)
    ensures id !in Ids(st.tasks) ==> r == st
    ensures id in Ids(st.tasks) ==>
      r.tasks == WithoutId(st.tasks, id)
      && r.deletedTasks == st.deletedTasks[id := DeletedTask(FindById(st.tasks, id).value, now, st.nextTimeoutId)]
      && r.timers == st.timers[st.nextTimeoutId := Timer(id, now + delaySeconds * 1000)]
      && r.nextTimeoutId == st.nextTimeoutId + 1
    ensures Valid(st) ==> Valid(r)
  {
    match FindById(st.tasks, id)
    case None => st
    case Some(task) =>
      var h := st.nextTimeoutId;
      WithoutIdIds(st.tasks, id);
      assert UniqueIds(st.tasks) ==> UniqueIds(WithoutId(st.tasks, id)) by {
        if UniqueIds(st.tasks) { WithoutIdUnique(st.tasks, id); }
      }
      StoreState(
        WithoutId(st.tasks, id),
        st.deletedTasks[id := DeletedTask(task, now, h)],
        st.timers[h := Timer(id, now + delaySeconds * 1000)],
        h + 1)
  }

  /**
   * `undoDelete`: for a pending id, disarms its timer, drops the entry and appends the snapshot
   * to the live list unchanged. For an id with no pending entry, nothing happens.
   */
  function DeleteUndone(st: StoreState, id: Id): (r: StoreState)
    ensures id !in st.deletedTasks ==> r == st
    ensures id in st.deletedTasks ==>
      r.tasks == st.tasks + [st.deletedTasks[id].task]
      && r.deletedTasks == st.deletedTasks - {id}
      && r.timers == st.timers - {st.deletedTasks[id].timeoutId}
      && r.nextTimeoutId == st.nextTimeoutId
    ensures Valid(st) ==> Valid(r)
  {
    if id !in st.deletedTasks then st
    else
      var entry := st.deletedTasks[id];
      IdsAppend(st.tasks, [entry.task]);
      IdsSingleton(entry.task);
      UniqueIdsAppend(st.tasks, [entry.task]);
      StoreState(st.tasks + [entry.task], st.deletedTasks - {id}, st.timers - {entry.timeoutId}, st.nextTimeoutId)
  }

  /** `permanentlyDelete`: drops the pending entry, if any; nothing else changes. */
  function PermanentlyDeleted(st: StoreState, id: Id): (r: StoreState)
    ensures r.tasks == st.tasks && r.timers == st.timers && r.nextTimeoutId == st.nextTimeoutId
    ensures r.deletedTasks == st.deletedTasks - {id}
    ensures Valid(st) ==> Valid(r)
  {
    st.(deletedTasks := st.deletedTasks - {id})
  }

  /** An armed timer fires: it is no longer armed, and its callback permanently deletes its target. */
  function TimerFired(st: StoreState, h: nat): (r: StoreState)
    requires h in st.timers
    ensures r.tasks == st.tasks && r.nextTimeoutId == st.nextTimeoutId
    ensures r.deletedTasks == st.deletedTasks - {st.timers[h].target}
    ensures r.timers == st.timers - {h}
    ensures Valid(st) ==> Valid(r)
  {
    PermanentlyDeleted(st.(timers := st.timers - {h}), st.timers[h].target)
  }

  // ---------------------------------------------------------------------------
  // Properties that relate several operations

  /** Moving task k to the end of the list keeps the same tasks. */
  lemma MoveToEndPermutes(s: seq<Task>, k: int)
    requires 0 <= k < |s|
    ensures multiset(s[..k] + s[k + 1..] + [s[k]]) == multiset(s)
  {
    assert s == s[..k] + [s[k]] + s[k + 1..];
  }

  /** Filing an entry under a new key and removing that key gives back the original table. */
  lemma RemoveAfterInsert(m: map<Id, DeletedTask>, key: Id, v: DeletedTask)
    requires key !in m
    ensures m[key := v] - {key} == m
  {
    assert (m[key := v] - {key}).Keys == m.Keys;
  }

  /**
   * Deleting a live task and undoing at once restores the same tasks (that task now last, every
   * field as before) and the same pending table.
   */
  lemma ScheduleThenUndo(st: StoreState, id: Id, delaySeconds: int, now: int)
    requires Valid(st) && id in Ids(st.tasks)
    ensures var r := DeleteUndone(DeleteScheduled(st, id, delaySeconds, now), id);
      multiset(r.tasks) == multiset(st.tasks)
      && r.tasks[|r.tasks| - 1] == FindById(st.tasks, id).value
      && r.deletedTasks == st.deletedTasks
      && Valid(r)
  {
    var task := FindById(st.tasks, id).value;
    var k :| 0 <= k < |st.tasks| && st.tasks[k] == task;
    assert id !in st.deletedTasks;
    var mid := DeleteScheduled(st, id, delaySeconds, now);
    WithoutUniqueId(st.tasks, k);
    assert mid.tasks == st.tasks[..k] + st.tasks[k + 1..];
    assert id in mid.deletedTasks && mid.deletedTasks[id].task == task;
    var r := DeleteUndone(mid, id);
    assert r.tasks == st.tasks[..k] + st.tasks[k + 1..] + [st.tasks[k]];
    MoveToEndPermutes(st.tasks, k);
    RemoveAfterInsert(st.deletedTasks, id, mid.deletedTasks[id]);
  }

  /** Permanent deletion is idempotent. */
  lemma PermanentlyDeleteIdempotent(st: StoreState, id: Id)
    ensures PermanentlyDeleted(PermanentlyDeleted(st, id), id) == PermanentlyDeleted(st, id)
  {
  }

  /** Once the timer of a pending task has fired, undo cannot bring the task back. */
  lemma NoUndoAfterTimerFired(st: StoreState, h: nat)
    requires Valid(st) && h in st.timers
    ensures var r := TimerFired(st, h);
      DeleteUndone(r, st.timers[h].target) == r
      && (st.timers[h].target in st.deletedTasks ==> st.timers[h].target !in Ids(r.tasks))
  {
  }

  /**
   * In a valid state the missing `clearTimeout` in `scheduleDelete` is never exercised: a live
   * id has no pending entry, and the new handle is not yet armed.
   */
  lemma ScheduleNeverReplacesWhenValid(st: StoreState, id: Id, delaySeconds: int, now: int)
    requires Valid(st) && id in Ids(st.tasks)
    ensures id !in st.deletedTasks
    ensures |DeleteScheduled(st, id, delaySeconds, now).timers| == |st.timers| + 1
    ensures |DeleteScheduled(st, id, delaySeconds, now).deletedTasks| == |st.deletedTasks| + 1
  {
  }

  /** A patch that carries an id can give two live tasks the same id. */
  lemma UpdateWithIdBreaksUniqueness()
    ensures var a := Task("a", "Essay", School, 0, 60, High);
      var b := Task("b", "Lab", School, 0, 60, Low);
      var st := StoreState([a, b], map[], map[], 0);
      Valid(st) && !Valid(Updated(st, "b", Patch(Some("a"), None, None, None, None, None)))
  {
    var a := Task("a", "Essay", School, 0, 60, High);
    var b := Task("b", "Lab", School, 0, 60, Low);
    var st := StoreState([a, b], map[], map[], 0);
    var r := Updated(st, "b", Patch(Some("a"), None, None, None, None, None));
    assert "b" in Ids(st.tasks) by { assert st.tasks[1].id == "b"; }
    assert r.tasks[0].id == r.tasks[1].id;
  }

  // ---------------------------------------------------------------------------
  // The store object

  class TaskStore {
    var tasks: seq<Task>
    var deletedTasks: map<Id, DeletedTask>
    var timers: map<nat, Timer>
    var nextTimeoutId: nat

    function State(): StoreState
      reads this
    {
      StoreState(tasks, deletedTasks, timers, nextTimeoutId)
    }

    constructor ()
      ensures State() == Initial && Valid(State())
    {
      tasks := [];
      deletedTasks := map[];
      timers := map[];
      nextTimeoutId := 0;
    }

    /** `id` stands for the fresh UUID the running system generates. */
    method Add(t: NewTask, id: Id)
      requires id !in Ids(tasks) && id !in deletedTasks
      modifies this
      ensures State() == Added(old(State()), t, id)
      ensures old(Valid(State())) ==> Valid(State())
    {
      tasks := tasks + [Task(id, t.title, t.taskType, t.dueAt, t.estimatedMins, t.priority)];
    }

    method Update(id: Id, patch: Patch)
      modifies this
      ensures State() == Updated(old(State()), id, patch)
      ensures old(Valid(State())) && patch.id.None? ==> Valid(State())
    {
      tasks := PatchWhere(tasks, id, patch);
    }

    method Remove(id: Id)
      modifies this
      ensures State() == Removed(old(State()), id)
      ensures old(Valid(State())) ==> Valid(State())
    {
      tasks := WithoutId(tasks, id);
    }

    method ScheduleDelete(id: Id, delaySeconds: int, now: int)
      modifies this
      ensures State() == DeleteScheduled(old(State()), id, delaySeconds, now)
      ensures old(Valid(State())) ==> Valid(State())
    {
      var found := FindById(tasks, id);
      if found.None? {
        return;
      }
      var task := found.value;
      tasks := WithoutId(tasks, id);
      var timeoutId := nextTimeoutId;
      timers := timers[timeoutId := Timer(id, now + delaySeconds * 1000)];
      nextTimeoutId := nextTimeoutId + 1;
      deletedTasks := deletedTasks[id := DeletedTask(task, now, timeoutId)];
    }

    method UndoDelete(id: Id)
      modifies this
      ensures State() == DeleteUndone(old(State()), id)
      ensures old(Valid(State())) ==> Valid(State())
    {
      if id !in deletedTasks {
        return;
      }
      var deletedTask := deletedTasks[id];
      timers := timers - {deletedTask.timeoutId};
      deletedTasks := deletedTasks - {id};
      tasks := tasks + [deletedTask.task];
    }

    method PermanentlyDelete(id: Id)
      modifies this
      ensures State() == PermanentlyDeleted(old(State()), id)
      ensures old(Valid(State())) ==> Valid(State())
    {
      deletedTasks := deletedTasks - {id};
    }

    /** The environment fires an armed timer, whose callback permanently deletes its target. */
    method FireTimer(h: nat)
      requires h in timers
      modifies this
      ensures State() == TimerFired(old(State()), h)
      ensures old(Valid(State())) ==> Valid(State())
    {
      var target := timers[h].target;
      timers := timers - {h};
      PermanentlyDelete(target);
    }
  }
}
