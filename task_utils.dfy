/** Deadline status of a task and the counters behind the summary screen. */
module TaskUtils {
  import opened TaskTypes
  import Conflict

  datatype Status = Incoming | Warning | Dangerous

  /** Hours from `now` until the deadline, floored at zero. */
  function HoursLeft(dueAt: int, now: int): (h: real)
    ensures h >= 0.0
    ensures now <= dueAt ==> h * (MsPerHour as real) == (dueAt - now) as real
    ensures dueAt <= now ==> h == 0.0
  {
    if dueAt <= now then 0.0 else (dueAt - now) as real / (MsPerHour as real)
  }

  /** Dangerous within a day of the deadline (or past it), Warning within three days, else Incoming. */
  function ComputeStatus(dueAt: int, now: int): (s: Status)
    ensures s == Dangerous <==> dueAt - now <= 24 * MsPerHour
    ensures s == Warning <==> 24 * MsPerHour < dueAt - now <= 72 * MsPerHour
    ensures s == Incoming <==> 72 * MsPerHour < dueAt - now
  {
    var h := HoursLeft(dueAt, now);
    if h <= 24.0 then Dangerous
    else if h <= 72.0 then Warning
    else Incoming
  }

  /** The tasks whose status is `status`, in list order. */
  function FilterByStatus(tasks: seq<Task>, now: int, status: Status): (r: seq<Task>)
    ensures |r| <= |tasks|
    ensures forall k :: 0 <= k < |r| ==> ComputeStatus(r[k].dueAt, now) == status
    ensures forall t :: t in r ==> t in tasks
    ensures forall k :: 0 <= k < |tasks| && ComputeStatus(tasks[k].dueAt, now) == status ==> tasks[k] in r
  {
    if tasks == [] then []
    else
      var last := tasks[|tasks| - 1];
      FilterByStatus(tasks[..|tasks| - 1], now, status) + (if ComputeStatus(last.dueAt, now) == status then [last] else [])
  }

  /** The positions of the tasks whose status is `status`. */
  function PositionsWithStatus(tasks: seq<Task>, now: int, status: Status): set<int> {
    set k | 0 <= k < |tasks| && ComputeStatus(tasks[k].dueAt, now) == status
  }

  /** Adding a task at the end adds its position exactly when it has the status. */
  lemma PositionsSnoc(tasks: seq<Task>, now: int, status: Status)
    requires tasks != []
    ensures var n := |tasks| - 1;
      PositionsWithStatus(tasks, now, status)
      == PositionsWithStatus(tasks[..n], now, status)
         + (if ComputeStatus(tasks[n].dueAt, now) == status then {n} else {})
  {
    var n := |tasks| - 1;
    assert forall k :: 0 <= k < n ==> tasks[..n][k] == tasks[k];
  }

  /** The filter keeps one task per position with the status, so its length counts those positions. */
  lemma {:induction false} FilterCountsPositions(tasks: seq<Task>, now: int, status: Status)
    ensures |FilterByStatus(tasks, now, status)| == |PositionsWithStatus(tasks, now, status)|
  {
    if tasks != [] {
      var n := |tasks| - 1;
      FilterCountsPositions(tasks[..n], now, status);
      PositionsSnoc(tasks, now, status);
      assert n !in PositionsWithStatus(tasks[..n], now, status);
    }
  }

  /** `countByStatus`: the number of tasks whose status is `status`. */
  function CountByStatus(tasks: seq<Task>, now: int, status: Status): (n: nat)
    ensures n <= |tasks|
    ensures n == |PositionsWithStatus(tasks, now, status)|
  {
    FilterCountsPositions(tasks, now, status);
    |FilterByStatus(tasks, now, status)|
  }

  /** Every task has exactly one status, so the three counts add up to the number of tasks. */
  lemma {:induction false} StatusCountsPartition(tasks: seq<Task>, now: int)
    ensures CountByStatus(tasks, now, Incoming) + CountByStatus(tasks, now, Warning)
            + CountByStatus(tasks, now, Dangerous) == |tasks|
  {
    if tasks != [] {
      StatusCountsPartition(tasks[..|tasks| - 1], now);
    }
  }

  lemma CountByStatusSnoc(tasks: seq<Task>, t: Task, now: int, status: Status)
    ensures CountByStatus(tasks + [t], now, status)
            == CountByStatus(tasks, now, status) + (if ComputeStatus(t.dueAt, now) == status then 1 else 0)
  {
    assert (tasks + [t])[..|tasks|] == tasks;
  }

  /** The number of tasks (counted with repetition) whose id is in `ids`. */
  function CountMembers(tasks: seq<Task>, ids: set<Id>): (n: nat)
    ensures n <= |tasks|
  {
    if tasks == [] then 0
    else CountMembers(tasks[..|tasks| - 1], ids) + (if tasks[|tasks| - 1].id in ids then 1 else 0)
  }

  lemma CountMembersSnoc(tasks: seq<Task>, t: Task, ids: set<Id>)
    ensures CountMembers(tasks + [t], ids) == CountMembers(tasks, ids) + (if t.id in ids then 1 else 0)
  {
    assert (tasks + [t])[..|tasks|] == tasks;
  }

  /** A list never carries more distinct ids than it has tasks. */
  lemma {:induction false} IdsBoundedByLength(tasks: seq<Task>)
    ensures |Ids(tasks)| <= |tasks|
  {
    if tasks != [] {
      var init := tasks[..|tasks| - 1];
      IdsBoundedByLength(init);
      assert Ids(tasks) == Ids(init) + {tasks[|tasks| - 1].id};
    }
  }

  /** With unique ids, counting the tasks that carry one of `ids` counts the ids present. */
  lemma {:induction false} CountMembersUnique(tasks: seq<Task>, ids: set<Id>)
    requires UniqueIds(tasks)
    ensures CountMembers(tasks, ids) == |ids * Ids(tasks)|
  {
    if tasks != [] {
      var init := tasks[..|tasks| - 1];
      var last := tasks[|tasks| - 1];
      assert tasks == init + [last];
      UniqueIdsAppend(init, [last]);
      IdsAppend(init, [last]);
      IdsSingleton(last);
      CountMembersUnique(init, ids);
      if last.id in ids {
        assert ids * Ids(tasks) == (ids * Ids(init)) + {last.id};
      } else {
        assert ids * Ids(tasks) == ids * Ids(init);
      }
    }
  }

  datatype TaskCounts = TaskCounts(incoming: nat, warning: nat, dangerous: nat, conflicting: nat, total: nat)

  /** The explicit options every caller of the detector passes: 48 hours, 45 minutes, weight 5. */
  const SummaryOptions: Conflict.ConflictOptions := Conflict.ConflictOptions(Some(48), Some(45), Some(5))

  /** One pass over the tasks, counting each status and the tasks flagged by the detector. */
  method CountTasksByStatus(tasks: seq<Task>, now: int) returns (counts: TaskCounts)
    ensures counts.incoming == CountByStatus(tasks, now, Incoming)
    ensures counts.warning == CountByStatus(tasks, now, Warning)
    ensures counts.dangerous == CountByStatus(tasks, now, Dangerous)
    ensures counts.conflicting == CountMembers(tasks, Conflict.ConflictSet(tasks, Conflict.DefaultPolicy))
    ensures counts.total == |tasks|
    ensures counts.incoming + counts.warning + counts.dangerous == counts.total
    ensures counts.conflicting <= counts.total
  {
    var conflictIds := Conflict.FindConflicts(tasks, SummaryOptions);
    var incoming, warning, dangerous, conflicting := 0, 0, 0, 0;
    for k := 0 to |tasks|
      invariant incoming == CountByStatus(tasks[..k], now, Incoming)
      invariant warning == CountByStatus(tasks[..k], now, Warning)
      invariant dangerous == CountByStatus(tasks[..k], now, Dangerous)
      invariant conflicting == CountMembers(tasks[..k], conflictIds)
    {
      assert tasks[..k + 1] == tasks[..k] + [tasks[k]];
      CountByStatusSnoc(tasks[..k], tasks[k], now, Incoming);
      CountByStatusSnoc(tasks[..k], tasks[k], now, Warning);
      CountByStatusSnoc(tasks[..k], tasks[k], now, Dangerous);
      CountMembersSnoc(tasks[..k], tasks[k], conflictIds);
      var status := ComputeStatus(tasks[k].dueAt, now);
      match status {
        case Incoming => incoming := incoming + 1;
        case Warning => warning := warning + 1;
        case Dangerous => dangerous := dangerous + 1;
      }
      if tasks[k].id in conflictIds {
        conflicting := conflicting + 1;
      }
    }
    assert tasks[..|tasks|] == tasks;
    StatusCountsPartition(tasks, now);
    assert conflicting <= |tasks|;
    counts := TaskCounts(incoming, warning, dangerous, conflicting, |tasks|);
  }

  /** The number of distinct ids the detector flags under the summary options. */
  method CountConflictingTasks(tasks: seq<Task>) returns (n: nat)
    ensures n == |Conflict.ConflictSet(tasks, Conflict.DefaultPolicy)|
    ensures n <= |tasks|
    ensures UniqueIds(tasks) ==> n == CountMembers(tasks, Conflict.ConflictSet(tasks, Conflict.DefaultPolicy))
  {
    var conflictIds := Conflict.FindConflicts(tasks, SummaryOptions);
    n := |conflictIds|;
    IdsBoundedByLength(tasks);
    Conflict.ConflictSetWithinIds(tasks, Conflict.DefaultPolicy);
    assert |conflictIds| <= |Ids(tasks)| by {
      SubsetCardinality(conflictIds, Ids(tasks));
    }
    if UniqueIds(tasks) {
      CountMembersUnique(tasks, conflictIds);
      assert conflictIds * Ids(tasks) == conflictIds;
    }
  }

  lemma SubsetCardinality(a: set<Id>, b: set<Id>)
    requires a <= b
    ensures |a| <= |b|
  {
    assert b == a + (b - a);
  }
}
