/** The task record shared by the store, the conflict detector and the counters. */
module TaskTypes {

  datatype Option<T> = None | Some(value: T)

  /** Task identifiers are opaque strings (UUIDs in the running system). */
  type Id = string

  datatype Priority = Low | Medium | High

  datatype TaskType = Work | School | Group | Club | Other

  /** A task. `dueAt` is the deadline already parsed to integer milliseconds since the epoch. */
  datatype Task = Task(
    id: Id,
    title: string,
    taskType: TaskType,
    dueAt: int,
    estimatedMins: int,
    priority: Priority
  )

  /** Milliseconds in one hour: the divisor `36e5` used throughout the source. */
  const MsPerHour: int := 3600000

  /** The ids carried by a list of tasks. */
  function Ids(tasks: seq<Task>): set<Id> {
    set k | 0 <= k < |tasks| :: tasks[k].id
  }

  /** No two tasks of the list share an id. */
  predicate UniqueIds(tasks: seq<Task>) {
    forall a, b :: 0 <= a < b < |tasks| ==> tasks[a].id != tasks[b].id
  }

  /** The ids of a concatenation are the ids of its parts. */
  lemma IdsAppend(a: seq<Task>, b: seq<Task>)
    ensures Ids(a + b) == Ids(a) + Ids(b)
  {
    forall x | x in Ids(a + b) ensures x in Ids(a) + Ids(b) {
      var k :| 0 <= k < |a + b| && (a + b)[k].id == x;
      if k < |a| {
        assert (a + b)[k] == a[k];
      } else {
        assert (a + b)[k] == b[k - |a|];
      }
    }
    forall x | x in Ids(a) ensures x in Ids(a + b) {
      var k :| 0 <= k < |a| && a[k].id == x;
      assert (a + b)[k] == a[k];
    }
    forall x | x in Ids(b) ensures x in Ids(a + b) {
      var k :| 0 <= k < |b| && b[k].id == x;
      assert (a + b)[|a| + k] == b[k];
    }
  }

  /** A one-task list carries exactly that task's id. */
  lemma IdsSingleton(t: Task)
    ensures Ids([t]) == {t.id}
  {
    assert [t][0] == t;
  }

  /** A concatenation has unique ids exactly when both parts do and they share no id. */
  lemma UniqueIdsAppend(a: seq<Task>, b: seq<Task>)
    ensures UniqueIds(a + b) <==> UniqueIds(a) && UniqueIds(b) && Ids(a) !! Ids(b)
  {
    if UniqueIds(a + b) {
      forall i, j | 0 <= i < j < |a| ensures a[i].id != a[j].id {
        assert (a + b)[i] == a[i] && (a + b)[j] == a[j];
      }
      forall i, j | 0 <= i < j < |b| ensures b[i].id != b[j].id {
        assert (a + b)[|a| + i] == b[i] && (a + b)[|a| + j] == b[j];
      }
      forall i, j | 0 <= i < |a| && 0 <= j < |b| ensures a[i].id != b[j].id {
        assert (a + b)[i] == a[i] && (a + b)[|a| + j] == b[j];
      }
    }
    if UniqueIds(a) && UniqueIds(b) && Ids(a) !! Ids(b) {
      forall i, j | 0 <= i < j < |a + b| ensures (a + b)[i].id != (a + b)[j].id {
        if j < |a| {
          assert (a + b)[i] == a[i] && (a + b)[j] == a[j];
        } else if i >= |a| {
          assert (a + b)[i] == b[i - |a|] && (a + b)[j] == b[j - |a|];
        } else {
          assert (a + b)[i] == a[i] && (a + b)[j] == b[j - |a|];
          assert a[i].id in Ids(a) && b[j - |a|].id in Ids(b);
        }
      }
    }
  }
}
