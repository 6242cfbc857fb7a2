/** The conflict detector: which tasks take part in a risky pairing with another task. */
module Conflict {
  import opened TaskTypes

  /** The weight of a priority in the combined-importance test. */
  function PriorityWeight(p: Priority): (w: int)
    ensures 1 <= w <= 3
    ensures w == 3 <==> p == High
    ensures w == 1 <==> p == Low
  {
    match p
    case High => 3
    case Medium => 2
    case Low => 1
  }

  /** The caller's options; `None` is an option left out of the object. */
  datatype ConflictOptions = ConflictOptions(
    windowHours: Option<int>,
    minHeavyMins: Option<int>,
    minPrioritySum: Option<int>
  )

  /** The thresholds actually used by one detection call. */
  datatype Policy = Policy(windowHours: int, minHeavyMins: int, minPrioritySum: int)

  /** The thresholds every caller in the application passes explicitly. */
  const DefaultPolicy: Policy := Policy(48, 45, 5)

  /** Missing options take their defaults; supplied ones (zero and negative included) are kept. */
  function ResolveOptions(opts: ConflictOptions): (p: Policy)
    ensures p.windowHours == (if opts.windowHours.Some? then opts.windowHours.value else 48)
    ensures p.minHeavyMins == (if opts.minHeavyMins.Some? then opts.minHeavyMins.value else 45)
    ensures p.minPrioritySum == (if opts.minPrioritySum.Some? then opts.minPrioritySum.value else 5)
  {
    Policy(
      match opts.windowHours case Some(w) => w case None => 48,
      match opts.minHeavyMins case Some(h) => h case None => 45,
      match opts.minPrioritySum case Some(s) => s case None => 5)
  }

  function Max(a: int, b: int): int {
    if a >= b then a else b
  }

  /** The distance between two deadlines, in milliseconds. */
  function Gap(a: Task, b: Task): nat {
    if a.dueAt <= b.dueAt then b.dueAt - a.dueAt else a.dueAt - b.dueAt
  }

  predicate WithinWindow(a: Task, b: Task, p: Policy) {
    Gap(a, b) <= p.windowHours * MsPerHour
  }

  predicate Heavy(a: Task, b: Task, p: Policy) {
    Max(a.estimatedMins, b.estimatedMins) >= p.minHeavyMins
  }

  predicate Important(a: Task, b: Task, p: Policy) {
    PriorityWeight(a.priority) + PriorityWeight(b.priority) >= p.minPrioritySum
  }

  /** Two deadlines close together, and jointly heavy or jointly important. */
  predicate RiskyPair(a: Task, b: Task, p: Policy) {
    WithinWindow(a, b, p) && (Heavy(a, b, p) || Important(a, b, p))
  }

  /** Some other task of the list (another position, not necessarily another id) pairs riskily with task k. */
  predicate HasPartner(s: seq<Task>, k: int, p: Policy)
    requires 0 <= k < |s|
  {
    exists m :: 0 <= m < |s| && m != k && RiskyPair(s[k], s[m], p)
  }

  /** The ids of the tasks at position k or later that have a risky partner. */
  function ConflictIdsFrom(s: seq<Task>, p: Policy, k: nat): set<Id>
    decreases |s| - k
  {
    if k >= |s| then {}
    else (if HasPartner(s, k, p) then {s[k].id} else {}) + ConflictIdsFrom(s, p, k + 1)
  }

  /** The specification of the detector: the ids of the tasks that have a risky partner. */
  function ConflictSet(s: seq<Task>, p: Policy): set<Id> {
    ConflictIdsFrom(s, p, 0)
  }

  lemma {:induction false} ConflictIdsFromMembership(s: seq<Task>, p: Policy, k: nat, x: Id)
    ensures x in ConflictIdsFrom(s, p, k) <==> exists i :: k <= i < |s| && HasPartner(s, i, p) && s[i].id == x
    decreases |s| - k
  {
    if k < |s| {
      ConflictIdsFromMembership(s, p, k + 1, x);
    }
  }

  /** An id is flagged exactly when some task carrying it has a risky partner. */
  lemma ConflictSetMembership(s: seq<Task>, p: Policy, x: Id)
    ensures x in ConflictSet(s, p) <==> exists k :: 0 <= k < |s| && HasPartner(s, k, p) && s[k].id == x
  {
    ConflictIdsFromMembership(s, p, 0, x);
  }

  /** Only ids of input tasks are flagged. */
  lemma ConflictSetWithinIds(s: seq<Task>, p: Policy)
    ensures ConflictSet(s, p) <= Ids(s)
  {
    forall x | x in ConflictSet(s, p) ensures x in Ids(s) {
      ConflictSetMembership(s, p, x);
    }
  }

  /** Fewer than two tasks (the empty list included) means nothing is flagged. */
  lemma ConflictSetOfFewerThanTwo(s: seq<Task>, p: Policy)
    requires |s| < 2
    ensures ConflictSet(s, p) == {}
  {
    forall x | x in ConflictSet(s, p) ensures false {
      ConflictSetMembership(s, p, x);
    }
  }

  // ---------------------------------------------------------------------------
  // Sorting a copy by deadline

  /** Each task is due no later than the next one. */
  predicate SortedByDue(s: seq<Task>) {
    |s| < 2 || (s[0].dueAt <= s[1].dueAt && SortedByDue(s[1..]))
  }

  /** In a sorted list, deadlines never decrease from one position to a later one. */
  lemma {:induction false} SortedAt(s: seq<Task>, a: int, b: int)
    requires SortedByDue(s)
    requires 0 <= a <= b < |s|
    ensures s[a].dueAt <= s[b].dueAt
  {
    if a < b {
      SortedAt(s[1..], if a == 0 then 0 else a - 1, b - 1);
      if a == 0 {
        assert s[1].dueAt <= s[b].dueAt;
      }
    }
  }

  /** Inserts t before the first task that is not due earlier than it. */
  function InsertByDue(t: Task, s: seq<Task>): (r: seq<Task>)
    requires SortedByDue(s)
    ensures SortedByDue(r)
    ensures multiset(r) == multiset(s) + multiset{t}
    ensures r[0] == t || (s != [] && r[0] == s[0])
  {
    if s == [] || t.dueAt <= s[0].dueAt then
      [t] + s
    else
      assert s == [s[0]] + s[1..];
      [s[0]] + InsertByDue(t, s[1..])
  }

  /** The sorted copy the detector scans: ascending deadlines, same tasks. */
  function SortByDue(s: seq<Task>): (r: seq<Task>)
    ensures SortedByDue(r)
    ensures multiset(r) == multiset(s)
  {
    if s == [] then []
    else
      assert s == [s[0]] + s[1..];
      InsertByDue(s[0], SortByDue(s[1..]))
  }

  // ---------------------------------------------------------------------------
  // The scan

  /** The ids flagged while pairing task a with the later tasks a + 1 .. b - 1. */
  ghost function RowIds(s: seq<Task>, p: Policy, a: nat, b: nat): set<Id>
    requires a < |s| && b <= |s|
  {
    if b <= a + 1 then {}
    else RowIds(s, p, a, b - 1) + (if RiskyPair(s[a], s[b - 1], p) then {s[a].id, s[b - 1].id} else {})
  }

  /** The ids flagged by the complete rows of tasks 0 .. i - 1. */
  ghost function RowsIds(s: seq<Task>, p: Policy, i: nat): set<Id>
    requires i <= |s|
  {
    if i == 0 then {} else RowsIds(s, p, i - 1) + RowIds(s, p, i - 1, |s|)
  }

  /** Within the window, a pair of the row is flagged exactly when it is heavy or important. */
  lemma RowStep(s: seq<Task>, p: Policy, a: nat, j: nat)
    requires SortedByDue(s)
    requires a < j < |s|
    requires s[j].dueAt - s[a].dueAt <= p.windowHours * MsPerHour
    ensures RowIds(s, p, a, j + 1) ==
      RowIds(s, p, a, j) + (if Heavy(s[a], s[j], p) || Important(s[a], s[j], p) then {s[a].id, s[j].id} else {})
  {
    SortedAt(s, a, j);
  }

  /**
   * The early break: in a sorted list, once task j is too far after task a, so is every later
   * task, so the rest of the row flags nothing.
   */
  lemma {:induction false} RowTail(s: seq<Task>, p: Policy, a: nat, j: nat, b: nat)
    requires SortedByDue(s)
    requires a < j <= b <= |s| && j < |s|
    requires s[j].dueAt - s[a].dueAt > p.windowHours * MsPerHour
    ensures RowIds(s, p, a, b) == RowIds(s, p, a, j)
    decreases b
  {
    if b > j {
      RowTail(s, p, a, j, b - 1);
      SortedAt(s, j, b - 1);
      assert !RiskyPair(s[a], s[b - 1], p);
    }
  }

  lemma {:induction false} RowIdsMembership(s: seq<Task>, p: Policy, a: nat, b: nat, x: Id)
    requires a < |s| && b <= |s|
    ensures x in RowIds(s, p, a, b) <==>
      exists c :: a < c < b && RiskyPair(s[a], s[c], p) && (x == s[a].id || x == s[c].id)
    decreases b
  {
    if b > a + 1 {
      RowIdsMembership(s, p, a, b - 1, x);
    }
  }

  lemma {:induction false} RowsIdsMembership(s: seq<Task>, p: Policy, i: nat, x: Id)
    requires i <= |s|
    ensures x in RowsIds(s, p, i) <==>
      exists a, c :: 0 <= a < i && a < c < |s| && RiskyPair(s[a], s[c], p) && (x == s[a].id || x == s[c].id)
  {
    if i > 0 {
      RowsIdsMembership(s, p, i - 1, x);
      RowIdsMembership(s, p, i - 1, |s|, x);
    }
  }

  lemma RiskyPairSymmetric(a: Task, b: Task, p: Policy)
    ensures RiskyPair(a, b, p) == RiskyPair(b, a, p)
  {
  }

  /** Once every row has been scanned, the flagged ids are exactly the specification's. */
  lemma ScanComplete(s: seq<Task>, p: Policy)
    ensures RowsIds(s, p, |s|) == ConflictSet(s, p)
  {
    forall x | x in RowsIds(s, p, |s|) ensures x in ConflictSet(s, p) {
      RowsIdsMembership(s, p, |s|, x);
      var a, c :| 0 <= a < |s| && a < c < |s| && RiskyPair(s[a], s[c], p) && (x == s[a].id || x == s[c].id);
      RiskyPairSymmetric(s[a], s[c], p);
      ConflictSetMembership(s, p, x);
      if x == s[a].id {
        assert HasPartner(s, a, p);
      } else {
        assert HasPartner(s, c, p);
      }
    }
    forall x | x in ConflictSet(s, p) ensures x in RowsIds(s, p, |s|) {
      ConflictSetMembership(s, p, x);
      RowsIdsMembership(s, p, |s|, x);
      var k :| 0 <= k < |s| && HasPartner(s, k, p) && s[k].id == x;
      var m :| 0 <= m < |s| && m != k && RiskyPair(s[k], s[m], p);
      RiskyPairSymmetric(s[k], s[m], p);
      if k < m {
        assert 0 <= k < |s| && k < m < |s| && RiskyPair(s[k], s[m], p);
      } else {
        assert 0 <= m < |s| && m < k < |s| && RiskyPair(s[m], s[k], p);
      }
    }
  }

  // ---------------------------------------------------------------------------
  // The detector does not depend on the order of its input

  lemma {:induction false} DistinctPositionsInMultiset(s: seq<Task>, k: int, m: int)
    requires 0 <= k < |s| && 0 <= m < |s| && k != m
    ensures s[k] in multiset(s) && s[m] in multiset(s) - multiset{s[k]}
  {
    var rest := s[..k] + s[k + 1..];
    assert s == s[..k] + [s[k]] + s[k + 1..];
    assert multiset(s) == multiset(rest) + multiset{s[k]};
    if m < k {
      assert rest[m] == s[m];
    } else {
      assert rest[m - 1] == s[m];
    }
    assert s[m] in rest;
  }

  lemma {:induction false} DistinctPositionsFromMultiset(s: seq<Task>, t: Task, u: Task)
    requires t in multiset(s) && u in multiset(s) - multiset{t}
    ensures exists k, m :: 0 <= k < |s| && 0 <= m < |s| && k != m && s[k] == t && s[m] == u
  {
    var k :| 0 <= k < |s| && s[k] == t;
    var rest := s[..k] + s[k + 1..];
    assert s == s[..k] + [s[k]] + s[k + 1..];
    assert multiset(s) == multiset(rest) + multiset{t};
    assert u in multiset(rest);
    var q :| 0 <= q < |rest| && rest[q] == u;
    var m := if q < k then q else q + 1;
    assert s[m] == u;
  }

  lemma ConflictSetSubsetOfPermutation(s: seq<Task>, r: seq<Task>, p: Policy)
    requires multiset(s) == multiset(r)
    ensures ConflictSet(s, p) <= ConflictSet(r, p)
  {
    forall x | x in ConflictSet(s, p) ensures x in ConflictSet(r, p) {
      ConflictSetMembership(s, p, x);
      ConflictSetMembership(r, p, x);
      var k :| 0 <= k < |s| && HasPartner(s, k, p) && s[k].id == x;
      var m :| 0 <= m < |s| && m != k && RiskyPair(s[k], s[m], p);
      DistinctPositionsInMultiset(s, k, m);
      DistinctPositionsFromMultiset(r, s[k], s[m]);
      var k', m' :| 0 <= k' < |r| && 0 <= m' < |r| && k' != m' && r[k'] == s[k] && r[m'] == s[m];
      assert HasPartner(r, k', p);
    }
  }

  /** Reordering the task list does not change the flagged ids. */
  lemma ConflictSetPermutation(s: seq<Task>, r: seq<Task>, p: Policy)
    requires multiset(s) == multiset(r)
    ensures ConflictSet(s, p) == ConflictSet(r, p)
  {
    ConflictSetSubsetOfPermutation(s, r, p);
    ConflictSetSubsetOfPermutation(r, s, p);
  }

  /** A full scan of a reordering of the input yields the specification's set for the input. */
  lemma ScanResult(sorted: seq<Task>, tasks: seq<Task>, p: Policy)
    requires multiset(sorted) == multiset(tasks)
    ensures RowsIds(sorted, p, |sorted|) == ConflictSet(tasks, p)
    ensures |tasks| < 2 ==> ConflictSet(tasks, p) == {}
  {
    ScanComplete(sorted, p);
    ConflictSetPermutation(sorted, tasks, p);
    if |tasks| < 2 {
      ConflictSetOfFewerThanTwo(tasks, p);
    }
  }

  // ---------------------------------------------------------------------------
  // The detector

  /**
   * Sorts a copy by deadline, then for each task scans the later ones until the deadline gap
   * exceeds the window, adding both ids of every risky pair.
   */
  method FindConflicts(tasks: seq<Task>, opts: ConflictOptions) returns (ids: set<Id>)
    ensures ids == ConflictSet(tasks, ResolveOptions(opts))
    ensures |tasks| < 2 ==> ids == {}
  {
    var p := ResolveOptions(opts);
    var windowHours, minHeavyMins, minPrioritySum := p.windowHours, p.minHeavyMins, p.minPrioritySum;

    var sorted := SortByDue(tasks);
    ids := {};
    var i := 0;
    while i < |sorted|
      invariant 0 <= i <= |sorted|
      invariant ids == RowsIds(sorted, p, i)
    {
      var j := i + 1;
      while j < |sorted|
        invariant i + 1 <= j <= |sorted|
        invariant ids == RowsIds(sorted, p, i) + RowIds(sorted, p, i, j)
      {
        var deltaMs := sorted[j].dueAt - sorted[i].dueAt;
        if deltaMs > windowHours * MsPerHour {
          RowTail(sorted, p, i, j, |sorted|);
          break;
        }
        var heavy := Max(sorted[i].estimatedMins, sorted[j].estimatedMins) >= minHeavyMins;
        var prioritySum := PriorityWeight(sorted[i].priority) + PriorityWeight(sorted[j].priority);
        var important := prioritySum >= minPrioritySum;
        RowStep(sorted, p, i, j);
        if heavy || important {
          ids := ids + {sorted[i].id, sorted[j].id};
        }
        j := j + 1;
      }
      i := i + 1;
    }
    ScanResult(sorted, tasks, p);
  }

  // ---------------------------------------------------------------------------
  // Properties of the specification

  /** Whenever a pair is risky, both of its ids are flagged. */
  lemma ConflictSymmetric(s: seq<Task>, p: Policy, k: int, m: int)
    requires 0 <= k < |s| && 0 <= m < |s| && k != m
    requires RiskyPair(s[k], s[m], p)
    ensures s[k].id in ConflictSet(s, p) && s[m].id in ConflictSet(s, p)
  {
    RiskyPairSymmetric(s[k], s[m], p);
    assert HasPartner(s, k, p);
    assert HasPartner(s, m, p);
    ConflictSetMembership(s, p, s[k].id);
    ConflictSetMembership(s, p, s[m].id);
  }

  /** Widening the window or lowering either threshold never removes an id. */
  lemma ConflictSetMonotone(s: seq<Task>, p: Policy, q: Policy)
    requires p.windowHours <= q.windowHours
    requires q.minHeavyMins <= p.minHeavyMins
    requires q.minPrioritySum <= p.minPrioritySum
    ensures ConflictSet(s, p) <= ConflictSet(s, q)
  {
    forall x | x in ConflictSet(s, p) ensures x in ConflictSet(s, q) {
      ConflictSetMembership(s, p, x);
      ConflictSetMembership(s, q, x);
      var k :| 0 <= k < |s| && HasPartner(s, k, p) && s[k].id == x;
      var m :| 0 <= m < |s| && m != k && RiskyPair(s[k], s[m], p);
      assert RiskyPair(s[k], s[m], q);
      assert HasPartner(s, k, q);
    }
  }
}
