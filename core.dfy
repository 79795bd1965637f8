/**
 * The task model of the Eisenhower task tracker: tasks, their quadrant,
 * the ranking order, fresh ids, adding a task and marking tasks done.
 * Task lists are values; every operation returns a new list and leaves its
 * argument as it was.
 */
module Core {
  import opened Results
  import opened Builtins
  import Sorting

  datatype Importance = Low | High
  datatype Urgency = Low | High

  /** A task record; `done` is false when the task is created. */
  datatype Task = Task(id: int, title: string, importance: Importance, urgency: Urgency, done: bool)

  /** The error `mark_done` raises (a KeyError) when no task has the id. */
  datatype CoreError = NoTaskWithId(id: int)

  // ---------------------------------------------------------------------------
  // The string values of the two enumerations, and lookup by value

  function ImportanceLabel(i: Importance): string {
    match i
    case Low => "low"
    case High => "high"
  }

  function UrgencyLabel(u: Urgency): string {
    match u
    case Low => "low"
    case High => "high"
  }

  /** `Importance(s)`: the member whose value is exactly `s`, if any. */
  function ImportanceOf(s: string): (r: Option<Importance>)
    ensures r.Some? <==> s == "low" || s == "high"
    ensures r.Some? ==> ImportanceLabel(r.value) == s
  {
    if s == "low" then Some(Importance.Low)
    else if s == "high" then Some(Importance.High)
    else None
  }

  /** `Urgency(s)`: the member whose value is exactly `s`, if any. */
  function UrgencyOf(s: string): (r: Option<Urgency>)
    ensures r.Some? <==> s == "low" || s == "high"
    ensures r.Some? ==> UrgencyLabel(r.value) == s
  {
    if s == "low" then Some(Urgency.Low)
    else if s == "high" then Some(Urgency.High)
    else None
  }

  /** Lookup by value recognises exactly the two labels, case-sensitively, and inverts them. */
  lemma LabelsRoundTrip(i: Importance, u: Urgency, s: string)
    ensures ImportanceOf(ImportanceLabel(i)) == Some(i)
    ensures UrgencyOf(UrgencyLabel(u)) == Some(u)
    ensures ImportanceOf(s).Some? <==> s == "low" || s == "high"
    ensures UrgencyOf(s).Some? <==> s == "low" || s == "high"
    ensures ImportanceOf(s).Some? ==> ImportanceLabel(ImportanceOf(s).value) == s
    ensures UrgencyOf(s).Some? ==> UrgencyLabel(UrgencyOf(s).value) == s
  {
  }

  // ---------------------------------------------------------------------------
  // Quadrants

  /** The Eisenhower quadrant, 1 (important and urgent) to 4 (neither). */
  function Quadrant(t: Task): (q: int)
    ensures 1 <= q <= 4
    ensures q == 1 + (if t.importance == Importance.Low then 2 else 0)
                   + (if t.urgency == Urgency.Low then 1 else 0)
  {
    var impHigh := t.importance == Importance.High;
    var urgHigh := t.urgency == Urgency.High;
    if impHigh && urgHigh then 1
    else if impHigh && !urgHigh then 2
    else if !impHigh && urgHigh then 3
    else 4
  }

  /** The four buckets are distinct: the quadrant determines importance and urgency. */
  lemma QuadrantClassifies(a: Task, b: Task)
    ensures Quadrant(a) == Quadrant(b) <==> a.importance == b.importance && a.urgency == b.urgency
  {
  }

  // ---------------------------------------------------------------------------
  // The ranking order: (done, quadrant, lower-cased title), compared as a
  // Python tuple

  datatype SortKey = SortKey(done: bool, quadrant: int, title: string)

  function Key(t: Task): SortKey {
    SortKey(t.done, Quadrant(t), Lower(t.title))
  }

  predicate KeyLess(a: SortKey, b: SortKey) {
    || (!a.done && b.done)
    || (a.done == b.done && a.quadrant < b.quadrant)
    || (a.done == b.done && a.quadrant == b.quadrant && StrLess(a.title, b.title))
  }

  predicate KeyLeq(a: SortKey, b: SortKey) {
    a == b || KeyLess(a, b)
  }

  /** KeyLeq is a total order on keys. */
  lemma KeyLeqTotalOrder(a: SortKey, b: SortKey, c: SortKey)
    ensures KeyLeq(a, b) || KeyLeq(b, a)
    ensures KeyLeq(a, b) && KeyLeq(b, a) ==> a == b
    ensures KeyLeq(a, b) && KeyLeq(b, c) ==> KeyLeq(a, c)
  {
    StrLessTrichotomy(a.title, b.title);
    StrLessIrreflexive(a.title);
    if KeyLess(a, b) && KeyLess(b, c) && a.done == c.done && a.quadrant == c.quadrant {
      StrLessTransitive(a.title, b.title, c.title);
    }
  }

  /** `sorted` compares two tasks by their keys. */
  predicate Ranks(a: Task, b: Task) {
    KeyLeq(Key(a), Key(b))
  }

  lemma RanksTotalPreorder()
    ensures Sorting.TotalPreorder(Ranks)
  {
    forall a, b ensures Ranks(a, b) || Ranks(b, a) {
      KeyLeqTotalOrder(Key(a), Key(b), Key(a));
    }
    forall a, b, c | Ranks(a, b) && Ranks(b, c) ensures Ranks(a, c) {
      KeyLeqTotalOrder(Key(a), Key(b), Key(c));
    }
  }

  /*
   * SortedByKey and WithKey say in terms of the key tuple what
   * Sorting.SortedBy and Sorting.Peers say for any comparison; the lemmas
   * about sorted_tasks are stated with them, and PeersAreWithKey and
   * SortedTasks carry the generic results over.
   */
  ghost predicate SortedByKey(s: seq<Task>) {
    forall i, j :: 0 <= i < j < |s| ==> KeyLeq(Key(s[i]), Key(s[j]))
  }

  /** The tasks of `s` whose key is `k`, in their order in `s`. */
  function WithKey(s: seq<Task>, k: SortKey): seq<Task>
    decreases |s|
  {
    if s == [] then []
    else (if Key(s[0]) == k then [s[0]] else []) + WithKey(s[1..], k)
  }

  /** Under Ranks, the peers of `x` are exactly the tasks with the key of `x`. */
  lemma {:induction false} PeersAreWithKey(s: seq<Task>, x: Task)
    ensures Sorting.Peers(s, x, Ranks) == WithKey(s, Key(x))
    decreases |s|
  {
    if s != [] {
      KeyLeqTotalOrder(Key(s[0]), Key(x), Key(s[0]));
      PeersAreWithKey(s[1..], x);
    }
  }

  /**
   * `sorted_tasks`: a new list ordered by (done, quadrant, lower-cased title),
   * holding the same tasks as the input.
   */
  function SortedTasks(ts: seq<Task>): (r: seq<Task>)
    ensures multiset(r) == multiset(ts) && |r| == |ts|
    ensures SortedByKey(r)
  {
    RanksTotalPreorder();
    var r := Sorting.Sort(ts, Ranks);
    assert Sorting.SortedBy(r, Ranks);
    r
  }

  /** Python's `sorted` is stable: tasks with equal keys keep their input order. */
  lemma SortedTasksStable(ts: seq<Task>, x: Task)
    ensures WithKey(SortedTasks(ts), Key(x)) == WithKey(ts, Key(x))
  {
    RanksTotalPreorder();
    Sorting.SortStable(ts, x, Ranks);
    PeersAreWithKey(SortedTasks(ts), x);
    PeersAreWithKey(ts, x);
  }

  /** The meaning of the order: open tasks first, then by quadrant, then by lower-cased title. */
  lemma SortedTasksOrder(ts: seq<Task>, i: int, j: int)
    requires 0 <= i < j < |SortedTasks(ts)|
    ensures var r := SortedTasks(ts);
      && (r[i].done ==> r[j].done)
      && (r[i].done == r[j].done ==> Quadrant(r[i]) <= Quadrant(r[j]))
      && (r[i].done == r[j].done && Quadrant(r[i]) == Quadrant(r[j]) ==>
            Lower(r[i].title) == Lower(r[j].title) || StrLess(Lower(r[i].title), Lower(r[j].title)))
  {
  }

  /**
   * Sortedness and stability pin the result down: any arrangement that is
   * sorted by key and keeps each key's tasks of `ts` in input order is
   * SortedTasks(ts), whichever stable sort produced it.
   */
  lemma SortedTasksUnique(ts: seq<Task>, r: seq<Task>)
    requires SortedByKey(r)
    requires forall x :: WithKey(r, Key(x)) == WithKey(ts, Key(x))
    ensures r == SortedTasks(ts)
  {
    RanksTotalPreorder();
    forall z ensures Sorting.Peers(r, z, Ranks) == Sorting.Peers(ts, z, Ranks) {
      PeersAreWithKey(r, z);
      PeersAreWithKey(ts, z);
    }
    assert Sorting.SortedBy(r, Ranks);
    Sorting.SortUnique(ts, r, Ranks);
  }


  /** The tasks of a four-element list with key `k`, read off position by position. */
  lemma WithKeyOfFour(a: Task, b: Task, c: Task, d: Task, k: SortKey)
    ensures WithKey([a, b, c, d], k) ==
      (if Key(a) == k then [a] else []) + ((if Key(b) == k then [b] else []) +
      ((if Key(c) == k then [c] else []) + (if Key(d) == k then [d] else [])))
  {
    WithKeyCons(d, [], k);
    WithKeyCons(c, [d], k);
    WithKeyCons(b, [c, d], k);
    WithKeyCons(a, [b, c, d], k);
  }

  lemma WithKeyCons(t: Task, s: seq<Task>, k: SortKey)
    ensures WithKey([t] + s, k) == (if Key(t) == k then [t] else []) + WithKey(s, k)
  {
    assert ([t] + s)[1..] == s;
  }

  /** The ranking scenario of the test suite: open tasks by quadrant and title, the done task last. */
  lemma SortedTasksExample()
    ensures var ts := [Task(10, "zzz", Importance.High, Urgency.High, true),
                       Task(11, "b", Importance.High, Urgency.High, false),
                       Task(12, "a", Importance.High, Urgency.High, false),
                       Task(13, "x", Importance.Low, Urgency.Low, false)];
      SortedTasks(ts) == [ts[2], ts[1], ts[3], ts[0]]
  {
    var zzz, b := Task(10, "zzz", Importance.High, Urgency.High, true), Task(11, "b", Importance.High, Urgency.High, false);
    var a, x := Task(12, "a", Importance.High, Urgency.High, false), Task(13, "x", Importance.Low, Urgency.Low, false);
    var ts, r := [zzz, b, a, x], [a, b, x, zzz];
    assert Key(zzz).done && !Key(b).done && !Key(a).done && !Key(x).done;
    assert Key(a).quadrant == Key(b).quadrant == 1 && Key(x).quadrant == 4;
    assert Key(a).title == "a" && Key(b).title == "b" && StrLess("a", "b");
    assert SortedByKey(r);
    forall y ensures WithKey(r, Key(y)) == WithKey(ts, Key(y)) {
      WithKeyOfFour(a, b, x, zzz, Key(y));
      WithKeyOfFour(zzz, b, a, x, Key(y));
    }
    SortedTasksUnique(ts, r);
  }

  // ---------------------------------------------------------------------------
  // Ids

  /** `max(t.id for t in ts)`. */
  function MaxId(ts: seq<Task>): (m: int)
    requires ts != []
    ensures forall i :: 0 <= i < |ts| ==> ts[i].id <= m
    ensures exists i :: 0 <= i < |ts| && ts[i].id == m
    decreases |ts|
  {
    if |ts| == 1 then ts[0].id
    else
      var m' := MaxId(ts[1..]);
      assert exists i :: 1 <= i < |ts| && ts[i].id == m' by {
        var i :| 0 <= i < |ts[1..]| && ts[1..][i].id == m';
        assert ts[i + 1].id == m';
      }
      if ts[0].id >= m' then ts[0].id else m'
  }

  /**
   * `next_id`: one more than the largest id, or 1 for an empty list; it
   * exceeds every id in the list and is the least integer that does.
   */
  function NextId(ts: seq<Task>): (r: int)
    ensures forall i :: 0 <= i < |ts| ==> ts[i].id < r
    ensures ts == [] ==> r == 1
    ensures ts != [] ==> exists i :: 0 <= i < |ts| && ts[i].id == r - 1
  {
    (if ts == [] then 0 else MaxId(ts)) + 1
  }

  ghost predicate UniqueIds(ts: seq<Task>) {
    forall i, j :: 0 <= i < j < |ts| ==> ts[i].id != ts[j].id
  }

  // ---------------------------------------------------------------------------
  // Adding a task

  /** `add_task`: a copy of `ts` with a new, open task under a fresh id at the end. */
  function AddTask(ts: seq<Task>, title: string, importance: Importance, urgency: Urgency): (r: seq<Task>)
    ensures |r| == |ts| + 1 && r[..|ts|] == ts
    ensures r[|ts|].title == title && r[|ts|].importance == importance && r[|ts|].urgency == urgency
    ensures !r[|ts|].done
    ensures forall i :: 0 <= i < |ts| ==> ts[i].id < r[|ts|].id
  {
    ts + [Task(NextId(ts), title, importance, urgency, false)]
  }

  /** Adding keeps ids pairwise distinct. */
  lemma AddTaskKeepsIdsUnique(ts: seq<Task>, title: string, importance: Importance, urgency: Urgency)
    requires UniqueIds(ts)
    ensures UniqueIds(AddTask(ts, title, importance, urgency))
  {
    var r := AddTask(ts, title, importance, urgency);
    forall i, j | 0 <= i < j < |r| ensures r[i].id != r[j].id {
      if j < |ts| {
        assert r[i] == ts[i] && r[j] == ts[j];
      } else {
        assert r[i] == ts[i];
      }
    }
  }

  /** Ids are never reused: after an add, the next id is one larger. */
  lemma AddTaskAdvancesNextId(ts: seq<Task>, title: string, importance: Importance, urgency: Urgency)
    ensures AddTask(ts, title, importance, urgency)[|ts|].id == NextId(ts)
    ensures NextId(AddTask(ts, title, importance, urgency)) == NextId(ts) + 1
  {
    var r := AddTask(ts, title, importance, urgency);
    assert r[|ts|].id == NextId(ts);
    var i :| 0 <= i < |r| && r[i].id == NextId(r) - 1;
    assert r[i].id <= NextId(ts) by {
      if i < |ts| { assert r[i] == ts[i]; }
    }
  }

  /** Two adds to an empty list give ids 1 and 2, in insertion order. */
  lemma AddTwiceFromEmpty(t0: string, t1: string)
    ensures var r := AddTask(AddTask([], t0, Importance.High, Urgency.High), t1, Importance.Low, Urgency.Low);
      |r| == 2 && r[0].id == 1 && r[1].id == 2
  {
    var r1 := AddTask([], t0, Importance.High, Urgency.High);
    AddTaskAdvancesNextId([], t0, Importance.High, Urgency.High);
    assert r1[0].id == 1;
    AddTaskAdvancesNextId(r1, t1, Importance.Low, Urgency.Low);
  }

  // ---------------------------------------------------------------------------
  // Marking tasks done

  function MarkOne(t: Task, taskId: int): Task {
    if t.id == taskId then t.(done := true) else t
  }

  /** Every task with id `taskId` marked done, every other task as it was. */
  function MarkedDone(ts: seq<Task>, taskId: int): (r: seq<Task>)
    ensures |r| == |ts|
    ensures forall i :: 0 <= i < |ts| ==> r[i] == MarkOne(ts[i], taskId)
    decreases |ts|
  {
    if ts == [] then [] else [MarkOne(ts[0], taskId)] + MarkedDone(ts[1..], taskId)
  }

  predicate HasTask(ts: seq<Task>, taskId: int) {
    exists i :: 0 <= i < |ts| && ts[i].id == taskId
  }

  /** What `mark_done` returns or raises. */
  function MarkDoneResult(ts: seq<Task>, taskId: int): Result<seq<Task>, CoreError> {
    if HasTask(ts, taskId) then Ok(MarkedDone(ts, taskId)) else Err(NoTaskWithId(taskId))
  }

  /** `mark_done`: builds the new list in one pass with a `found` flag. */
  method MarkDone(ts: seq<Task>, taskId: int) returns (r: Result<seq<Task>, CoreError>)
    ensures r == MarkDoneResult(ts, taskId)
  {
    var updated: seq<Task> := [];
    var found := false;
    for k := 0 to |ts|
      invariant |updated| == k
      invariant forall i :: 0 <= i < k ==> updated[i] == MarkOne(ts[i], taskId)
      invariant found <==> exists i :: 0 <= i < k && ts[i].id == taskId
    {
      var t := ts[k];
      if t.id == taskId {
        updated := updated + [t.(done := true)];
        found := true;
      } else {
        updated := updated + [t];
      }
    }
    if !found {
      return Err(NoTaskWithId(taskId));
    }
    assert updated == MarkedDone(ts, taskId);
    return Ok(updated);
  }

  /** The not-found error is raised exactly when no task carries the id. */
  lemma MarkDoneFailsIffAbsent(ts: seq<Task>, taskId: int)
    ensures MarkDoneResult(ts, taskId).Err? <==> forall i :: 0 <= i < |ts| ==> ts[i].id != taskId
    ensures MarkDoneResult(ts, taskId).Err? ==> MarkDoneResult(ts, taskId).error == NoTaskWithId(taskId)
  {
  }

  /**
   * On success, positions, ids, titles, importance and urgency are kept;
   * matching tasks become done, others are unchanged; nothing is un-done.
   */
  lemma MarkDonePreserves(ts: seq<Task>, taskId: int)
    requires MarkDoneResult(ts, taskId).Ok?
    ensures var r := MarkDoneResult(ts, taskId).value;
      && |r| == |ts|
      && (forall i :: 0 <= i < |ts| ==>
            && r[i].id == ts[i].id && r[i].title == ts[i].title
            && r[i].importance == ts[i].importance && r[i].urgency == ts[i].urgency
            && r[i].done == (ts[i].done || ts[i].id == taskId))
      && (forall i :: 0 <= i < |ts| && ts[i].id != taskId ==> r[i] == ts[i])
  {
  }

  /** Marking the same id twice is the same as marking it once. */
  lemma MarkDoneIdempotent(ts: seq<Task>, taskId: int)
    requires MarkDoneResult(ts, taskId).Ok?
    ensures MarkDoneResult(MarkDoneResult(ts, taskId).value, taskId) == MarkDoneResult(ts, taskId)
  {
    var r := MarkedDone(ts, taskId);
    var i :| 0 <= i < |ts| && ts[i].id == taskId;
    assert r[i].id == taskId;
    assert MarkedDone(r, taskId) == r;
  }

  /** Marking done keeps ids pairwise distinct. */
  lemma MarkDoneKeepsIdsUnique(ts: seq<Task>, taskId: int)
    requires UniqueIds(ts) && MarkDoneResult(ts, taskId).Ok?
    ensures UniqueIds(MarkDoneResult(ts, taskId).value)
  {
    var r := MarkedDone(ts, taskId);
    assert forall i :: 0 <= i < |ts| ==> r[i].id == ts[i].id;
  }

  /** Marking id 1 of [1 (low/low), 2 (high/high)] marks position 0 only, whatever the ranking. */
  lemma MarkDoneByIdNotByRank()
    ensures var ts := AddTask(AddTask([], "lowlow", Importance.Low, Urgency.Low), "highhigh", Importance.High, Urgency.High);
      var r := MarkDoneResult(ts, 1);
      && r.Ok? && |r.value| == 2
      && r.value[0].id == 1 && r.value[0].done
      && r.value[1].id == 2 && !r.value[1].done
  {
    var ts := AddTask(AddTask([], "lowlow", Importance.Low, Urgency.Low), "highhigh", Importance.High, Urgency.High);
    assert ts[0].id == 1 && ts[1].id == 2 by {
      var t0 := AddTask([], "lowlow", Importance.Low, Urgency.Low);
      AddTaskAdvancesNextId([], "lowlow", Importance.Low, Urgency.Low);
      AddTaskAdvancesNextId(t0, "highhigh", Importance.High, Urgency.High);
    }
    assert HasTask(ts, 1);
  }
}
