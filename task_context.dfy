/**
 * The client's task records and the pure list updates that the task provider
 * hands to `setTasks`, together with the `filteredTasks` derivation
 * (client/src/context/task-context.tsx).
 */
module TaskContext {
  import opened Wrappers

  datatype TaskCategory = Work | Personal | Urgent

  /** `createdAt` is the timestamp in milliseconds that `Date.getTime()` returns. */
  datatype Task = Task(
    id: string,
    title: string,
    description: string,
    completed: bool,
    category: TaskCategory,
    createdAt: int)

  datatype TaskFilter = All | Completed | Pending

  /** What `addTask` receives: a task without its id and its timestamp. */
  datatype TaskInput = TaskInput(title: string, description: string, completed: bool, category: TaskCategory)

  /** What `updateTask` receives: any of the fields except the id and the timestamp;
      `None` is a key the object does not carry. */
  datatype TaskPatch = TaskPatch(
    title: Option<string>,
    description: Option<string>,
    completed: Option<bool>,
    category: Option<TaskCategory>)

  /** The invariant the provider keeps: no two tasks share an id. */
  ghost predicate DistinctIds(tasks: seq<Task>) {
    forall i, j :: 0 <= i < j < |tasks| ==> tasks[i].id != tasks[j].id
  }

  predicate HasId(tasks: seq<Task>, id: string) {
    exists k :: 0 <= k < |tasks| && tasks[k].id == id
  }

  /** Two tasks of a collection with distinct ids that share an id are the same task. */
  lemma SameIdSameTask(tasks: seq<Task>, a: Task, b: Task)
    requires DistinctIds(tasks) && a in tasks && b in tasks
    ensures a.id == b.id ==> a == b
  {
    var i :| 0 <= i < |tasks| && tasks[i] == a;
    var j :| 0 <= j < |tasks| && tasks[j] == b;
    assert a.id == b.id ==> i == j;
  }

  /** A collection with distinct ids holds every task at most once. */
  lemma {:induction false} DistinctIdsAtMostOnce(tasks: seq<Task>)
    requires DistinctIds(tasks)
    ensures forall t :: multiset(tasks)[t] <= 1
  {
    if tasks != [] {
      var rest := tasks[1..];
      assert DistinctIds(rest) by {
        forall i, j | 0 <= i < j < |rest| ensures rest[i].id != rest[j].id {
          assert rest[i] == tasks[i + 1] && rest[j] == tasks[j + 1];
        }
      }
      DistinctIdsAtMostOnce(rest);
      assert tasks == [tasks[0]] + rest;
      forall j | 0 <= j < |rest| ensures rest[j] != tasks[0] {
        assert rest[j] == tasks[j + 1];
      }
    }
  }

  /** Two different slots holding the same task count it twice. */
  lemma SlotsCountTwice(s: seq<Task>, i: nat, j: nat)
    requires i < j < |s|
    ensures s[i] == s[j] ==> multiset(s)[s[i]] >= 2
  {
    assert s == s[..j] + s[j..];
    assert s[i] in s[..j] && s[j..][0] == s[j];
  }

  /** A permutation of a collection with distinct ids has distinct ids. */
  lemma PermutationKeepsIdsDistinct(tasks: seq<Task>, other: seq<Task>)
    requires DistinctIds(tasks) && multiset(other) == multiset(tasks)
    ensures DistinctIds(other)
  {
    DistinctIdsAtMostOnce(tasks);
    forall i, j | 0 <= i < j < |other| ensures other[i].id != other[j].id {
      SlotsCountTwice(other, i, j);
      assert other[i] in multiset(tasks) && other[j] in multiset(tasks);
      SameIdSameTask(tasks, other[i], other[j]);
    }
  }

  // ---- filteredTasks (lines 79-84)

  predicate Matches(filter: TaskFilter, t: Task) {
    match filter
    case All => true
    case Completed => t.completed
    case Pending => !t.completed
  }

  /** `tasks.filter(...)`: the tasks the filter lets through, in collection order. */
  function Select(tasks: seq<Task>, filter: TaskFilter): (r: seq<Task>)
    ensures |r| <= |tasks|
    ensures forall t :: multiset(r)[t] == if Matches(filter, t) then multiset(tasks)[t] else 0
    ensures forall t :: t in r <==> t in tasks && Matches(filter, t)
  {
    if tasks == [] then []
    else
      assert tasks == [tasks[0]] + tasks[1..];
      if Matches(filter, tasks[0]) then [tasks[0]] + Select(tasks[1..], filter)
      else Select(tasks[1..], filter)
  }

  /** The "all" filter lets the collection through unchanged. */
  lemma {:induction false} SelectAllKeepsEverything(tasks: seq<Task>)
    ensures Select(tasks, All) == tasks
  {
    if tasks != [] {
      SelectAllKeepsEverything(tasks[1..]);
      assert tasks == [tasks[0]] + tasks[1..];
    }
  }

  /** Every adjacent pair is ordered newest first. */
  ghost predicate NewestFirst(s: seq<Task>) {
    forall i :: 0 < i < |s| ==> s[i - 1].createdAt >= s[i].createdAt
  }

  /** One step of a stable sort under the comparator `b.createdAt - a.createdAt`:
      `t` goes in front of the first task that is not strictly newer than it. */
  function InsertByNewest(t: Task, sorted: seq<Task>): (r: seq<Task>)
    ensures |r| == |sorted| + 1
    ensures multiset(r) == multiset(sorted) + multiset{t}
    ensures r[0] == t || (sorted != [] && r[0] == sorted[0])
    ensures NewestFirst(sorted) ==> NewestFirst(r)
  {
    if sorted == [] || sorted[0].createdAt <= t.createdAt then
      ConsKeepsNewestFirst(t, sorted);
      [t] + sorted
    else
      assert sorted == [sorted[0]] + sorted[1..];
      var rest := InsertByNewest(t, sorted[1..]);
      TailKeepsNewestFirst(sorted);
      ConsKeepsNewestFirst(sorted[0], rest);
      [sorted[0]] + rest
  }

  /** A task no older than the head may go in front of a newest-first sequence. */
  lemma ConsKeepsNewestFirst(x: Task, s: seq<Task>)
    ensures NewestFirst(s) && (s == [] || s[0].createdAt <= x.createdAt) ==> NewestFirst([x] + s)
  {
    if NewestFirst(s) && (s == [] || s[0].createdAt <= x.createdAt) {
      forall i | 0 < i < |[x] + s| ensures ([x] + s)[i - 1].createdAt >= ([x] + s)[i].createdAt {
        if i > 1 {
          assert ([x] + s)[i - 1] == s[i - 2] && ([x] + s)[i] == s[i - 1];
        }
      }
    }
  }

  lemma TailKeepsNewestFirst(s: seq<Task>)
    requires s != []
    ensures NewestFirst(s) ==> NewestFirst(s[1..])
  {
    if NewestFirst(s) {
      forall i | 0 < i < |s[1..]| ensures s[1..][i - 1].createdAt >= s[1..][i].createdAt {
        assert s[1..][i - 1] == s[i] && s[1..][i] == s[i + 1];
      }
    }
  }

  /** `Array.prototype.sort`, which is stable, with the comparator of line 84. */
  function SortByNewest(s: seq<Task>): (r: seq<Task>)
    ensures |r| == |s|
    ensures multiset(r) == multiset(s)
    ensures NewestFirst(r)
  {
    if s == [] then []
    else
      assert s == [s[0]] + s[1..];
      InsertByNewest(s[0], SortByNewest(s[1..]))
  }

  /** The tasks created at exactly `time`, in their order. */
  function StampedAt(s: seq<Task>, time: int): (r: seq<Task>)
  {
    if s == [] then []
    else (if s[0].createdAt == time then [s[0]] else []) + StampedAt(s[1..], time)
  }

  lemma {:induction false} InsertKeepsStamped(t: Task, s: seq<Task>, time: int)
    ensures StampedAt(InsertByNewest(t, s), time)
            == (if t.createdAt == time then [t] else []) + StampedAt(s, time)
  {
    if s == [] || s[0].createdAt <= t.createdAt {
      StampedAtCons(t, s, time);
    } else {
      InsertKeepsStamped(t, s[1..], time);
      InsertBehindHead(t, s, time);
    }
  }

  /** The step of `InsertKeepsStamped` where `t` goes past the head of `s`. */
  lemma InsertBehindHead(t: Task, s: seq<Task>, time: int)
    requires s != [] && s[0].createdAt > t.createdAt
    requires StampedAt(InsertByNewest(t, s[1..]), time)
             == (if t.createdAt == time then [t] else []) + StampedAt(s[1..], time)
    ensures StampedAt(InsertByNewest(t, s), time)
            == (if t.createdAt == time then [t] else []) + StampedAt(s, time)
  {
    var inserted := InsertByNewest(t, s[1..]);
    assert InsertByNewest(t, s) == [s[0]] + inserted;
    StampedAtCons(s[0], inserted, time);
    assert s == [s[0]] + s[1..];
    StampedAtCons(s[0], s[1..], time);
    // `t` is strictly older than `s[0]`, so at most one of them is stamped at `time`
    SwapPastEmpty(if s[0].createdAt == time then [s[0]] else [], if t.createdAt == time then [t] else [],
                  StampedAt(s[1..], time));
  }

  lemma SwapPastEmpty<T>(a: seq<T>, b: seq<T>, c: seq<T>)
    requires a == [] || b == []
    ensures a + (b + c) == b + (a + c)
  {
    if a == [] {
      assert a + (b + c) == b + c == b + (a + c);
    } else {
      assert a + (b + c) == a + c == b + (a + c);
    }
  }

  lemma StampedAtCons(x: Task, s: seq<Task>, time: int)
    ensures StampedAt([x] + s, time) == (if x.createdAt == time then [x] else []) + StampedAt(s, time)
  {
    assert ([x] + s)[1..] == s;
  }

  /** The sort is stable: tasks with the same timestamp keep their relative order. */
  lemma {:induction false} SortIsStable(s: seq<Task>, time: int)
    ensures StampedAt(SortByNewest(s), time) == StampedAt(s, time)
  {
    if s != [] {
      SortIsStable(s[1..], time);
      InsertKeepsStamped(s[0], SortByNewest(s[1..]), time);
    }
  }

  /** `filteredTasks`: the tasks the filter lets through, newest first. */
  function FilteredTasks(tasks: seq<Task>, filter: TaskFilter): (r: seq<Task>)
    ensures NewestFirst(r)
    ensures forall t :: multiset(r)[t] == if Matches(filter, t) then multiset(tasks)[t] else 0
    ensures forall t :: t in r <==> t in tasks && Matches(filter, t)
  {
    SortByNewest(Select(tasks, filter))
  }

  /** Within the view, tasks with equal timestamps appear in collection order. */
  lemma FilteredTasksStable(tasks: seq<Task>, filter: TaskFilter, time: int)
    ensures StampedAt(FilteredTasks(tasks, filter), time) == StampedAt(Select(tasks, filter), time)
  {
    SortIsStable(Select(tasks, filter), time);
  }

  /** "all" shows every task; "completed" and "pending" split the collection in two
      disjoint parts (so the sidebar's two counts add up to the number of tasks). */
  lemma FilterPartition(tasks: seq<Task>)
    ensures multiset(FilteredTasks(tasks, All)) == multiset(tasks)
    ensures multiset(FilteredTasks(tasks, Completed)) + multiset(FilteredTasks(tasks, Pending))
            == multiset(tasks)
    ensures forall t :: !(t in FilteredTasks(tasks, Completed) && t in FilteredTasks(tasks, Pending))
    ensures |Select(tasks, Completed)| + |Select(tasks, Pending)| == |tasks|
  {
    var c, p := Select(tasks, Completed), Select(tasks, Pending);
    assert multiset(c) + multiset(p) == multiset(tasks) by {
      forall t ensures (multiset(c) + multiset(p))[t] == multiset(tasks)[t] {
        assert Matches(Completed, t) != Matches(Pending, t);
      }
    }
    assert |multiset(c) + multiset(p)| == |c| + |p|;
  }

  /** The view depends on the collection only through its multiset, up to the order of
      tasks with equal timestamps. */
  lemma FilteredTasksOfPermutation(tasks: seq<Task>, other: seq<Task>, filter: TaskFilter)
    requires multiset(other) == multiset(tasks)
    ensures multiset(FilteredTasks(other, filter)) == multiset(FilteredTasks(tasks, filter))
  {
    assert forall t :: multiset(FilteredTasks(other, filter))[t] == multiset(FilteredTasks(tasks, filter))[t];
  }

  // ---- the collection updaters (lines 86-113)

  /** `addTask`'s updater `prev => [newTask, ...prev]`; the id and the timestamp that
      `uniqueId()` and `new Date()` would produce are supplied. */
  function AddTask(tasks: seq<Task>, input: TaskInput, id: string, now: int): (r: seq<Task>)
    ensures |r| == |tasks| + 1
    ensures r[0] == Task(id, input.title, input.description, input.completed, input.category, now)
    ensures r[1..] == tasks
  {
    [Task(id, input.title, input.description, input.completed, input.category, now)] + tasks
  }

  lemma AddTaskKeepsIdsDistinct(tasks: seq<Task>, input: TaskInput, id: string, now: int)
    requires DistinctIds(tasks) && !HasId(tasks, id)
    ensures DistinctIds(AddTask(tasks, input, id, now))
  {
    var r := AddTask(tasks, input, id, now);
    forall i, j | 0 <= i < j < |r| ensures r[i].id != r[j].id {
      assert r[j] == tasks[j - 1];
      if i > 0 { assert r[i] == tasks[i - 1]; }
    }
  }

  /** `toggleTaskCompletion`'s updater. */
  function ToggleTaskCompletion(tasks: seq<Task>, id: string): (r: seq<Task>)
    ensures |r| == |tasks|
    ensures forall k :: 0 <= k < |tasks| ==>
      r[k] == tasks[k].(completed := tasks[k].completed != (tasks[k].id == id))
  {
    if tasks == [] then []
    else
      [if tasks[0].id == id then tasks[0].(completed := !tasks[0].completed) else tasks[0]]
      + ToggleTaskCompletion(tasks[1..], id)
  }

  lemma ToggleTwiceRestores(tasks: seq<Task>, id: string)
    ensures ToggleTaskCompletion(ToggleTaskCompletion(tasks, id), id) == tasks
  {
    var r := ToggleTaskCompletion(ToggleTaskCompletion(tasks, id), id);
    assert forall k :: 0 <= k < |tasks| ==> r[k] == tasks[k];
  }

  lemma ToggleAbsentIsNoOp(tasks: seq<Task>, id: string)
    requires !HasId(tasks, id)
    ensures ToggleTaskCompletion(tasks, id) == tasks
  {
    var r := ToggleTaskCompletion(tasks, id);
    assert forall k :: 0 <= k < |tasks| ==> r[k] == tasks[k];
  }

  lemma ToggleKeepsIdsDistinct(tasks: seq<Task>, id: string)
    requires DistinctIds(tasks)
    ensures DistinctIds(ToggleTaskCompletion(tasks, id))
  {
  }

  /** `deleteTask`'s updater `prev.filter(task => task.id !== id)`. */
  function DeleteTask(tasks: seq<Task>, id: string): (r: seq<Task>)
    ensures |r| <= |tasks|
    ensures forall t :: t in r <==> t in tasks && t.id != id
  {
    if tasks == [] then []
    else if tasks[0].id == id then DeleteTask(tasks[1..], id)
    else [tasks[0]] + DeleteTask(tasks[1..], id)
  }

  lemma {:induction false} DeleteAbsentIsNoOp(tasks: seq<Task>, id: string)
    requires !HasId(tasks, id)
    ensures DeleteTask(tasks, id) == tasks
  {
    if tasks != [] {
      assert tasks[0].id != id;
      forall j | 0 <= j < |tasks[1..]| ensures tasks[1..][j].id != id {
        assert tasks[1..][j] == tasks[j + 1];
      }
      DeleteAbsentIsNoOp(tasks[1..], id);
      assert tasks == [tasks[0]] + tasks[1..];
    }
  }

  lemma DeleteIsIdempotent(tasks: seq<Task>, id: string)
    ensures DeleteTask(DeleteTask(tasks, id), id) == DeleteTask(tasks, id)
  {
    var r := DeleteTask(tasks, id);
    forall k | 0 <= k < |r| ensures r[k].id != id {
      assert r[k] in r;
    }
    DeleteAbsentIsNoOp(r, id);
  }

  /** The tail of a collection with distinct ids has distinct ids, none of them the head's. */
  lemma DistinctIdsTail(tasks: seq<Task>)
    requires DistinctIds(tasks) && tasks != []
    ensures DistinctIds(tasks[1..])
    ensures !HasId(tasks[1..], tasks[0].id)
  {
    var rest := tasks[1..];
    forall i, j | 0 <= i < j < |rest| ensures rest[i].id != rest[j].id {
      assert rest[i] == tasks[i + 1] && rest[j] == tasks[j + 1];
    }
    forall j | 0 <= j < |rest| ensures rest[j].id != tasks[0].id {
      assert rest[j] == tasks[j + 1];
    }
  }

  /** With distinct ids, deleting the id of the task at `k` removes exactly that slot
      and keeps the order of the others. */
  lemma {:induction false} DeleteRemovesOne(tasks: seq<Task>, k: nat)
    requires DistinctIds(tasks) && k < |tasks|
    ensures DeleteTask(tasks, tasks[k].id) == tasks[..k] + tasks[k + 1..]
  {
    var id, rest := tasks[k].id, tasks[1..];
    DistinctIdsTail(tasks);
    if k == 0 {
      DeleteAbsentIsNoOp(rest, id);
      assert tasks[k + 1..] == rest;
    } else {
      assert tasks[0].id != id && rest[k - 1] == tasks[k];
      DeleteRemovesOne(rest, k - 1);
      RemoveAfterHead(tasks, k);
    }
  }

  /** Removing slot `k > 0` keeps the head and removes slot `k - 1` of the tail. */
  lemma RemoveAfterHead<T>(s: seq<T>, k: nat)
    requires 0 < k < |s|
    ensures s[..k] + s[k + 1..] == [s[0]] + (s[1..][..k - 1] + s[1..][k..])
  {
    assert s[..k] == [s[0]] + s[1..][..k - 1];
    assert s[k + 1..] == s[1..][k..];
  }

  lemma {:induction false} DeleteKeepsIdsDistinct(tasks: seq<Task>, id: string)
    requires DistinctIds(tasks)
    ensures DistinctIds(DeleteTask(tasks, id))
  {
    if tasks != [] {
      var rest := tasks[1..];
      DistinctIdsTail(tasks);
      DeleteKeepsIdsDistinct(rest, id);
      if tasks[0].id != id {
        var d := DeleteTask(rest, id);
        assert !HasId(d, tasks[0].id) by {
          forall k | 0 <= k < |d| ensures d[k].id != tasks[0].id {
            assert d[k] in d;
            var m :| 0 <= m < |rest| && rest[m] == d[k];
          }
        }
        ConsKeepsIdsDistinct(tasks[0], d);
      }
    }
  }

  /** A task whose id is new may go in front of a collection with distinct ids. */
  lemma ConsKeepsIdsDistinct(x: Task, s: seq<Task>)
    requires DistinctIds(s) && !HasId(s, x.id)
    ensures DistinctIds([x] + s)
  {
    var r := [x] + s;
    forall i, j | 0 <= i < j < |r| ensures r[i].id != r[j].id {
      assert r[j] == s[j - 1];
      if i > 0 {
        assert r[i] == s[i - 1];
      }
    }
  }

  /** The spread `{ ...task, ...updatedTask }`: supplied keys win, the id and the
      timestamp are never among them. */
  function Merge(t: Task, patch: TaskPatch): (r: Task)
    ensures r.id == t.id && r.createdAt == t.createdAt
    ensures r.title == (if patch.title.Some? then patch.title.value else t.title)
    ensures r.description == (if patch.description.Some? then patch.description.value else t.description)
    ensures r.completed == (if patch.completed.Some? then patch.completed.value else t.completed)
    ensures r.category == (if patch.category.Some? then patch.category.value else t.category)
  {
    Task(t.id,
         patch.title.GetOr(t.title),
         patch.description.GetOr(t.description),
         patch.completed.GetOr(t.completed),
         patch.category.GetOr(t.category),
         t.createdAt)
  }

  /** `updateTask`'s updater. */
  function UpdateTask(tasks: seq<Task>, id: string, patch: TaskPatch): (r: seq<Task>)
    ensures |r| == |tasks|
    ensures forall k :: 0 <= k < |tasks| ==>
      r[k] == (if tasks[k].id == id then Merge(tasks[k], patch) else tasks[k])
    ensures forall k :: 0 <= k < |tasks| ==>
      r[k].id == tasks[k].id && r[k].createdAt == tasks[k].createdAt
  {
    if tasks == [] then []
    else
      [if tasks[0].id == id then Merge(tasks[0], patch) else tasks[0]]
      + UpdateTask(tasks[1..], id, patch)
  }

  lemma UpdateAbsentIsNoOp(tasks: seq<Task>, id: string, patch: TaskPatch)
    requires !HasId(tasks, id)
    ensures UpdateTask(tasks, id, patch) == tasks
  {
    var r := UpdateTask(tasks, id, patch);
    assert forall k :: 0 <= k < |tasks| ==> r[k] == tasks[k];
  }

  lemma UpdateIsIdempotent(tasks: seq<Task>, id: string, patch: TaskPatch)
    ensures UpdateTask(UpdateTask(tasks, id, patch), id, patch) == UpdateTask(tasks, id, patch)
  {
    var r := UpdateTask(tasks, id, patch);
    var r2 := UpdateTask(r, id, patch);
    assert forall k :: 0 <= k < |tasks| ==> r2[k] == r[k];
  }

  lemma UpdateKeepsIdsDistinct(tasks: seq<Task>, id: string, patch: TaskPatch)
    requires DistinctIds(tasks)
    ensures DistinctIds(UpdateTask(tasks, id, patch))
  {
  }

  // ---- the initial state (lines 32-73)

  const DayMillis: int := 24 * 60 * 60 * 1000

  /** `defaultTasks`, with `Date.now()` supplied as `now`. */
  function DefaultTasks(now: int): (r: seq<Task>)
    ensures |r| == 5 && DistinctIds(r)
  {
    var r := [
      Task("task-1", "Complete project proposal", "Finish the draft and send it for review",
           false, Work, now - 2 * DayMillis),
      Task("task-2", "Buy groceries", "Get milk, eggs, bread, and vegetables",
           true, Personal, now - DayMillis),
      Task("task-3", "Prepare presentation", "Create slides for the team meeting",
           false, Urgent, now),
      Task("task-4", "Schedule dentist appointment", "Call the clinic and book a time slot",
           false, Personal, now - 3 * DayMillis),
      Task("task-5", "Review pull requests", "Check the pending PRs and provide feedback",
           false, Work, now - 12 * 60 * 60 * 1000)];
    assert forall i :: 0 <= i < 5 ==> |r[i].id| == 6 && r[i].id[5] == "12345"[i];
    r
  }

  /** A single task is sorted. */
  lemma SortOne(x: Task)
    ensures SortByNewest([x]) == [x]
  {
    assert [x][1..] == [];
  }

  /** Sorting either order of two tasks puts the newer one first. */
  lemma SortTwo(older: Task, newer: Task)
    requires older.createdAt < newer.createdAt
    ensures SortByNewest([newer, older]) == [newer, older]
    ensures SortByNewest([older, newer]) == [newer, older]
  {
    assert [newer, older][1..] == [older] && [older, newer][1..] == [newer];
    SortOne(older);
    SortOne(newer);
    assert InsertByNewest(older, [newer]) == [newer, older] by {
      assert InsertByNewest(older, []) == [older];
    }
  }

  /** Both orders of two tasks show the newer one first. */
  lemma ViewOfTwo(older: Task, newer: Task)
    requires older.createdAt < newer.createdAt
    ensures FilteredTasks([newer, older], All) == [newer, older]
    ensures FilteredTasks([older, newer], All) == [newer, older]
  {
    SelectAllKeepsEverything([newer, older]);
    SelectAllKeepsEverything([older, newer]);
    SortTwo(older, newer);
  }

  /** The filter keeps each of two tasks exactly when it matches. */
  lemma SelectTwo(x: Task, y: Task, filter: TaskFilter)
    ensures Select([x, y], filter)
            == (if Matches(filter, x) then [x] else []) + (if Matches(filter, y) then [y] else [])
  {
    assert [x, y] == [x] + [y] && [y] == [y] + [];
    SelectCons(x, [y], filter);
    SelectCons(y, [], filter);
  }

  /** The filter decides on the head and then goes on with the tail. */
  lemma SelectCons(x: Task, s: seq<Task>, filter: TaskFilter)
    ensures Select([x] + s, filter) == (if Matches(filter, x) then [x] else []) + Select(s, filter)
  {
    assert ([x] + s)[0] == x && ([x] + s)[1..] == s;
  }

  /** Of two tasks of which the filter lets exactly one through, the view shows that one. */
  lemma FilteredPickOne(x: Task, y: Task, filter: TaskFilter)
    requires Matches(filter, x) != Matches(filter, y)
    ensures FilteredTasks([x, y], filter) == if Matches(filter, x) then [x] else [y]
  {
    SelectTwo(x, y, filter);
    SortOne(x);
    SortOne(y);
  }

  // ---- a worked scenario

  /** Toggling the second of two tasks by its id flips that task alone. */
  lemma ToggleSecondOfTwo(x: Task, y: Task)
    requires x.id != y.id
    ensures ToggleTaskCompletion([x, y], y.id) == [x, y.(completed := !y.completed)]
  {
  }

  /** Two adds on an empty collection stack the tasks, the later one in front. */
  lemma AddTwiceStacks(a: TaskInput, b: TaskInput, id1: string, id2: string, at1: int, at2: int)
    ensures AddTask(AddTask([], a, id1, at1), b, id2, at2)
            == [Task(id2, b.title, b.description, b.completed, b.category, at2),
                Task(id1, a.title, a.description, a.completed, a.category, at1)]
  {
  }

  /** With two pending tasks, the view shows the newer one first; toggling the older one
      moves it from the pending view to the completed view. */
  lemma ToggleScenario(older: Task, newer: Task)
    requires older.createdAt < newer.createdAt && older.id != newer.id
    requires !older.completed && !newer.completed
    ensures var done := older.(completed := true);
            && FilteredTasks([newer, older], All) == [newer, older]
            && ToggleTaskCompletion([newer, older], older.id) == [newer, done]
            && FilteredTasks([newer, done], Pending) == [newer]
            && FilteredTasks([newer, done], Completed) == [done]
  {
    var done := older.(completed := true);
    FilteredPickOne(newer, done, Pending);
    FilteredPickOne(newer, done, Completed);
    ToggleSecondOfTwo(newer, older);
    ViewOfTwo(older, newer);
  }
}
