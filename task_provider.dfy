/**
 * The state container of `TaskProvider` (client/src/context/task-context.tsx,
 * lines 75-130): the two pieces of React state, `tasks` and `filter`, and the
 * callbacks that replace them. Each `setTasks(prev => ...)` becomes an
 * assignment of the corresponding updater from TaskContext; `reorderTasks`
 * keeps its own loop over a copied array.
 */
module TaskState {
  import opened TaskContext
  import opened TaskReorder

  class TaskProvider {
    var tasks: seq<Task>
    var filter: TaskFilter

    ghost predicate Valid()
      reads this
    {
      DistinctIds(tasks)
    }

    /** `useState(defaultTasks)` and `useState("all")`, with `Date.now()` supplied. */
    constructor (now: int)
      ensures Valid()
      ensures tasks == DefaultTasks(now) && filter == All
    {
      tasks := DefaultTasks(now);
      filter := All;
    }

    /** The derived `filteredTasks`, recomputed from the current state on every read. */
    function Filtered(): (r: seq<Task>)
      reads this
      ensures NewestFirst(r)
      ensures forall t :: t in r <==> t in tasks && Matches(filter, t)
    {
      FilteredTasks(tasks, filter)
    }

    method SetFilter(f: TaskFilter)
      modifies this
      ensures filter == f && tasks == old(tasks)
    {
      filter := f;
    }

    /** `addTask(task)`; `id` and `now` stand for `uniqueId()` and `new Date()`, and the
        id must not be in use. */
    method AddTask(input: TaskInput, id: string, now: int)
      requires Valid() && !HasId(tasks, id)
      modifies this
      ensures Valid() && filter == old(filter)
      ensures tasks == TaskContext.AddTask(old(tasks), input, id, now)
      ensures |tasks| == |old(tasks)| + 1
    {
      AddTaskKeepsIdsDistinct(tasks, input, id, now);
      tasks := TaskContext.AddTask(tasks, input, id, now);
    }

    method ToggleTaskCompletion(id: string)
      requires Valid()
      modifies this
      ensures Valid() && filter == old(filter)
      ensures tasks == TaskContext.ToggleTaskCompletion(old(tasks), id)
      ensures |tasks| == |old(tasks)|
    {
      tasks := TaskContext.ToggleTaskCompletion(tasks, id);
    }

    method DeleteTask(id: string)
      requires Valid()
      modifies this
      ensures Valid() && filter == old(filter)
      ensures tasks == TaskContext.DeleteTask(old(tasks), id)
      ensures HasId(old(tasks), id) ==> |tasks| == |old(tasks)| - 1
      ensures !HasId(old(tasks), id) ==> tasks == old(tasks)
    {
      DeleteKeepsIdsDistinct(tasks, id);
      if HasId(tasks, id) {
        var k :| 0 <= k < |tasks| && tasks[k].id == id;
        DeleteRemovesOne(tasks, k);
      } else {
        DeleteAbsentIsNoOp(tasks, id);
      }
      tasks := TaskContext.DeleteTask(tasks, id);
    }

    method UpdateTask(id: string, patch: TaskPatch)
      requires Valid()
      modifies this
      ensures Valid() && filter == old(filter)
      ensures tasks == TaskContext.UpdateTask(old(tasks), id, patch)
      ensures |tasks| == |old(tasks)|
    {
      tasks := TaskContext.UpdateTask(tasks, id, patch);
    }

    /** `reorderTasks(startIndex, endIndex)`: splice a copy of the view, then walk the
        original view and, for each of its tasks, overwrite the first slot of the
        copied collection that carries its id with the spliced copy's task at the same
        position. The indices must lie inside the view; see ReorderTasks for why the
        collection need not end up in the dragged order. */
    method ReorderTasks(startIndex: nat, endIndex: nat)
      requires Valid()
      requires startIndex < |Filtered()| && endIndex < |Filtered()|
      modifies this
      ensures Valid() && filter == old(filter)
      ensures tasks == TaskReorder.ReorderTasks(old(tasks), filter, startIndex, endIndex)
      ensures multiset(tasks) == multiset(old(tasks))
      ensures forall k :: 0 <= k < |tasks| && !Matches(filter, old(tasks)[k]) ==>
                tasks[k] == old(tasks)[k]
      ensures multiset(Filtered()) == multiset(old(Filtered()))
    {
      var filteredTasks := Filtered();
      var result := MoveItem(filteredTasks, startIndex, endIndex);
      ReorderPermutes(tasks, filter, startIndex, endIndex);
      ReorderKeepsHiddenTasks(tasks, filter, startIndex, endIndex);
      ReorderKeepsViewContents(tasks, filter, startIndex, endIndex);
      tasks := WriteBackInPlace(tasks, filteredTasks, result);
    }
  }

  /** Lines 121-127 of `reorderTasks`: copy the collection into an array, then for each
      task of the original view overwrite the first slot carrying its id with the task
      at the same position of the spliced view. */
  method WriteBackInPlace(original: seq<Task>, view: seq<Task>, result: seq<Task>)
    returns (r: seq<Task>)
    requires |result| == |view|
    ensures r == WriteBack(original, view, result, |view|)
  {
    var newTasks := CopyToArray(original);
    WriteBackStart(original, view, result);
    var index := 0;
    while index < |view|
      invariant 0 <= index <= |view|
      invariant newTasks[..] == WriteBack(original, view, result, index)
      modifies newTasks
    {
      WriteBackRound(newTasks, view[index], result[index]);
      WriteBackNext(original, view, result, index);
      index := index + 1;
    }
    r := newTasks[..];
  }

  /** `tasks.slice()`: a fresh array holding the collection. */
  method CopyToArray(s: seq<Task>) returns (a: array<Task>)
    ensures fresh(a) && a[..] == s
  {
    a := new Task[|s|](k requires 0 <= k < |s| => s[k]);
  }

  /** The `forEach` callback of lines 123-126: search the array as it is now for `task`'s
      id and, when found, overwrite that slot with `replacement`. */
  method WriteBackRound(newTasks: array<Task>, task: Task, replacement: Task)
    modifies newTasks
    ensures newTasks[..] == WriteBackStep(old(newTasks[..]), task, replacement)
  {
    var originalIndex := FindIndex(newTasks[..], task.id);
    if originalIndex != -1 {
      newTasks[originalIndex] := replacement;
    }
  }
}
