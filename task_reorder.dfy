/**
 * `reorderTasks` (client/src/context/task-context.tsx, lines 115-130) as
 * functions: the two `splice` calls on a copy of the view, and the write-back
 * loop, whose `findIndex` searches the very array it is overwriting.
 *
 * Because of that search the collection does not in general end up in the
 * dragged order. What does hold, for a collection with distinct ids, is proved
 * here: every search succeeds, the collection is only permuted, and tasks the
 * filter hides keep their slots.
 */
module TaskReorder {
  import opened TaskContext

  /** `result.splice(from, 1)` followed by `result.splice(to, 0, removed)`. */
  function MoveItem(view: seq<Task>, from: nat, to: nat): (r: seq<Task>)
    requires from < |view| && to < |view|
    ensures |r| == |view|
    ensures multiset(r) == multiset(view)
    ensures r[to] == view[from]
    ensures r[..to] + r[to + 1..] == view[..from] + view[from + 1..]
  {
    var rest := view[..from] + view[from + 1..];
    assert view == view[..from] + [view[from]] + view[from + 1..];
    assert multiset(view) == multiset(rest) + multiset{view[from]};
    assert rest == rest[..to] + rest[to..];
    var r := rest[..to] + [view[from]] + rest[to..];
    assert multiset(r) == multiset(rest[..to]) + multiset{view[from]} + multiset(rest[to..]);
    assert r[..to] == rest[..to] && r[to + 1..] == rest[to..];
    r
  }

  /** `Array.prototype.findIndex(t => t.id === id)`: the first slot with that id, or -1. */
  function FindIndex(tasks: seq<Task>, id: string): (k: int)
    ensures -1 <= k < |tasks|
  {
    if tasks == [] then -1
    else if tasks[0].id == id then 0
    else
      var k := FindIndex(tasks[1..], id);
      if k == -1 then -1 else k + 1
  }

  /** `findIndex` answers -1 exactly when no slot has the id, and otherwise the first
      slot that has it. */
  lemma {:induction false} FindIndexSpec(tasks: seq<Task>, id: string)
    ensures FindIndex(tasks, id) == -1 <==> !HasId(tasks, id)
    ensures 0 <= FindIndex(tasks, id) ==>
      && tasks[FindIndex(tasks, id)].id == id
      && forall j :: 0 <= j < FindIndex(tasks, id) ==> tasks[j].id != id
  {
    if tasks != [] && tasks[0].id != id {
      FindIndexSpec(tasks[1..], id);
      assert forall j :: 0 < j < |tasks| ==> tasks[j] == tasks[1..][j - 1];
    }
  }

  /** One round of the `forEach` (lines 123-126): look `task`'s id up in the array as it
      is now and, when found, overwrite that slot with `replacement`. */
  function WriteBackStep(newTasks: seq<Task>, task: Task, replacement: Task): (n: seq<Task>)
    ensures |n| == |newTasks|
  {
    var originalIndex := FindIndex(newTasks, task.id);
    if originalIndex == -1 then newTasks else newTasks[originalIndex := replacement]
  }

  /** `newTasks` after the first `i` rounds of the `forEach` of lines 122-127. */
  function WriteBack(tasks: seq<Task>, view: seq<Task>, result: seq<Task>, i: nat): (n: seq<Task>)
    requires i <= |view| && |result| == |view|
    ensures |n| == |tasks|
  {
    if i == 0 then tasks
    else WriteBackStep(WriteBack(tasks, view, result, i - 1), view[i - 1], result[i - 1])
  }

  /** No round has run yet. */
  lemma WriteBackStart(tasks: seq<Task>, view: seq<Task>, result: seq<Task>)
    requires |result| == |view|
    ensures WriteBack(tasks, view, result, 0) == tasks
  {
  }

  /** Round `i` applied after the first `i` rounds. */
  lemma WriteBackNext(tasks: seq<Task>, view: seq<Task>, result: seq<Task>, i: nat)
    requires i < |view| && |result| == |view|
    ensures WriteBack(tasks, view, result, i + 1)
            == WriteBackStep(WriteBack(tasks, view, result, i), view[i], result[i])
  {
  }

  /** The collection that `reorderTasks(from, to)` hands to `setTasks`. */
  function ReorderTasks(tasks: seq<Task>, filter: TaskFilter, from: nat, to: nat): (r: seq<Task>)
    requires from < |FilteredTasks(tasks, filter)| && to < |FilteredTasks(tasks, filter)|
    ensures |r| == |tasks|
  {
    var view := FilteredTasks(tasks, filter);
    WriteBack(tasks, view, MoveItem(view, from, to), |view|)
  }

  // ---- the invariant of the write-back loop

  /** In a sequence without repeats, the element at `i` does not occur before `i`. */
  lemma NotEarlier(view: seq<Task>, i: nat)
    requires i < |view| && forall t :: multiset(view)[t] <= 1
    ensures multiset(view[..i])[view[i]] == 0
  {
    assert view == view[..i] + view[i..];
    assert multiset(view) == multiset(view[..i]) + multiset(view[i..]);
    assert view[i..][0] == view[i];
    assert view[i] in multiset(view[i..]);
    assert multiset(view)[view[i]] <= 1;
  }

  /** If `x` is in the array and every element of the array comes from a collection
      with distinct ids that holds `x`, then `findIndex` lands on `x` itself. */
  lemma FindsTheTask(tasks: seq<Task>, n: seq<Task>, x: Task)
    requires DistinctIds(tasks) && x in tasks && x in n
    requires forall t :: t in n ==> t in tasks
    ensures 0 <= FindIndex(n, x.id) && n[FindIndex(n, x.id)] == x
  {
    var j :| 0 <= j < |n| && n[j] == x;
    assert HasId(n, x.id);
    FindIndexSpec(n, x.id);
    var k := FindIndex(n, x.id);
    assert n[k] in n;
    SameIdSameTask(tasks, n[k], x);
  }

  /** The first `i` elements of `s`, counted with multiplicity, built one round at a time. */
  ghost function Bag(s: seq<Task>, i: nat): (b: multiset<Task>)
    requires i <= |s|
  {
    if i == 0 then multiset{} else Bag(s, i - 1) + multiset{s[i - 1]}
  }

  lemma {:induction false} BagIsPrefix(s: seq<Task>, i: nat)
    requires i <= |s|
    ensures Bag(s, i) == multiset(s[..i])
  {
    if i == 0 {
      assert s[..0] == [];
    } else {
      BagIsPrefix(s, i - 1);
      assert s[..i] == s[..i - 1] + [s[i - 1]];
    }
  }

  /** What holds of `newTasks` after `i` rounds: what was taken out of it is the part of
      the view already visited, what was put in is the matching part of the spliced
      copy; it holds only tasks of the collection; hidden tasks are where they were. */
  ghost predicate RoundInvariant(tasks: seq<Task>, view: seq<Task>, result: seq<Task>, n: seq<Task>, i: nat)
    requires i <= |view| && |result| == |view|
  {
    && |n| == |tasks|
    && multiset(n) + Bag(view, i) == multiset(tasks) + Bag(result, i)
    && (forall t :: t in n ==> t in tasks)
    && (forall k :: 0 <= k < |tasks| && tasks[k] !in view ==> n[k] == tasks[k])
  }

  /** Under the invariant, round `i`'s `findIndex` lands on `view[i]` itself. */
  lemma RoundFindsTask(tasks: seq<Task>, view: seq<Task>, result: seq<Task>, n: seq<Task>, i: nat)
    requires i < |view| && |result| == |view|
    requires DistinctIds(tasks) && multiset(view) <= multiset(tasks)
    requires RoundInvariant(tasks, view, result, n, i)
    ensures 0 <= FindIndex(n, view[i].id) && n[FindIndex(n, view[i].id)] == view[i]
  {
    var x := view[i];
    DistinctIdsAtMostOnce(tasks);
    assert x in multiset(view);
    assert x in multiset(tasks);
    NotEarlier(view, i);
    BagIsPrefix(view, i);
    assert (multiset(n) + Bag(view, i))[x] == (multiset(tasks) + Bag(result, i))[x];
    assert multiset(n)[x] >= 1;
    FindsTheTask(tasks, n, x);
  }

  /** Round `i` keeps the invariant. */
  lemma RoundKeepsInvariant(tasks: seq<Task>, view: seq<Task>, result: seq<Task>, n: seq<Task>, i: nat)
    requires i < |view| && |result| == |view|
    requires DistinctIds(tasks) && multiset(view) <= multiset(tasks)
    requires multiset(result) == multiset(view)
    requires RoundInvariant(tasks, view, result, n, i)
    ensures RoundInvariant(tasks, view, result, WriteBackStep(n, view[i], result[i]), i + 1)
  {
    RoundFindsTask(tasks, view, result, n, i);
    var x, y := view[i], result[i];
    var k := FindIndex(n, x.id);
    var n' := WriteBackStep(n, x, y);
    assert n' == n[k := y];
    SlotUpdateCounts(n, k, y);
    CountsStep(multiset(n), multiset(n'), Bag(view, i), multiset(tasks), Bag(result, i), x, y);
    assert y in tasks by {
      assert y in multiset(result);
    }
    forall j | 0 <= j < |tasks| && tasks[j] !in view ensures n'[j] == tasks[j] {
      assert n[j] == tasks[j] && n[k] in view;
    }
  }

  /** Overwriting a slot trades the task it held for the new one. */
  lemma SlotUpdateCounts<T>(s: seq<T>, k: nat, y: T)
    requires k < |s|
    ensures multiset(s[k := y]) + multiset{s[k]} == multiset(s) + multiset{y}
  {
  }

  /** The bookkeeping of one round: the array traded `x` for `y`, and `x` joins the
      view's bag while `y` joins the result's. */
  lemma CountsStep<T>(before: multiset<T>, after: multiset<T>, seen: multiset<T>,
                      tasks: multiset<T>, placed: multiset<T>, x: T, y: T)
    requires after + multiset{x} == before + multiset{y}
    requires before + seen == tasks + placed
    ensures after + (seen + multiset{x}) == tasks + (placed + multiset{y})
  {
    forall e ensures (after + (seen + multiset{x}))[e] == (tasks + (placed + multiset{y}))[e] {
      assert (after + multiset{x})[e] == (before + multiset{y})[e];
      assert (before + seen)[e] == (tasks + placed)[e];
    }
  }

  /** Before the first round the array is the collection itself. */
  lemma RoundInvariantAtStart(tasks: seq<Task>, view: seq<Task>, result: seq<Task>)
    requires |result| == |view|
    ensures RoundInvariant(tasks, view, result, tasks, 0)
  {
  }

  /** What the write-back needs of its inputs: a collection with distinct ids, a view
      drawn from it and a spliced copy that permutes the view. */
  ghost predicate WriteBackReady(tasks: seq<Task>, view: seq<Task>, result: seq<Task>) {
    && |result| == |view|
    && DistinctIds(tasks) && multiset(view) <= multiset(tasks)
    && multiset(result) == multiset(view)
  }

  /** Round `i` of the write-back keeps the invariant. */
  lemma WriteBackKeepsInvariant(tasks: seq<Task>, view: seq<Task>, result: seq<Task>, i: nat)
    requires WriteBackReady(tasks, view, result) && 0 < i <= |view|
    requires RoundInvariant(tasks, view, result, WriteBack(tasks, view, result, i - 1), i - 1)
    ensures RoundInvariant(tasks, view, result, WriteBack(tasks, view, result, i), i)
  {
    RoundKeepsInvariant(tasks, view, result, WriteBack(tasks, view, result, i - 1), i - 1);
  }

  /** The invariant holds after every round. */
  lemma {:induction false} WriteBackInvariant(tasks: seq<Task>, view: seq<Task>, result: seq<Task>, i: nat)
    requires WriteBackReady(tasks, view, result) && i <= |view|
    ensures RoundInvariant(tasks, view, result, WriteBack(tasks, view, result, i), i)
  {
    if i == 0 {
      RoundInvariantAtStart(tasks, view, result);
    } else {
      WriteBackInvariant(tasks, view, result, i - 1);
      WriteBackKeepsInvariant(tasks, view, result, i);
    }
  }

  // ---- what reorderTasks guarantees

  /** What the write-back needs from the view and the spliced copy. */
  lemma ViewIsSubMultiset(tasks: seq<Task>, filter: TaskFilter, from: nat, to: nat)
    requires from < |FilteredTasks(tasks, filter)| && to < |FilteredTasks(tasks, filter)|
    ensures multiset(FilteredTasks(tasks, filter)) <= multiset(tasks)
    ensures multiset(MoveItem(FilteredTasks(tasks, filter), from, to)) == multiset(FilteredTasks(tasks, filter))
  {
  }

  /** With distinct ids every `findIndex` of line 123 finds the task it looks for. */
  lemma ReorderFindsEveryTask(tasks: seq<Task>, filter: TaskFilter, from: nat, to: nat)
    requires DistinctIds(tasks)
    requires from < |FilteredTasks(tasks, filter)| && to < |FilteredTasks(tasks, filter)|
    ensures var view := FilteredTasks(tasks, filter);
            forall i :: 0 <= i < |view| ==>
              FindIndex(WriteBack(tasks, view, MoveItem(view, from, to), i), view[i].id) != -1
  {
    var view := FilteredTasks(tasks, filter);
    var result := MoveItem(view, from, to);
    ViewIsSubMultiset(tasks, filter, from, to);
    forall i | 0 <= i < |view|
      ensures FindIndex(WriteBack(tasks, view, result, i), view[i].id) != -1
    {
      WriteBackInvariant(tasks, view, result, i);
      RoundFindsTask(tasks, view, result, WriteBack(tasks, view, result, i), i);
    }
  }

  /** After the last round the array is a permutation of the collection. */
  lemma WriteBackPermutes(tasks: seq<Task>, view: seq<Task>, result: seq<Task>)
    requires |result| == |view|
    requires DistinctIds(tasks) && multiset(view) <= multiset(tasks)
    requires multiset(result) == multiset(view)
    ensures multiset(WriteBack(tasks, view, result, |view|)) == multiset(tasks)
  {
    var n := WriteBack(tasks, view, result, |view|);
    WriteBackInvariant(tasks, view, result, |view|);
    BagIsPrefix(view, |view|);
    BagIsPrefix(result, |view|);
    assert view[..|view|] == view && result[..|view|] == result;
    forall t ensures multiset(n)[t] == multiset(tasks)[t] {
      assert (multiset(n) + Bag(view, |view|))[t] == (multiset(tasks) + Bag(result, |view|))[t];
    }
  }

  /** Reordering only permutes the collection: same length, same tasks, same ids. */
  lemma ReorderPermutes(tasks: seq<Task>, filter: TaskFilter, from: nat, to: nat)
    requires DistinctIds(tasks)
    requires from < |FilteredTasks(tasks, filter)| && to < |FilteredTasks(tasks, filter)|
    ensures multiset(ReorderTasks(tasks, filter, from, to)) == multiset(tasks)
    ensures DistinctIds(ReorderTasks(tasks, filter, from, to))
  {
    var view := FilteredTasks(tasks, filter);
    ViewIsSubMultiset(tasks, filter, from, to);
    WriteBackPermutes(tasks, view, MoveItem(view, from, to));
    PermutationKeepsIdsDistinct(tasks, ReorderTasks(tasks, filter, from, to));
  }

  /** Tasks that the current filter hides keep their exact slot. */
  lemma ReorderKeepsHiddenTasks(tasks: seq<Task>, filter: TaskFilter, from: nat, to: nat)
    requires DistinctIds(tasks)
    requires from < |FilteredTasks(tasks, filter)| && to < |FilteredTasks(tasks, filter)|
    ensures forall k :: 0 <= k < |tasks| && !Matches(filter, tasks[k]) ==>
              ReorderTasks(tasks, filter, from, to)[k] == tasks[k]
  {
    var view := FilteredTasks(tasks, filter);
    ViewIsSubMultiset(tasks, filter, from, to);
    WriteBackInvariant(tasks, view, MoveItem(view, from, to), |view|);
  }

  /** Reordering leaves the multiset of tasks in the view unchanged. */
  lemma ReorderKeepsViewContents(tasks: seq<Task>, filter: TaskFilter, from: nat, to: nat)
    requires DistinctIds(tasks)
    requires from < |FilteredTasks(tasks, filter)| && to < |FilteredTasks(tasks, filter)|
    ensures multiset(FilteredTasks(ReorderTasks(tasks, filter, from, to), filter))
            == multiset(FilteredTasks(tasks, filter))
  {
    ReorderPermutes(tasks, filter, from, to);
    FilteredTasksOfPermutation(tasks, ReorderTasks(tasks, filter, from, to), filter);
  }

  /** Writing each view task back over its own slot changes nothing. */
  lemma {:induction false} WriteBackOfSameOrder(tasks: seq<Task>, view: seq<Task>, i: nat)
    requires i <= |view| && DistinctIds(tasks)
    requires forall k :: 0 <= k < |view| ==> view[k] in tasks
    ensures WriteBack(tasks, view, view, i) == tasks
  {
    if i > 0 {
      WriteBackOfSameOrder(tasks, view, i - 1);
      SameOrderStep(tasks, view, i);
    }
  }

  /** Round `i` of writing the view back over itself. */
  lemma SameOrderStep(tasks: seq<Task>, view: seq<Task>, i: nat)
    requires 0 < i <= |view| && DistinctIds(tasks) && view[i - 1] in tasks
    requires WriteBack(tasks, view, view, i - 1) == tasks
    ensures WriteBack(tasks, view, view, i) == tasks
  {
    WriteBackStepInPlace(tasks, view[i - 1]);
  }

  /** Writing a task of the collection over itself changes nothing. */
  lemma WriteBackStepInPlace(tasks: seq<Task>, x: Task)
    requires DistinctIds(tasks) && x in tasks
    ensures WriteBackStep(tasks, x, x) == tasks
  {
    FindsTheTask(tasks, tasks, x);
  }

  /** Putting the item back where it was taken from gives the view back. */
  lemma MoveItemInPlace(view: seq<Task>, k: nat)
    requires k < |view|
    ensures MoveItem(view, k, k) == view
  {
    var r := MoveItem(view, k, k);
    var rest := view[..k] + view[k + 1..];
    assert r[..k] + r[k + 1..] == rest;
    assert r[..k] == rest[..k] == view[..k];
    assert r[k + 1..] == rest[k..] == view[k + 1..];
    assert r == r[..k] + [r[k]] + r[k + 1..];
    assert view == view[..k] + [view[k]] + view[k + 1..];
  }

  /** Dropping a task where it was picked up leaves the collection as it was; in
      particular a view of one task never changes anything. */
  lemma ReorderInPlaceIsIdentity(tasks: seq<Task>, filter: TaskFilter, k: nat)
    requires DistinctIds(tasks)
    requires k < |FilteredTasks(tasks, filter)|
    ensures ReorderTasks(tasks, filter, k, k) == tasks
  {
    var view := FilteredTasks(tasks, filter);
    MoveItemInPlace(view, k);
    WriteBackOfSameOrder(tasks, view, |view|);
  }

  lemma MoveFirstOfTwo(a: Task, b: Task)
    ensures MoveItem([a, b], 0, 1) == [b, a]
  {
    var r := MoveItem([a, b], 0, 1);
    assert r[1] == a;
    assert r[..1] + r[2..] == [b];
    assert r[..1] == [b];
  }

  /** Writing `[older, newer]` back over either order of the two tasks. */
  lemma WriteBackOfTwo(older: Task, newer: Task)
    requires older.id != newer.id
    ensures WriteBack([newer, older], [newer, older], [older, newer], 2) == [newer, older]
    ensures WriteBack([older, newer], [newer, older], [older, newer], 2) == [newer, older]
  {
    var view, moved := [newer, older], [older, newer];
    assert [newer, older][1..] == [older] && [older, older][1..] == [older];
    assert FindIndex([newer, older], newer.id) == 0;
    assert WriteBack([newer, older], view, moved, 1) == [older, older];
    assert FindIndex([older, older], older.id) == 0;
    assert [older, newer][1..] == [newer];
    assert FindIndex([older, newer], newer.id) == 1 by {
      assert FindIndex([newer], newer.id) == 0;
    }
    assert WriteBack([older, newer], view, moved, 1) == [older, older];
  }

  /** Two tasks, the newer shown first: dragging the first below the second leaves the
      collection `[newer, older]`, whichever of the two orders it started in. So the
      collection does not record the dragged order `[older, newer]`. */
  lemma ReorderTwoTasks(older: Task, newer: Task)
    requires older.id != newer.id && older.createdAt < newer.createdAt
    ensures ReorderTasks([newer, older], All, 0, 1) == [newer, older]
    ensures ReorderTasks([older, newer], All, 0, 1) == [newer, older]
  {
    ViewOfTwo(older, newer);
    MoveFirstOfTwo(newer, older);
    WriteBackOfTwo(older, newer);
  }
}
