# FocusTrack task logic in Dafny

FocusTrack is a task manager with two sides. The React client keeps the user's tasks
in memory in a `TaskProvider`. It derives a filtered view sorted newest first, and it
adds, toggles, updates, deletes and drag-reorders tasks. The Express server has a task
router with a per-user ownership check and an auth router that signs users up and logs
them in with bcrypt-hashed passwords.

This project models those pieces and proves what they promise:

- `wrappers.dfy`: `Option`, for optional fields and lookups that may miss.
- `task_context.dfy` (module `TaskContext`): the task types, the `filteredTasks`
  derivation (filter, then a stable sort by `createdAt` descending), the pure list
  updates the provider passes to `setTasks`, and the default tasks.
- `task_reorder.dfy` (module `TaskReorder`): `reorderTasks` as written. Each round's
  `findIndex` searches the array it is overwriting. The proofs show that, given
  distinct ids, every search succeeds, the collection is only permuted, and tasks
  outside the view keep their slot.
- `task_provider.dfy` (module `TaskState`): the provider as a class with the fields
  `tasks` and `filter`. Its methods assign the updates above. `ReorderTasks` runs the
  write-back loop over an array that copies the collection.
- `task_form_dialog.dfy` (module `TaskFormDialog`): the form's reset effect (a class
  with the three form fields), ECMAScript `trim`, and `handleSubmit`. The submit
  handler is a function returning the calls it makes. Lemmas connect those calls to the
  provider's list updates.
- `utils.dfy` (module `Utils`): `getCategoryColor`.
- `task_route.dfy` (module `TaskRoute`): the task router. It is a class over a map from
  `_id` to task record. Body fields are JavaScript values, so `!userId` and `a || b` are
  modelled on JavaScript truthiness.
- `auth.dfy` (module `Auth`): signup (a method on a user store) and login (a pure
  lookup). The hash and compare functions are abstract. The only fact assumed about them
  is that `compare(p, hash(p, s))` holds.

As written, `reorderTasks(0, 1)` with the view `[T2, T1]` (T2 the newer task) returns
`[T2, T1]`, both from the collection `[T2, T1]` and from `[T1, T2]`. `TaskReorder.ReorderTwoTasks`
proves both outcomes. In general the collection does not end up in the dragged order,
and the model does not claim it does.

Ids, timestamps, salts and database `_id`s come from `uniqueId()`, `Date`,
`bcrypt.genSalt` and the database. They are parameters here. A freshness precondition
says a new id is not yet in use.

## Model

| member | source | states |
|---|---|---|
| TaskContext.Select | client/src/context/task-context.tsx:79-83 | the filter keeps, with its multiplicity, every task the filter accepts and none other, in collection order |
| TaskContext.SelectAllKeepsEverything | client/src/context/task-context.tsx:80 | the "all" filter returns the collection unchanged |
| TaskContext.InsertByNewest | client/src/context/task-context.tsx:84 | one insertion step of the sort: adds exactly one task and keeps a newest-first sequence newest first |
| TaskContext.SortByNewest | client/src/context/task-context.tsx:84 | the sort is a permutation of its input and orders every adjacent pair by non-increasing `createdAt` |
| TaskContext.InsertKeepsStamped | client/src/context/task-context.tsx:84 | an insertion step keeps the relative order of tasks with the same timestamp |
| TaskContext.SortIsStable | client/src/context/task-context.tsx:84 | the sort is stable: the tasks created at one instant keep their collection order |
| TaskContext.FilteredTasks | client/src/context/task-context.tsx:79-84 | the view is newest first, and it holds exactly the filter-accepted tasks of the collection with their multiplicity |
| TaskContext.FilteredTasksStable | client/src/context/task-context.tsx:79-84 | within the view, equal timestamps appear in collection order |
| TaskContext.FilterPartition | client/src/context/task-context.tsx:79-84 | "all" shows every task; the "completed" and "pending" views are disjoint, and together they are the whole collection, so their counts add up to the number of tasks |
| TaskContext.FilteredTasksOfPermutation | client/src/context/task-context.tsx:79-84 | permuting the collection does not change which tasks the view shows |
| TaskContext.SameIdSameTask | client/src/context/task-context.tsx:7-14 | in a collection with distinct ids a task is determined by its id |
| TaskContext.DistinctIdsAtMostOnce | client/src/context/task-context.tsx:7-14 | a collection with distinct ids has no task twice |
| TaskContext.PermutationKeepsIdsDistinct | client/src/context/task-context.tsx:7-14 | a permutation of a collection with distinct ids has distinct ids |
| TaskContext.AddTask | client/src/context/task-context.tsx:86-93 | the new collection is the new task followed by the old collection; the new task has the input's fields and the supplied id and timestamp |
| TaskContext.AddTaskKeepsIdsDistinct | client/src/context/task-context.tsx:86-93 | adding with an unused id keeps ids distinct |
| TaskContext.ToggleTaskCompletion | client/src/context/task-context.tsx:95-101 | same length and order; every task keeps every field, except that tasks with the id have `completed` negated |
| TaskContext.ToggleTwiceRestores | client/src/context/task-context.tsx:95-101 | toggling the same id twice restores the collection |
| TaskContext.ToggleAbsentIsNoOp | client/src/context/task-context.tsx:95-101 | toggling an absent id changes nothing |
| TaskContext.ToggleKeepsIdsDistinct | client/src/context/task-context.tsx:95-101 | toggling keeps ids distinct |
| TaskContext.DeleteTask | client/src/context/task-context.tsx:103-105 | the result holds exactly the tasks whose id differs and is no longer than the collection |
| TaskContext.DeleteAbsentIsNoOp | client/src/context/task-context.tsx:103-105 | deleting an absent id changes nothing |
| TaskContext.DeleteIsIdempotent | client/src/context/task-context.tsx:103-105 | deleting twice is deleting once |
| TaskContext.DistinctIdsTail | client/src/context/task-context.tsx:103-105 | the tail of a collection with distinct ids has distinct ids, none equal to the head's |
| TaskContext.DeleteRemovesOne | client/src/context/task-context.tsx:103-105 | with distinct ids, deleting the id at slot k removes exactly slot k and keeps the others in order |
| TaskContext.DeleteKeepsIdsDistinct | client/src/context/task-context.tsx:103-105 | deleting keeps ids distinct |
| TaskContext.Merge | client/src/context/task-context.tsx:110 | the spread keeps the id and timestamp; each supplied field replaces the old value and each absent one keeps it |
| TaskContext.UpdateTask | client/src/context/task-context.tsx:107-113 | same length and order; tasks with the id are merged with the patch, the others are unchanged; no id or timestamp changes |
| TaskContext.UpdateAbsentIsNoOp | client/src/context/task-context.tsx:107-113 | updating an absent id changes nothing |
| TaskContext.UpdateIsIdempotent | client/src/context/task-context.tsx:107-113 | applying the same update twice is applying it once |
| TaskContext.UpdateKeepsIdsDistinct | client/src/context/task-context.tsx:107-113 | updating keeps ids distinct |
| TaskContext.DefaultTasks | client/src/context/task-context.tsx:32-73 | the five default tasks have distinct ids |
| TaskContext.SortTwo | client/src/context/task-context.tsx:84 | two tasks with different timestamps sort newer first, whichever comes first |
| TaskContext.ViewOfTwo | client/src/context/task-context.tsx:79-84 | the "all" view of two tasks is newer first |
| TaskContext.SelectCons | client/src/context/task-context.tsx:79-83 | the filter keeps the head exactly when it matches and goes on with the rest |
| TaskContext.FilteredPickOne | client/src/context/task-context.tsx:79-84 | of two tasks of which the filter accepts exactly one, the view shows that one alone |
| TaskContext.AddTwiceStacks | client/src/context/task-context.tsx:86-93 | two adds on an empty collection leave the later task in front of the earlier one |
| TaskContext.ToggleScenario | client/src/context/task-context.tsx:79-101 | two pending tasks are viewed newest first; toggling the older one moves it from "pending" to "completed" |
| TaskReorder.MoveItem | client/src/context/task-context.tsx:116-118 | the two splices move the element at `from` to `to` and keep the others in order, so the view is permuted |
| TaskReorder.FindIndex | client/src/context/task-context.tsx:123 | `findIndex` answers -1 or an index of the array |
| TaskReorder.FindIndexSpec | client/src/context/task-context.tsx:123 | `findIndex` gives the first slot with the id, and -1 exactly when no slot has it |
| TaskReorder.WriteBackStep | client/src/context/task-context.tsx:123-126 | one round of the write-back keeps the length |
| TaskReorder.WriteBack | client/src/context/task-context.tsx:121-127 | the write-back keeps the length of the collection |
| TaskReorder.WriteBackStart | client/src/context/task-context.tsx:121 | before any round the array is the copied collection |
| TaskReorder.WriteBackNext | client/src/context/task-context.tsx:122-126 | each further round applies one step to the array left by the earlier rounds, in view order |
| TaskReorder.ReorderTasks | client/src/context/task-context.tsx:115-130 | the collection handed to `setTasks` has the old length |
| TaskReorder.NotEarlier | client/src/context/task-context.tsx:122 | a view without repeats does not hold its i-th task before slot i |
| TaskReorder.FindsTheTask | client/src/context/task-context.tsx:123 | if a task of a collection with distinct ids is still in the array, `findIndex` finds that very task |
| TaskReorder.RoundFindsTask | client/src/context/task-context.tsx:122-126 | in every round, the search for the view's i-th task finds that task |
| TaskReorder.BagIsPrefix | client/src/context/task-context.tsx:122 | the tasks visited by the first i rounds are the first i tasks of the view, counted with multiplicity |
| TaskReorder.RoundInvariantAtStart | client/src/context/task-context.tsx:121 | the loop invariant holds for the fresh copy before the first round |
| TaskReorder.RoundKeepsInvariant | client/src/context/task-context.tsx:122-126 | a round keeps the loop invariant: the tasks still to place plus the array equal the placed tasks plus the collection, and hidden slots are untouched |
| TaskReorder.WriteBackKeepsInvariant | client/src/context/task-context.tsx:122-126 | round i of the write-back keeps the loop invariant of the first i - 1 rounds |
| TaskReorder.WriteBackInvariant | client/src/context/task-context.tsx:121-127 | the loop invariant holds after every number of rounds |
| TaskReorder.ViewIsSubMultiset | client/src/context/task-context.tsx:116-118 | the view is part of the collection, and the spliced view is a permutation of it |
| TaskReorder.ReorderFindsEveryTask | client/src/context/task-context.tsx:123-124 | with distinct ids every `findIndex` of the loop succeeds, so the `-1` branch is never taken |
| TaskReorder.WriteBackPermutes | client/src/context/task-context.tsx:121-127 | writing back a permutation of a sub-collection permutes the collection |
| TaskReorder.ReorderPermutes | client/src/context/task-context.tsx:115-130 | the reordered collection is a permutation of the old one, so it has the same ids, and they stay distinct |
| TaskReorder.ReorderKeepsHiddenTasks | client/src/context/task-context.tsx:115-130 | every task the filter hides stays at exactly its index |
| TaskReorder.ReorderKeepsViewContents | client/src/context/task-context.tsx:79-130 | the view after a reorder shows the same tasks as before |
| TaskReorder.WriteBackOfSameOrder | client/src/context/task-context.tsx:121-127 | writing back the view unchanged leaves the collection unchanged |
| TaskReorder.WriteBackStepInPlace | client/src/context/task-context.tsx:123-126 | with distinct ids, writing a task of the array over its own slot changes nothing |
| TaskReorder.MoveItemInPlace | client/src/context/task-context.tsx:116-118 | moving an element onto its own index leaves the view unchanged |
| TaskReorder.ReorderInPlaceIsIdentity | client/src/context/task-context.tsx:115-130 | `reorderTasks(k, k)` leaves the collection unchanged (in particular for a one-task view) |
| TaskReorder.MoveFirstOfTwo | client/src/context/task-context.tsx:116-118 | moving index 0 to index 1 swaps a two-task view |
| TaskReorder.WriteBackOfTwo | client/src/context/task-context.tsx:121-127 | the write-back of a swapped two-task view yields newer-then-older from either collection order |
| TaskReorder.ReorderTwoTasks | client/src/context/task-context.tsx:115-130 | `reorderTasks(0, 1)` over two tasks gives `[newer, older]` from both collection orders |
| TaskState.TaskProvider.constructor | client/src/context/task-context.tsx:32-77 | the provider starts with the default tasks, the "all" filter and distinct ids |
| TaskState.TaskProvider.Filtered | client/src/context/task-context.tsx:79-84 | the derived view of the current state is newest first and holds exactly the current tasks the current filter accepts |
| TaskState.TaskProvider.SetFilter | client/src/context/task-context.tsx:77 | changes the filter and never the collection |
| TaskState.TaskProvider.AddTask | client/src/context/task-context.tsx:86-93 | assigns the prepend update, grows the collection by one, keeps the filter and distinct ids |
| TaskState.TaskProvider.ToggleTaskCompletion | client/src/context/task-context.tsx:95-101 | assigns the toggle update, keeps length, filter and distinct ids |
| TaskState.TaskProvider.DeleteTask | client/src/context/task-context.tsx:103-105 | assigns the delete update; with the id present the collection shrinks by one, without it nothing changes; keeps distinct ids |
| TaskState.TaskProvider.UpdateTask | client/src/context/task-context.tsx:107-113 | assigns the merge update, keeps length, filter and distinct ids |
| TaskState.TaskProvider.ReorderTasks | client/src/context/task-context.tsx:115-130 | the new collection is the write-back of the spliced view; it is a permutation of the old one, hidden tasks keep their index, the view shows the same tasks, and ids stay distinct |
| TaskState.WriteBackInPlace | client/src/context/task-context.tsx:121-127 | the `forEach` over an array copy of the collection computes the write-back |
| TaskState.CopyToArray | client/src/context/task-context.tsx:121 | `tasks.slice()` gives a fresh array holding exactly the collection |
| TaskState.WriteBackRound | client/src/context/task-context.tsx:123-126 | one `forEach` callback changes the array exactly as one write-back step says |
| TaskFormDialog.TrimStart | client/src/components/task-form-dialog.tsx:40 | drops exactly the leading whitespace: the result is a suffix and does not start with whitespace |
| TaskFormDialog.TrimEnd | client/src/components/task-form-dialog.tsx:40 | drops exactly the trailing whitespace: the result is a prefix and does not end with whitespace |
| TaskFormDialog.Trim | client/src/components/task-form-dialog.tsx:40 | the trimmed title neither starts nor ends with whitespace |
| TaskFormDialog.TrimEmptyIffBlank | client/src/components/task-form-dialog.tsx:40 | `!title.trim()` holds exactly when every character of the title is whitespace |
| TaskFormDialog.HandleSubmit | client/src/components/task-form-dialog.tsx:37-58 | no call at all for a blank title; otherwise one update call (edit mode, no `completed` key) or one add call with `completed: false` (add mode), with the untrimmed title, followed by exactly one `onClose` |
| TaskFormDialog.ApplyThenClose | client/src/components/task-form-dialog.tsx:57 | closing the dialog after the call does not change the collection |
| TaskFormDialog.BlankTitleChangesNothing | client/src/components/task-form-dialog.tsx:40 | a blank title makes no call and leaves the collection unchanged |
| TaskFormDialog.EditSubmitKeepsCompletion | client/src/components/task-form-dialog.tsx:42-47 | an edit submit sets the edited task's title, description and category; every task keeps its id, timestamp and completion state, and other tasks are untouched |
| TaskFormDialog.AddSubmitPrependsPendingTask | client/src/components/task-form-dialog.tsx:48-55 | an add submit puts one new pending task with the typed fields in front of the collection |
| TaskFormDialog.UnchangedEditIsNoOp | client/src/components/task-form-dialog.tsx:24-58 | opening the dialog on a task and submitting without edits leaves the collection unchanged |
| TaskFormDialog.TaskForm.constructor | client/src/components/task-form-dialog.tsx:20-22 | the fields start as `""`, `""` and `"Work"` |
| TaskFormDialog.TaskForm.SyncWithTask | client/src/components/task-form-dialog.tsx:24-35 | with a task to edit the fields load its title, description and category, otherwise they reset to `""`, `""` and `"Work"` |
| TaskFormDialog.TaskForm.Submit | client/src/components/task-form-dialog.tsx:37-58 | submitting the form makes the calls of the submit decision on the current fields |
| Utils.CategoryColor | client/src/lib/utils.ts:22-33 | "Work", "Personal" and "Urgent" get their own classes, and every other string gets "bg-primary", each in both directions |
| Utils.CategoryColorsDistinct | client/src/lib/utils.ts:22-33 | the three categories get pairwise distinct colours, none of them the default |
| TaskRoute.Or | server/routes/taskRoute.js:48-50 | `a \|\| b` is `a` when `a` is truthy and `b` otherwise |
| TaskRoute.FindOwned | server/routes/taskRoute.js:42 | the lookup by id and owner finds the stored task exactly when it exists and has that owner (the delete handler makes the same lookup at line 64) |
| TaskRoute.OwnedBy | server/routes/taskRoute.js:28 | the user's list holds exactly the stored tasks with that owner, unchanged |
| TaskRoute.Patched | server/routes/taskRoute.js:48-50 | each of title, description and status takes the supplied value when it is truthy and keeps the old one otherwise; the owner is unchanged |
| TaskRoute.PatchNeverClearsAField | server/routes/taskRoute.js:48-50 | an update never makes a truthy field falsy |
| TaskRoute.PatchIsIdempotent | server/routes/taskRoute.js:48-50 | sending the same update twice is sending it once |
| TaskRoute.FalsyPatchIsNoOp | server/routes/taskRoute.js:48-50 | a body without truthy fields leaves the task as it was |
| TaskRoute.ListsAreDisjoint | server/routes/taskRoute.js:26-30 | two users' lists share no task |
| TaskRoute.CreatedTaskIsListed | server/routes/taskRoute.js:14-28 | a created task appears in its owner's list, and other users' lists stay the same |
| TaskRoute.UpdateKeepsOwnership | server/routes/taskRoute.js:48-51 | an update moves no task between users' lists |
| TaskRoute.DeleteUnlists | server/routes/taskRoute.js:70 | a deleted task leaves its owner's list and no other task does |
| TaskRoute.AbsentAndForeignLookAlike | server/routes/taskRoute.js:42-46 | an absent task and another user's task fail the lookup alike, so they get the same 404 (as do the delete handler's lines 64-68) |
| TaskRoute.TaskStore.Create | server/routes/taskRoute.js:8-17 | a falsy `userId` gives 400 "User ID is required" and stores nothing; otherwise exactly one record with the body's four fields is added under the fresh id, and 201 returns it |
| TaskRoute.TaskStore.List | server/routes/taskRoute.js:26-30 | 200 with exactly the tasks of that user, unchanged, and no task of anyone else |
| TaskRoute.TaskStore.Update | server/routes/taskRoute.js:39-53 | without a task having that id and owner: 404 "Task not found or unauthorized" and nothing changes; otherwise only that task is patched, and 200 returns it |
| TaskRoute.TaskStore.Delete | server/routes/taskRoute.js:62-72 | the same ownership check and 404; otherwise exactly that task is removed and 200 "Task deleted successfully" |
| Auth.FindByEmail | server/routes/auth.js:15 | the lookup finds a user with that email exactly when one exists (login makes the same lookup at line 43) |
| Auth.Login | server/routes/auth.js:38-54 | 200 with the user's id exactly when the email is known and the password matches its hash; an unknown email and a wrong password both give the same 400 "Invalid credentials" |
| Auth.FindByEmailIsTheUser | server/routes/auth.js:43 | with unique emails the lookup finds the one user with that email |
| Auth.FindAfterAppend | server/routes/auth.js:15-26 | after a signup, the new email finds the new user and other emails find what they found before |
| Auth.SignupThenLogin | server/routes/auth.js:21-54 | signing up and then logging in with the same email and password gives 200 with the id that signup issued |
| Auth.SignupKeepsOtherLogins | server/routes/auth.js:25-54 | a signup does not change the login result of any other email |
| Auth.UserStore.Signup | server/routes/auth.js:10-28 | a taken email gives 400 "User already exists" and stores nothing; otherwise exactly one user is added, holding `hash(password, salt)` in place of the password, 201 returns its id, and emails and ids stay unique |

## Left out

- Tasks and users are not wired together. The client state never calls the server, and the server's entry point mounts only the auth router. The two sides are modelled as independent components.
- TaskReorder.ReorderTasks: the model does not claim the collection ends up in the dragged order, because the code does not achieve that (see the two-task example above).
- TaskState.TaskProvider.ReorderTasks: requires both indices to lie inside the view. The dashboard passes `findIndex(...)`, which can be -1, and JavaScript `splice` silently misbehaves on such an index. That behaviour is not modelled.
- The filter's fall-through `return true` (line 83 of task-context.tsx) is unreachable with the three filter values and is not modelled.
- `uniqueId`, `new Date()`, `Date.now()`, `bcrypt.genSalt` and the database's `_id` are nondeterministic. They become parameters, with freshness preconditions on ids.
- `createdAt` is an integer of milliseconds rather than a `Date`.
- `formatDate` (locale formatting) and `cn` (a wrapper over class-name libraries) are not modelled.
- TaskContext.Merge: a patch key given explicitly as `undefined` would overwrite the field with `undefined`. The model treats such a key as absent, because the one caller (the form dialog) always passes all three keys with values.
- The React rendering, the dialog widgets, the pages, the sidebar, the task cards, animations and routing are presentation. The sidebar's counts follow from `TaskContext.FilterPartition`.
- The 500 paths of every handler (exceptions from the database or the hash library) are not modelled. Nor are async/await, the racy check-then-insert of concurrent signups (requests are sequential here), or the logging of request bodies.
- TaskRoute.TaskStore.Update: the owner filter compares the body's `userId` with the stored one as a plain value. MongoDB's casting of query values (string versus ObjectId) is not modelled. A `userId` omitted from the body is taken to match no task, as a query for a null owner would be, since every stored task has a truthy owner.
- TaskRoute.TaskStore.List: the order in which the database returns the tasks is not modelled. The result is a map from id to task.
- An invalid ObjectId string in a path parameter makes the database throw a cast error, which ends in a 500. This is not modelled.
- Auth.UserStore.Signup: body fields are taken to be strings, and the user schema (not shown) is taken to add no validation.
- The bcrypt internals (salt rounds, cost factor) are not modelled. Only `compare(p, hash(p, s))` is assumed.
- Auth.Login: `findOne` may return any user with the email. The model takes the first, which is the only one while emails are unique.
