/**
 * The logic of the task form dialog (client/src/components/task-form-dialog.tsx):
 * the effect that loads or clears the three form fields (lines 24-35) and the
 * submit handler's decision (lines 37-58), which is described by the calls it makes.
 */
module TaskFormDialog {
  import opened Wrappers
  import opened TaskContext

  // ---- String.prototype.trim

  /** The characters ECMAScript's `trim` strips: the WhiteSpace code points (tab,
      vertical tab, form feed, space, no-break space, the byte order mark and the other
      space separators of Unicode category Zs) and the LineTerminator code points. */
  predicate IsWhitespace(c: char) {
    || c == '\U{0009}' || c == '\U{000B}' || c == '\U{000C}' || c == '\U{0020}'
    || c == '\U{00A0}' || c == '\U{FEFF}' || c == '\U{1680}'
    || ('\U{2000}' <= c <= '\U{200A}')
    || c == '\U{202F}' || c == '\U{205F}' || c == '\U{3000}'
    || c == '\U{000A}' || c == '\U{000D}' || c == '\U{2028}' || c == '\U{2029}'
  }

  /** `s` without its leading whitespace. */
  function TrimStart(s: string): (r: string)
    ensures |r| <= |s| && r == s[|s| - |r|..]
    ensures forall i :: 0 <= i < |s| - |r| ==> IsWhitespace(s[i])
    ensures r == [] || !IsWhitespace(r[0])
  {
    if s != [] && IsWhitespace(s[0]) then TrimStart(s[1..]) else s
  }

  /** `s` without its trailing whitespace. */
  function TrimEnd(s: string): (r: string)
    ensures |r| <= |s| && r == s[..|r|]
    ensures forall i :: |r| <= i < |s| ==> IsWhitespace(s[i])
    ensures r == [] || !IsWhitespace(r[|r| - 1])
  {
    if s != [] && IsWhitespace(s[|s| - 1]) then TrimEnd(s[..|s| - 1]) else s
  }

  function Trim(s: string): (r: string)
    ensures r == [] || (!IsWhitespace(r[0]) && !IsWhitespace(r[|r| - 1]))
  {
    TrimEnd(TrimStart(s))
  }

  /** `!title.trim()` holds exactly when the title is empty or all whitespace. */
  lemma TrimEmptyIffBlank(s: string)
    ensures Trim(s) == [] <==> forall i :: 0 <= i < |s| ==> IsWhitespace(s[i])
  {
    var u := TrimStart(s);
    if u != [] {
      assert s[|s| - |u|] == u[0];
      assert TrimEnd(u) != [] by { assert TrimEnd(u) == u || !IsWhitespace(u[0]); }
    }
  }

  // ---- handleSubmit

  /** A call the submit handler makes, in the order it makes them. */
  datatype Call =
    | CallUpdateTask(id: string, patch: TaskPatch)
    | CallAddTask(input: TaskInput)
    | CallOnClose

  /** `handleSubmit` over the current form fields: nothing for a blank title; otherwise
      the update (edit mode) or the add (add mode), then `onClose()`. The title passed
      on is the field as typed, not its trimmed form. */
  function HandleSubmit(title: string, description: string, category: TaskCategory,
                        taskToEdit: Option<Task>): (calls: seq<Call>)
    ensures calls == [] <==> Trim(title) == []
    ensures calls != [] ==> |calls| == 2 && calls[1] == CallOnClose
    ensures calls != [] && taskToEdit.Some? ==>
      && calls[0].CallUpdateTask? && calls[0].id == taskToEdit.value.id
      && calls[0].patch.title == Some(title) && calls[0].patch.description == Some(description)
      && calls[0].patch.category == Some(category) && calls[0].patch.completed.None?
    ensures calls != [] && taskToEdit.None? ==>
      calls[0] == CallAddTask(TaskInput(title, description, false, category))
  {
    if Trim(title) == [] then []
    else
      match taskToEdit
      case Some(t) => [CallUpdateTask(t.id, TaskPatch(Some(title), Some(description), None, Some(category))), CallOnClose]
      case None => [CallAddTask(TaskInput(title, description, false, category)), CallOnClose]
  }

  /** The provider's collection after one call; `id` and `now` are what `addTask` would
      draw from `uniqueId()` and `new Date()`. Closing the dialog leaves it alone. */
  function ApplyCall(tasks: seq<Task>, call: Call, id: string, now: int): (r: seq<Task>)
  {
    match call
    case CallUpdateTask(taskId, patch) => UpdateTask(tasks, taskId, patch)
    case CallAddTask(input) => AddTask(tasks, input, id, now)
    case CallOnClose => tasks
  }

  /** The provider's collection after the calls, made in order. */
  function Apply(tasks: seq<Task>, calls: seq<Call>, id: string, now: int): (r: seq<Task>)
    decreases |calls|
  {
    if calls == [] then tasks
    else Apply(ApplyCall(tasks, calls[0], id, now), calls[1..], id, now)
  }

  /** A call followed by closing the dialog has the effect of the call alone. */
  lemma ApplyThenClose(tasks: seq<Task>, call: Call, id: string, now: int)
    ensures Apply(tasks, [call, CallOnClose], id, now) == ApplyCall(tasks, call, id, now)
  {
    assert [call, CallOnClose][1..] == [CallOnClose] && [CallOnClose][1..] == [];
  }

  /** A blank title changes nothing and closes nothing. */
  lemma BlankTitleChangesNothing(tasks: seq<Task>, title: string, description: string,
                                 category: TaskCategory, taskToEdit: Option<Task>, id: string, now: int)
    requires forall i :: 0 <= i < |title| ==> IsWhitespace(title[i])
    ensures HandleSubmit(title, description, category, taskToEdit) == []
    ensures Apply(tasks, HandleSubmit(title, description, category, taskToEdit), id, now) == tasks
  {
    TrimEmptyIffBlank(title);
  }

  /** Submitting an edit rewrites the edited task's title, description and category and
      nothing else: every task keeps its id, timestamp and completion flag, and every
      other task is left as it was. */
  lemma EditSubmitKeepsCompletion(tasks: seq<Task>, title: string, description: string,
                                  category: TaskCategory, edited: Task, id: string, now: int)
    requires Trim(title) != []
    ensures var r := Apply(tasks, HandleSubmit(title, description, category, Some(edited)), id, now);
      && |r| == |tasks|
      && forall k :: 0 <= k < |tasks| ==>
           && r[k].id == tasks[k].id && r[k].createdAt == tasks[k].createdAt
           && r[k].completed == tasks[k].completed
           && (tasks[k].id == edited.id ==>
                 r[k].title == title && r[k].description == description && r[k].category == category)
           && (tasks[k].id != edited.id ==> r[k] == tasks[k])
  {
    var calls := HandleSubmit(title, description, category, Some(edited));
    ApplyThenClose(tasks, calls[0], id, now);
  }

  /** Submitting in add mode puts one new pending task, with the typed fields, in front. */
  lemma AddSubmitPrependsPendingTask(tasks: seq<Task>, title: string, description: string,
                                     category: TaskCategory, id: string, now: int)
    requires Trim(title) != []
    ensures Apply(tasks, HandleSubmit(title, description, category, None), id, now)
            == [Task(id, title, description, false, category, now)] + tasks
  {
    var calls := HandleSubmit(title, description, category, None);
    ApplyThenClose(tasks, calls[0], id, now);
  }

  // ---- the form state and its reset effect

  class TaskForm {
    var title: string
    var description: string
    var category: TaskCategory

    /** The three `useState` initial values. */
    constructor ()
      ensures title == "" && description == "" && category == Work
    {
      title, description, category := "", "", Work;
    }

    /** The effect run whenever `taskToEdit` or `isOpen` changes: load the task being
        edited, or clear the form. */
    method SyncWithTask(taskToEdit: Option<Task>)
      modifies this
      ensures taskToEdit.Some? ==>
        title == taskToEdit.value.title && description == taskToEdit.value.description
        && category == taskToEdit.value.category
      ensures taskToEdit.None? ==> title == "" && description == "" && category == Work
    {
      if taskToEdit.Some? {
        title := taskToEdit.value.title;
        description := taskToEdit.value.description;
        category := taskToEdit.value.category;
      } else {
        title := "";
        description := "";
        category := Work;
      }
    }

    /** The submit button, pressed with the fields as they are now. */
    method Submit(taskToEdit: Option<Task>) returns (calls: seq<Call>)
      ensures calls == HandleSubmit(title, description, category, taskToEdit)
    {
      calls := HandleSubmit(title, description, category, taskToEdit);
    }
  }

  /** Opening the dialog on a task of the collection and submitting without touching a
      field leaves a collection with distinct ids as it was. */
  lemma UnchangedEditIsNoOp(tasks: seq<Task>, edited: Task, id: string, now: int)
    requires DistinctIds(tasks) && edited in tasks && Trim(edited.title) != []
    ensures Apply(tasks, HandleSubmit(edited.title, edited.description, edited.category, Some(edited)), id, now)
            == tasks
  {
    var r := Apply(tasks, HandleSubmit(edited.title, edited.description, edited.category, Some(edited)), id, now);
    EditSubmitKeepsCompletion(tasks, edited.title, edited.description, edited.category, edited, id, now);
    forall k | 0 <= k < |tasks| ensures r[k] == tasks[k] {
      SameIdSameTask(tasks, tasks[k], edited);
    }
  }
}
