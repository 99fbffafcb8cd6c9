/**
 * The task router of the server (server/routes/taskRoute.js): create, list, update and
 * delete handlers over the task collection, which is a map from a task's `_id` to its
 * record. Request bodies are untyped JSON, so their fields are JavaScript values and
 * the `!` and `||` of the handlers are modelled on JavaScript truthiness.
 */
module TaskRoute {
  import opened Wrappers

  /** The JSON values the handlers tell apart. Objects, arrays and fractional numbers are
      left out: all of them are truthy, so none of them takes a branch a value here does
      not. */
  datatype Value = Undefined | Null | Bool(b: bool) | Num(n: int) | Str(s: string)

  /** JavaScript truthiness: `undefined`, `null`, `false`, `0` and `""` are falsy. */
  predicate Truthy(v: Value) {
    match v
    case Undefined => false
    case Null => false
    case Bool(b) => b
    case Num(n) => n != 0
    case Str(s) => s != ""
  }

  /** `a || b`: the left operand when it is truthy, the right one otherwise. */
  function Or(a: Value, b: Value): (r: Value)
    ensures Truthy(a) ==> r == a
    ensures !Truthy(a) ==> r == b
  {
    if Truthy(a) then a else b
  }

  /** `{ title, description, status, userId }` read from `req.body`. */
  datatype Body = Body(title: Value, description: Value, status: Value, userId: Value)

  /** A stored task document, without its `_id` (the key it is stored under). */
  datatype TaskRecord = TaskRecord(title: Value, description: Value, status: Value, userId: Value)

  /** The status code and the JSON body of a reply. */
  datatype Response = Response(status: int, message: string, task: Option<TaskRecord>)

  const UserIdRequired := Response(400, "User ID is required", None)
  const NotFoundOrUnauthorized := Response(404, "Task not found or unauthorized", None)
  const Deleted := Response(200, "Task deleted successfully", None)

  /** `Task.findOne({ _id: taskId, userId })`: the task under `taskId`, provided it
      belongs to `userId`. */
  function FindOwned(tasks: map<string, TaskRecord>, taskId: string, userId: Value): (r: Option<TaskRecord>)
    ensures r.Some? <==> taskId in tasks && tasks[taskId].userId == userId
    ensures r.Some? ==> r.value == tasks[taskId]
  {
    if taskId in tasks && tasks[taskId].userId == userId then Some(tasks[taskId]) else None
  }

  /** `Task.find({ userId })`: the tasks that belong to `userId`, under their ids. */
  function OwnedBy(tasks: map<string, TaskRecord>, userId: string): (r: map<string, TaskRecord>)
    ensures forall id :: id in r <==> id in tasks && tasks[id].userId == Str(userId)
    ensures forall id :: id in r ==> r[id] == tasks[id]
  {
    map id | id in tasks && tasks[id].userId == Str(userId) :: tasks[id]
  }

  /** Lines 48-50: each of the three fields takes the supplied value when it is truthy
      and keeps its old value otherwise; the owner never changes. */
  function Patched(t: TaskRecord, body: Body): (r: TaskRecord)
    ensures r.userId == t.userId
    ensures r.title == (if Truthy(body.title) then body.title else t.title)
    ensures r.description == (if Truthy(body.description) then body.description else t.description)
    ensures r.status == (if Truthy(body.status) then body.status else t.status)
  {
    TaskRecord(Or(body.title, t.title), Or(body.description, t.description), Or(body.status, t.status), t.userId)
  }

  /** An update can change a field but never make a truthy field falsy. */
  lemma PatchNeverClearsAField(t: TaskRecord, body: Body)
    ensures Truthy(t.title) ==> Truthy(Patched(t, body).title)
    ensures Truthy(t.description) ==> Truthy(Patched(t, body).description)
    ensures Truthy(t.status) ==> Truthy(Patched(t, body).status)
  {
  }

  /** Sending the same update twice has the effect of sending it once. */
  lemma PatchIsIdempotent(t: TaskRecord, body: Body)
    ensures Patched(Patched(t, body), body) == Patched(t, body)
  {
  }

  /** A body whose three fields are all falsy leaves the task as it was. */
  lemma FalsyPatchIsNoOp(t: TaskRecord, body: Body)
    requires !Truthy(body.title) && !Truthy(body.description) && !Truthy(body.status)
    ensures Patched(t, body) == t
  {
  }

  /** Two users' task lists never share a task. */
  lemma ListsAreDisjoint(tasks: map<string, TaskRecord>, u1: string, u2: string)
    requires u1 != u2
    ensures OwnedBy(tasks, u1).Keys !! OwnedBy(tasks, u2).Keys
  {
    forall id | id in OwnedBy(tasks, u1) ensures id !in OwnedBy(tasks, u2) {
      assert tasks[id].userId == Str(u1);
    }
  }

  /** A task created for `u` shows up in `u`'s list, and the lists of the other users
      stay as they were. */
  lemma CreatedTaskIsListed(tasks: map<string, TaskRecord>, id: string, t: TaskRecord, u: string, other: string)
    requires id !in tasks && t.userId == Str(u) && other != u
    ensures OwnedBy(tasks[id := t], u) == OwnedBy(tasks, u)[id := t]
    ensures OwnedBy(tasks[id := t], other) == OwnedBy(tasks, other)
  {
    assert OwnedBy(tasks[id := t], other).Keys == OwnedBy(tasks, other).Keys;
  }

  /** An update moves no task from one user's list to another's. */
  lemma UpdateKeepsOwnership(tasks: map<string, TaskRecord>, id: string, body: Body, u: string)
    requires id in tasks
    ensures OwnedBy(tasks[id := Patched(tasks[id], body)], u).Keys == OwnedBy(tasks, u).Keys
  {
  }

  /** A deleted task leaves its owner's list and no other task does. */
  lemma DeleteUnlists(tasks: map<string, TaskRecord>, id: string, u: string)
    ensures OwnedBy(tasks - {id}, u) == OwnedBy(tasks, u) - {id}
  {
    assert OwnedBy(tasks - {id}, u).Keys == OwnedBy(tasks, u).Keys - {id};
  }

  /** The task collection behind the router. The records it creates have an owner, so
      it keeps the invariant that every stored task's `userId` is truthy. */
  class TaskStore {
    var tasks: map<string, TaskRecord>

    ghost predicate Valid()
      reads this
    {
      forall id :: id in tasks ==> Truthy(tasks[id].userId)
    }

    constructor ()
      ensures Valid() && tasks == map[]
    {
      tasks := map[];
    }

    /** POST `/`: `freshId` is the `_id` the database assigns. */
    method Create(body: Body, freshId: string) returns (res: Response)
      requires Valid() && freshId !in tasks
      modifies this
      ensures Valid()
      ensures !Truthy(body.userId) ==> res == UserIdRequired && tasks == old(tasks)
      ensures Truthy(body.userId) ==>
        var t := TaskRecord(body.title, body.description, body.status, body.userId);
        && tasks == old(tasks)[freshId := t]
        && res == Response(201, "Task created successfully", Some(t))
    {
      if !Truthy(body.userId) {
        return UserIdRequired;
      }
      var newTask := TaskRecord(body.title, body.description, body.status, body.userId);
      tasks := tasks[freshId := newTask];
      res := Response(201, "Task created successfully", Some(newTask));
    }

    /** GET `/:userId`: the tasks of that user, and only those. */
    method List(userId: string) returns (status: int, found: map<string, TaskRecord>)
      ensures status == 200
      ensures forall id :: id in found <==> id in tasks && tasks[id].userId == Str(userId)
      ensures forall id :: id in found ==> found[id] == tasks[id]
    {
      status := 200;
      found := OwnedBy(tasks, userId);
    }

    /** PUT `/:taskId`: the owner check is the `userId` of the body; a task that does not
        exist and a task of someone else get the same reply. */
    method Update(taskId: string, body: Body) returns (res: Response)
      requires Valid()
      modifies this
      ensures Valid()
      ensures FindOwned(old(tasks), taskId, body.userId).None? ==>
        res == NotFoundOrUnauthorized && tasks == old(tasks)
      ensures FindOwned(old(tasks), taskId, body.userId).Some? ==>
        var t := Patched(old(tasks)[taskId], body);
        && tasks == old(tasks)[taskId := t]
        && res == Response(200, "Task updated successfully", Some(t))
    {
      var task := FindOwned(tasks, taskId, body.userId);
      if task.None? {
        return NotFoundOrUnauthorized;
      }
      var updated := Patched(task.value, body);
      tasks := tasks[taskId := updated];
      res := Response(200, "Task updated successfully", Some(updated));
    }

    /** DELETE `/:taskId/:userId`: the same owner check, then the task is removed. */
    method Delete(taskId: string, userId: string) returns (res: Response)
      requires Valid()
      modifies this
      ensures Valid()
      ensures FindOwned(old(tasks), taskId, Str(userId)).None? ==>
        res == NotFoundOrUnauthorized && tasks == old(tasks)
      ensures FindOwned(old(tasks), taskId, Str(userId)).Some? ==>
        res == Deleted && tasks == old(tasks) - {taskId}
    {
      var task := FindOwned(tasks, taskId, Str(userId));
      if task.None? {
        return NotFoundOrUnauthorized;
      }
      tasks := tasks - {taskId};
      res := Deleted;
    }
  }

  /** The owner check hides which of the two failures happened: looking up an id that
      does not exist and looking up someone else's task give the same answer, so Update
      and Delete send the same 404 for both. */
  lemma AbsentAndForeignLookAlike(tasks: map<string, TaskRecord>, absent: string, foreign: string, u: Value)
    requires absent !in tasks && foreign in tasks && tasks[foreign].userId != u
    ensures FindOwned(tasks, absent, u) == FindOwned(tasks, foreign, u) == None
  {
  }
}
