/** The Task entity, the partial-update rule of `updateTask`, and an in-memory
    task repository standing in for the Firestore one. */
module Tasks {
  import opened Wrappers
  import opened Timestamps

  /** Identifiers the repository assigns on creation. */
  type TaskId = nat

  datatype Task = Task(
    id: Option<TaskId>,         // absent until persisted
    userEmail: string,
    title: string,
    description: string,
    completed: bool,
    completedAt: Option<Time>,  // null or an instant
    createdAt: Time)

  /** The object literal handed to `new Task(data)`; `None` stands for a field
      that is absent (or null). */
  datatype TaskData = TaskData(
    userEmail: string,
    title: string,
    description: Option<string>,
    completed: Option<bool>,
    completedAt: Option<Time>,
    createdAt: Option<Time>,
    id: Option<TaskId>)

  /** The creation data the services pass: owner, title and an optional description. */
  function CreationData(userEmail: string, title: string, description: Option<string>): TaskData {
    TaskData(userEmail, title, description, None, None, None, None)
  }

  /** `new Task(data)` of the server under src/: no validation, `??` defaults,
      `createdAt` always the construction instant and no id (the constructor
      takes neither, so such fields of `data` are ignored). */
  function NewTask(data: TaskData, now: Time): Task {
    Task(None, data.userEmail, data.title, data.description.GetOr(""),
         data.completed.GetOr(false), data.completedAt, now)
  }

  /** `new Task(data)` of the Cloud Functions build: as above, but `createdAt`
      and `id` are taken from `data` when present (used to rebuild stored tasks). */
  function NewPersistedTask(data: TaskData, now: Time): Task {
    Task(data.id, data.userEmail, data.title, data.description.GetOr(""),
         data.completed.GetOr(false), data.completedAt, data.createdAt.GetOr(now))
  }

  /** Owner and title are copied without validation (an empty title included);
      each omitted optional field takes its default, each supplied one is kept. */
  lemma NewTaskDefaults(data: TaskData, now: Time)
    ensures var t := NewTask(data, now);
      && t.userEmail == data.userEmail && t.title == data.title
      && (data.description.None? ==> t.description == "")
      && (data.description.Some? ==> t.description == data.description.value)
      && (data.completed.None? ==> !t.completed)
      && (data.completed.Some? ==> t.completed == data.completed.value)
      && t.completedAt == data.completedAt
      && t.createdAt == now && t.id.None?
  {
  }

  /** The Cloud Functions constructor differs from the src/ one only in
      honouring a supplied `createdAt` and `id`; on creation data they agree. */
  lemma PersistedTaskKeepsIdentity(data: TaskData, now: Time)
    ensures var t := NewPersistedTask(data, now);
      && (data.createdAt.Some? ==> t.createdAt == data.createdAt.value)
      && (data.createdAt.None? ==> t.createdAt == now)
      && t.id == data.id
      && t == NewTask(data, now).(id := data.id, createdAt := t.createdAt)
    ensures data.createdAt.None? && data.id.None? ==> NewPersistedTask(data, now) == NewTask(data, now)
  {
  }

  /** The completion invariant the services maintain: a task is completed exactly
      when it has a completion instant. */
  predicate Consistent(t: Task) {
    t.completed <==> t.completedAt.Some?
  }

  /** A task built from creation data starts incomplete, and so consistent; the
      constructors themselves do not enforce consistency. */
  lemma CreatedTaskIsIncomplete(userEmail: string, title: string, description: Option<string>, now: Time)
    ensures var t := NewTask(CreationData(userEmail, title, description), now);
      !t.completed && t.completedAt.None? && Consistent(t)
    ensures !Consistent(NewPersistedTask(TaskData(userEmail, title, description, Some(true), None, None, None), now))
  {
  }

  /** The fields `updateTask` may change; `None` is a field left `undefined`. */
  datatype TaskPatch = TaskPatch(title: Option<string>, description: Option<string>, completed: Option<bool>)

  /** The task `updateTask` writes back: each supplied field replaces the old one
      (an empty string included); supplying `completed` also sets `completedAt`
      to now when true and to null when false. */
  function Patched(t: Task, patch: TaskPatch, now: Time): (u: Task)
    ensures u.id == t.id && u.userEmail == t.userEmail && u.createdAt == t.createdAt
    ensures u.title == (if patch.title.Some? then patch.title.value else t.title)
    ensures u.description == (if patch.description.Some? then patch.description.value else t.description)
    ensures patch.completed == Some(true) ==> u.completed && u.completedAt == Some(now)
    ensures patch.completed == Some(false) ==> !u.completed && u.completedAt.None?
    ensures patch.completed.None? ==> u.completed == t.completed && u.completedAt == t.completedAt
  {
    var t1 := if patch.title.Some? then t.(title := patch.title.value) else t;
    var t2 := if patch.description.Some? then t1.(description := patch.description.value) else t1;
    if patch.completed.Some? then
      t2.(completed := patch.completed.value,
          completedAt := if patch.completed.value then Some(now) else None)
    else t2
  }

  /** Supplying `completed` always leaves the task consistent; any patch keeps a
      consistent task consistent. */
  lemma PatchKeepsConsistency(t: Task, patch: TaskPatch, now: Time)
    requires Consistent(t) || patch.completed.Some?
    ensures Consistent(Patched(t, patch, now))
  {
  }

  /** Applying the same patch at the same instant twice changes nothing more. */
  lemma PatchIsIdempotent(t: Task, patch: TaskPatch, now: Time)
    ensures Patched(Patched(t, patch, now), patch, now) == Patched(t, patch, now)
  {
  }

  /** Completing and then reopening a task leaves it incomplete with no
      completion instant, whatever its state before. */
  lemma CompleteThenReopen(t: Task, first: Time, second: Time)
    ensures var done := Patched(t, TaskPatch(None, None, Some(true)), first);
      && done.completed && done.completedAt == Some(first)
      && var reopened := Patched(done, TaskPatch(None, None, Some(false)), second);
         !reopened.completed && reopened.completedAt.None?
  {
  }

  // ---------------------------------------------------------------------------
  // Listing by owner

  /** The tasks of `email` among the identifiers below `n`, in ascending
      identifier order, that is, in the order they were created. */
  function TasksOf(tasks: map<TaskId, Task>, email: string, n: nat): seq<Task>
    decreases n
  {
    if n == 0 then []
    else TasksOf(tasks, email, n - 1) +
         (if n - 1 in tasks && tasks[n - 1].userEmail == email then [tasks[n - 1]] else [])
  }

  /** Every task is stored under its own identifier, and every identifier is below `n`. */
  ghost predicate WellKeyed(tasks: map<TaskId, Task>, n: nat) {
    forall id :: id in tasks ==> id < n && tasks[id].id == Some(id)
  }

  /** The listing holds exactly the stored tasks owned by `email`, each once, in
      strictly ascending identifier order. */
  lemma {:induction false} TasksOfExactly(tasks: map<TaskId, Task>, email: string, n: nat)
    requires forall id :: id in tasks ==> tasks[id].id == Some(id)
    ensures var r := TasksOf(tasks, email, n);
      && (forall t :: t in r <==> exists id :: id < n && id in tasks && tasks[id] == t && t.userEmail == email)
      && (forall a, b :: 0 <= a < b < |r| ==> r[a].id.Some? && r[b].id.Some? && r[a].id.value < r[b].id.value)
      && (forall a :: 0 <= a < |r| ==> r[a].id.Some? && r[a].id.value < n)
    decreases n
  {
    if n > 0 {
      TasksOfExactly(tasks, email, n - 1);
      var prev := TasksOf(tasks, email, n - 1);
      var r := TasksOf(tasks, email, n);
      forall t ensures t in r <==> exists id :: id < n && id in tasks && tasks[id] == t && t.userEmail == email {
        if t in r && t !in prev {
          assert n - 1 < n && n - 1 in tasks && tasks[n - 1] == t;
        }
      }
    }
  }

  // ---------------------------------------------------------------------------
  // The repository

  /** The calls a task repository receives, in order. */
  datatype TaskCall =
    | Create(task: Task)
    | FindById(id: TaskId)
    | FindAllByUser(email: string)
    | Update(task: Task)
    | Delete(id: TaskId)

  /** An in-memory task repository; identifiers come from a counter. */
  class TaskRepository {
    var tasks: map<TaskId, Task>
    var nextId: TaskId
    ghost var calls: seq<TaskCall>

    ghost predicate Valid()
      reads this
    {
      WellKeyed(tasks, nextId)
    }

    constructor ()
      ensures Valid() && tasks == map[] && calls == []
    {
      tasks := map[];
      nextId := 0;
      calls := [];
    }

    /** `create(task)`: stores the task under a fresh identifier. */
    method Create(task: Task)
      requires Valid()
      modifies this
      ensures Valid()
      ensures old(nextId) !in old(tasks) && nextId > old(nextId)
      ensures tasks == old(tasks)[old(nextId) := task.(id := Some(old(nextId)))]
      ensures calls == old(calls) + [TaskCall.Create(task)]
    {
      tasks := tasks[nextId := task.(id := Some(nextId))];
      nextId := nextId + 1;
      calls := calls + [TaskCall.Create(task)];
    }

    /** `findById(id)`: the task, or null when there is none. */
    method FindById(id: TaskId) returns (t: Option<Task>)
      requires Valid()
      modifies this`calls
      ensures calls == old(calls) + [TaskCall.FindById(id)]
      ensures t.Some? <==> id in tasks
      ensures t.Some? ==> t.value == tasks[id] && t.value.id == Some(id)
    {
      calls := calls + [TaskCall.FindById(id)];
      t := if id in tasks then Some(tasks[id]) else None;
    }

    /** `findAllByUser(email)`: the owner's tasks in creation order. */
    method FindAllByUser(email: string) returns (ts: seq<Task>)
      requires Valid()
      modifies this`calls
      ensures calls == old(calls) + [TaskCall.FindAllByUser(email)]
      ensures ts == TasksOf(tasks, email, nextId)
    {
      calls := calls + [TaskCall.FindAllByUser(email)];
      ts := [];
      var i := 0;
      while i < nextId
        invariant i <= nextId
        invariant ts == TasksOf(tasks, email, i)
      {
        if i in tasks && tasks[i].userEmail == email {
          ts := ts + [tasks[i]];
        }
        i := i + 1;
      }
    }

    /** `update(task)`: overwrites the stored task with the same identifier and
        returns it. */
    method Update(task: Task) returns (u: Task)
      requires Valid() && task.id.Some? && task.id.value in tasks
      modifies this
      ensures Valid() && nextId == old(nextId)
      ensures tasks == old(tasks)[task.id.value := task] && u == task
      ensures calls == old(calls) + [TaskCall.Update(task)]
    {
      tasks := tasks[task.id.value := task];
      calls := calls + [TaskCall.Update(task)];
      u := task;
    }

    /** `delete(id)`: removes the task with that identifier. */
    method Delete(id: TaskId)
      requires Valid()
      modifies this
      ensures Valid() && nextId == old(nextId)
      ensures tasks == old(tasks) - {id}
      ensures calls == old(calls) + [TaskCall.Delete(id)]
    {
      tasks := tasks - {id};
      calls := calls + [TaskCall.Delete(id)];
    }
  }
}
