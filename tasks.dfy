/** The task handlers: create, list, remove, edit and getById. Each takes the
    caller's user id (None when the request carries no identity, or the identity
    has no user row) and reads or writes the database. */
module Tasks {
  import opened Types
  import opened Database

  /** The optional fields `edit` accepts; a field left `None` is not patched.
      `taskProject` moves the task to another project. */
  datatype TaskEdit = TaskEdit(
    taskName: Option<string>,
    dueDate: Option<int>,
    assigneeId: Option<UserId>,
    status: Option<TaskStatus>,
    description: Option<string>,
    taskProject: Option<ProjectId>,
    position: Option<int>)

  /** The edit that passes no field at all. */
  const NoEdit := TaskEdit(None, None, None, None, None, None, None)

  /** The document `edit` leaves behind: each field that was passed replaces the
      stored one; every other field, and the id and workspace, stay. */
  function ApplyTaskEdit(t: Task, e: TaskEdit): (r: Task)
    ensures r.id == t.id && r.workspaceId == t.workspaceId
    ensures e.taskName.None? ==> r.name == t.name
    ensures e.dueDate.None? ==> r.dueDate == t.dueDate
    ensures e.assigneeId.None? ==> r.assigneeId == t.assigneeId
    ensures e.status.None? ==> r.status == t.status
    ensures e.description.None? ==> r.description == t.description
    ensures e.taskProject.None? ==> r.projectId == t.projectId
    ensures e.position.None? ==> r.position == t.position
  {
    var t1 := if e.taskName.Some? then t.(name := e.taskName.value) else t;
    var t2 := if e.dueDate.Some? then t1.(dueDate := e.dueDate.value) else t1;
    var t3 := if e.assigneeId.Some? then t2.(assigneeId := e.assigneeId.value) else t2;
    var t4 := if e.description.Some? then t3.(description := Some(e.description.value)) else t3;
    var t5 := if e.status.Some? then t4.(status := e.status.value) else t4;
    var t6 := if e.taskProject.Some? then t5.(projectId := e.taskProject.value) else t5;
    if e.position.Some? then t6.(position := e.position.value) else t6
  }

  /** Applying the same edit twice is the same as applying it once. */
  lemma EditIsIdempotent(t: Task, e: TaskEdit)
    ensures ApplyTaskEdit(ApplyTaskEdit(t, e), e) == ApplyTaskEdit(t, e)
  {
  }

  /** An edit that passes nothing leaves the task as it was. */
  lemma EmptyEditIsIdentity(t: Task)
    ensures ApplyTaskEdit(t, NoEdit) == t
  {
  }

  /** A passed field ends up holding exactly the value passed. */
  lemma EditSetsPassedFields(t: Task, e: TaskEdit)
    ensures e.taskName.Some? ==> ApplyTaskEdit(t, e).name == e.taskName.value
    ensures e.dueDate.Some? ==> ApplyTaskEdit(t, e).dueDate == e.dueDate.value
    ensures e.assigneeId.Some? ==> ApplyTaskEdit(t, e).assigneeId == e.assigneeId.value
    ensures e.status.Some? ==> ApplyTaskEdit(t, e).status == e.status.value
    ensures e.description.Some? ==> ApplyTaskEdit(t, e).description == e.description
    ensures e.taskProject.Some? ==> ApplyTaskEdit(t, e).projectId == e.taskProject.value
    ensures e.position.Some? ==> ApplyTaskEdit(t, e).position == e.position.value
  {
  }

  // ---------------------------------------------------------------------------
  // The position a new task receives

  /** The tasks of one project (the `by_projectId` index). */
  function ProjectTasks(tasks: map<TaskId, Task>, projectId: ProjectId): set<TaskId>
  {
    set k | k in tasks && tasks[k].projectId == projectId
  }

  /** `position` is what a new task of `projectId` should get: 0 in a project
      without tasks, otherwise 1000 past the highest position in the project. */
  ghost predicate IsNextPosition(tasks: map<TaskId, Task>, projectId: ProjectId, position: int)
  {
    if ProjectTasks(tasks, projectId) == {} then position == 0
    else exists k | k in ProjectTasks(tasks, projectId) ::
      && position == tasks[k].position + 1000
      && forall j | j in ProjectTasks(tasks, projectId) :: tasks[j].position <= tasks[k].position
  }

  /** A new task lands after every task of its project. */
  lemma NextPositionFollowsProject(tasks: map<TaskId, Task>, projectId: ProjectId, position: int)
    requires IsNextPosition(tasks, projectId, position)
    ensures forall j | j in ProjectTasks(tasks, projectId) :: tasks[j].position < position
  {
    if ProjectTasks(tasks, projectId) != {} {
      var k :| k in ProjectTasks(tasks, projectId) && position == tasks[k].position + 1000
              && forall j | j in ProjectTasks(tasks, projectId) :: tasks[j].position <= tasks[k].position;
    }
  }

  /** The next position is determined by the project's tasks. */
  lemma NextPositionIsUnique(tasks: map<TaskId, Task>, projectId: ProjectId, p: int, q: int)
    requires IsNextPosition(tasks, projectId, p) && IsNextPosition(tasks, projectId, q)
    ensures p == q
  {
    if ProjectTasks(tasks, projectId) != {} {
      var a :| a in ProjectTasks(tasks, projectId) && p == tasks[a].position + 1000
              && forall j | j in ProjectTasks(tasks, projectId) :: tasks[j].position <= tasks[a].position;
      var b :| b in ProjectTasks(tasks, projectId) && q == tasks[b].position + 1000
              && forall j | j in ProjectTasks(tasks, projectId) :: tasks[j].position <= tasks[b].position;
      assert tasks[a].position <= tasks[b].position <= tasks[a].position;
    }
  }

  /** The position `create` gives a new task of `projectId`: scan the project's
      tasks for the highest position and add 1000; start at 0 in an empty
      project. (As written, `create` skips the empty case; see
      `CreatePositionAsWritten`.) */
  method NextTaskPosition(db: Db, projectId: ProjectId) returns (position: int)
    ensures IsNextPosition(db.tasks, projectId, position)
  {
    var tasks := ProjectTasks(db.tasks, projectId);
    if tasks == {} {
      return 0;
    }
    var first :| first in tasks;
    var highest := db.tasks[first].position;
    ghost var highestTask := first;
    var remaining := tasks - {first};
    while remaining != {}
      invariant remaining <= tasks
      invariant highestTask in tasks && highest == db.tasks[highestTask].position
      invariant forall j | j in tasks && j !in remaining :: db.tasks[j].position <= highest
      decreases remaining
    {
      var k :| k in remaining;
      if db.tasks[k].position > highest {
        highest, highestTask := db.tasks[k].position, k;
      }
      remaining := remaining - {k};
    }
    position := highest + 1000;
  }

  // ---------------------------------------------------------------------------
  // The position as `create` computes it: `Math.max` over the project's
  // positions, which is -Infinity when the project has no task.

  /** A JavaScript number as the position arithmetic can produce it. */
  datatype JsNumber = NegativeInfinity | Finite(value: int)

  function JsMax(a: JsNumber, b: JsNumber): JsNumber
  {
    match (a, b)
    case (NegativeInfinity, _) => b
    case (_, NegativeInfinity) => a
    case (Finite(x), Finite(y)) => if x >= y then a else b
  }

  /** `Math.max(...values)`: -Infinity for no arguments. */
  function MathMax(values: seq<JsNumber>): JsNumber
  {
    if values == [] then NegativeInfinity
    else JsMax(MathMax(values[..|values| - 1]), values[|values| - 1])
  }

  /** `x + 1000`; -Infinity absorbs any finite addend. */
  function PlusThousand(x: JsNumber): JsNumber
  {
    match x
    case NegativeInfinity => NegativeInfinity
    case Finite(v) => Finite(v + 1000)
  }

  /** The position `create` stores, from the positions of the project's tasks:
      the guard on the query result is always true, so `Math.max` runs even
      when the project has no task. */
  function CreatePositionAsWritten(projectPositions: seq<JsNumber>): JsNumber
  {
    PlusThousand(MathMax(projectPositions))
  }

  /** The first task of a project is stored at -Infinity (`ps` empty), and as
      long as every task of the project sits at -Infinity, the next one created
      does too: from the first task on, the project's positions stay -Infinity. */
  lemma {:induction false} AsWrittenNewProjectStaysAtNegativeInfinity(ps: seq<JsNumber>)
    requires forall i | 0 <= i < |ps| :: ps[i] == NegativeInfinity
    ensures MathMax(ps) == NegativeInfinity
    ensures CreatePositionAsWritten(ps) == NegativeInfinity
    ensures forall i | 0 <= i < |ps| + 1 :: (ps + [CreatePositionAsWritten(ps)])[i] == NegativeInfinity
  {
    if ps != [] {
      AsWrittenNewProjectStaysAtNegativeInfinity(ps[..|ps| - 1]);
    }
  }

  function Finites(ps: seq<int>): (r: seq<JsNumber>)
    ensures |r| == |ps|
  {
    seq(|ps|, i requires 0 <= i < |ps| => Finite(ps[i]))
  }

  /** Over finite positions, `Math.max` is the largest of them. */
  lemma {:induction false} MathMaxOfFinites(ps: seq<int>)
    requires |ps| > 0
    ensures MathMax(Finites(ps)).Finite?
    ensures MathMax(Finites(ps)).value in ps
    ensures forall p | p in ps :: p <= MathMax(Finites(ps)).value
  {
    var n := |ps|;
    assert Finites(ps)[..n - 1] == Finites(ps[..n - 1]);
    assert ps == ps[..n - 1] + [ps[n - 1]];
    if n > 1 {
      MathMaxOfFinites(ps[..n - 1]);
    }
  }

  /** Where the project already has tasks with finite positions, the code as
      written and the corrected position agree. */
  lemma AsWrittenAgreesOnNonEmptyProjects(ps: seq<int>)
    requires |ps| > 0
    ensures CreatePositionAsWritten(Finites(ps)).Finite?
    ensures CreatePositionAsWritten(Finites(ps)).value - 1000 in ps
    ensures forall p | p in ps :: p < CreatePositionAsWritten(Finites(ps)).value
  {
    MathMaxOfFinites(ps);
  }

  // ---------------------------------------------------------------------------
  // Handlers

  /** `create`: a member of the workspace adds a task at the end of its
      project. The `description` argument is accepted but not stored. */
  method Create(db: Db, caller: Option<UserId>, name: string, projectId: ProjectId, assigneeId: UserId,
                description: Option<string>, dueDate: int, status: TaskStatus, workspaceId: WorkspaceId)
    returns (r: Outcome<TaskId>)
    requires db.Valid()
    modifies db`tasks, db`nextId
    ensures db.Valid()
    ensures r.Ok? <==> caller.Some? && db.IsMember(caller.value, workspaceId)
    ensures r.Err? ==> r.error == Unauthorized && db.tasks == old(db.tasks) && db.nextId == old(db.nextId)
    ensures r.Ok? ==>
              && r.value !in old(db.tasks)
              && r.value in db.tasks
              && db.tasks == old(db.tasks)[r.value := db.tasks[r.value]]
              && db.tasks[r.value]
                 == Task(r.value, workspaceId, name, projectId, assigneeId, None, dueDate, status, db.tasks[r.value].position)
              && IsNextPosition(old(db.tasks), projectId, db.tasks[r.value].position)
  {
    if caller.None? || !db.IsMember(caller.value, workspaceId) {
      return Err(Unauthorized);
    }
    var position := NextTaskPosition(db, projectId);
    var taskId := db.nextId;
    db.tasks := db.tasks[taskId := Task(taskId, workspaceId, name, projectId, assigneeId, None, dueDate, status, position)];
    db.nextId := db.nextId + 1;
    return Ok(taskId);
  }

  /** The filters `list` applies when no search text is given: the task lies in
      the workspace and project, and matches each filter that was passed. A
      `dueDate` of 0 is falsy and filters nothing. */
  predicate ListMatches(t: Task, workspaceId: WorkspaceId, projectId: ProjectId,
                        status: Option<TaskStatus>, assigneeId: Option<UserId>, dueDate: Option<int>)
  {
    && t.workspaceId == workspaceId
    && t.projectId == projectId
    && (status.None? || t.status == status.value)
    && (dueDate.None? || dueDate.value == 0 || t.dueDate == dueDate.value)
    && (assigneeId.None? || t.assigneeId == assigneeId.value)
  }

  /** `list` without search text: a member sees the tasks of the project that
      pass every filter given, each as stored. */
  method List(db: Db, caller: Option<UserId>, workspaceId: WorkspaceId, projectId: ProjectId,
              status: Option<TaskStatus>, assigneeId: Option<UserId>, dueDate: Option<int>)
    returns (r: Outcome<map<TaskId, Task>>)
    ensures r.Err? <==> caller.None? || !db.IsMember(caller.value, workspaceId)
    ensures r.Err? ==> r.error == Unauthorized
    ensures r.Ok? ==> forall k :: k in r.value <==>
                        k in db.tasks && ListMatches(db.tasks[k], workspaceId, projectId, status, assigneeId, dueDate)
    ensures r.Ok? ==> forall k | k in r.value :: r.value[k] == db.tasks[k]
  {
    if caller.None? || !db.IsMember(caller.value, workspaceId) {
      return Err(Unauthorized);
    }
    var query := map k | k in db.tasks && db.tasks[k].workspaceId == workspaceId && db.tasks[k].projectId == projectId
                   :: db.tasks[k];
    if status.Some? {
      query := map k | k in query && query[k].status == status.value :: query[k];
    }
    if dueDate.Some? && dueDate.value != 0 {
      query := map k | k in query && query[k].dueDate == dueDate.value :: query[k];
    }
    if assigneeId.Some? {
      query := map k | k in query && query[k].assigneeId == assigneeId.value :: query[k];
    }
    return Ok(query);
  }

  /** Listing with a filter returns part of what listing without it returns. */
  lemma FiltersOnlyNarrowTheList(t: Task, workspaceId: WorkspaceId, projectId: ProjectId,
                                 status: Option<TaskStatus>, assigneeId: Option<UserId>, dueDate: Option<int>)
    requires ListMatches(t, workspaceId, projectId, status, assigneeId, dueDate)
    ensures ListMatches(t, workspaceId, projectId, None, None, None)
  {
  }

  /** `remove`: only an Admin of the workspace may delete a task. A task that
      does not exist is reported as a success and nothing is deleted; the task
      need not belong to the workspace named. */
  method Remove(db: Db, caller: Option<UserId>, workspaceId: WorkspaceId, taskId: TaskId)
    returns (r: Outcome<()>)
    requires db.Valid()
    modifies db`tasks
    ensures db.Valid()
    ensures r.Err? <==> caller.None? || !db.IsAdmin(caller.value, workspaceId)
    ensures r.Err? ==> r.error == Unauthorized && db.tasks == old(db.tasks)
    ensures r.Ok? ==> db.tasks == old(db.tasks) - {taskId}
  {
    if caller.None? {
      return Err(Unauthorized);
    }
    var membership := db.FindMembership(caller.value, workspaceId);
    if membership.None? {
      return Err(Unauthorized);
    }
    if db.members[membership.value].role != Admin {
      return Err(Unauthorized);
    }
    if taskId !in db.tasks {
      return Ok(());
    }
    db.tasks := db.tasks - {taskId};
    return Ok(());
  }

  /** `edit`: a member of the workspace patches the fields passed; a missing
      task is an error. */
  method Edit(db: Db, caller: Option<UserId>, workspaceId: WorkspaceId, taskId: TaskId, edit: TaskEdit)
    returns (r: Outcome<()>)
    requires db.Valid()
    modifies db`tasks
    ensures db.Valid()
    ensures caller.None? || !db.IsMember(caller.value, workspaceId) ==>
              r == Err(Unauthorized) && db.tasks == old(db.tasks)
    ensures caller.Some? && db.IsMember(caller.value, workspaceId) && taskId !in old(db.tasks) ==>
              r == Err(TaskDoesNotExist) && db.tasks == old(db.tasks)
    ensures caller.Some? && db.IsMember(caller.value, workspaceId) && taskId in old(db.tasks) ==>
              r == Ok(()) && db.tasks == old(db.tasks)[taskId := ApplyTaskEdit(old(db.tasks)[taskId], edit)]
  {
    if caller.None? {
      return Err(Unauthorized);
    }
    var membership := db.FindMembership(caller.value, workspaceId);
    if membership.None? {
      return Err(Unauthorized);
    }
    if taskId !in db.tasks {
      return Err(TaskDoesNotExist);
    }
    db.tasks := db.tasks[taskId := ApplyTaskEdit(db.tasks[taskId], edit)];
    return Ok(());
  }

  /** `getById`: a member of the workspace reads one task. The `projectId`
      argument is not checked against the task. */
  method GetById(db: Db, caller: Option<UserId>, workspaceId: WorkspaceId, projectId: ProjectId, taskId: TaskId)
    returns (r: Outcome<Task>)
    requires db.Valid()
    ensures caller.None? || !db.IsMember(caller.value, workspaceId) ==> r == Err(Unauthorized)
    ensures caller.Some? && db.IsMember(caller.value, workspaceId) ==>
              r == if taskId in db.tasks then Ok(db.tasks[taskId]) else Err(NoTaskFound)
    ensures r.Ok? ==> r.value.id == taskId
  {
    if caller.None? {
      return Err(Unauthorized);
    }
    var membership := db.FindMembership(caller.value, workspaceId);
    if membership.None? {
      return Err(Unauthorized);
    }
    if taskId !in db.tasks {
      return Err(NoTaskFound);
    }
    return Ok(db.tasks[taskId]);
  }
}
