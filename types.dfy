/** Record shapes shared by the kanban board and the backend handlers:
    the task status enum, workspace roles, document ids and the task document. */
module Types {

  datatype Option<+T> = None | Some(value: T)

  datatype Result<+T, +E> = Ok(value: T) | Err(error: E)

  /** The five kanban stages, declared in the order the enum lists them. */
  datatype TaskStatus = Backlog | Todo | InProgress | InReview | Done

  /** Every status once, in declaration order (the key order of a fresh task state). */
  const AllStatuses: seq<TaskStatus> := [Backlog, Todo, InProgress, InReview, Done]

  datatype WorkspaceRole = Admin | Member

  /** Document ids. The database hands out fresh ids on insert. */
  type UserId = nat
  type MemberId = nat
  type WorkspaceId = nat
  type ProjectId = nat
  type TaskId = nat
  type StorageId = nat

  /** A row of the tasks table. `position` orders tasks within a status column;
      `dueDate` is a timestamp. The board carries the same record. */
  datatype Task = Task(
    id: TaskId,
    workspaceId: WorkspaceId,
    name: string,
    projectId: ProjectId,
    assigneeId: UserId,
    description: Option<string>,
    dueDate: int,
    status: TaskStatus,
    position: int)

  /** The wire spelling of a status. */
  function StatusName(s: TaskStatus): string
  {
    match s
    case Backlog => "BACKLOG"
    case Todo => "TODO"
    case InProgress => "IN_PROGRESS"
    case InReview => "IN_REVIEW"
    case Done => "DONE"
  }

  /** Reads a status from its wire spelling; any other string is not a status. */
  function StatusFromName(name: string): (r: Option<TaskStatus>)
    ensures r.Some? ==> StatusName(r.value) == name
  {
    if name == "BACKLOG" then Some(Backlog)
    else if name == "TODO" then Some(Todo)
    else if name == "IN_PROGRESS" then Some(InProgress)
    else if name == "IN_REVIEW" then Some(InReview)
    else if name == "DONE" then Some(Done)
    else None
  }

  lemma StatusNameRoundTrip(s: TaskStatus)
    ensures StatusFromName(StatusName(s)) == Some(s)
  {
  }

  lemma AllStatusesListsEachOnce()
    ensures forall s: TaskStatus :: s in AllStatuses
    ensures forall i, j | 0 <= i < j < |AllStatuses| :: AllStatuses[i] != AllStatuses[j]
  {
    forall s: TaskStatus ensures s in AllStatuses {
      match s
      case Backlog => assert AllStatuses[0] == s;
      case Todo => assert AllStatuses[1] == s;
      case InProgress => assert AllStatuses[2] == s;
      case InReview => assert AllStatuses[3] == s;
      case Done => assert AllStatuses[4] == s;
    }
  }

  /** Visiting the keys in order reaches a new key at every step. */
  lemma StatusKeysStep(k: nat)
    requires k < |AllStatuses|
    ensures AllStatuses[..k + 1] == AllStatuses[..k] + [AllStatuses[k]]
    ensures AllStatuses[k] !in AllStatuses[..k]
  {
  }

  lemma StatusKeysAll()
    ensures forall s: TaskStatus :: s in AllStatuses[..|AllStatuses|]
  {
    assert AllStatuses[..|AllStatuses|] == AllStatuses;
    AllStatusesListsEachOnce();
  }
}
