# jira-clone: the kanban board and the backend rules, in Dafny

This project models three parts of jira-clone, a project tracker in which
users own workspaces, workspaces hold projects, and projects hold tasks
shown on a five-column kanban board.

- **The kanban store** (`src/hooks/use-kanban-store.ts`). The class
  `KanbanStore.KanbanStore` holds the five status columns as `seq<Task>`
  fields. `SetTasks`, `MoveTask` and `UpdateTaskInColumn` update them in
  place. Each method is proved equal to a pure function in module
  `KanbanState`: `Partition`, `Move` and `UpdateInColumns`. Lemmas about
  those functions state what the board promises: every task appears exactly
  once, columns are sorted, ids and counts are kept, and a moved card lands
  at the requested slot.
- **The board component** (`src/components/tasks/data-kanban.tsx`).
  `DataKanban.OnDragEnd` takes the drop result, moves the card in the store,
  and returns the one `edit` call the component sends. Also modelled: the
  column order, the header counts, and the position formula.
- **The backend handlers** (`convex/tasks.ts`, `members.ts`,
  `workspaces.ts`, `projects.ts`). The database is the class `Database.Db`,
  one map per table plus an id counter. Each handler is a method over it.
  The caller's user id comes in as an `Option` (None stands for "no
  identity" and for "no user row"). A handler that throws returns `Err` and
  writes nothing, because a failed Convex mutation is rolled back.
  `Db.Valid()` holds before and after every handler:
  - every id is below the counter;
  - every task row's `id` is its key;
  - each user has at most one membership per workspace;
  - no two workspaces share an invite code.
- **The form validators** (`src/zodSchemas/index.ts`). These are parsers
  from raw form fields to parsed values. JavaScript's `trim` is written out
  with the ECMAScript whitespace set.

Two behaviours of the code are modelled as written:

- `updateTaskInColumn` replaces only the first card with the id in each
  column, because it uses `findIndex`.
- `create` drops the `description` argument: the task it inserts has none.

## Model

| member | source | states |
|---|---|---|
| Types.StatusFromName | types.ts:12-18 | only the five wire spellings read as a status, each as the status it spells |
| Types.StatusNameRoundTrip | types.ts:12-18 | every status's spelling reads back as that status |
| Types.AllStatusesListsEachOnce | src/hooks/use-kanban-store.ts:18-24 | the column keys list every status exactly once |
| KanbanState.NoCardsIsInitial | src/hooks/use-kanban-store.ts:18-24 | the initial state is exactly the board with no card |
| KanbanState.EmptyRebuildIsInitial | src/hooks/use-kanban-store.ts:18-42 | setTasks on an empty list shows the initial board |
| KanbanState.FindIndex | src/hooks/use-kanban-store.ts:49-52 | -1 exactly when no card has the id, otherwise the index of the first card with it |
| KanbanState.RemoveAt | src/hooks/use-kanban-store.ts:54 | `splice(i, 1)` shortens the column by one, removes exactly that card's id, and adds no card |
| KanbanState.SpliceInsert | src/hooks/use-kanban-store.ts:66 | the card sits at the index `splice` clamps the start to (a negative start counts back from the end, floored at 0; a start past the end means the end); taking it out again gives the old column; the ids gain exactly that card |
| KanbanState.FilterKeepsExactlyStatus | src/hooks/use-kanban-store.ts:32-34 | the bucket for a status holds each task of that status as often as the input does, and nothing else |
| KanbanState.FilterSplitsTasks | src/hooks/use-kanban-store.ts:32-34 | the five buckets together are exactly the input, as a multiset |
| KanbanState.InsertKeepsSorted | src/hooks/use-kanban-store.ts:38 | inserting a card by position into a sorted column keeps it sorted |
| KanbanState.SortByPosition | src/hooks/use-kanban-store.ts:36-39 | the comparator sort yields a column sorted by ascending position and a permutation of its input |
| KanbanState.PartitionColumn | src/hooks/use-kanban-store.ts:29-41 | after setTasks, column s is sorted and holds exactly the input tasks of status s |
| KanbanState.PartitionCoversEachTaskOnce | src/hooks/use-kanban-store.ts:29-41 | after setTasks, every input task is on the board exactly once and the card count is the input length |
| KanbanState.PartitionMatchesStatus | src/hooks/use-kanban-store.ts:32-34 | after setTasks, every card sits in the column of its status |
| KanbanState.MoveMissingTaskIsNoOp | src/hooks/use-kanban-store.ts:49-52 | moving an id that is not in the source column changes nothing |
| KanbanState.MovePreservesIds | src/hooks/use-kanban-store.ts:54-66 | a move keeps the multiset of ids on the board and the card count |
| KanbanState.MovePlacesAtIndex | src/hooks/use-kanban-store.ts:60-66 | with the index in range after removal, the moved card ends at that index, re-statused only on a cross-column move |
| KanbanState.MoveAcrossColumns | src/hooks/use-kanban-store.ts:54-66 | a cross-column move takes the card out of the source, puts it re-statused into the target at the clamped index, and leaves the other columns and the other cards' order unchanged |
| KanbanState.MoveWithinColumn | src/hooks/use-kanban-store.ts:54-66 | a same-column move only re-orders that column and keeps the record unchanged |
| KanbanState.MovePreservesColumnsMatchStatus | src/hooks/use-kanban-store.ts:60-63 | if every card sat in the column of its status before a move, it still does after |
| KanbanState.ReplaceFirst | src/hooks/use-kanban-store.ts:79-84 | a column keeps its length; its first card with the id is replaced and every other entry is kept |
| KanbanState.UpdateOverwritesInPlace | src/hooks/use-kanban-store.ts:72-88 | updateTaskInColumn never relocates a card: each column keeps its length and only its first match changes |
| KanbanState.UpdateMissingTaskIsNoOp | src/hooks/use-kanban-store.ts:77-85 | with no card carrying the id, the board is unchanged |
| KanbanState.UpdatePreservesIds | src/hooks/use-kanban-store.ts:83 | overwriting with a record of the same id keeps the ids on the board |
| KanbanState.UpdateCanBreakColumnsMatchStatus | src/hooks/use-kanban-store.ts:83 | any update whose record carries another status than the column holding the card leaves that card in a column that does not match its status |
| KanbanStore.KanbanStore.constructor | src/hooks/use-kanban-store.ts:27 | a new store shows the initial empty board |
| KanbanStore.KanbanStore.Assign | src/hooks/use-kanban-store.ts:41 | `set` replaces the whole board with the state given |
| KanbanStore.KanbanStore.BucketByStatus | src/hooks/use-kanban-store.ts:30-34 | the push loop leaves in each column the input tasks of that status, in input order |
| KanbanStore.KanbanStore.SortColumns | src/hooks/use-kanban-store.ts:36-39 | the loop over the keys sorts every column by position |
| KanbanStore.KanbanStore.SetTasks | src/hooks/use-kanban-store.ts:29-42 | the new board is the partition of the input alone; nothing of the old board survives |
| KanbanStore.KanbanStore.MoveTask | src/hooks/use-kanban-store.ts:44-70 | the new board is `Move` of the old one |
| KanbanStore.KanbanStore.UpdateTaskInColumn | src/hooks/use-kanban-store.ts:72-89 | the new board is `UpdateInColumns` of the old one |
| DataKanban.BoardsShowEveryStatusOnce | src/components/tasks/data-kanban.tsx:32-38 | the board renders every status, each as exactly one column |
| DataKanban.NewPosition | src/components/tasks/data-kanban.tsx:57 | the persisted position is a multiple of 1000 from which the slot index is recovered |
| DataKanban.NewPositionFollowsIndex | src/components/tasks/data-kanban.tsx:57 | a later slot gets a strictly higher position |
| DataKanban.DragEdit | src/components/tasks/data-kanban.tsx:57-65 | applying the persisted edit sets the status to the destination column and the position to the slot's position, and changes nothing else |
| DataKanban.OnDragEnd | src/components/tasks/data-kanban.tsx:45-68 | a drop with no destination neither moves nor calls; otherwise the store makes exactly the move the drop describes and exactly one edit call goes out, for the dragged id |
| DataKanban.DropPersistsTheShownStatus | src/components/tasks/data-kanban.tsx:50-65 | the card shown at the drop slot is the dragged card, with the status the edit persists |
| DataKanban.HeaderCountsAddUpToBoard | src/components/tasks/data-kanban.tsx:78 | the header counts sum to the number of cards |
| DataKanban.HeaderCountsAfterRebuild | src/components/tasks/data-kanban.tsx:41-78 | after the board is rebuilt from the task list, the headers sum to the list's length |
| DataKanban.HeaderTotalSurvivesDrop | src/components/tasks/data-kanban.tsx:45-78 | a drop keeps the headers' total |
| DataKanban.RebuildKeepsPairOrder | src/hooks/use-kanban-store.ts:36-39 | two same-status cards in position order are rebuilt in that order |
| DataKanban.DropFirstIntoSecondSlot | src/hooks/use-kanban-store.ts:54-66 | dropping the first of two cards into slot 1 of its column swaps them |
| DataKanban.DropOrderCanDifferFromRebuild | src/components/tasks/data-kanban.tsx:54-65 | the order shown right after a drop can differ from the order rebuilt from the persisted positions |
| Database.Db.constructor | convex/schema.ts:15-65 | an empty database, with every table empty, already meets every invariant the handlers keep |
| Database.Db.FindMembership | convex/tasks.ts:202-212 | the membership lookup finds a row exactly when the user is a member, and its role is Admin exactly when the user is an Admin |
| Tasks.ApplyTaskEdit | convex/tasks.ts:289-298 | edit never changes the id or the workspace, and each field that is not passed keeps its value |
| Tasks.EditSetsPassedFields | convex/tasks.ts:289-296 | each passed field takes the passed value; `taskProject` goes to `projectId` |
| Tasks.EditIsIdempotent | convex/tasks.ts:289-298 | applying the same edit twice equals applying it once |
| Tasks.EmptyEditIsIdentity | convex/tasks.ts:289-298 | an edit passing no field leaves the task unchanged |
| Tasks.NextTaskPosition | convex/tasks.ts:51-63 | the new position is 0 in a project without tasks, otherwise 1000 past the highest position in the project |
| Tasks.NextPositionFollowsProject | convex/tasks.ts:53-62 | the new position is strictly greater than every position in the project, whatever the status |
| Tasks.NextPositionIsUnique | convex/tasks.ts:53-62 | the project's tasks determine the new position |
| Tasks.MathMaxOfFinites | convex/tasks.ts:59-61 | over finite positions, `Math.max` is the largest of them |
| Tasks.AsWrittenNewProjectStaysAtNegativeInfinity | convex/tasks.ts:58-62 | as written, a project's first task is stored at -Infinity, and while all of a project's tasks sit at -Infinity the next one created does too |
| Tasks.AsWrittenAgreesOnNonEmptyProjects | convex/tasks.ts:58-62 | as written, a project that already has finite positions gets a finite one, 1000 past its highest |
| Tasks.Create | convex/tasks.ts:6-77 | only a member may create, and a refusal inserts nothing; the new task gets a fresh id, the arguments given, no description, and the corrected next position of its project (0 for a project without tasks; see Findings) |
| Tasks.List | convex/tasks.ts:143-155 | a member gets exactly the workspace's tasks of the project that match every given filter; a dueDate of 0 filters nothing |
| Tasks.FiltersOnlyNarrowTheList | convex/tasks.ts:149-153 | every task listed with filters is also listed without them |
| Tasks.Remove | convex/tasks.ts:181-224 | only an Admin may delete; a missing task is a silent success that changes nothing |
| Tasks.Edit | convex/tasks.ts:226-302 | any member may edit; a missing task is "Task does not exist" and changes nothing; otherwise exactly that task becomes the edited record |
| Tasks.GetById | convex/tasks.ts:304-340 | a member reads the stored task, or gets "No task found!" |
| Members.ListWorkspaceMembers | convex/members.ts:33-74 | a member gets the user row of exactly the workspace's members that have one |
| Members.CallerIsListed | convex/members.ts:60-72 | a caller with a user row appears in their own workspace's listing |
| Members.Remove | convex/members.ts:76-131 | Admin only; a non-member target, or a workspace with one membership, is refused with no change; it succeeds exactly when none of these checks fails, and then exactly the target's membership goes and the workspace keeps a member |
| Members.SetRoleEffect | convex/members.ts:182 | setting a role keeps memberships unique, touches no other membership, and makes the target an Admin exactly when the role is Admin |
| Members.ChangeRole | convex/members.ts:133-185 | Admin only; a non-member target is refused; it succeeds exactly when the caller is an Admin and the target a member, and then only the target's role changes |
| Members.LastAdminCanBeDemoted | convex/members.ts:164-182 | demoting the only Admin, possibly the caller themselves, leaves the workspace without one |
| Members.LastAdminCanBeRemoved | convex/members.ts:99-126 | removing the only Admin's membership leaves the workspace without one |
| Workspaces.List | convex/workspaces.ts:6-37 | exactly the workspaces the caller owns; memberships play no part |
| Workspaces.Create | convex/workspaces.ts:39-81 | a taken name is refused; a signed-in caller with a free name always succeeds, and then one workspace owned by the caller and one Admin membership for the caller are added; unique names stay unique |
| Workspaces.GetWorkplaceById | convex/workspaces.ts:83-114 | a member reads the workspace, or gets "No workspace exists" |
| Workspaces.UpdateById | convex/workspaces.ts:116-153 | it succeeds exactly when the caller is a member and the workspace exists, and then sets the passed name and thumbnail, with no uniqueness check on the name |
| Workspaces.Remove | convex/workspaces.ts:155-192 | it succeeds exactly when the caller is an Admin and the workspace exists, and then only that workspace row goes |
| Workspaces.ChooseInviteCode | convex/workspaces.ts:222-235 | the loop returns the first drawn code that no workspace holds |
| Workspaces.GenerateWorkspaceInviteCode | convex/workspaces.ts:194-240 | it succeeds exactly when the caller is an Admin and the workspace exists; the new code was held by no workspace and replaces the old one, and afterwards exactly this workspace holds it |
| Workspaces.StoredInviteCode | convex/workspaces.ts:270-271 | the answer is a non-empty code the workspace holds, or null |
| Workspaces.GeneratedCodeIsReadBack | convex/workspaces.ts:237-271 | a non-empty code just stored is the code read back |
| Workspaces.GetWorkspaceInviteCode | convex/workspaces.ts:242-273 | a member reads the stored code; a missing workspace, a missing code or an empty code reads as null |
| Workspaces.JoinWorkspaceByInviteCode | convex/workspaces.ts:297-343 | an unknown code is refused with no insert; an existing member gets the id back with no insert; otherwise exactly one Member membership is added |
| Workspaces.JoinTwice | convex/workspaces.ts:323-341 | joining twice answers the same both times and adds at most one membership |
| Projects.List | convex/projects.ts:8-50 | a member gets exactly the workspace's projects |
| Projects.Create | convex/projects.ts:52-92 | any member inserts exactly one project in the workspace, with no name check |
| Projects.Get | convex/projects.ts:94-137 | a missing project is "Project not found"; a project of another workspace is Unauthorized; a returned project belongs to the workspace |
| Projects.UpdateById | convex/projects.ts:139-180 | it succeeds exactly when the caller is a member of the named workspace and the project exists, and then patches only name and thumbnail, even on a project of another workspace |
| Projects.Remove | convex/projects.ts:182-222 | Admin only; a missing project is a silent success with no change |
| ZodSchemas.CreateNamedSchema | src/zodSchemas/index.ts:13-19 | the workspace and project create schemas accept exactly a 3 to 156 character name with an optional file |
| ZodSchemas.UpdateNamedSchema | src/zodSchemas/index.ts:21-28 | the update schemas also accept an absent name; a name given obeys the same bounds and is the parsed name; the parsed thumbnail is the file given, or None when it is left out |
| ZodSchemas.CreateAcceptedImpliesUpdateAccepted | src/zodSchemas/index.ts:13-28 | a form the create schema accepts, the update schema accepts, with the same values |
| ZodSchemas.Trim | src/zodSchemas/index.ts:48 | the result is the input with leading and trailing whitespace removed, starting and ending with non-whitespace |
| ZodSchemas.TrimEmptyIffAllWhitespace | src/zodSchemas/index.ts:48 | trimming gives the empty string exactly when the input is all whitespace |
| ZodSchemas.TrimIsIdempotent | src/zodSchemas/index.ts:48 | trimming twice is trimming once |
| ZodSchemas.RequiredTrimmed | src/zodSchemas/index.ts:48 | a required field is accepted exactly when it has a non-whitespace character, and it parses to its trimmed form |
| ZodSchemas.ParseStatus | src/zodSchemas/index.ts:49 | an accepted status is one of the five spellings |
| ZodSchemas.StatusFieldRoundTrip | src/zodSchemas/index.ts:49 | every status spelling is accepted as that status |
| ZodSchemas.CreateTaskSchema | src/zodSchemas/index.ts:47-55 | accepts exactly the forms whose name, workspace, project and assignee have a non-whitespace character, whose status is valid and whose due date is a number; the parsed strings are trimmed |
| ZodSchemas.UpdateTaskSchema | src/zodSchemas/index.ts:57-65 | every field may be absent; a field given must pass the create check; each field parses to None when absent, otherwise to the value the create schema gives it (trimmed strings, the status, the number) |
| ZodSchemas.CreateTaskAcceptedImpliesUpdateAccepted | src/zodSchemas/index.ts:47-65 | a form the create schema accepts, the update schema accepts, with every field parsed to the same value |
| ZodSchemas.EmptyUpdateAccepted | src/zodSchemas/index.ts:57-65 | an update form with no field passes |
| ZodSchemas.BlankNameRejected | src/zodSchemas/index.ts:48-58 | a name of whitespace only, the empty name included, fails both task schemas |

## Left out

- Tasks.Create: stores the corrected position of the Findings row. The position the code as written stores, -Infinity for a project without tasks, is modelled only by `Tasks.CreatePositionAsWritten`.
- Caller identity: the `getUserIdentity` and `by_token` lookup are replaced by an `Option<UserId>` parameter.
- Tasks.List: models only the path without search text. The full-text search index is a database feature not modelled. The assignee and project enrichment, and its "No assignee found!" and "No project found!" errors, are left out too.
- Storage URL resolution for thumbnails (`ctx.storage.getUrl`) is left out: thumbnails stay storage ids.
- `members.listUserWorkspaces` and `workspaces.getWorkspaceByInviteCode` are not part of this model.
- Query results are maps from id to document. The order in which Convex returns documents is not modelled.
- Workspaces.UpdateById and Projects.UpdateById model a patch as "the passed fields are set". Convex removes a field that is patched with `undefined`; that is not modelled.
- Workspaces.ChooseInviteCode: the random generator is an injected list of draws, with a precondition that one draw is fresh. The real loop ends only with probability one.
- Positions and due dates are integers. JavaScript floating point, NaN and Infinity are not modelled. The exception is the as-written position model in `Tasks`, which has -Infinity.
- String lengths are counted in Dafny characters, not UTF-16 code units.
- Zod error messages are not modelled, only acceptance and the parsed value.
- The board's `edit` call is fire-and-forget. Its asynchrony, and a failure of it, are not modelled: `OnDragEnd` returns the call it makes.
- KanbanStore.KanbanStore.MoveTask: the store's shallow copy `{ ...state.tasks }` shares column arrays with the previous snapshot, so `splice` also changes that snapshot. The model's store owns its columns, so this aliasing is not captured.
- KanbanStore.KanbanStore.UpdateTaskInColumn: the same shallow copy means `newTasks[columnStatus][taskIndex] = updatedTask` also writes into the previous snapshot's column array. This aliasing is not captured either.
- The safety check at `src/hooks/use-kanban-store.ts:57` can never fire after a successful `findIndex`, so it has no counterpart.
- The "Project not found" check after the patch in `projects.updateById` cannot be reached. Patching a missing document already fails, and that is modelled as `NonexistentDocument`.
- `.unique()` on the membership index throws when it finds duplicates. `Db.Valid()` rules duplicates out, so this case does not arise.

## Findings

| source | as written | input that shows it | evidently intended | confidence | as-written member | corrected member |
|---|---|---|---|---|---|---|
| convex/tasks.ts:58-62 | `if (tasks)` is always true for an array. So `Math.max()` runs with no arguments in a project with no tasks and gives -Infinity, and -Infinity + 1000 is still -Infinity. | Create the first task of a project with no tasks: it is stored at -Infinity. While every task of that project sits at -Infinity, the next one created is stored at -Infinity too, so the project's positions never order its tasks. | The first task gets the default 0 from line 51; each later task gets 1000 past the project's highest position. | high; not executed | Tasks.AsWrittenNewProjectStaysAtNegativeInfinity | Tasks.NextTaskPosition |
