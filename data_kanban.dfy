/** The kanban board component: the column order it renders, the per-column
    header counts, and the drop handler that moves a card on the board and
    sends the matching `edit` call to the backend. */
module DataKanban {
  import opened Types
  import opened KanbanState
  import opened KanbanStore
  import opened Tasks

  /** The columns in the order the board renders them. */
  const Boards: seq<TaskStatus> := [Backlog, Todo, InProgress, InReview, Done]

  /** The board renders every status, each as one column. */
  lemma BoardsShowEveryStatusOnce()
    ensures forall s: TaskStatus :: s in Boards
    ensures forall i, j | 0 <= i < j < |Boards| :: Boards[i] != Boards[j]
  {
    AllStatusesListsEachOnce();
  }

  /** Where a drag started or ended: a column and an index within it. */
  datatype DraggableLocation = DraggableLocation(droppableId: TaskStatus, index: int)

  /** What the drag-and-drop library reports when a drag ends; `destination` is
      None when the card was dropped outside every column. */
  datatype DropResult = DropResult(draggableId: TaskId, source: DraggableLocation, destination: Option<DraggableLocation>)

  /** A call of the backend's `edit` mutation. */
  datatype EditCall = EditCall(workspaceId: WorkspaceId, taskId: TaskId, edit: TaskEdit)

  /** The position persisted for a card dropped at `index`: positions are spaced
      1000 apart, the first slot at 1000. */
  function NewPosition(index: int): (r: int)
    ensures r % 1000 == 0 && r / 1000 - 1 == index
  {
    (index + 1) * 1000
  }

  /** A later slot gets a higher position. */
  lemma NewPositionFollowsIndex(i: int, j: int)
    requires i < j
    ensures NewPosition(i) < NewPosition(j)
  {
  }

  /** The edit sent for a drop: the destination column's status and the
      position of the destination slot, and nothing else. */
  function DragEdit(destination: DraggableLocation): (e: TaskEdit)
    ensures forall t :: ApplyTaskEdit(t, e) == t.(status := destination.droppableId, position := NewPosition(destination.index))
  {
    NoEdit.(status := Some(destination.droppableId), position := Some(NewPosition(destination.index)))
  }

  /** `onDragEnd`: a drop outside every column does nothing. Otherwise the card
      moves on the board at once, and the new status and position are sent to
      the backend in one `edit` call. */
  method OnDragEnd(store: KanbanStore, workspaceId: WorkspaceId, result: DropResult) returns (call: Option<EditCall>)
    modifies store
    ensures result.destination.None? ==> call.None? && store.Tasks() == old(store.Tasks())
    ensures result.destination.Some? ==>
              var destination := result.destination.value;
              && store.Tasks() == Move(old(store.Tasks()), result.draggableId, result.source.droppableId,
                                       destination.droppableId, destination.index)
              && call == Some(EditCall(workspaceId, result.draggableId, DragEdit(destination)))
  {
    if result.destination.None? {
      return None;
    }
    var destination := result.destination.value;
    store.MoveTask(result.draggableId, result.source.droppableId, destination.droppableId, destination.index);
    var newPosition := NewPosition(destination.index);
    call := Some(EditCall(workspaceId, result.draggableId,
                          NoEdit.(status := Some(destination.droppableId), position := Some(newPosition))));
  }

  /** When a card is dropped on a board whose columns match their statuses, the
      card the board shows at the drop slot carries the status the edit
      persists for it. */
  lemma DropPersistsTheShownStatus(st: TaskState, result: DropResult)
    requires ColumnsMatchStatus(st)
    requires result.destination.Some?
    requires exists t :: t in st.Get(result.source.droppableId) && t.id == result.draggableId
    requires var d := result.destination.value;
             0 <= d.index <= |st.Get(d.droppableId)| - (if result.source.droppableId == d.droppableId then 1 else 0)
    ensures var d := result.destination.value;
            var shown := Move(st, result.draggableId, result.source.droppableId, d.droppableId, d.index).Get(d.droppableId)[d.index];
            shown.id == result.draggableId && shown.status == ApplyTaskEdit(shown, DragEdit(d)).status
  {
    var d := result.destination.value;
    var from := result.source.droppableId;
    MovePlacesAtIndex(st, result.draggableId, from, d.droppableId, d.index);
    var source := st.Get(from);
    var i := FindIndex(source, result.draggableId);
    assert source[i] in st.Get(from);
  }

  // ---------------------------------------------------------------------------
  // Column headers

  /** The count in each column header, in board order. */
  function HeaderCounts(st: TaskState): (r: seq<nat>)
    ensures |r| == |Boards|
    ensures forall i | 0 <= i < |Boards| :: r[i] == |st.Get(Boards[i])|
  {
    seq(|Boards|, i requires 0 <= i < |Boards| => |st.Get(Boards[i])|)
  }

  function Sum(xs: seq<nat>): nat
  {
    if xs == [] then 0 else xs[0] + Sum(xs[1..])
  }

  /** The header counts add up to the number of cards on the board. */
  lemma HeaderCountsAddUpToBoard(st: TaskState)
    ensures Sum(HeaderCounts(st)) == st.Count()
  {
    var h := HeaderCounts(st);
    assert h == [|st.backlog|, |st.todo|, |st.inProgress|, |st.inReview|, |st.done|];
    SumOfFive(|st.backlog|, |st.todo|, |st.inProgress|, |st.inReview|, |st.done|);
  }

  lemma SumOfFive(a: nat, b: nat, c: nat, d: nat, e: nat)
    ensures Sum([a, b, c, d, e]) == a + b + c + d + e
  {
    assert [e][1..] == [];
    assert Sum([e]) == e;
    assert [d, e][1..] == [e];
    assert Sum([d, e]) == d + e;
    assert [c, d, e][1..] == [d, e];
    assert Sum([c, d, e]) == c + d + e;
    assert [b, c, d, e][1..] == [c, d, e];
    assert Sum([b, c, d, e]) == b + c + d + e;
    assert [a, b, c, d, e][1..] == [b, c, d, e];
  }

  /** After the board is rebuilt from a task list, the headers count every task
      of the list once. */
  lemma HeaderCountsAfterRebuild(data: seq<Task>)
    ensures Sum(HeaderCounts(Partition(data))) == |data|
  {
    HeaderCountsAddUpToBoard(Partition(data));
    PartitionCoversEachTaskOnce(data);
  }

  /** A drop moves a card between headers but keeps their total. */
  lemma HeaderTotalSurvivesDrop(st: TaskState, result: DropResult)
    requires result.destination.Some?
    ensures var d := result.destination.value;
            Sum(HeaderCounts(Move(st, result.draggableId, result.source.droppableId, d.droppableId, d.index)))
            == Sum(HeaderCounts(st))
  {
    var d := result.destination.value;
    HeaderCountsAddUpToBoard(st);
    HeaderCountsAddUpToBoard(Move(st, result.draggableId, result.source.droppableId, d.droppableId, d.index));
    MovePreservesIds(st, result.draggableId, result.source.droppableId, d.droppableId, d.index);
  }

  // ---------------------------------------------------------------------------
  // The board after a drop and the board rebuilt from the persisted tasks

  /** The order the board shows right after a drop need not be the order it
      shows once it is rebuilt from the persisted positions: in a column
      holding `a` at 1000 and `b` at 5000, dropping `a` into slot 1 shows
      `[b, a]`, but `a` is persisted at 2000 and the rebuilt column is
      `[a, b]` again. */
  lemma DropOrderCanDifferFromRebuild()
    ensures var a := Task(1, 1, "a", 1, 1, None, 0, Todo, 1000);
            var b := Task(2, 1, "b", 1, 1, None, 0, Todo, 5000);
            var drop := DraggableLocation(Todo, 1);
            var persisted := ApplyTaskEdit(a, DragEdit(drop));
            && Partition([a, b]).Get(Todo) == [a, b]
            && Move(Partition([a, b]), 1, Todo, Todo, 1).Get(Todo) == [b, a]
            && Partition([persisted, b]).Get(Todo) == [persisted, b]
  {
    var a := Task(1, 1, "a", 1, 1, None, 0, Todo, 1000);
    var b := Task(2, 1, "b", 1, 1, None, 0, Todo, 5000);
    var persisted := ApplyTaskEdit(a, DragEdit(DraggableLocation(Todo, 1)));
    assert persisted == a.(position := 2000);
    RebuildKeepsPairOrder(a, b);
    RebuildKeepsPairOrder(persisted, b);
    DropFirstIntoSecondSlot(Partition([a, b]), a, b);
  }

  /** Two cards of one column, already in position order, are rebuilt in that order. */
  lemma RebuildKeepsPairOrder(x: Task, y: Task)
    requires x.status == y.status && x.position <= y.position
    ensures Partition([x, y]).Get(x.status) == [x, y]
  {
    var s := x.status;
    assert [x, y][..1] == [x] && [x][..0] == [];
    assert Filter([x], s) == [x];
    assert Filter([x, y], s) == [x, y];
    assert SortByPosition([x]) == [x];
    assert InsertByPosition([x], y) == [x, y];
  }

  /** Dropping the first of two cards into slot 1 of its own column swaps them. */
  lemma DropFirstIntoSecondSlot(st: TaskState, x: Task, y: Task)
    requires st.Get(x.status) == [x, y] && x.id != y.id
    ensures Move(st, x.id, x.status, x.status, 1).Get(x.status) == [y, x]
  {
    assert FindIndex([x, y], x.id) == 0;
    assert RemoveAt([x, y], 0) == [y];
    assert SpliceInsert([y], 1, x) == [y, x];
  }
}
