/** The kanban store: five task columns held in mutable fields, with the
    operations the board calls on them. */
module KanbanStore {
  import opened Types
  import opened KanbanState

  class KanbanStore {
    var backlog: seq<Task>
    var todo: seq<Task>
    var inProgress: seq<Task>
    var inReview: seq<Task>
    var done: seq<Task>

    /** The board the store currently shows. */
    function Tasks(): TaskState
      reads this
    {
      TaskState(backlog, todo, inProgress, inReview, done)
    }

    /** A fresh store shows the initial (empty) board. */
    constructor ()
      ensures Tasks() == InitialTaskState()
    {
      var initial := InitialTaskState();
      backlog, todo, inProgress, inReview, done := initial.backlog, initial.todo, initial.inProgress, initial.inReview, initial.done;
    }

    /** Replaces the whole board. */
    method Assign(st: TaskState)
      modifies this
      ensures Tasks() == st
    {
      backlog, todo, inProgress, inReview, done := st.backlog, st.todo, st.inProgress, st.inReview, st.done;
    }

    /** The `forEach` over `data` in `setTasks`: push every task onto the column
        of its status, starting from an empty board. */
    static method BucketByStatus(data: seq<Task>) returns (initialTasks: TaskState)
      ensures forall s :: initialTasks.Get(s) == Filter(data, s)
    {
      initialTasks := InitialTaskState();
      for i := 0 to |data|
        invariant forall s :: initialTasks.Get(s) == Filter(data[..i], s)
      {
        var task := data[i];
        assert data[..i + 1] == data[..i] + [task];
        forall s ensures Filter(data[..i + 1], s) == Filter(data[..i], s) + (if task.status == s then [task] else []) {
          FilterAppend(data[..i], task, s);
        }
        initialTasks := initialTasks.Set(task.status, initialTasks.Get(task.status) + [task]);
      }
      assert data[..|data|] == data;
    }

    /** The `forEach` over the column keys in `setTasks`: sort every column by
        ascending position. */
    static method SortColumns(buckets: TaskState) returns (sorted: TaskState)
      ensures forall s :: sorted.Get(s) == SortByPosition(buckets.Get(s))
    {
      sorted := buckets;
      for k := 0 to |AllStatuses|
        invariant forall s :: sorted.Get(s) == if s in AllStatuses[..k] then SortByPosition(buckets.Get(s)) else buckets.Get(s)
      {
        var key := AllStatuses[k];
        StatusKeysStep(k);
        sorted := sorted.Set(key, SortByPosition(sorted.Get(key)));
      }
      StatusKeysAll();
    }

    /** `setTasks(data)`: bucket the tasks by status on a fresh board, sort each
        column by position, and replace the board with the result. Nothing of
        the previous board survives. */
    method SetTasks(data: seq<Task>)
      modifies this
      ensures Tasks() == Partition(data)
    {
      var initialTasks := BucketByStatus(data);
      initialTasks := SortColumns(initialTasks);
      StateExtensionality(initialTasks, Partition(data));
      Assign(initialTasks);
    }

    /** `moveTask(taskId, fromColumn, toColumn, newIndex)`: splice the first card
        with `taskId` out of `fromColumn`, re-status it when the column changes,
        and splice it into `toColumn` at `newIndex`. */
    method MoveTask(taskId: TaskId, fromColumn: TaskStatus, toColumn: TaskStatus, newIndex: int)
      modifies this
      ensures Tasks() == Move(old(Tasks()), taskId, fromColumn, toColumn, newIndex)
    {
      var newTasks := Tasks();
      var source := newTasks.Get(fromColumn);
      var taskIndex := FindIndex(source, taskId);
      if taskIndex == -1 {
        return;
      }
      var movedTask := source[taskIndex];
      newTasks := newTasks.Set(fromColumn, RemoveAt(source, taskIndex));
      var updatedTask := if toColumn != fromColumn then movedTask.(status := toColumn) else movedTask;
      newTasks := newTasks.Set(toColumn, SpliceInsert(newTasks.Get(toColumn), newIndex, updatedTask));
      Assign(newTasks);
    }

    /** `updateTaskInColumn(taskId, updatedTask)`: visit the columns in key order
        and overwrite each column's first card with `taskId`. */
    method UpdateTaskInColumn(taskId: TaskId, updatedTask: Task)
      modifies this
      ensures Tasks() == UpdateInColumns(old(Tasks()), taskId, updatedTask)
    {
      var newTasks := Tasks();
      for k := 0 to |AllStatuses|
        invariant forall s :: newTasks.Get(s) ==
                    if s in AllStatuses[..k] then ReplaceFirst(old(Tasks()).Get(s), taskId, updatedTask) else old(Tasks()).Get(s)
      {
        var columnStatus := AllStatuses[k];
        StatusKeysStep(k);
        var taskIndex := FindIndex(newTasks.Get(columnStatus), taskId);
        if taskIndex != -1 {
          newTasks := newTasks.Set(columnStatus, newTasks.Get(columnStatus)[taskIndex := updatedTask]);
        }
      }
      StatusKeysAll();
      var expected := UpdateInColumns(old(Tasks()), taskId, updatedTask);
      forall s ensures newTasks.Get(s) == expected.Get(s) {
        UpdateOverwritesInPlace(old(Tasks()), taskId, updatedTask, s);
      }
      StateExtensionality(newTasks, expected);
      Assign(newTasks);
    }
  }
}
