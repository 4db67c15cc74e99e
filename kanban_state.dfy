/** The value the kanban store holds: one ordered column of tasks per status,
    and the pure operations the store's methods are specified by. */
module KanbanState {
  import opened Types

  /** One column per status; a column's order is the order cards are shown in. */
  datatype TaskState = TaskState(
    backlog: seq<Task>,
    todo: seq<Task>,
    inProgress: seq<Task>,
    inReview: seq<Task>,
    done: seq<Task>)
  {
    function Get(s: TaskStatus): seq<Task>
    {
      match s
      case Backlog => backlog
      case Todo => todo
      case InProgress => inProgress
      case InReview => inReview
      case Done => done
    }

    /** This state with column `s` replaced and every other column kept. */
    function Set(s: TaskStatus, column: seq<Task>): (r: TaskState)
      ensures r.Get(s) == column
      ensures forall other | other != s :: r.Get(other) == Get(other)
    {
      match s
      case Backlog => this.(backlog := column)
      case Todo => this.(todo := column)
      case InProgress => this.(inProgress := column)
      case InReview => this.(inReview := column)
      case Done => this.(done := column)
    }

    /** Number of cards on the board. */
    function Count(): nat
    {
      |backlog| + |todo| + |inProgress| + |inReview| + |done|
    }
  }

  lemma StateExtensionality(a: TaskState, b: TaskState)
    requires forall s :: a.Get(s) == b.Get(s)
    ensures a == b
  {
    assert a.Get(Backlog) == b.Get(Backlog);
    assert a.Get(Todo) == b.Get(Todo);
    assert a.Get(InProgress) == b.Get(InProgress);
    assert a.Get(InReview) == b.Get(InReview);
    assert a.Get(Done) == b.Get(Done);
  }

  /** The empty board a store starts with and every rebuild starts from. */
  function InitialTaskState(): (r: TaskState)
    ensures forall s :: r.Get(s) == []
    ensures r.Count() == 0
  {
    TaskState([], [], [], [], [])
  }

  /** The initial board is the only board without cards. */
  lemma NoCardsIsInitial(st: TaskState)
    ensures st.Count() == 0 <==> st == InitialTaskState()
  {
    if st.Count() == 0 {
      assert st.backlog == [] && st.todo == [] && st.inProgress == [] && st.inReview == [] && st.done == [];
    }
  }

  /** Every card sits in the column of its own status. */
  ghost predicate ColumnsMatchStatus(st: TaskState)
  {
    forall s, t | t in st.Get(s) :: t.status == s
  }

  // ---------------------------------------------------------------------------
  // Ids on the board

  function Ids(column: seq<Task>): (r: seq<TaskId>)
    ensures |r| == |column|
    ensures forall j | 0 <= j < |column| :: r[j] == column[j].id
  {
    seq(|column|, j requires 0 <= j < |column| => column[j].id)
  }

  lemma IdsAppend(a: seq<Task>, b: seq<Task>)
    ensures Ids(a + b) == Ids(a) + Ids(b)
  {
  }

  /** The ids of all cards, counted with multiplicity. */
  ghost function AllIds(st: TaskState): multiset<TaskId>
  {
    multiset(Ids(st.backlog)) + multiset(Ids(st.todo)) + multiset(Ids(st.inProgress))
      + multiset(Ids(st.inReview)) + multiset(Ids(st.done))
  }

  /** The cards themselves, counted with multiplicity. */
  ghost function Contents(st: TaskState): multiset<Task>
  {
    multiset(st.backlog) + multiset(st.todo) + multiset(st.inProgress)
      + multiset(st.inReview) + multiset(st.done)
  }

  lemma CountIsIdsSize(st: TaskState)
    ensures |AllIds(st)| == st.Count()
  {
  }

  lemma AllIdsAfterSet(st: TaskState, s: TaskStatus, column: seq<Task>)
    ensures AllIds(st.Set(s, column)) + multiset(Ids(st.Get(s))) == AllIds(st) + multiset(Ids(column))
  {
  }

  // ---------------------------------------------------------------------------
  // Array primitives the store uses: findIndex, splice(i, 1), splice(i, 0, x)

  /** Array.prototype.findIndex on `_id`: the first index holding `taskId`, or -1. */
  function FindIndex(column: seq<Task>, taskId: TaskId): (r: int)
    ensures -1 <= r < |column|
    ensures r == -1 <==> forall j | 0 <= j < |column| :: column[j].id != taskId
    ensures r >= 0 ==> column[r].id == taskId && forall j | 0 <= j < r :: column[j].id != taskId
  {
    if column == [] then -1
    else if column[0].id == taskId then 0
    else
      var r := FindIndex(column[1..], taskId);
      if r == -1 then -1 else r + 1
  }

  /** `splice(i, 1)`: the column without its entry at `i`. */
  function RemoveAt(column: seq<Task>, i: nat): (r: seq<Task>)
    requires i < |column|
    ensures |r| == |column| - 1
    ensures multiset(Ids(r)) + multiset{column[i].id} == multiset(Ids(column))
    ensures forall x | x in r :: x in column
  {
    var front, back := column[..i], column[i + 1..];
    assert column == front + [column[i]] + back;
    IdsAppend(front + [column[i]], back);
    IdsAppend(front, [column[i]]);
    IdsAppend(front, back);
    assert Ids([column[i]]) == [column[i].id];
    assert multiset(Ids(column)) == multiset(Ids(front)) + multiset{column[i].id} + multiset(Ids(back));
    front + back
  }

  /** How `splice` turns a requested start into an index: a negative start counts
      back from the end (floored at 0), a start past the end means the end. */
  function ClampIndex(start: int, len: nat): (k: nat)
    ensures k <= len
    ensures 0 <= start <= len ==> k == start
    ensures start > len ==> k == len
    ensures start < 0 ==> k == if len + start < 0 then 0 else len + start
  {
    if start < 0 then (if len + start < 0 then 0 else len + start)
    else if start > len then len
    else start
  }

  /** `splice(start, 0, t)`: the column with `t` inserted. */
  function SpliceInsert(column: seq<Task>, start: int, t: Task): (r: seq<Task>)
    ensures |r| == |column| + 1
    ensures r[ClampIndex(start, |column|)] == t
    ensures RemoveAt(r, ClampIndex(start, |column|)) == column
    ensures multiset(Ids(r)) == multiset(Ids(column)) + multiset{t.id}
    ensures forall x | x in r :: x in column || x == t
  {
    var k := ClampIndex(start, |column|);
    var r := column[..k] + [t] + column[k..];
    assert r[..k] == column[..k] && r[k + 1..] == column[k..];
    assert column == column[..k] + column[k..];
    IdsAppend(column[..k] + [t], column[k..]);
    IdsAppend(column[..k], [t]);
    IdsAppend(column[..k], column[k..]);
    r
  }

  // ---------------------------------------------------------------------------
  // setTasks: bucket by status, then sort each bucket by position

  /** The tasks of `tasks` whose status is `s`, in input order: the column after
      pushing every task onto the column of its status. */
  function Filter(tasks: seq<Task>, s: TaskStatus): seq<Task>
  {
    if tasks == [] then []
    else
      var last := tasks[|tasks| - 1];
      Filter(tasks[..|tasks| - 1], s) + (if last.status == s then [last] else [])
  }

  /** The bucket for `s` holds each task of status `s` as often as the input
      does, and nothing else. */
  lemma {:induction false} FilterKeepsExactlyStatus(tasks: seq<Task>, s: TaskStatus)
    ensures forall t :: multiset(Filter(tasks, s))[t] == if t.status == s then multiset(tasks)[t] else 0
  {
    if tasks != [] {
      var front := tasks[..|tasks| - 1];
      var last := tasks[|tasks| - 1];
      assert tasks == front + [last];
      FilterKeepsExactlyStatus(front, s);
      FilterStep(tasks, s);
    }
  }

  ghost predicate SortedByPosition(column: seq<Task>)
  {
    forall i, j | 0 <= i < j < |column| :: column[i].position <= column[j].position
  }

  /** Places `t` after every card whose position is not larger than its own,
      so cards with equal positions keep their arrival order. */
  function InsertByPosition(sorted: seq<Task>, t: Task): (r: seq<Task>)
    ensures multiset(r) == multiset(sorted) + multiset{t}
    decreases |sorted|
  {
    if sorted == [] || sorted[|sorted| - 1].position <= t.position then sorted + [t]
    else
      var front := sorted[..|sorted| - 1];
      assert sorted == front + [sorted[|sorted| - 1]];
      InsertByPosition(front, t) + [sorted[|sorted| - 1]]
  }

  /** A sorted column stays sorted when a card no lower than all of it is appended. */
  lemma AppendKeepsSorted(column: seq<Task>, last: Task)
    requires SortedByPosition(column)
    requires forall x | x in column :: x.position <= last.position
    ensures SortedByPosition(column + [last])
  {
    var r := column + [last];
    forall i, j | 0 <= i < j < |r| ensures r[i].position <= r[j].position {
      if j == |r| - 1 {
        assert r[i] in column;
      }
    }
  }

  lemma {:induction false} InsertKeepsSorted(sorted: seq<Task>, t: Task)
    requires SortedByPosition(sorted)
    ensures SortedByPosition(InsertByPosition(sorted, t))
    decreases |sorted|
  {
    if sorted == [] || sorted[|sorted| - 1].position <= t.position {
      AppendKeepsSorted(sorted, t);
    } else {
      var last := sorted[|sorted| - 1];
      var front := sorted[..|sorted| - 1];
      var rest := InsertByPosition(front, t);
      InsertKeepsSorted(front, t);
      forall x | x in rest ensures x.position <= last.position {
        assert x in multiset(rest);
        if x != t {
          assert x in multiset(front);
          var j :| 0 <= j < |front| && front[j] == x;
          assert sorted[j] == x;
        }
      }
      AppendKeepsSorted(rest, last);
    }
  }

  /** `sort((a, b) => a.position - b.position)`: a stable sort by ascending position. */
  function SortByPosition(column: seq<Task>): (r: seq<Task>)
    ensures SortedByPosition(r)
    ensures multiset(r) == multiset(column)
  {
    if column == [] then []
    else
      var front := SortByPosition(column[..|column| - 1]);
      assert column == column[..|column| - 1] + [column[|column| - 1]];
      InsertKeepsSorted(front, column[|column| - 1]);
      InsertByPosition(front, column[|column| - 1])
  }

  /** The board `setTasks(data)` builds from an unordered task list. */
  function Partition(data: seq<Task>): TaskState
  {
    TaskState(
      SortByPosition(Filter(data, Backlog)),
      SortByPosition(Filter(data, Todo)),
      SortByPosition(Filter(data, InProgress)),
      SortByPosition(Filter(data, InReview)),
      SortByPosition(Filter(data, Done)))
  }

  /** After a rebuild, column `s` holds exactly the input tasks whose status is
      `s` (each as often as in the input), sorted by ascending position. */
  lemma PartitionColumn(data: seq<Task>, s: TaskStatus)
    ensures SortedByPosition(Partition(data).Get(s))
    ensures forall t :: multiset(Partition(data).Get(s))[t] == if t.status == s then multiset(data)[t] else 0
  {
    var column := SortByPosition(Filter(data, s));
    FilterKeepsExactlyStatus(data, s);
    assert Partition(data).Get(s) == column;
    assert multiset(column) == multiset(Filter(data, s));
  }

  lemma FilterAppend(tasks: seq<Task>, t: Task, s: TaskStatus)
    ensures Filter(tasks + [t], s) == Filter(tasks, s) + (if t.status == s then [t] else [])
  {
    assert (tasks + [t])[..|tasks|] == tasks;
  }

  lemma FilterStep(tasks: seq<Task>, s: TaskStatus)
    requires tasks != []
    ensures multiset(Filter(tasks, s)) == multiset(Filter(tasks[..|tasks| - 1], s))
              + if tasks[|tasks| - 1].status == s then multiset{tasks[|tasks| - 1]} else multiset{}
  {
  }

  /** Five multisets that each keep exactly one status of `m` add up to `m`. */
  lemma BucketsAddUp(b: multiset<Task>, t: multiset<Task>, p: multiset<Task>, r: multiset<Task>, d: multiset<Task>,
                     m: multiset<Task>)
    requires forall x :: b[x] == if x.status == Backlog then m[x] else 0
    requires forall x :: t[x] == if x.status == Todo then m[x] else 0
    requires forall x :: p[x] == if x.status == InProgress then m[x] else 0
    requires forall x :: r[x] == if x.status == InReview then m[x] else 0
    requires forall x :: d[x] == if x.status == Done then m[x] else 0
    ensures b + t + p + r + d == m
  {
    forall x ensures (b + t + p + r + d)[x] == m[x] {
      assert (b + t + p + r + d)[x] == b[x] + t[x] + p[x] + r[x] + d[x];
    }
  }

  /** Bucketing sends every task to exactly one of the five buckets. */
  lemma FilterSplitsTasks(tasks: seq<Task>)
    ensures multiset(Filter(tasks, Backlog)) + multiset(Filter(tasks, Todo)) + multiset(Filter(tasks, InProgress))
            + multiset(Filter(tasks, InReview)) + multiset(Filter(tasks, Done)) == multiset(tasks)
  {
    FilterKeepsExactlyStatus(tasks, Backlog);
    FilterKeepsExactlyStatus(tasks, Todo);
    FilterKeepsExactlyStatus(tasks, InProgress);
    FilterKeepsExactlyStatus(tasks, InReview);
    FilterKeepsExactlyStatus(tasks, Done);
    BucketsAddUp(multiset(Filter(tasks, Backlog)), multiset(Filter(tasks, Todo)), multiset(Filter(tasks, InProgress)),
                 multiset(Filter(tasks, InReview)), multiset(Filter(tasks, Done)), multiset(tasks));
  }

  /** Every input task is on the rebuilt board exactly once (as often as it occurs
      in the input), nothing else is, and the card count is the input length. */
  lemma PartitionCoversEachTaskOnce(data: seq<Task>)
    ensures Contents(Partition(data)) == multiset(data)
    ensures Partition(data).Count() == |data|
  {
    var p := Partition(data);
    FilterSplitsTasks(data);
    assert multiset(p.backlog) == multiset(Filter(data, Backlog));
    assert multiset(p.todo) == multiset(Filter(data, Todo));
    assert multiset(p.inProgress) == multiset(Filter(data, InProgress));
    assert multiset(p.inReview) == multiset(Filter(data, InReview));
    assert multiset(p.done) == multiset(Filter(data, Done));
    assert |Contents(p)| == p.Count();
  }

  /** A rebuilt board has every card in the column of its status. */
  lemma PartitionMatchesStatus(data: seq<Task>)
    ensures ColumnsMatchStatus(Partition(data))
  {
    var p := Partition(data);
    forall s, t | t in p.Get(s) ensures t.status == s {
      PartitionColumn(data, s);
      assert multiset(p.Get(s))[t] > 0;
    }
  }

  /** Rebuilding from an empty task list gives the board a new store starts with. */
  lemma EmptyRebuildIsInitial()
    ensures Partition([]) == InitialTaskState()
  {
    PartitionCoversEachTaskOnce([]);
    NoCardsIsInitial(Partition([]));
  }

  // ---------------------------------------------------------------------------
  // moveTask

  /** `moveTask(taskId, fromColumn, toColumn, newIndex)`: take the first card with
      `taskId` out of `fromColumn`, give it status `toColumn` when the column
      changes, and splice it into `toColumn` at `newIndex`; a card that is not in
      `fromColumn` leaves the board as it was. */
  function Move(st: TaskState, taskId: TaskId, fromColumn: TaskStatus, toColumn: TaskStatus, newIndex: int): TaskState
  {
    var source := st.Get(fromColumn);
    var taskIndex := FindIndex(source, taskId);
    if taskIndex == -1 then st
    else
      var movedTask := source[taskIndex];
      var removed := st.Set(fromColumn, RemoveAt(source, taskIndex));
      var updatedTask := if toColumn != fromColumn then movedTask.(status := toColumn) else movedTask;
      removed.Set(toColumn, SpliceInsert(removed.Get(toColumn), newIndex, updatedTask))
  }

  lemma MoveMissingTaskIsNoOp(st: TaskState, taskId: TaskId, fromColumn: TaskStatus, toColumn: TaskStatus, newIndex: int)
    requires forall t | t in st.Get(fromColumn) :: t.id != taskId
    ensures Move(st, taskId, fromColumn, toColumn, newIndex) == st
  {
    var source := st.Get(fromColumn);
    forall j | 0 <= j < |source| ensures source[j].id != taskId {
      assert source[j] in source;
    }
  }

  lemma RemoveStepIds(st: TaskState, s: TaskStatus, i: nat)
    requires i < |st.Get(s)|
    ensures AllIds(st.Set(s, RemoveAt(st.Get(s), i))) + multiset{st.Get(s)[i].id} == AllIds(st)
  {
    var remaining := RemoveAt(st.Get(s), i);
    AllIdsAfterSet(st, s, remaining);
    var before, after := multiset(Ids(st.Get(s))), multiset(Ids(remaining));
    assert after + multiset{st.Get(s)[i].id} == before;
  }

  lemma InsertStepIds(st: TaskState, s: TaskStatus, start: int, t: Task)
    ensures AllIds(st.Set(s, SpliceInsert(st.Get(s), start, t))) == AllIds(st) + multiset{t.id}
  {
    AllIdsAfterSet(st, s, SpliceInsert(st.Get(s), start, t));
  }

  /** A move neither adds, drops nor duplicates a card: the ids on the board are
      the same multiset afterwards, so the card count is unchanged too. */
  lemma MovePreservesIds(st: TaskState, taskId: TaskId, fromColumn: TaskStatus, toColumn: TaskStatus, newIndex: int)
    ensures AllIds(Move(st, taskId, fromColumn, toColumn, newIndex)) == AllIds(st)
    ensures Move(st, taskId, fromColumn, toColumn, newIndex).Count() == st.Count()
  {
    var r := Move(st, taskId, fromColumn, toColumn, newIndex);
    var source := st.Get(fromColumn);
    var taskIndex := FindIndex(source, taskId);
    if taskIndex != -1 {
      var movedTask := source[taskIndex];
      var removed := st.Set(fromColumn, RemoveAt(source, taskIndex));
      var updatedTask := if toColumn != fromColumn then movedTask.(status := toColumn) else movedTask;
      RemoveStepIds(st, fromColumn, taskIndex);
      InsertStepIds(removed, toColumn, newIndex, updatedTask);
      assert r == removed.Set(toColumn, SpliceInsert(removed.Get(toColumn), newIndex, updatedTask));
    }
    CountIsIdsSize(r);
    CountIsIdsSize(st);
  }

  /** With `0 <= newIndex <= |toColumn|` counted after the removal, the moved card
      ends exactly at `newIndex` of `toColumn`; across columns it carries the new
      status, within a column it is the same record. */
  lemma MovePlacesAtIndex(st: TaskState, taskId: TaskId, fromColumn: TaskStatus, toColumn: TaskStatus, newIndex: int)
    requires exists t :: t in st.Get(fromColumn) && t.id == taskId
    requires 0 <= newIndex <= |st.Get(toColumn)| - (if fromColumn == toColumn then 1 else 0)
    ensures var moved := st.Get(fromColumn)[FindIndex(st.Get(fromColumn), taskId)];
            var column := Move(st, taskId, fromColumn, toColumn, newIndex).Get(toColumn);
            && newIndex < |column|
            && column[newIndex] == (if fromColumn != toColumn then moved.(status := toColumn) else moved)
            && column[newIndex].id == taskId
  {
    var source := st.Get(fromColumn);
    var t :| t in source && t.id == taskId;
    var j :| 0 <= j < |source| && source[j] == t;
    assert FindIndex(source, taskId) != -1;
  }

  /** A move across columns takes the card out of `fromColumn` and puts it into
      `toColumn`, and every other card keeps its column and relative order. */
  lemma MoveAcrossColumns(st: TaskState, taskId: TaskId, fromColumn: TaskStatus, toColumn: TaskStatus, newIndex: int)
    requires fromColumn != toColumn
    requires FindIndex(st.Get(fromColumn), taskId) != -1
    ensures var i := FindIndex(st.Get(fromColumn), taskId);
            var r := Move(st, taskId, fromColumn, toColumn, newIndex);
            var k := ClampIndex(newIndex, |st.Get(toColumn)|);
            && r.Get(fromColumn) == RemoveAt(st.Get(fromColumn), i)
            && |r.Get(toColumn)| == |st.Get(toColumn)| + 1
            && RemoveAt(r.Get(toColumn), k) == st.Get(toColumn)
            && r.Get(toColumn)[k] == st.Get(fromColumn)[i].(status := toColumn)
            && forall s | s != fromColumn && s != toColumn :: r.Get(s) == st.Get(s)
  {
  }

  /** A move within one column re-orders that column only: with the card taken out
      again, the column is what it was without the card, and the record is unchanged. */
  lemma MoveWithinColumn(st: TaskState, taskId: TaskId, column: TaskStatus, newIndex: int)
    requires FindIndex(st.Get(column), taskId) != -1
    ensures var i := FindIndex(st.Get(column), taskId);
            var r := Move(st, taskId, column, column, newIndex);
            var k := ClampIndex(newIndex, |st.Get(column)| - 1);
            && |r.Get(column)| == |st.Get(column)|
            && RemoveAt(r.Get(column), k) == RemoveAt(st.Get(column), i)
            && r.Get(column)[k] == st.Get(column)[i]
            && forall s | s != column :: r.Get(s) == st.Get(s)
  {
    var source := st.Get(column);
    var i := FindIndex(source, taskId);
    var rest := RemoveAt(source, i);
    var removed := st.Set(column, rest);
    assert removed.Get(column) == rest;
    var r := removed.Set(column, SpliceInsert(rest, newIndex, source[i]));
    assert Move(st, taskId, column, column, newIndex) == r;
    assert r.Get(column) == SpliceInsert(rest, newIndex, source[i]);
  }

  /** A board whose cards all sit in the column of their status stays that way
      after a move. */
  lemma MovePreservesColumnsMatchStatus(st: TaskState, taskId: TaskId, fromColumn: TaskStatus, toColumn: TaskStatus, newIndex: int)
    requires ColumnsMatchStatus(st)
    ensures ColumnsMatchStatus(Move(st, taskId, fromColumn, toColumn, newIndex))
  {
    var r := Move(st, taskId, fromColumn, toColumn, newIndex);
    var source := st.Get(fromColumn);
    var taskIndex := FindIndex(source, taskId);
    if taskIndex != -1 {
      var movedTask := source[taskIndex];
      assert movedTask in source;
      var removed := st.Set(fromColumn, RemoveAt(source, taskIndex));
      forall s, t | t in removed.Get(s) ensures t.status == s {
        if s == fromColumn {
          assert t in source;
        } else {
          assert t in st.Get(s);
        }
      }
      var updatedTask := if toColumn != fromColumn then movedTask.(status := toColumn) else movedTask;
      forall s, t | t in r.Get(s) ensures t.status == s {
        if s == toColumn {
          assert t in removed.Get(toColumn) || t == updatedTask;
        } else {
          assert t in removed.Get(s);
        }
      }
    }
  }

  // ---------------------------------------------------------------------------
  // updateTaskInColumn

  /** One column after `updateTaskInColumn`: its first card with `taskId`, if any,
      overwritten in place. */
  function ReplaceFirst(column: seq<Task>, taskId: TaskId, updatedTask: Task): (r: seq<Task>)
    ensures |r| == |column|
    ensures forall j | 0 <= j < |column| :: r[j] == if j == FindIndex(column, taskId) then updatedTask else column[j]
  {
    var taskIndex := FindIndex(column, taskId);
    if taskIndex == -1 then column else column[taskIndex := updatedTask]
  }

  /** `updateTaskInColumn(taskId, updatedTask)`: in every column, the first card
      with `taskId` is overwritten where it stands. */
  function UpdateInColumns(st: TaskState, taskId: TaskId, updatedTask: Task): TaskState
  {
    TaskState(
      ReplaceFirst(st.backlog, taskId, updatedTask),
      ReplaceFirst(st.todo, taskId, updatedTask),
      ReplaceFirst(st.inProgress, taskId, updatedTask),
      ReplaceFirst(st.inReview, taskId, updatedTask),
      ReplaceFirst(st.done, taskId, updatedTask))
  }

  /** An update never relocates a card, whatever status `updatedTask` carries:
      each column keeps its length, its first card with `taskId` becomes
      `updatedTask` and every other entry stays as it was. */
  lemma UpdateOverwritesInPlace(st: TaskState, taskId: TaskId, updatedTask: Task, s: TaskStatus)
    ensures var column := UpdateInColumns(st, taskId, updatedTask).Get(s);
            && |column| == |st.Get(s)|
            && forall j | 0 <= j < |column| ::
                 column[j] == if j == FindIndex(st.Get(s), taskId) then updatedTask else st.Get(s)[j]
  {
    assert UpdateInColumns(st, taskId, updatedTask).Get(s) == ReplaceFirst(st.Get(s), taskId, updatedTask);
  }

  lemma UpdateMissingTaskIsNoOp(st: TaskState, taskId: TaskId, updatedTask: Task)
    requires forall s, t | t in st.Get(s) :: t.id != taskId
    ensures UpdateInColumns(st, taskId, updatedTask) == st
  {
    var r := UpdateInColumns(st, taskId, updatedTask);
    forall s ensures r.Get(s) == st.Get(s) {
      UpdateOverwritesInPlace(st, taskId, updatedTask, s);
      forall j | 0 <= j < |st.Get(s)| ensures st.Get(s)[j].id != taskId {
        assert st.Get(s)[j] in st.Get(s);
      }
    }
    StateExtensionality(r, st);
  }

  /** Overwriting a card with a record of the same id keeps the ids on the board. */
  lemma UpdatePreservesIds(st: TaskState, taskId: TaskId, updatedTask: Task)
    requires updatedTask.id == taskId
    ensures AllIds(UpdateInColumns(st, taskId, updatedTask)) == AllIds(st)
  {
    var r := UpdateInColumns(st, taskId, updatedTask);
    forall s ensures Ids(r.Get(s)) == Ids(st.Get(s)) {
      UpdateOverwritesInPlace(st, taskId, updatedTask, s);
    }
    assert Ids(r.Get(Backlog)) == Ids(st.Get(Backlog));
    assert Ids(r.Get(Todo)) == Ids(st.Get(Todo));
    assert Ids(r.Get(InProgress)) == Ids(st.Get(InProgress));
    assert Ids(r.Get(InReview)) == Ids(st.Get(InReview));
    assert Ids(r.Get(Done)) == Ids(st.Get(Done));
  }

  /** Because it never relocates, an update whose record carries another status
      than the column holding the card leaves that card in a column that does
      not match its status. */
  lemma UpdateCanBreakColumnsMatchStatus(st: TaskState, taskId: TaskId, updatedTask: Task, s: TaskStatus)
    requires FindIndex(st.Get(s), taskId) != -1 && updatedTask.status != s
    ensures !ColumnsMatchStatus(UpdateInColumns(st, taskId, updatedTask))
  {
    var i := FindIndex(st.Get(s), taskId);
    var column := UpdateInColumns(st, taskId, updatedTask).Get(s);
    UpdateOverwritesInPlace(st, taskId, updatedTask, s);
    assert column[i] == updatedTask;
    assert updatedTask in column;
  }
}
