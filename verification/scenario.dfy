/**
 * What a caller of the store and the view helpers can conclude from their
 * contracts alone: the scenario of tests/test_backend.py, and the link
 * between marking a task complete and filtering by status.
 */
module Scenario {
  import opened Tasks
  import opened Database
  import opened Utils

  /** After marking id `id` complete, the row carrying it is among the
      completed tasks and no row carrying it is among the open ones. */
  lemma MarkedTaskFiltersAsCompleted(rows: seq<Task>, id: int, k: nat)
    requires k < |rows| && rows[k].id == id
    ensures rows[k].(completed := true) in FilterTasks(MarkedComplete(rows, id), Some(true))
    ensures forall t :: t in FilterTasks(MarkedComplete(rows, id), Some(false)) ==> t.id != id
  {
    MarkedCompleteRows(rows, id);
    var after := MarkedComplete(rows, id);
    assert after[k] in after;
    forall t | t in FilterTasks(after, Some(false)) ensures t.id != id {
      var j :| 0 <= j < |after| && after[j] == t;
    }
  }

  /** `setUp` of tests/test_backend.py: three tasks added to an empty table. */
  method SetUp() returns (store: TaskStore, t1: Task, t2: Task, t3: Task)
    ensures fresh(store) && store.Valid()
    ensures t1 == Task(1, "Write tests", 2, false)
    ensures t2 == Task(2, "Fix bugs", 1, false)
    ensures t3 == Task(3, "Optimize code", 3, false)
    ensures store.rows == [t1, t2, t3]
  {
    store := new TaskStore();
    t1 := store.AddTask("Write tests", 2);
    t2 := store.AddTask("Fix bugs", 1);
    assert store.rows[1..] == [t2];
    assert MaxId([t2]) == 2;
    assert MaxId(store.rows) == 2;
    t3 := store.AddTask("Optimize code", 3);
  }

  /** Sorting priorities 2, 1, 3 with `reverse=True` puts them in the order 3, 2, 1. */
  lemma SortThreeDescending(t1: Task, t2: Task, t3: Task)
    requires t1.priority == 2 && t2.priority == 1 && t3.priority == 3
    ensures SortTasks([t1, t2, t3], Priority, true) == [t3, t1, t2]
  {
    var s := [t1, t2, t3];
    assert s[1..] == [t2, t3] && [t2, t3][1..] == [t3] && [t3][1..] == [];
    assert SortTasks([t3], Priority, true) == [t3];
    assert Insert(t2, [], Priority, true) == [t2];
    assert SortTasks([t2, t3], Priority, true) == [t3] + [t2];
    assert [t3, t2][1..] == [t2];
    assert Insert(t1, [t2], Priority, true) == [t1, t2];
    assert SortTasks(s, Priority, true) == [t3] + [t1, t2];
  }

  /** test_add_task and test_sort_tasks: three rows, highest priority first. */
  method SortScenario() returns (count: nat, firstTitle: string)
    ensures count == 3
    ensures firstTitle == "Optimize code"
  {
    var store, t1, t2, t3 := SetUp();
    var tasks := store.GetAllTasks();
    count := |tasks|;
    SortThreeDescending(t1, t2, t3);
    var byPriority := SortTasks(tasks, Priority, true);
    firstTitle := byPriority[0].title;
  }

  /** With only the first of three tasks completed, the status filter splits them. */
  lemma FilterFirstCompleted(t1: Task, t2: Task, t3: Task)
    requires t1.completed && !t2.completed && !t3.completed
    ensures FilterTasks([t1, t2, t3], Some(true)) == [t1]
    ensures FilterTasks([t1, t2, t3], Some(false)) == [t2, t3]
  {
    var s := [t1, t2, t3];
    assert s[1..] == [t2, t3] && [t2, t3][1..] == [t3] && [t3][1..] == [];
    assert FilterTasks([t3], Some(true)) == [];
    assert FilterTasks([t2, t3], Some(true)) == [];
    assert FilterTasks([t3], Some(false)) == [t3];
    assert FilterTasks([t2, t3], Some(false)) == [t2] + [t3];
  }

  /** test_mark_task_complete and test_filter_tasks. */
  method MarkAndFilterScenario() returns (marked: Task, done: seq<Task>, open: seq<Task>)
    ensures marked.title == "Write tests" && marked.completed
    ensures done == [marked]
    ensures |open| == 2 && !open[0].completed && !open[1].completed
  {
    var store, t1, t2, t3 := SetUp();
    store.MarkTaskComplete(t1.id);
    var tasks := store.GetAllTasks();
    assert tasks == [t1.(completed := true), t2, t3];
    marked := tasks[0];
    FilterFirstCompleted(marked, t2, t3);
    done := FilterTasks(tasks, Some(true));
    open := FilterTasks(tasks, Some(false));
  }

  /** Deleting the same id twice, then adding: found, not found, next id. */
  method DeleteScenario() returns (first: bool, second: bool, added: Task)
    ensures first && !second
    ensures added == Task(4, "Write docs", 1, false)
  {
    var store, t1, t2, t3 := SetUp();
    first := store.DeleteTask(t2.id);
    assert [t1, t2, t3][1..] == [t2, t3] && [t2, t3][1..] == [t3] && [t3][1..] == [];
    assert WithoutId([t3], 2) == [t3];
    assert store.rows == [t1, t3];
    second := store.DeleteTask(t2.id);
    assert store.rows == [t1, t3];
    assert store.rows[1..] == [t3];
    added := store.AddTask("Write docs");
  }

  /** Ids are not reserved: after the row with the largest id is deleted,
      the next row added receives that id again. */
  method ReuseScenario() returns (removed: Task, added: Task)
    ensures removed.id == 2 && added.id == 2
  {
    var store := new TaskStore();
    var t1 := store.AddTask("Write tests");
    removed := store.AddTask("Fix bugs");
    assert store.rows == [t1, removed] && [t1, removed][1..] == [removed] && [removed][1..] == [];
    var deleted := store.DeleteTask(removed.id);
    assert WithoutId([removed], 2) == [];
    assert store.rows == [t1];
    added := store.AddTask("Write docs");
  }
}
