/**
 * The task table of backend/database.py as an in-memory store.
 *
 * The SQLite table is a sequence of rows in rowid order. A new row gets
 * the id one larger than the largest id in the table, or 1 when the table
 * is empty: what SQLite does for an `INTEGER PRIMARY KEY` column declared
 * without AUTOINCREMENT. Every row is appended at the end, so the rows stay
 * in increasing id order, which is the order a full table scan returns.
 */
module Database {
  import opened Tasks

  /** The largest id in `rows`, or 0 when there is none. */
  function MaxId(rows: seq<Task>): (m: int)
    ensures m >= 0
    ensures forall i :: 0 <= i < |rows| ==> rows[i].id <= m
    ensures m == 0 || exists i :: 0 <= i < |rows| && rows[i].id == m
  {
    if rows == [] then 0
    else
      var rest := MaxId(rows[1..]);
      if rows[0].id > rest then rows[0].id else rest
  }

  /** The id SQLite assigns to the next inserted row. */
  function NextId(rows: seq<Task>): (id: int)
    ensures id >= 1
    ensures !HasId(rows, id)
  {
    MaxId(rows) + 1
  }

  /** The index of the first row whose id is `id`, as `.filter(Task.id == id).first()` finds it. */
  function Find(rows: seq<Task>, id: int): (k: Option<nat>)
    ensures k.None? <==> !HasId(rows, id)
    ensures k.Some? ==> k.value < |rows| && rows[k.value].id == id
    ensures k.Some? ==> forall j :: 0 <= j < k.value ==> rows[j].id != id
  {
    if rows == [] then None
    else if rows[0].id == id then Some(0)
    else
      match Find(rows[1..], id)
      case None => None
      case Some(j) => Some(j + 1)
  }

  /** The table invariant: ids are positive and strictly increase along the rows. */
  predicate IdsAscending(rows: seq<Task>)
  {
    (forall i :: 0 <= i < |rows| ==> rows[i].id >= 1) &&
    (forall i, j :: 0 <= i < j < |rows| ==> rows[i].id < rows[j].id)
  }

  /** The table after every row with id `id` is set completed. */
  function MarkedComplete(rows: seq<Task>, id: int): (r: seq<Task>)
  {
    seq(|rows|, i requires 0 <= i < |rows| =>
      if rows[i].id == id then rows[i].(completed := true) else rows[i])
  }

  /** The table after every row with id `id` is removed. */
  function WithoutId(rows: seq<Task>, id: int): (r: seq<Task>)
  {
    if rows == [] then []
    else (if rows[0].id == id then [] else [rows[0]]) + WithoutId(rows[1..], id)
  }

  /** A task survives removal iff it was in the table and has another id. */
  lemma {:induction false} WithoutIdMembers(rows: seq<Task>, id: int, t: Task)
    ensures t in WithoutId(rows, id) <==> t in rows && t.id != id
  {
    if rows != [] {
      WithoutIdMembers(rows[1..], id, t);
      assert rows == [rows[0]] + rows[1..];
    }
  }

  /** Marking sets `completed` on exactly the rows with that id and changes nothing else. */
  lemma MarkedCompleteRows(rows: seq<Task>, id: int)
    ensures |MarkedComplete(rows, id)| == |rows|
    ensures forall i :: 0 <= i < |rows| && rows[i].id == id ==>
      MarkedComplete(rows, id)[i] == Task(id, rows[i].title, rows[i].priority, true)
    ensures forall i :: 0 <= i < |rows| && rows[i].id != id ==>
      MarkedComplete(rows, id)[i] == rows[i]
  {
  }

  /** Marking an id that no row carries leaves the table as it was. */
  lemma MarkedCompleteAbsent(rows: seq<Task>, id: int)
    requires !HasId(rows, id)
    ensures MarkedComplete(rows, id) == rows
  {
    assert forall i :: 0 <= i < |rows| ==> MarkedComplete(rows, id)[i] == rows[i];
  }

  /** Marking twice has the effect of marking once. */
  lemma MarkedCompleteIdempotent(rows: seq<Task>, id: int)
    ensures MarkedComplete(MarkedComplete(rows, id), id) == MarkedComplete(rows, id)
  {
  }

  /** Marking keeps the ids where they were, so it keeps the table invariant. */
  lemma MarkedCompleteKeepsIds(rows: seq<Task>, id: int)
    requires IdsAscending(rows)
    ensures IdsAscending(MarkedComplete(rows, id))
  {
  }

  /** Removing an id no row carries leaves the table as it was. */
  lemma {:induction false} WithoutAbsentId(rows: seq<Task>, id: int)
    requires !HasId(rows, id)
    ensures WithoutId(rows, id) == rows
  {
    if rows != [] {
      assert !HasId(rows[1..], id) by {
        forall i | 0 <= i < |rows[1..]| ensures rows[1..][i].id != id {
          assert rows[1..][i] == rows[i + 1];
        }
      }
      WithoutAbsentId(rows[1..], id);
      assert rows == [rows[0]] + rows[1..];
    }
  }

  /** The rows after the first of an ascending table are ascending and
      none of them repeats the first row's id. */
  lemma AscendingTail(rows: seq<Task>)
    requires IdsAscending(rows)
    requires rows != []
    ensures IdsAscending(rows[1..])
    ensures !HasId(rows[1..], rows[0].id)
  {
    assert forall i :: 0 <= i < |rows[1..]| ==> rows[1..][i] == rows[i + 1];
  }

  /** Removal distributes over concatenation. */
  lemma {:induction false} WithoutIdAppend(a: seq<Task>, b: seq<Task>, id: int)
    ensures WithoutId(a + b, id) == WithoutId(a, id) + WithoutId(b, id)
  {
    if a != [] {
      var head := if a[0].id == id then [] else [a[0]];
      assert (a + b)[0] == a[0] && (a + b)[1..] == a[1..] + b;
      WithoutIdAppend(a[1..], b, id);
      calc {
        WithoutId(a + b, id);
        head + WithoutId(a[1..] + b, id);
        head + (WithoutId(a[1..], id) + WithoutId(b, id));
        (head + WithoutId(a[1..], id)) + WithoutId(b, id);
      }
    } else {
      assert a + b == b;
    }
  }

  /** Removing the id of a row that no other row shares removes that row alone. */
  lemma WithoutOnly(before: seq<Task>, x: Task, after: seq<Task>)
    requires !HasId(before, x.id) && !HasId(after, x.id)
    ensures WithoutId(before + ([x] + after), x.id) == before + after
  {
    var id := x.id;
    WithoutIdAppend(before, [x] + after, id);
    WithoutIdAppend([x], after, id);
    WithoutAbsentId(before, id);
    WithoutAbsentId(after, id);
    assert WithoutId([x], id) == [];
    assert [] + after == after;
  }

  /** No row before or after row k of an ascending table carries its id. */
  lemma AscendingAround(rows: seq<Task>, k: nat)
    requires IdsAscending(rows)
    requires k < |rows|
    ensures !HasId(rows[..k], rows[k].id) && !HasId(rows[k + 1..], rows[k].id)
  {
    var before, after := rows[..k], rows[k + 1..];
    forall i | 0 <= i < |before| ensures before[i].id != rows[k].id {
      assert before[i] == rows[i];
    }
    forall i | 0 <= i < |after| ensures after[i].id != rows[k].id {
      assert after[i] == rows[k + 1 + i];
    }
  }

  /** A regrouping step: a sequence is its prefix, its element k and its suffix. */
  lemma SplitAt(rows: seq<Task>, k: nat)
    requires k < |rows|
    ensures rows == rows[..k] + ([rows[k]] + rows[k + 1..])
  {
  }

  /** In a table with unique ids, removing the id of row k removes that row alone. */
  lemma WithoutIdAt(rows: seq<Task>, k: nat)
    requires IdsAscending(rows)
    requires k < |rows|
    ensures WithoutId(rows, rows[k].id) == rows[..k] + rows[k + 1..]
  {
    AscendingAround(rows, k);
    SplitAt(rows, k);
    WithoutOnly(rows[..k], rows[k], rows[k + 1..]);
  }

  /** Removing a present id shortens a table with unique ids by exactly one row. */
  lemma WithoutPresentIdLength(rows: seq<Task>, id: int)
    requires IdsAscending(rows)
    requires HasId(rows, id)
    ensures |WithoutId(rows, id)| == |rows| - 1
  {
    var k :| 0 <= k < |rows| && rows[k].id == id;
    WithoutIdAt(rows, k);
  }

  /** Removing rows keeps the ids positive and ascending. */
  lemma {:induction false} WithoutIdKeepsIds(rows: seq<Task>, id: int)
    requires IdsAscending(rows)
    ensures IdsAscending(WithoutId(rows, id))
  {
    if rows != [] {
      AscendingTail(rows);
      WithoutIdKeepsIds(rows[1..], id);
      var rest := WithoutId(rows[1..], id);
      forall j | 0 <= j < |rest| ensures rows[0].id < rest[j].id {
        WithoutIdMembers(rows[1..], id, rest[j]);
      }
    }
  }

  /** The tasks table of backend/database.py. */
  class TaskStore {
    /** The rows of the table, in rowid order. */
    var rows: seq<Task>

    ghost predicate Valid()
      reads this
    {
      IdsAscending(rows)
    }

    /** An empty table, as `create_all` makes it on a fresh database. */
    constructor ()
      ensures Valid()
      ensures rows == []
    {
      rows := [];
    }

    /** `add_task`: inserts a row with a fresh id, the given title and
        priority, not completed, and returns it as stored. */
    method AddTask(title: string, priority: int := DefaultPriority) returns (task: Task)
      requires Valid()
      modifies this
      ensures Valid()
      ensures task == Task(NextId(old(rows)), title, priority, false)
      ensures !HasId(old(rows), task.id)
      ensures rows == old(rows) + [task]
    {
      task := Task(NextId(rows), title, priority, false);
      rows := rows + [task];
    }

    /** `get_all_tasks`: every row, in table order; the table is not changed. */
    method GetAllTasks() returns (tasks: seq<Task>)
      requires Valid()
      ensures tasks == rows
      ensures forall i, j :: 0 <= i < j < |tasks| ==> tasks[i].id != tasks[j].id
    {
      tasks := rows;
    }

    /** `mark_task_complete`: sets `completed` on the row with that id;
        an unknown id changes nothing and is not an error. */
    method MarkTaskComplete(id: int)
      requires Valid()
      modifies this
      ensures Valid()
      ensures rows == MarkedComplete(old(rows), id)
      ensures !HasId(old(rows), id) ==> rows == old(rows)
    {
      match Find(rows, id)
      case None =>
        MarkedCompleteAbsent(rows, id);
      case Some(k) =>
        ghost var before := rows;
        rows := rows[k := rows[k].(completed := true)];
        assert rows == MarkedComplete(before, id) by {
          forall i | 0 <= i < |before| ensures rows[i] == MarkedComplete(before, id)[i] {
            if i != k {
              assert before[i].id != before[k].id;
            }
          }
        }
        MarkedCompleteKeepsIds(before, id);
    }

    /** `delete_task`: removes the row with that id and answers true, or
        answers false and changes nothing when no row has it. */
    method DeleteTask(id: int) returns (deleted: bool)
      requires Valid()
      modifies this
      ensures Valid()
      ensures deleted == HasId(old(rows), id)
      ensures rows == WithoutId(old(rows), id)
      ensures deleted ==> |rows| == |old(rows)| - 1
      ensures !deleted ==> rows == old(rows)
    {
      ghost var before := rows;
      match Find(rows, id)
      case None =>
        WithoutAbsentId(rows, id);
        deleted := false;
      case Some(k) =>
        WithoutIdAt(rows, k);
        WithoutIdKeepsIds(rows, id);
        rows := rows[..k] + rows[k + 1..];
        deleted := true;
    }
  }
}
