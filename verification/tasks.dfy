/**
 * The task record shared by the store and the view helpers, and the
 * optional-value wrapper used for the helpers' optional arguments and
 * for lookups that may find nothing.
 */
module Tasks {

  /** Python's `None` or a present value. */
  datatype Option<+T> = None | Some(value: T)

  /** One row of the `tasks` table: integer primary key, non-null title,
      priority (default 1) and completion flag (default false). */
  datatype Task = Task(id: int, title: string, priority: int, completed: bool)

  /** The column default of `priority`. */
  const DefaultPriority: int := 1

  /** True iff some task in `tasks` carries the id `id`. */
  predicate HasId(tasks: seq<Task>, id: int)
  {
    exists i :: 0 <= i < |tasks| && tasks[i].id == id
  }
}
