/**
 * The view helpers of backend/utils.py: pure functions over a sequence of
 * tasks that filter, sort and render it for display.
 */
module Utils {
  import opened Tasks
  import opened TaskText

  // ---------------------------------------------------------------------
  // filter_tasks
  // ---------------------------------------------------------------------

  /** The test `filter_tasks` applies to each task: an absent criterion accepts everything. */
  predicate Matches(t: Task, status: Option<bool>, priority: Option<int>)
  {
    (status.None? || t.completed == status.value) &&
    (priority.None? || t.priority == priority.value)
  }

  /** `filter_tasks(tasks, status, priority)`: the tasks that match, in input order. */
  function FilterTasks(tasks: seq<Task>, status: Option<bool> := None, priority: Option<int> := None): (r: seq<Task>)
    ensures |r| <= |tasks|
    ensures forall t :: t in r <==> t in tasks && Matches(t, status, priority)
  {
    if tasks == [] then []
    else
      (if Matches(tasks[0], status, priority) then [tasks[0]] else []) +
      FilterTasks(tasks[1..], status, priority)
  }

  /** `xs` is `ys` with some elements dropped and the rest in their original order. */
  predicate IsSubsequence<T(==)>(xs: seq<T>, ys: seq<T>)
    decreases |ys|
  {
    xs == [] ||
    (ys != [] &&
     ((xs[0] == ys[0] && IsSubsequence(xs[1..], ys[1..])) || IsSubsequence(xs, ys[1..])))
  }

  /** Filtering keeps the relative order of the tasks it keeps. */
  lemma {:induction false} FilterIsSubsequence(tasks: seq<Task>, status: Option<bool>, priority: Option<int>)
    ensures IsSubsequence(FilterTasks(tasks, status, priority), tasks)
  {
    if tasks != [] {
      FilterIsSubsequence(tasks[1..], status, priority);
      var rest := FilterTasks(tasks[1..], status, priority);
      var r := FilterTasks(tasks, status, priority);
      if Matches(tasks[0], status, priority) {
        assert r == [tasks[0]] + rest;
        assert r[0] == tasks[0] && r[1..] == rest;
        assert IsSubsequence(r[1..], tasks[1..]);
      } else {
        assert r == rest;
        assert IsSubsequence(r, tasks[1..]);
      }
    }
  }

  /** Every matching task is kept as many times as it occurs; no other task is kept. */
  lemma {:induction false} FilterMultiplicity(tasks: seq<Task>, status: Option<bool>, priority: Option<int>, t: Task)
    ensures multiset(FilterTasks(tasks, status, priority))[t] ==
      if Matches(t, status, priority) then multiset(tasks)[t] else 0
  {
    if tasks != [] {
      FilterMultiplicity(tasks[1..], status, priority, t);
      var head := if Matches(tasks[0], status, priority) then [tasks[0]] else [];
      assert FilterTasks(tasks, status, priority) == head + FilterTasks(tasks[1..], status, priority);
      assert tasks == [tasks[0]] + tasks[1..];
      assert multiset(tasks) == multiset{tasks[0]} + multiset(tasks[1..]);
    }
  }

  /** A sequence whose tasks all match comes through the filter unchanged. */
  lemma {:induction false} FilterAllMatching(tasks: seq<Task>, status: Option<bool>, priority: Option<int>)
    requires forall i :: 0 <= i < |tasks| ==> Matches(tasks[i], status, priority)
    ensures FilterTasks(tasks, status, priority) == tasks
  {
    if tasks != [] {
      FilterAllMatching(tasks[1..], status, priority);
      assert tasks == [tasks[0]] + tasks[1..];
    }
  }

  /** With neither criterion given, `filter_tasks` returns its input. */
  lemma FilterNoCriteria(tasks: seq<Task>)
    ensures FilterTasks(tasks) == tasks
  {
    FilterAllMatching(tasks, None, None);
  }

  /** Filtering a filtered sequence again with the same criteria changes nothing. */
  lemma FilterIdempotent(tasks: seq<Task>, status: Option<bool>, priority: Option<int>)
    ensures FilterTasks(FilterTasks(tasks, status, priority), status, priority) ==
      FilterTasks(tasks, status, priority)
  {
    var r := FilterTasks(tasks, status, priority);
    assert forall i :: 0 <= i < |r| ==> r[i] in r;
    FilterAllMatching(r, status, priority);
  }

  // ---------------------------------------------------------------------
  // sort_tasks
  // ---------------------------------------------------------------------

  /** The attribute `sort_tasks` sorts by. */
  datatype SortKey = Priority | Title

  /** Python's `a <= b` on str: lexicographic order by code point, a proper
      prefix first. */
  predicate LexLe(a: string, b: string)
  {
    a == [] || (b != [] && (a[0] < b[0] || (a[0] == b[0] && LexLe(a[1..], b[1..]))))
  }

  lemma {:induction false} LexLeReflexive(a: string)
    ensures LexLe(a, a)
  {
    if a != [] {
      LexLeReflexive(a[1..]);
    }
  }

  lemma {:induction false} LexLeTotal(a: string, b: string)
    ensures LexLe(a, b) || LexLe(b, a)
  {
    if a != [] && b != [] && a[0] == b[0] {
      LexLeTotal(a[1..], b[1..]);
    }
  }

  lemma {:induction false} LexLeAntisymmetric(a: string, b: string)
    requires LexLe(a, b) && LexLe(b, a)
    ensures a == b
  {
    if a != [] && b != [] {
      LexLeAntisymmetric(a[1..], b[1..]);
      assert a == [a[0]] + a[1..] && b == [b[0]] + b[1..];
    }
  }

  lemma {:induction false} LexLeTransitive(a: string, b: string, c: string)
    requires LexLe(a, b) && LexLe(b, c)
    ensures LexLe(a, c)
  {
    if a != [] && b != [] && c != [] && a[0] == b[0] && b[0] == c[0] {
      LexLeTransitive(a[1..], b[1..], c[1..]);
    }
  }

  /** `getattr(x, key) <= getattr(y, key)`. */
  predicate KeyLe(x: Task, y: Task, key: SortKey)
  {
    match key
    case Priority => x.priority <= y.priority
    case Title => LexLe(x.title, y.title)
  }

  /** `getattr(x, key) == getattr(y, key)`. */
  predicate SameKey(x: Task, y: Task, key: SortKey)
  {
    match key
    case Priority => x.priority == y.priority
    case Title => x.title == y.title
  }

  /** `x` may stand before `y` in the output: ascending keys, or descending
      ones when `reverse` is set. */
  predicate InOrder(x: Task, y: Task, key: SortKey, reverse: bool)
  {
    if reverse then KeyLe(y, x, key) else KeyLe(x, y, key)
  }

  lemma InOrderTotal(x: Task, y: Task, key: SortKey, reverse: bool)
    ensures InOrder(x, y, key, reverse) || InOrder(y, x, key, reverse)
  {
    if key == Title {
      LexLeTotal(x.title, y.title);
    }
  }

  lemma InOrderTransitive(x: Task, y: Task, z: Task, key: SortKey, reverse: bool)
    requires InOrder(x, y, key, reverse) && InOrder(y, z, key, reverse)
    ensures InOrder(x, z, key, reverse)
  {
    if key == Title {
      if reverse {
        LexLeTransitive(z.title, y.title, x.title);
      } else {
        LexLeTransitive(x.title, y.title, z.title);
      }
    }
  }

  /** Two tasks are in order both ways exactly when their keys are equal. */
  lemma InOrderBothWays(x: Task, y: Task, key: SortKey, reverse: bool)
    ensures InOrder(x, y, key, reverse) && InOrder(y, x, key, reverse) <==> SameKey(x, y, key)
  {
    if key == Title {
      if LexLe(x.title, y.title) && LexLe(y.title, x.title) {
        LexLeAntisymmetric(x.title, y.title);
      }
      LexLeReflexive(x.title);
    }
  }

  /** Every task stands in order before every later one. */
  predicate Sorted(s: seq<Task>, key: SortKey, reverse: bool)
  {
    forall i, j :: 0 <= i < j < |s| ==> InOrder(s[i], s[j], key, reverse)
  }

  /** The tasks of `s` whose key equals that of `t`, in the order of `s`. */
  function KeyClass(s: seq<Task>, t: Task, key: SortKey): (r: seq<Task>)
  {
    if s == [] then []
    else (if SameKey(s[0], t, key) then [s[0]] else []) + KeyClass(s[1..], t, key)
  }

  /** A key class holds tasks of the sequence, and only ones with the given key. */
  lemma {:induction false} KeyClassMembers(s: seq<Task>, t: Task, key: SortKey, x: Task)
    requires x in KeyClass(s, t, key)
    ensures x in s && SameKey(x, t, key)
  {
    if s != [] && !(x == s[0] && SameKey(x, t, key)) {
      KeyClassMembers(s[1..], t, key, x);
    }
  }

  /** Places `x` before the first task of `ys` it may precede, hence ahead of
      every task with the same key (`x` is earlier in the input, so this keeps
      the sort stable). */
  function Insert(x: Task, ys: seq<Task>, key: SortKey, reverse: bool): (r: seq<Task>)
    ensures |r| == |ys| + 1
    ensures multiset(r) == multiset(ys) + multiset{x}
  {
    if ys == [] then [x]
    else if InOrder(x, ys[0], key, reverse) then [x] + ys
    else
      assert ys == [ys[0]] + ys[1..];
      [ys[0]] + Insert(x, ys[1..], key, reverse)
  }

  /** `sorted(tasks, key=lambda task: getattr(task, key), reverse=reverse)`,
      given by a stable insertion sort; `SortTasksIsTheStableSort` shows that
      every stable sort returns this same sequence. */
  function SortTasks(tasks: seq<Task>, key: SortKey := Priority, reverse: bool := false): (r: seq<Task>)
    ensures |r| == |tasks|
    ensures multiset(r) == multiset(tasks)
  {
    if tasks == [] then []
    else
      assert tasks == [tasks[0]] + tasks[1..];
      Insert(tasks[0], SortTasks(tasks[1..], key, reverse), key, reverse)
  }

  /** A task in order with every element of a sorted sequence can lead it. */
  lemma SortedCons(h: Task, rest: seq<Task>, key: SortKey, reverse: bool)
    requires Sorted(rest, key, reverse)
    requires forall j :: 0 <= j < |rest| ==> InOrder(h, rest[j], key, reverse)
    ensures Sorted([h] + rest, key, reverse)
  {
    var r := [h] + rest;
    forall i, j | 0 <= i < j < |r| ensures InOrder(r[i], r[j], key, reverse) {
      assert r[j] == rest[j - 1];
      if i > 0 {
        assert r[i] == rest[i - 1];
      }
    }
  }

  lemma {:induction false} InsertSorted(x: Task, ys: seq<Task>, key: SortKey, reverse: bool)
    requires Sorted(ys, key, reverse)
    ensures Sorted(Insert(x, ys, key, reverse), key, reverse)
  {
    if ys != [] {
      if InOrder(x, ys[0], key, reverse) {
        forall j | 0 <= j < |ys| ensures InOrder(x, ys[j], key, reverse) {
          if j > 0 {
            InOrderTransitive(x, ys[0], ys[j], key, reverse);
          }
        }
        SortedCons(x, ys, key, reverse);
      } else {
        var tail := ys[1..];
        SortedTail(ys, key, reverse);
        InsertSorted(x, tail, key, reverse);
        var rest := Insert(x, tail, key, reverse);
        InOrderTotal(x, ys[0], key, reverse);
        forall j | 0 <= j < |rest| ensures InOrder(ys[0], rest[j], key, reverse) {
          assert rest[j] in multiset(rest);
          if rest[j] != x {
            var i :| 0 <= i < |tail| && tail[i] == rest[j];
            assert tail[i] == ys[i + 1];
          }
        }
        SortedCons(ys[0], rest, key, reverse);
      }
    }
  }

  /** The output of `sort_tasks` is ordered by the key: non-decreasing, or
      non-increasing when `reverse` is set. */
  lemma {:induction false} SortTasksSorted(tasks: seq<Task>, key: SortKey, reverse: bool)
    ensures Sorted(SortTasks(tasks, key, reverse), key, reverse)
  {
    if tasks != [] {
      SortTasksSorted(tasks[1..], key, reverse);
      InsertSorted(tasks[0], SortTasks(tasks[1..], key, reverse), key, reverse);
    }
  }

  /** Inserting `x` puts it ahead of the tasks whose key equals its own. */
  lemma {:induction false} InsertKeyClass(x: Task, ys: seq<Task>, t: Task, key: SortKey, reverse: bool)
    ensures KeyClass(Insert(x, ys, key, reverse), t, key) ==
      (if SameKey(x, t, key) then [x] else []) + KeyClass(ys, t, key)
  {
    if ys == [] {
    } else if InOrder(x, ys[0], key, reverse) {
      assert ([x] + ys)[1..] == ys;
    } else {
      var y := ys[0];
      var rest := Insert(x, ys[1..], key, reverse);
      var hx := if SameKey(x, t, key) then [x] else [];
      var hy := if SameKey(y, t, key) then [y] else [];
      if SameKey(x, t, key) && SameKey(y, t, key) {
        InOrderBothWays(x, y, key, reverse);
        assert false;
      }
      assert ([y] + rest)[1..] == rest;
      InsertKeyClass(x, ys[1..], t, key, reverse);
      assert KeyClass(Insert(x, ys, key, reverse), t, key) == hy + KeyClass(rest, t, key);
      assert KeyClass(rest, t, key) == hx + KeyClass(ys[1..], t, key);
      assert KeyClass(ys, t, key) == hy + KeyClass(ys[1..], t, key);
      HeadsCommute(hx, hy, KeyClass(ys[1..], t, key));
    }
  }

  /** A regrouping step: an empty head commutes with any other head. */
  lemma HeadsCommute(hx: seq<Task>, hy: seq<Task>, s: seq<Task>)
    requires hx == [] || hy == []
    ensures hy + (hx + s) == hx + (hy + s)
  {
  }

  /** `sort_tasks` is stable: the tasks sharing any one key value come out
      in the order they went in, for either direction. */
  lemma {:induction false} SortTasksStable(tasks: seq<Task>, key: SortKey, reverse: bool, t: Task)
    ensures KeyClass(SortTasks(tasks, key, reverse), t, key) == KeyClass(tasks, t, key)
  {
    if tasks != [] {
      SortTasksStable(tasks[1..], key, reverse, t);
      InsertKeyClass(tasks[0], SortTasks(tasks[1..], key, reverse), t, key, reverse);
    }
  }

  /** A sequence sorted by the key, whose key classes are given, is determined. */
  lemma {:induction false} SortedByKeyClassesUnique(r1: seq<Task>, r2: seq<Task>, key: SortKey, reverse: bool)
    requires Sorted(r1, key, reverse) && Sorted(r2, key, reverse)
    requires forall t :: KeyClass(r1, t, key) == KeyClass(r2, t, key)
    ensures r1 == r2
    decreases |r1|
  {
    if r1 != [] {
      assert r1[0] in KeyClass(r1, r1[0], key);
      assert KeyClass(r2, r1[0], key) == KeyClass(r1, r1[0], key);
    }
    if r2 != [] {
      assert r2[0] in KeyClass(r2, r2[0], key);
      assert KeyClass(r1, r2[0], key) == KeyClass(r2, r2[0], key);
    }
    if r1 != [] && r2 != [] {
      var a, b := r1[0], r2[0];
      InOrderBothWays(a, a, key, reverse);
      InOrderBothWays(b, b, key, reverse);
      var c1, c2 := KeyClass(r1, a, key), KeyClass(r2, b, key);
      assert c1 == [a] + KeyClass(r1[1..], a, key);
      assert c2 == [b] + KeyClass(r2[1..], b, key);
      assert KeyClass(r2, a, key) == c1 && KeyClass(r1, b, key) == c2;
      assert a in KeyClass(r2, a, key);
      LeadsItsClass(r2, a, key, reverse, KeyClass(r2, a, key));
      LeadsItsClass(r1, b, key, reverse, KeyClass(r1, b, key));
      assert InOrder(b, a, key, reverse) && InOrder(a, b, key, reverse);
      InOrderBothWays(a, b, key, reverse);
      assert SameKey(b, a, key);
      assert KeyClass(r2, a, key) == [b] + KeyClass(r2[1..], a, key);
      assert c1[0] == a && KeyClass(r2, a, key)[0] == b;
      var t1, t2 := r1[1..], r2[1..];
      forall t ensures KeyClass(t1, t, key) == KeyClass(t2, t, key) {
        var head := if SameKey(a, t, key) then [a] else [];
        assert KeyClass(r1, t, key) == head + KeyClass(t1, t, key);
        assert KeyClass(r2, t, key) == head + KeyClass(t2, t, key);
        assert KeyClass(r1, t, key) == KeyClass(r2, t, key);
        assert (head + KeyClass(t1, t, key))[|head|..] == KeyClass(t1, t, key);
        assert (head + KeyClass(t2, t, key))[|head|..] == KeyClass(t2, t, key);
      }
      SortedTail(r1, key, reverse);
      SortedTail(r2, key, reverse);
      SortedByKeyClassesUnique(t1, t2, key, reverse);
      assert r1 == [a] + t1 && r2 == [b] + t2;
    }
  }

  /** The head of a sorted sequence is in order before every task of `t`'s
      key class, when that class holds `t`'s own key in the sequence. */
  lemma LeadsItsClass(s: seq<Task>, t: Task, key: SortKey, reverse: bool, cls: seq<Task>)
    requires s != [] && Sorted(s, key, reverse)
    requires cls == KeyClass(s, t, key) && t in cls
    ensures InOrder(s[0], t, key, reverse)
  {
    KeyClassMembers(s, t, key, t);
    var j :| 0 <= j < |s| && s[j] == t;
    if j == 0 {
      InOrderBothWays(t, t, key, reverse);
    }
  }

  lemma SortedTail(s: seq<Task>, key: SortKey, reverse: bool)
    requires s != [] && Sorted(s, key, reverse)
    ensures Sorted(s[1..], key, reverse)
  {
    var tail := s[1..];
    forall i, j | 0 <= i < j < |tail| ensures InOrder(tail[i], tail[j], key, reverse) {
      assert tail[i] == s[i + 1] && tail[j] == s[j + 1];
    }
  }

  /** Any arrangement of `tasks` that is sorted by the key and stable is
      exactly `SortTasks(tasks, key, reverse)`: so the model returns what
      Python's stable `sorted` returns. */
  lemma SortTasksIsTheStableSort(tasks: seq<Task>, r: seq<Task>, key: SortKey, reverse: bool)
    requires Sorted(r, key, reverse)
    requires forall t :: KeyClass(r, t, key) == KeyClass(tasks, t, key)
    ensures r == SortTasks(tasks, key, reverse)
  {
    var s := SortTasks(tasks, key, reverse);
    SortTasksSorted(tasks, key, reverse);
    forall t ensures KeyClass(r, t, key) == KeyClass(s, t, key) {
      SortTasksStable(tasks, key, reverse, t);
    }
    SortedByKeyClassesUnique(r, s, key, reverse);
  }

  // ---------------------------------------------------------------------
  // format_tasks
  // ---------------------------------------------------------------------

  /** One display line: "Task <id>: <title> (Priority: <priority>) - Completed: <True|False>". */
  function FormatTask(t: Task): (line: string)
    ensures |line| >= 5 && line[..5] == "Task "
    ensures |line| > |BoolText(t.completed)|
    ensures line[|line| - |BoolText(t.completed)|..] == BoolText(t.completed)
  {
    "Task " + IntToDecimal(t.id) + ": " + t.title +
    " (Priority: " + IntToDecimal(t.priority) + ") - Completed: " + BoolText(t.completed)
  }

  /** `format_tasks`: the display line of each task, one per task, in order. */
  function FormatTasks(tasks: seq<Task>): (lines: seq<string>)
    ensures |lines| == |tasks|
  {
    seq(|tasks|, i requires 0 <= i < |tasks| => FormatTask(tasks[i]))
  }

  /** The id read back from a display line: its second whitespace-separated
      word with the trailing ':' removed. */
  function LineId(line: string): (id: Option<int>)
  {
    var words := Words(line);
    if |words| >= 2 && words[1][|words[1]| - 1] == ':' then ParseInt(words[1][..|words[1]| - 1])
    else None
  }

  /** The completion flag read back from a display line. */
  function LineCompleted(line: string): (done: bool)
  {
    |line| >= 4 && line[|line| - 4..] == "True"
  }

  /** What follows the id word and its space in the display line of `t`. */
  function LineRest(t: Task): (rest: string)
  {
    t.title + " (Priority: " + IntToDecimal(t.priority) + ") - Completed: " + BoolText(t.completed)
  }

  /** A regrouping step: the display line's pieces, re-associated around the id word. */
  lemma LineRegroup<T>(a1: seq<T>, a2: seq<T>, d: seq<T>, b1: seq<T>, b2: seq<T>,
                       r1: seq<T>, r2: seq<T>, r3: seq<T>, r4: seq<T>, r5: seq<T>)
    ensures (a1 + a2) + d + (b1 + b2) + r1 + r2 + r3 + r4 + r5 ==
            a1 + a2 + ((d + b1) + b2 + (r1 + r2 + r3 + r4 + r5))
  {
  }

  /** A display line is "Task", a space, the id word, a space and the rest. */
  lemma LineShape(t: Task)
    ensures FormatTask(t) == "Task" + [' '] + ((IntToDecimal(t.id) + ":") + [' '] + LineRest(t))
  {
    assert "Task " == "Task" + [' '];
    assert ": " == ":" + [' '];
    LineRegroup("Task", [' '], IntToDecimal(t.id), ":", [' '], t.title, " (Priority: ",
                IntToDecimal(t.priority), ") - Completed: ", BoolText(t.completed));
  }

  /** The second word of a display line is the decimal id immediately
      followed by ':', so `int()` of that word alone fails. */
  lemma FormatTaskIdWord(t: Task)
    ensures |Words(FormatTask(t))| >= 2
    ensures Words(FormatTask(t))[1] == IntToDecimal(t.id) + ":"
    ensures ParseInt(Words(FormatTask(t))[1]) == None
  {
    LineShape(t);
    NumeralColonNoSpace(t.id);
    SecondWord("Task", IntToDecimal(t.id) + ":", LineRest(t));
    ColonSuffixNotInt(IntToDecimal(t.id));
  }

  /** The id of a task can be read back from its display line. */
  lemma FormatTaskIdRoundTrip(t: Task)
    ensures LineId(FormatTask(t)) == Some(t.id)
  {
    FormatTaskIdWord(t);
    var w := IntToDecimal(t.id) + ":";
    assert w[..|w| - 1] == IntToDecimal(t.id);
    IntRoundTrip(t.id);
  }

  /** The completion flag of a task can be read back from its display line. */
  lemma FormatTaskCompletedRoundTrip(t: Task)
    ensures LineCompleted(FormatTask(t)) == t.completed
  {
    var line := FormatTask(t);
    var flag := BoolText(t.completed);
    assert line == ("Task " + IntToDecimal(t.id) + ": " + t.title +
      " (Priority: " + IntToDecimal(t.priority) + ") - Completed: ") + flag;
    assert line[|line| - 4..] == flag[|flag| - 4..];
  }

  /** Line i of `format_tasks` is the line of task i, so each task's id and
      completion flag can be read back from the line at its position. */
  lemma FormatTasksReadBack(tasks: seq<Task>, i: nat)
    requires i < |tasks|
    ensures FormatTasks(tasks)[i] == FormatTask(tasks[i])
    ensures LineId(FormatTasks(tasks)[i]) == Some(tasks[i].id)
    ensures LineCompleted(FormatTasks(tasks)[i]) == tasks[i].completed
  {
    FormatTaskIdRoundTrip(tasks[i]);
    FormatTaskCompletedRoundTrip(tasks[i]);
  }
}
