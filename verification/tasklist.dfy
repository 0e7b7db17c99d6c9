/** The ordered list of tasks with its one-step undo slot, and keyword
    search over task names. */
module TaskLists {
  import opened Results
  import opened JavaString
  import Tasks

  type Task = Tasks.Task

  /** The last mutation, remembered so that it can be reversed once: the
      task appended, the task removed with the position it had, or the
      position marked or unmarked. */
  datatype UndoRecord =
    | Added(task: Task)
    | Deleted(task: Task, index: nat)
    | Marked(index: nat)
    | Unmarked(index: nat)

  /** The tasks in order, and the undo slot (None when there is nothing to
      undo). */
  datatype TaskList = TaskList(tasks: seq<Task>, last: Option<UndoRecord>)

  /** The list after an operation, and what the operation returned. */
  datatype Step<+T> = Step(list: TaskList, result: Result<T>)

  const OutOfRange: string := "OOPS! Task number is out of range!"
  const NothingToUndo: string := "Nothing to undo!"

  /** The undo slot describes a mutation that can still be reversed against
      the current tasks: an appended task is still last, a re-insertion
      position is at most the length, a marked or unmarked position is an
      index. Every operation keeps this. */
  predicate Valid(l: TaskList) {
    match l.last
    case None => true
    case Some(Added(t)) => |l.tasks| > 0 && l.tasks[|l.tasks| - 1] == t
    case Some(Deleted(_, i)) => i <= |l.tasks|
    case Some(Marked(i)) => i < |l.tasks|
    case Some(Unmarked(i)) => i < |l.tasks|
  }

  /** A list holding the given tasks, with nothing to undo. */
  function FromTasks(ts: seq<Task>): (l: TaskList)
    ensures l.tasks == ts && l.last == None && Valid(l)
  {
    TaskList(ts, None)
  }

  function Size(l: TaskList): nat
  {
    |l.tasks|
  }

  /** Accepts exactly the 0-based positions of the list. */
  function ValidateIndex(l: TaskList, index: int): (r: Result<nat>)
    ensures r.Ok? <==> 0 <= index < Size(l)
    ensures r.Ok? ==> r.value == index
    ensures r.Err? ==> r.error == Failure(OutOfRange)
  {
    if index < 0 || index >= |l.tasks| then Err(Failure(OutOfRange)) else Ok(index)
  }

  /** The list with the position i left out. */
  function RemoveAt(ts: seq<Task>, i: nat): (r: seq<Task>)
    requires i < |ts|
    ensures |r| == |ts| - 1
    ensures forall j :: 0 <= j < i ==> r[j] == ts[j]
    ensures forall j :: i <= j < |r| ==> r[j] == ts[j + 1]
  {
    ts[..i] + ts[i + 1..]
  }

  /** The list with t placed at position i, later tasks moving up one. */
  function InsertAt(ts: seq<Task>, i: nat, t: Task): (r: seq<Task>)
    requires i <= |ts|
    ensures |r| == |ts| + 1 && r[i] == t
    ensures forall j :: 0 <= j < i ==> r[j] == ts[j]
    ensures forall j :: i < j < |r| ==> r[j] == ts[j - 1]
  {
    ts[..i] + [t] + ts[i..]
  }

  /** Putting back the task removed at i restores the list. */
  lemma InsertRemoved(ts: seq<Task>, i: nat)
    requires i < |ts|
    ensures InsertAt(RemoveAt(ts, i), i, ts[i]) == ts
  {
    var r := InsertAt(RemoveAt(ts, i), i, ts[i]);
    assert forall j :: 0 <= j < |ts| ==> r[j] == ts[j];
  }

  // --------------------------------------------------------- operations

  /** Appends a task; adding never fails. */
  function Add(l: TaskList, t: Task): (s: Step<()>)
    ensures s.result.Ok? && Valid(s.list)
    ensures s.list.tasks == l.tasks + [t]
    ensures Size(s.list) == Size(l) + 1
  {
    Step(TaskList(l.tasks + [t], Some(Added(t))), Ok(()))
  }

  /** Removes and returns the task at a position; a position outside the
      list is an error that changes nothing. */
  function Delete(l: TaskList, index: int): (s: Step<Task>)
    ensures s.result.Ok? <==> 0 <= index < Size(l)
    ensures s.result.Err? ==> s.list == l && s.result.error == Failure(OutOfRange)
    ensures s.result.Ok? ==>
              && s.result.value == l.tasks[index]
              && Size(s.list) == Size(l) - 1
              && (forall j :: 0 <= j < index ==> s.list.tasks[j] == l.tasks[j])
              && (forall j :: index <= j < Size(s.list) ==> s.list.tasks[j] == l.tasks[j + 1])
    ensures Valid(l) ==> Valid(s.list)
  {
    match ValidateIndex(l, index)
    case Err(e) => Step(l, Err(e))
    case Ok(i) => Step(TaskList(RemoveAt(l.tasks, i), Some(Deleted(l.tasks[i], i))), Ok(l.tasks[i]))
  }

  /** The task at a position, or an error for a position outside the list. */
  function Get(l: TaskList, index: int): (r: Result<Task>)
    ensures r.Ok? <==> 0 <= index < Size(l)
    ensures r.Ok? ==> r.value == l.tasks[index]
    ensures r.Err? ==> r.error == Failure(OutOfRange)
  {
    match ValidateIndex(l, index)
    case Err(e) => Err(e)
    case Ok(i) => Ok(l.tasks[i])
  }

  /** Marks the task at a position as done, leaving every other task as it
      was; a position outside the list is an error that changes nothing. */
  function Mark(l: TaskList, index: int): (s: Step<()>)
    ensures s.result.Ok? <==> 0 <= index < Size(l)
    ensures s.result.Err? ==> s.list == l && s.result.error == Failure(OutOfRange)
    ensures s.result.Ok? ==>
              && Size(s.list) == Size(l)
              && s.list.tasks[index].done
              && Tasks.SameContent(s.list.tasks[index], l.tasks[index])
              && (forall j :: 0 <= j < Size(l) && j != index ==> s.list.tasks[j] == l.tasks[j])
    ensures Valid(l) ==> Valid(s.list)
  {
    match ValidateIndex(l, index)
    case Err(e) => Step(l, Err(e))
    case Ok(i) => Step(TaskList(l.tasks[i := Tasks.Mark(l.tasks[i])], Some(Marked(i))), Ok(()))
  }

  /** Marks the task at a position as not done, leaving every other task as
      it was; a position outside the list is an error that changes nothing. */
  function Unmark(l: TaskList, index: int): (s: Step<()>)
    ensures s.result.Ok? <==> 0 <= index < Size(l)
    ensures s.result.Err? ==> s.list == l && s.result.error == Failure(OutOfRange)
    ensures s.result.Ok? ==>
              && Size(s.list) == Size(l)
              && !s.list.tasks[index].done
              && Tasks.SameContent(s.list.tasks[index], l.tasks[index])
              && (forall j :: 0 <= j < Size(l) && j != index ==> s.list.tasks[j] == l.tasks[j])
    ensures Valid(l) ==> Valid(s.list)
  {
    match ValidateIndex(l, index)
    case Err(e) => Step(l, Err(e))
    case Ok(i) => Step(TaskList(l.tasks[i := Tasks.Unmark(l.tasks[i])], Some(Unmarked(i))), Ok(()))
  }

  /** Reverses the last mutation and empties the undo slot; with nothing to
      undo it is an error that changes nothing. An undone mark leaves the
      task not done and an undone unmark leaves it done, whatever it was
      before. */
  function Undo(l: TaskList): (s: Step<()>)
    requires Valid(l)
    ensures s.result.Ok? <==> l.last.Some?
    ensures s.result.Err? ==> s.list == l && s.result.error == Failure(NothingToUndo)
    ensures s.result.Ok? ==> s.list.last == None
    ensures Valid(s.list)
  {
    match l.last
    case None => Step(l, Err(Failure(NothingToUndo)))
    case Some(record) =>
      var ts := l.tasks;
      var restored := match record
        case Added(_) => ts[..|ts| - 1]
        case Deleted(t, i) => InsertAt(ts, i, t)
        case Marked(i) => ts[i := Tasks.Unmark(ts[i])]
        case Unmarked(i) => ts[i := Tasks.Mark(ts[i])];
      Step(TaskList(restored, None), Ok(()))
  }

  // ------------------------------------------------------ undo round trips

  /** Undoing an addition gives back the tasks from before it. */
  lemma AddThenUndo(l: TaskList, t: Task)
    ensures Undo(Add(l, t).list) == Step(TaskList(l.tasks, None), Ok(()))
  {
    assert (l.tasks + [t])[..|l.tasks|] == l.tasks;
  }

  /** Undoing a deletion puts the task back where it was. */
  lemma DeleteThenUndo(l: TaskList, index: int)
    requires 0 <= index < Size(l)
    ensures Undo(Delete(l, index).list) == Step(TaskList(l.tasks, None), Ok(()))
  {
    InsertRemoved(l.tasks, index);
  }

  /** Undoing a mark leaves the task not done; the tasks from before come
      back exactly when it was not done before. */
  lemma MarkThenUndo(l: TaskList, index: int)
    requires 0 <= index < Size(l)
    ensures Undo(Mark(l, index).list).list.tasks == l.tasks[index := Tasks.Unmark(l.tasks[index])]
    ensures Undo(Mark(l, index).list).list.tasks == l.tasks <==> !l.tasks[index].done
  {
    var t := l.tasks[index];
    if Undo(Mark(l, index).list).list.tasks == l.tasks {
      assert l.tasks[index] == Tasks.Unmark(t);
    }
  }

  /** Undoing an unmark leaves the task done; the tasks from before come
      back exactly when it was done before. */
  lemma UnmarkThenUndo(l: TaskList, index: int)
    requires 0 <= index < Size(l)
    ensures Undo(Unmark(l, index).list).list.tasks == l.tasks[index := Tasks.Mark(l.tasks[index])]
    ensures Undo(Unmark(l, index).list).list.tasks == l.tasks <==> l.tasks[index].done
  {
    var t := l.tasks[index];
    if Undo(Unmark(l, index).list).list.tasks == l.tasks {
      assert l.tasks[index] == Tasks.Mark(t);
    }
  }

  /** Only one step can be undone: a second undo reports that there is
      nothing to undo and changes nothing. */
  lemma UndoTwice(l: TaskList)
    requires Valid(l)
    ensures var once := Undo(l).list;
            Undo(once) == Step(once, Err(Failure(NothingToUndo)))
  {
  }

  // ---------------------------------------------------------------- find

  /** The lower-cased name of t holds the lower-cased keyword. */
  predicate NameMatches(t: Task, keyword: string) {
    Contains(ToLower(t.name), ToLower(keyword))
  }

  /** The tasks whose names match the keyword, in list order. */
  function Matching(ts: seq<Task>, keyword: string): (r: seq<Task>)
    ensures |r| <= |ts|
    ensures forall t :: t in r <==> t in ts && NameMatches(t, keyword)
  {
    if ts == [] then []
    else
      var rest := Matching(ts[1..], keyword);
      if NameMatches(ts[0], keyword) then [ts[0]] + rest else rest
  }

  /** Filtering a concatenation filters each part. */
  lemma {:induction false} MatchingAppend(a: seq<Task>, b: seq<Task>, keyword: string)
    ensures Matching(a + b, keyword) == Matching(a, keyword) + Matching(b, keyword)
  {
    if a == [] {
      assert a + b == b;
    } else {
      assert (a + b)[0] == a[0];
      assert (a + b)[1..] == a[1..] + b;
      MatchingAppend(a[1..], b, keyword);
    }
  }

  /** Lower-casing is idempotent, so the match is case-insensitive in the
      keyword. */
  lemma MatchingIgnoresKeywordCase(ts: seq<Task>, keyword: string)
    ensures Matching(ts, ToLower(keyword)) == Matching(ts, keyword)
  {
    assert ToLower(ToLower(keyword)) == ToLower(keyword);
    assert forall t :: NameMatches(t, ToLower(keyword)) == NameMatches(t, keyword);
  }

  /** Groups the tasks by keyword: each keyword that matches some task maps
      to every matching task in list order; a keyword that matches nothing
      is absent. */
  method Find(l: TaskList, keywords: seq<string>) returns (m: map<string, seq<Task>>)
    ensures forall k :: k in m <==> k in keywords && Matching(l.tasks, k) != []
    ensures forall k :: k in m ==> m[k] == Matching(l.tasks, k)
  {
    m := map[];
    var n := 0;
    while n < |keywords|
      invariant 0 <= n <= |keywords|
      invariant forall k :: k in m <==> k in keywords[..n] && Matching(l.tasks, k) != []
      invariant forall k :: k in m ==> m[k] == Matching(l.tasks, k)
    {
      var keyword := keywords[n];
      var hits: seq<Task> := [];
      var j := 0;
      while j < |l.tasks|
        invariant 0 <= j <= |l.tasks|
        invariant hits == Matching(l.tasks[..j], keyword)
      {
        MatchingAppend(l.tasks[..j], [l.tasks[j]], keyword);
        assert l.tasks[..j + 1] == l.tasks[..j] + [l.tasks[j]];
        if NameMatches(l.tasks[j], keyword) {
          hits := hits + [l.tasks[j]];
        }
        j := j + 1;
      }
      assert l.tasks[..j] == l.tasks;
      if hits != [] {
        m := m[keyword := hits];
      }
      assert keywords[..n + 1] == keywords[..n] + [keyword];
      n := n + 1;
    }
    assert keywords[..n] == keywords;
  }
}
