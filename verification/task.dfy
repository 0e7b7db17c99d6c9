/** The three kinds of task -- a name and a completion flag, plus a due
    instant for a deadline and a start and an end instant for an event --
    with their display and storage renderings. */
module Tasks {
  import opened JavaString
  import Time

  datatype Task =
    | Todo(name: string, done: bool)
    | Deadline(name: string, done: bool, due: Time.DateTime)
    | Event(name: string, done: bool, start: Time.DateTime, end: Time.DateTime)

  /** Equal in everything but the completion flag: kind, name and instants. */
  predicate SameContent(a: Task, b: Task) {
    a.(done := b.done) == b
  }

  // ------------------------------------------------------- construction

  /** A new todo: not done, named as given. */
  function NewTodo(name: string): (t: Task)
    ensures t.Todo? && !t.done && t.name == name
  {
    Todo(name, false)
  }

  /** A new deadline: not done, named as given, due at the given instant. */
  function NewDeadline(name: string, due: Time.DateTime): (t: Task)
    ensures t.Deadline? && !t.done && t.name == name && t.due == due
  {
    Deadline(name, false, due)
  }

  /** A new event: not done, named as given, spanning the given instants in
      whatever order they come (no start <= end check). */
  function NewEvent(name: string, start: Time.DateTime, end: Time.DateTime): (t: Task)
    ensures t.Event? && !t.done && t.name == name && t.start == start && t.end == end
  {
    Event(name, false, start, end)
  }

  // ---------------------------------------------------- mark and unmark

  function Mark(t: Task): (r: Task)
    ensures r.done && SameContent(r, t)
  {
    t.(done := true)
  }

  function Unmark(t: Task): (r: Task)
    ensures !r.done && SameContent(r, t)
  {
    t.(done := false)
  }

  /** Marking and unmarking are idempotent, and the later one wins. */
  lemma MarkUnmarkLaws(t: Task)
    ensures Mark(Mark(t)) == Mark(t) && Unmark(Unmark(t)) == Unmark(t)
    ensures Mark(Unmark(t)) == Mark(t) && Unmark(Mark(t)) == Unmark(t)
  {
  }

  // ---------------------------------------------------------- rendering

  /** The shared display of every task: "[X] name" when done, "[ ] name"
      otherwise. */
  function BaseDisplay(name: string, done: bool): string
  {
    "[" + (if done then "X" else " ") + "] " + name
  }

  /** The shared storage form of every task: "1 | name" when done,
      "0 | name" otherwise. */
  function BaseFileFormat(name: string, done: bool): string
  {
    (if done then "1" else "0") + " | " + name
  }

  /** The status digit a deadline or an event writes to disk: read off its
      display, where any 'X' counts, not off the completion flag. */
  function DisplayedStatus(name: string, done: bool): string
  {
    if Contains(BaseDisplay(name, done), "X") then "1" else "0"
  }

  /** The display line of a task. */
  function Display(t: Task): string
  {
    match t
    case Todo(name, done) => "[T]" + BaseDisplay(name, done)
    case Deadline(name, done, due) =>
      "[D]" + BaseDisplay(name, done) + " (by: " + Time.Display(due) + ")"
    case Event(name, done, start, end) =>
      "[E]" + BaseDisplay(name, done)
        + " (from: " + Time.Display(start) + " to: " + Time.Display(end) + ")"
  }

  /** The storage line of a task. */
  function FileFormat(t: Task): string
  {
    match t
    case Todo(name, done) => "T | " + BaseFileFormat(name, done)
    case Deadline(name, done, due) =>
      "D | " + DisplayedStatus(name, done) + " | " + name + " | " + Time.Format(due)
    case Event(name, done, start, end) =>
      "E | " + DisplayedStatus(name, done) + " | " + name
        + " | " + Time.Format(start) + " | " + Time.Format(end)
  }

  /** Whether a task is stored as done: the flag for a todo; the flag, or
      an 'X' anywhere in the name, for a deadline or an event. */
  function StoredStatus(t: Task): bool
  {
    t.done || (!t.Todo? && 'X' in t.name)
  }

  /** The display-derived digit of a deadline or an event is '1' exactly
      when it is done or its name holds an uppercase 'X'. */
  lemma DisplayedStatusRule(name: string, done: bool)
    ensures DisplayedStatus(name, done) == (if done || 'X' in name then "1" else "0")
  {
    var m := if done then "X" else " ";
    var base := BaseDisplay(name, done);
    ContainsChar(base, 'X');
    assert base == ("[" + m + "] ") + name;
    assert 'X' in "[" + m + "] " <==> done;
  }

  function KindLetter(t: Task): char
  {
    match t
    case Todo(_, _) => 'T'
    case Deadline(_, _, _) => 'D'
    case Event(_, _, _, _) => 'E'
  }

  /** The part of a storage line after the status digit. */
  function FileTail(t: Task): string
  {
    match t
    case Todo(name, _) => " | " + name
    case Deadline(name, _, due) => " | " + name + " | " + Time.Format(due)
    case Event(name, _, start, end) =>
      " | " + name + " | " + Time.Format(start) + " | " + Time.Format(end)
  }

  /** A storage line is the kind letter, the separator, the status digit
      and a tail that does not depend on the completion flag. */
  lemma FileFormatParts(t: Task)
    ensures FileFormat(t) == [KindLetter(t), ' ', '|', ' ', if StoredStatus(t) then '1' else '0'] + FileTail(t)
  {
    var d := if StoredStatus(t) then "1" else "0";
    var prefix := [KindLetter(t), ' ', '|', ' '];
    assert FileFormat(t) == prefix + d + FileTail(t) by {
      FileFormatRegrouped(t);
    }
    assert prefix + d == prefix + [d[0]];
  }

  /** A storage line regrouped as its kind prefix, its status text and its
      tail. */
  lemma FileFormatRegrouped(t: Task)
    ensures FileFormat(t) == [KindLetter(t), ' ', '|', ' '] + (if StoredStatus(t) then "1" else "0") + FileTail(t)
  {
    DisplayedStatusRule(t.name, t.done);
    match t
    case Todo(name, done) =>
      Regroup("T | ", if done then "1" else "0", " | ", name, [], []);
    case Deadline(name, done, due) =>
      Regroup("D | ", DisplayedStatus(name, done), " | ", name, " | ", Time.Format(due));
    case Event(name, done, start, end) =>
      EventFileFormatRegrouped(name, done, start, end);
  }

  lemma EventFileFormatRegrouped(name: string, done: bool, start: Time.DateTime, end: Time.DateTime)
    ensures var t := Event(name, done, start, end);
            FileFormat(t) == "E | " + DisplayedStatus(name, done) + FileTail(t)
  {
    Regroup8("E | ", DisplayedStatus(name, done), " | ", name, " | ", Time.Format(start), " | ", Time.Format(end));
  }

  lemma Regroup8(a: string, b: string, c: string, d: string, e: string, f: string, g: string, h: string)
    ensures a + b + c + d + e + f + g + h == a + b + (c + d + e + f + g + h)
  {
  }

  /** Regrouping six concatenated parts, the last four as one tail. */
  lemma Regroup(a: string, b: string, c: string, d: string, e: string, f: string)
    ensures a + b + c + d + e + f == a + b + (c + d + e + f)
  {
  }

  /** Marking rewrites only the status digit of the storage line. */
  lemma MarkChangesOnlyStatus(t: Task)
    ensures FileFormat(Mark(t)) == FileFormat(t)[4 := '1']
  {
    FileFormatParts(t);
    FileFormatParts(Mark(t));
    assert FileTail(Mark(t)) == FileTail(t);
  }

  /** Unmarking rewrites only the status digit of the storage line, which
      stays '1' for a deadline or an event whose name holds an 'X'. */
  lemma UnmarkChangesOnlyStatus(t: Task)
    ensures FileFormat(Unmark(t)) ==
              FileFormat(t)[4 := if !t.Todo? && 'X' in t.name then '1' else '0']
  {
    FileFormatParts(t);
    FileFormatParts(Unmark(t));
    assert FileTail(Unmark(t)) == FileTail(t);
  }

  /** The storage lines of a sample todo before and after marking. */
  lemma TodoLineExample()
    ensures FileFormat(Todo("read book", false)) == "T | 0 | read book"
    ensures FileFormat(Mark(Todo("read book", false))) == "T | 1 | read book"
  {
    TodoLine("read book", false);
    TodoLine("read book", true);
    SampleLines("read book");
  }

  lemma TodoLine(name: string, done: bool)
    ensures FileFormat(Todo(name, done)) == "T | " + ((if done then "1" else "0") + " | " + name)
  {
  }

  lemma SampleLines(name: string)
    requires name == "read book"
    ensures "T | " + ("0" + " | " + name) == "T | 0 | read book"
    ensures "T | " + ("1" + " | " + name) == "T | 1 | read book"
  {
  }

  function KindTag(t: Task): string
  {
    ['[', KindLetter(t), ']']
  }

  /** The kind tag followed by the shared display, which every display line
      starts with. */
  function DisplayHead(t: Task): string
  {
    KindTag(t) + BaseDisplay(t.name, t.done)
  }

  /** The part of a display line after its head. */
  function DisplayTail(t: Task): string
  {
    match t
    case Todo(_, _) => ""
    case Deadline(_, _, due) => " (by: " + Time.Display(due) + ")"
    case Event(_, _, start, end) => " (from: " + Time.Display(start) + " to: " + Time.Display(end) + ")"
  }

  lemma DisplayParts(t: Task)
    ensures Display(t) == DisplayHead(t) + DisplayTail(t)
  {
    var base := BaseDisplay(t.name, t.done);
    match t
    case Todo(_, _) =>
    case Deadline(_, _, due) =>
      Regroup5("[D]", base, " (by: ", Time.Display(due), ")");
    case Event(_, _, start, end) =>
      Regroup7("[E]", base, " (from: ", Time.Display(start), " to: ", Time.Display(end), ")");
  }

  lemma Regroup5(a: string, b: string, c: string, d: string, e: string)
    ensures a + b + c + d + e == (a + b) + (c + d + e)
  {
  }

  lemma Regroup7(a: string, b: string, c: string, d: string, e: string, f: string, g: string)
    ensures a + b + c + d + e + f + g == (a + b) + (c + d + e + f + g)
  {
  }

  lemma PrefixOfAppend(a: string, b: string)
    ensures |a| <= |a + b| && (a + b)[..|a|] == a
  {
  }

  /** Every display starts with the kind tag and the shared display. */
  lemma DisplayStartsWithTag(t: Task)
    ensures |DisplayHead(t)| <= |Display(t)| && Display(t)[..|DisplayHead(t)|] == DisplayHead(t)
  {
    DisplayParts(t);
    PrefixOfAppend(DisplayHead(t), DisplayTail(t));
  }

  lemma OccursAfter(pre: string, d: string, post: string)
    ensures OccursAt(pre + d + post, d, |pre|)
  {
    assert (pre + d + post)[|pre|..|pre| + |d|] == d;
  }

  /** A deadline's display shows its due date as "MMM dd yyyy". */
  lemma DeadlineDisplayShowsDate(t: Task)
    requires t.Deadline?
    ensures Contains(Display(t), Time.DisplayDate(t.due))
  {
    var head, d, clock := DisplayHead(t), Time.DisplayDate(t.due), Time.DisplayClock(t.due);
    assert Display(t) == head + (" (by: " + (d + (", " + clock + ")"))) by {
      DisplayParts(t);
    }
    SpliceAround(head, " (by: ", d, ", " + clock + ")", Display(t));
  }

  /** A string built as pre + mid + d + post holds d right after pre + mid. */
  lemma SpliceAround(pre: string, mid: string, d: string, post: string, s: string)
    requires s == pre + (mid + (d + post))
    ensures Contains(s, d)
  {
    assert s == (pre + mid) + d + post;
    OccursAfter(pre + mid, d, post);
  }

  /** An event's display shows its start date as "MMM dd yyyy". */
  lemma EventDisplayShowsStart(t: Task)
    requires t.Event?
    ensures Contains(Display(t), Time.DisplayDate(t.start))
  {
    var head, d, c := DisplayHead(t), Time.DisplayDate(t.start), Time.DisplayClock(t.start);
    var x := Time.Display(t.end);
    var post := ", " + c + " to: " + x + ")";
    DisplayParts(t);
    RegroupMiddle(" (from: ", d, ", ", c, " to: ", x, ")");
    SpliceAround(head, " (from: ", d, post, Display(t));
  }

  lemma RegroupMiddle(a: string, b: string, c1: string, c2: string, d: string, e: string, f: string)
    ensures a + (b + c1 + c2) + d + e + f == a + (b + (c1 + c2 + d + e + f))
  {
  }

  /** An event's display shows its end date as "MMM dd yyyy". */
  lemma EventDisplayShowsEnd(t: Task)
    requires t.Event?
    ensures Contains(Display(t), Time.DisplayDate(t.end))
  {
    var head, d, c := DisplayHead(t), Time.DisplayDate(t.end), Time.DisplayClock(t.end);
    var mid := " (from: " + Time.Display(t.start) + " to: ";
    assert Display(t) == head + (mid + (d + (", " + c + ")"))) by {
      DisplayParts(t);
    }
    SpliceAround(head, mid, d, ", " + c + ")", Display(t));
  }
}
