/** The line-based storage codec: one " | "-separated line per task, and a
    tolerant reader that skips every line it cannot make a task of. The
    file itself is a sequence of lines; opening, reading and writing it,
    and creating its directory, are not part of this model. */
module Storage {
  import opened Results
  import opened JavaString
  import Time
  import opened Tasks

  /** The field separator of a storage line. */
  const Sep: string := " | "

  /** The status digit a task is written with. */
  function StatusField(t: Task): string
  {
    if StoredStatus(t) then "1" else "0"
  }

  /** The fields of a task's storage line, in order. */
  function Fields(t: Task): (r: seq<string>)
    ensures 3 <= |r| <= 5
  {
    match t
    case Todo(name, _) => ["T", StatusField(t), name]
    case Deadline(name, _, due) => ["D", StatusField(t), name, Time.Format(due)]
    case Event(name, _, start, end) => ["E", StatusField(t), name, Time.Format(start), Time.Format(end)]
  }

  /** The first two fields joined: the kind letter, the separator and the
      status digit. */
  lemma StoredPrefix(t: Task)
    ensures [KindLetter(t), ' ', '|', ' ', if StoredStatus(t) then '1' else '0'] == [KindLetter(t)] + Sep + StatusField(t)
  {
  }

  /** A storage line is its fields joined with the separator. */
  lemma FileFormatJoinsFields(t: Task)
    ensures FileFormat(t) == Join(Fields(t), Sep)
  {
    FileFormatParts(t);
    StoredPrefix(t);
    var head := [KindLetter(t)] + Sep + StatusField(t);
    assert FileFormat(t) == head + FileTail(t);
    JoinTail(t);
  }

  /** The fields joined are the line's head followed by its tail. */
  lemma JoinTail(t: Task)
    ensures Join(Fields(t), Sep) == [KindLetter(t)] + Sep + StatusField(t) + FileTail(t)
  {
    var st := StatusField(t);
    match t
    case Todo(name, _) =>
      JoinCons(st, [name], Sep);
      JoinCons("T", [st, name], Sep);
      Nest3("T", st, name, Sep);
    case Deadline(name, _, due) =>
      var f := Time.Format(due);
      JoinCons(name, [f], Sep);
      JoinCons(st, [name, f], Sep);
      JoinCons("D", [st, name, f], Sep);
      Nest4("D", st, name, f, Sep);
    case Event(name, _, start, end) =>
      EventJoinTail(t);
  }

  lemma EventJoinTail(t: Task)
    requires t.Event?
    ensures Join(Fields(t), Sep) == [KindLetter(t)] + Sep + StatusField(t) + FileTail(t)
  {
    var st, f1, f2 := StatusField(t), Time.Format(t.start), Time.Format(t.end);
    JoinCons(f1, [f2], Sep);
    JoinCons(t.name, [f1, f2], Sep);
    JoinCons(st, [t.name, f1, f2], Sep);
    JoinCons("E", [st, t.name, f1, f2], Sep);
    Nest5("E", st, t.name, f1, f2, Sep);
  }

  /** Regroupings of joined fields: the first two fields, then the rest. */
  lemma Nest3(a: string, b: string, c: string, sep: string)
    ensures a + sep + (b + sep + c) == a + sep + b + (sep + c)
  {
  }

  lemma Nest4(a: string, b: string, c: string, d: string, sep: string)
    ensures a + sep + (b + sep + (c + sep + d)) == a + sep + b + (sep + c + sep + d)
  {
  }

  lemma Nest5(a: string, b: string, c: string, d: string, e: string, sep: string)
    ensures a + sep + (b + sep + (c + sep + (d + sep + e))) == a + sep + b + (sep + c + sep + d + sep + e)
  {
  }

  // ------------------------------------------------------------ decoding

  /** The task the fields of one line describe, or None when they describe
      none: fewer than three fields, an unknown kind tag, too few fields for
      its kind, or an instant that is not in the canonical form. The task is
      done exactly when the status field is "1". */
  function DecodeFields(parts: seq<string>): (r: Option<Task>)
    ensures |parts| < 3 ==> r.None?
    ensures r.Some? ==>
              && |parts| >= 3
              && parts[0] == [KindLetter(r.value)]
              && r.value.name == parts[2]
              && (r.value.done <==> parts[1] == "1")
    ensures |parts| >= 3 && parts[0] == "T" ==> r == Some(Todo(parts[2], parts[1] == "1"))
    ensures |parts| >= 3 && parts[0] == "D" ==>
              (r.Some? <==> |parts| >= 4 && Time.ParseCanonical(parts[3]).Some?)
              && (r.Some? ==> r.value.due == Time.ParseCanonical(parts[3]).value)
    ensures |parts| >= 3 && parts[0] == "E" ==>
              (r.Some? <==> |parts| >= 5 && Time.ParseCanonical(parts[3]).Some? && Time.ParseCanonical(parts[4]).Some?)
              && (r.Some? ==> r.value.start == Time.ParseCanonical(parts[3]).value
                              && r.value.end == Time.ParseCanonical(parts[4]).value)
  {
    if |parts| < 3 then None
    else
      var name := parts[2];
      var task :=
        if parts[0] == "T" then Some(Todo(name, false))
        else if parts[0] == "E" then
          if |parts| < 5 then None
          else
            match (Time.ParseCanonical(parts[3]), Time.ParseCanonical(parts[4]))
            case (Some(start), Some(end)) => Some(Event(name, false, start, end))
            case _ => None
        else if parts[0] == "D" then
          if |parts| < 4 then None
          else
            match Time.ParseCanonical(parts[3])
            case Some(due) => Some(Deadline(name, false, due))
            case None => None
        else None;
      match task
      case None => None
      case Some(t) => Some(if parts[1] == "1" then Mark(t) else t)
  }

  /** The task one line of the file describes: the line is cut at every
      separator and the fields are decoded. */
  function DecodeLine(line: string): Option<Task>
  {
    DecodeFields(Split(line, Sep))
  }

  /** The tasks of the decodable lines, in file order. */
  function DecodeLines(lines: seq<string>): (r: seq<Task>)
    ensures |r| <= |lines|
    ensures forall t :: t in r ==> exists k :: 0 <= k < |lines| && DecodeLine(lines[k]) == Some(t)
  {
    if lines == [] then []
    else
      var rest := DecodeLines(lines[1..]);
      assert forall t :: t in rest ==> exists k :: 0 <= k < |lines| && DecodeLine(lines[k]) == Some(t) by {
        forall t | t in rest
          ensures exists k :: 0 <= k < |lines| && DecodeLine(lines[k]) == Some(t)
        {
          var k :| 0 <= k < |lines[1..]| && DecodeLine(lines[1..][k]) == Some(t);
          assert DecodeLine(lines[k + 1]) == Some(t);
        }
      }
      match DecodeLine(lines[0])
      case Some(t) => [t] + rest
      case None => rest
  }

  /** A single line contributes its task when it decodes and nothing when
      it does not. */
  lemma DecodeOneLine(line: string)
    ensures DecodeLines([line]) == if DecodeLine(line).Some? then [DecodeLine(line).value] else []
  {
    assert [line][1..] == [];
  }

  /** Decoding a file line by line: the lines of a concatenation decode to
      the concatenation of the decoded parts, so one bad line never affects
      the others. */
  lemma {:induction false} DecodeLinesAppend(a: seq<string>, b: seq<string>)
    ensures DecodeLines(a + b) == DecodeLines(a) + DecodeLines(b)
  {
    if a == [] {
      assert a + b == b;
    } else {
      assert (a + b)[0] == a[0];
      assert (a + b)[1..] == a[1..] + b;
      DecodeLinesAppend(a[1..], b);
    }
  }

  /** Loading: no tasks when there is no file, otherwise the tasks of its
      decodable lines. */
  function Load(file: Option<seq<string>>): (r: seq<Task>)
    ensures file.None? ==> r == []
    ensures file.Some? ==> r == DecodeLines(file.value)
  {
    match file
    case None => []
    case Some(lines) => DecodeLines(lines)
  }

  // ------------------------------------------------------------ encoding

  /** Saving: the whole list rewritten, one storage line per task. */
  function Save(tasks: seq<Task>): (lines: seq<string>)
    ensures |lines| == |tasks|
    ensures forall i :: 0 <= i < |tasks| ==> lines[i] == FileFormat(tasks[i])
  {
    seq(|tasks|, i requires 0 <= i < |tasks| => FileFormat(tasks[i]))
  }

  // ---------------------------------------------------------- round trip

  /** A name that survives the trip to disk: it holds no line terminator,
      and its separators stay where they are (SplitSafe). */
  predicate Storable(t: Task) {
    OneLine(t.name) && SplitSafe(t)
  }

  /** A todo's name, which is the last field, must be non-empty and free of
      the separator; any other name must be free of the separator and must
      not end in " |" (the separator would then be found one position
      early). */
  predicate SplitSafe(t: Task) {
    if t.Todo? then t.name != [] && !Contains(t.name, Sep) else Separable(t.name, Sep)
  }

  /** The characters at which Scanner.nextLine ends a line: "\n", "\r",
      U+0085, U+2028 and U+2029. */
  predicate IsLineTerminator(c: char) {
    c == '\n' || c == '\r' || c == '\U{0085}' || c == '\U{2028}' || c == '\U{2029}'
  }

  predicate OneLine(s: string) {
    forall i :: 0 <= i < |s| ==> !IsLineTerminator(s[i])
  }

  /** A storable task's line holds no line terminator, so the file's lines
      read back one per saved task. */
  lemma SavedLineIsOneLine(t: Task)
    requires Storable(t)
    ensures OneLine(FileFormat(t))
  {
    var fs := Fields(t);
    FileFormatJoinsFields(t);
    forall k | 0 <= k < |fs|
      ensures OneLine(fs[k])
    {
      if k >= 3 {
        InstantOneLine(if k == 3 then (if t.Deadline? then t.due else t.start) else t.end);
      }
    }
    JoinOneLine(fs, Sep);
  }

  lemma InstantOneLine(t: Time.DateTime)
    ensures OneLine(Time.Format(t))
  {
  }

  /** Joining lines without terminators with a separator without one gives
      a line without one. */
  lemma {:induction false} JoinOneLine(ps: seq<string>, sep: string)
    requires |ps| >= 1 && OneLine(sep)
    requires forall k :: 0 <= k < |ps| ==> OneLine(ps[k])
    ensures OneLine(Join(ps, sep))
  {
    if |ps| > 1 {
      JoinOneLine(ps[1..], sep);
      OneLineAppend(ps[0], sep);
      OneLineAppend(ps[0] + sep, Join(ps[1..], sep));
    }
  }

  lemma OneLineAppend(a: string, b: string)
    requires OneLine(a) && OneLine(b)
    ensures OneLine(a + b)
  {
    assert forall i :: |a| <= i < |a + b| ==> (a + b)[i] == b[i - |a|];
  }

  /** A field without '|' is neither split nor merged with the next. */
  lemma BarFreeField(x: string)
    requires '|' !in x
    ensures Separable(x, Sep) && !Contains(x, Sep)
  {
    AbsentCharNotContained(x, Sep);
    var y := x + Sep[..|Sep| - 1];
    forall i
      ensures !OccursAt(y, Sep, i)
    {
      if 0 <= i && i + 3 <= |y| {
        assert y[i..i + 3][1] == y[i + 1];
        if i + 1 < |x| {
          assert y[i + 1] == x[i + 1];
        } else {
          assert y[i + 1] == ' ';
        }
      }
    }
  }

  /** The task a storable task comes back as: everything kept, and done
      exactly when it was stored as done. */
  function Reloaded(t: Task): (r: Task)
    ensures SameContent(r, t)
  {
    t.(done := StoredStatus(t))
  }

  /** Decoding the fields of a task gives the task back, done exactly when
      it was stored as done. */
  lemma DecodeTaskFields(t: Task)
    ensures DecodeFields(Fields(t)) == Some(Reloaded(t))
  {
    match t
    case Todo(_, _) =>
    case Deadline(_, _, due) =>
      Time.ParseFormat(due);
    case Event(_, _, start, end) =>
      Time.ParseFormat(start);
      Time.ParseFormat(end);
  }

  /** Cutting a storable task's line at the separators gives its fields. */
  lemma SplitFileFormat(t: Task)
    requires SplitSafe(t)
    ensures Split(FileFormat(t), Sep) == Fields(t)
  {
    FileFormatJoinsFields(t);
    var st := StatusField(t);
    match t
    case Todo(name, _) =>
      SplitTodoFields(st, name);
    case Deadline(name, _, due) =>
      Time.FormatAvoids(due);
      SplitDeadlineFields(st, name, Time.Format(due));
    case Event(name, _, start, end) =>
      Time.FormatAvoids(start);
      Time.FormatAvoids(end);
      SplitEventFields(st, name, Time.Format(start), Time.Format(end));
  }

  lemma SplitTodoFields(st: string, name: string)
    requires '|' !in st && name != [] && !Contains(name, Sep)
    ensures Split(Join(["T", st, name], Sep), Sep) == ["T", st, name]
  {
    BarFreeField("T");
    BarFreeField(st);
    SplitJoin(["T", st, name], Sep);
  }

  lemma SplitDeadlineFields(st: string, name: string, f: string)
    requires '|' !in st && Separable(name, Sep) && '|' !in f && f != []
    ensures Split(Join(["D", st, name, f], Sep), Sep) == ["D", st, name, f]
  {
    BarFreeField("D");
    BarFreeField(st);
    BarFreeField(f);
    SplitJoin(["D", st, name, f], Sep);
  }

  lemma SplitEventFields(st: string, name: string, f1: string, f2: string)
    requires '|' !in st && Separable(name, Sep) && '|' !in f1 && '|' !in f2 && f2 != []
    ensures Split(Join(["E", st, name, f1, f2], Sep), Sep) == ["E", st, name, f1, f2]
  {
    BarFreeField("E");
    BarFreeField(st);
    BarFreeField(f1);
    BarFreeField(f2);
    SplitJoin(["E", st, name, f1, f2], Sep);
  }

  /** Decoding a storable task's line gives the task back, done exactly
      when it was stored as done. */
  lemma DecodeFileFormat(t: Task)
    requires SplitSafe(t)
    ensures DecodeLine(FileFormat(t)) == Some(Reloaded(t))
  {
    SplitFileFormat(t);
    DecodeTaskFields(t);
  }

  /** The first line of a saved file decodes to the first task, reloaded. */
  lemma DecodeSavedCons(tasks: seq<Task>)
    requires tasks != [] && Storable(tasks[0])
    ensures DecodeLines(Save(tasks)) == [Reloaded(tasks[0])] + DecodeLines(Save(tasks[1..]))
  {
    var lines := Save(tasks);
    assert lines[0] == FileFormat(tasks[0]);
    assert lines[1..] == Save(tasks[1..]);
    DecodeFileFormat(tasks[0]);
  }

  /** Saving storable tasks and loading the file back gives the same tasks,
      in the same order, each done exactly when it was stored as done. */
  lemma {:induction false} LoadSave(tasks: seq<Task>)
    requires forall k :: 0 <= k < |tasks| ==> Storable(tasks[k])
    ensures var loaded := Load(Some(Save(tasks)));
            |loaded| == |tasks| && forall k :: 0 <= k < |tasks| ==> loaded[k] == Reloaded(tasks[k])
  {
    if tasks != [] {
      DecodeSavedCons(tasks);
      LoadSave(tasks[1..]);
      var loaded := Load(Some(Save(tasks)));
      forall k | 0 <= k < |tasks|
        ensures loaded[k] == Reloaded(tasks[k])
      {
        if k > 0 {
          assert loaded[k] == DecodeLines(Save(tasks[1..]))[k - 1];
          assert tasks[1..][k - 1] == tasks[k];
        }
      }
    }
  }

  /** Reloading a task does not change its storage line. */
  lemma ReloadedFileFormat(t: Task)
    ensures FileFormat(Reloaded(t)) == FileFormat(t)
  {
    FileFormatParts(t);
    FileFormatParts(Reloaded(t));
    assert FileTail(Reloaded(t)) == FileTail(t);
  }

  /** Saving, loading and saving again writes the same file: the reloaded
      tasks have the storage lines of the originals. */
  lemma SaveLoadSave(tasks: seq<Task>)
    requires forall k :: 0 <= k < |tasks| ==> Storable(tasks[k])
    ensures Save(Load(Some(Save(tasks)))) == Save(tasks)
  {
    LoadSave(tasks);
    forall k | 0 <= k < |tasks|
      ensures FileFormat(Reloaded(tasks[k])) == FileFormat(tasks[k])
    {
      ReloadedFileFormat(tasks[k]);
    }
  }

  /** A deadline or an event whose name holds an 'X' comes back done even
      when it was saved not done: its status is read off its display. */
  lemma XReloadsMarked(t: Task)
    requires !t.Todo? && Storable(t) && 'X' in t.name
    ensures DecodeLine(FileFormat(t)) == Some(t.(done := true))
  {
    DecodeFileFormat(t);
  }

  /** A deadline whose name ends in " |" does not come back at all: its
      name is cut one position early and what follows no longer parses as
      an instant. */
  lemma BarEndedNameIsLost(due: Time.DateTime)
    ensures DecodeLine(FileFormat(Deadline("x |", false, due))) == None
  {
    var t := Deadline("x |", false, due);
    var f := Time.Format(due);
    var last := "| " + f;
    var parts := ["D", "0", "x", last];
    BarEndedJoin(due);
    BarFreeField("D");
    BarFreeField("0");
    BarFreeField("x");
    BarPrefixedInstant(f);
    SplitJoin(parts, Sep);
    TooLongInstant(parts);
  }

  /** The storage line of a deadline named "x |" is also the join of "D",
      "0", "x" and "| " followed by the instant. */
  lemma BarEndedJoin(due: Time.DateTime)
    ensures FileFormat(Deadline("x |", false, due)) == Join(["D", "0", "x", "| " + Time.Format(due)], Sep)
  {
    var t := Deadline("x |", false, due);
    var f := Time.Format(due);
    var last := "| " + f;
    FileFormatJoinsFields(t);
    assert 'X' !in t.name;
    assert Fields(t) == ["D", "0", "x |", f];
    BarMovesAcross(f);
    JoinCons("0", ["x |", f], Sep);
    JoinCons("0", ["x", last], Sep);
    JoinCons("D", ["0", "x |", f], Sep);
    JoinCons("D", ["0", "x", last], Sep);
  }

  /** A deadline line whose instant field is not 15 characters long is
      skipped. */
  lemma TooLongInstant(parts: seq<string>)
    requires |parts| == 4 && parts[0] == "D" && |parts[3]| != 15
    ensures DecodeFields(parts) == None
  {
    assert Time.ParseCanonical(parts[3]) == None;
  }

  /** "x |" then f reads the same, joined, as "x" then "| " + f. */
  lemma BarMovesAcross(f: string)
    ensures Join(["x |", f], Sep) == Join(["x", "| " + f], Sep)
  {
    JoinCons("x |", [f], Sep);
    JoinCons("x", ["| " + f], Sep);
    assert "x |" + Sep == "x" + Sep + "| ";
  }

  /** "| " before a bar-free instant holds no separator. */
  lemma BarPrefixedInstant(f: string)
    requires '|' !in f
    ensures !Contains("| " + f, Sep) && "| " + f != []
  {
    var y := "| " + f;
    assert Sep[1] == '|';
    forall i
      ensures !OccursAt(y, Sep, i)
    {
      if 0 <= i && i + 3 <= |y| {
        assert y[i..i + 3][1] == y[i + 1];
        if i == 0 {
          assert y[1] == ' ';
        } else {
          assert y[i + 1] == f[i - 1];
          assert f[i - 1] in f;
        }
      }
    }
  }

  /** The storage fields of a sample deadline: "D", "0", its name and its
      instant in the canonical form. */
  lemma DeadlineFieldsExample()
    ensures Fields(Deadline("return book", false, Time.Timestamp(2024, 12, 25, 18, 0)))
            == ["D", "0", "return book", "2024-12-25 1800"]
  {
    var t := Deadline("return book", false, Time.Timestamp(2024, 12, 25, 18, 0));
    assert 'X' !in t.name;
    Time.FormatExample();
  }
}
