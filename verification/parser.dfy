/** The command parser: classifying an input line by its first word, and
    cutting the description, the instants, the task number or the keywords
    out of it, with the exact error each malformed line gets. */
module Parser {
  import opened Results
  import opened JavaString
  import opened Decimal
  import Time

  const TodoEmpty: string := "OOPS!!! The description of a todo cannot be empty."
  const DeadlineEmpty: string := "OOPS!!! The description of a deadline cannot be empty."
  const DeadlineNoBy: string := "OOPS!!! The deadline must have a /by time."
  const EventEmpty: string := "OOPS!!! The description of an event cannot be empty."
  const EventNoFrom: string := "OOPS!!! The event must have a /from time."
  const EventNoTo: string := "OOPS!!! The event must have a /to time."
  const IndexMissing: string := "OOPS! You have to choose a overflow.task number!"
  const IndexInvalid: string := "OOPS! Please provide a valid overflow.task number!"
  const KeywordsMissing: string := "OOPS! You have to key in some keywords for me to find!"
  const DateFormatHint: string := "OOPS! Please use the date format: yyyy-MM-dd (e.g., 2024-12-25)"
  const DateTimeFormatHint: string := "OOPS! Please use the format: yyyy-MM-dd HHmm (e.g., 2024-12-25 1800)"

  /** The separators inside deadline and event commands. */
  const By: string := " /by "
  const From: string := " /from "
  const To: string := " /to "

  // ------------------------------------------------------------ commands

  datatype Command = List | Mark | Unmark | Delete | Todo | Deadline | Event | Find | Unknown

  /** The word a recognised command is typed as. */
  function Keyword(c: Command): (w: string)
    requires !c.Unknown?
    ensures w != [] && ' ' !in w
  {
    match c
    case List => "list"
    case Mark => "mark"
    case Unmark => "unmark"
    case Delete => "delete"
    case Todo => "todo"
    case Deadline => "deadline"
    case Event => "event"
    case Find => "find"
  }

  /** The position of the first space, or the length when there is none. */
  function FirstSpace(s: string): (i: nat)
    ensures i <= |s|
    ensures i < |s| ==> s[i] == ' '
    ensures forall j :: 0 <= j < i ==> s[j] != ' '
  {
    if s == [] || s[0] == ' ' then 0 else 1 + FirstSpace(s[1..])
  }

  /** The first element of input.split(" ", 2): everything before the first
      space, or the whole input when there is no space. */
  function CommandWord(input: string): (w: string)
    ensures ' ' !in w
    ensures |w| <= |input| && w == input[..|w|]
    ensures |w| < |input| ==> input[|w|] == ' '
  {
    input[..FirstSpace(input)]
  }

  /** The command a line asks for, read off its first word; any other word,
      including an empty one, is Unknown. The first word must match exactly:
      no case folding and no other separator than a space. */
  function ParseCommand(input: string): (c: Command)
    ensures !c.Unknown? ==> CommandWord(input) == Keyword(c)
    ensures c.Unknown? ==> forall k: Command :: !k.Unknown? ==> CommandWord(input) != Keyword(k)
  {
    match CommandWord(input)
    case "list" => List
    case "mark" => Mark
    case "unmark" => Unmark
    case "delete" => Delete
    case "todo" => Todo
    case "deadline" => Deadline
    case "event" => Event
    case "find" => Find
    case _ => Unknown
  }

  /** A line is parsed as a recognised command exactly when it is the
      command's word alone or the word followed by a space. */
  lemma ParseCommandIff(input: string, c: Command)
    requires !c.Unknown?
    ensures ParseCommand(input) == c <==>
              input == Keyword(c) ||
              (|Keyword(c)| < |input| && input[..|Keyword(c)| + 1] == Keyword(c) + " ")
  {
    var w := Keyword(c);
    if input == w || (|w| < |input| && input[..|w| + 1] == w + " ") {
      TypedCommandWord(input, w);
      assert CommandWord(input) == w;
    }
    if ParseCommand(input) == c {
      var v := CommandWord(input);
      if |v| < |input| {
        assert input[..|w| + 1] == v + [input[|v|]];
      }
    }
  }

  /** A word without spaces, alone or followed by a space, is the line's
      first word. */
  lemma TypedCommandWord(input: string, w: string)
    requires ' ' !in w
    requires input == w || (|w| < |input| && input[..|w| + 1] == w + " ")
    ensures CommandWord(input) == w
  {
    assert forall j :: 0 <= j < |w| ==> input[j] == w[j] && input[j] != ' ';
    if input != w {
      assert input[|w|] == (w + " ")[|w|];
    }
    assert FirstSpace(input) == |w|;
  }

  // ------------------------------------------------------- descriptions

  /** The parsed fields of a deadline command. */
  datatype DeadlineFields = DeadlineFields(description: string, due: Time.DateTime)

  /** The parsed fields of an event command. */
  datatype EventFields = EventFields(description: string, start: Time.DateTime, end: Time.DateTime)

  /** A non-empty text with no character at most U+0020 at either end:
      what Trim returns whenever it returns anything. */
  predicate Trimmed(s: string) {
    s != [] && !IsTrimmable(s[0]) && !IsTrimmable(s[|s| - 1])
  }

  /** The text of a line after its first n characters, trimmed; Java's
      substring fails when the line is shorter than n. */
  function TrimmedRest(input: string, n: int): (r: Result<string>)
    ensures r.Err? <==> n < 0 || n > |input|
    ensures r.Err? ==> r.error == IndexOutOfBounds
    ensures r.Ok? ==> r.value == Trim(input[n..])
  {
    if n < 0 || n > |input| then Err(IndexOutOfBounds) else Ok(Trim(input[n..]))
  }

  /** The description of a todo: the line after its first four characters,
      trimmed, and never empty. */
  function ParseTodo(input: string): (r: Result<string>)
    ensures r == Err(IndexOutOfBounds) <==> |input| < 4
    ensures r == Err(Failure(TodoEmpty)) <==>
              |input| >= 4 && forall i :: 4 <= i < |input| ==> IsTrimmable(input[i])
    ensures r.Ok? ==> Trimmed(r.value) && r.value == Trim(input[4..])
  {
    match TrimmedRest(input, 4)
    case Err(e) => Err(e)
    case Ok(description) =>
      TrimEmptyIffBlank(input[4..]);
      assert forall i :: 4 <= i < |input| ==> input[i] == input[4..][i - 4];
      if description == [] then Err(Failure(TodoEmpty)) else Ok(description)
  }

  /** A todo typed as the command word, any spacing and a description with
      no blank ends parses to that description. */
  lemma ParseTodoTyped(pre: string, description: string, post: string)
    requires forall i :: 0 <= i < |pre| ==> IsTrimmable(pre[i])
    requires forall i :: 0 <= i < |post| ==> IsTrimmable(post[i])
    requires Trimmed(description)
    ensures ParseTodo("todo" + pre + description + post) == Ok(description)
  {
    var input := "todo" + pre + description + post;
    assert input[4..] == pre + description + post;
    TrimPadded(pre, description, post);
  }

  /** String.trim() then LocalDateTime.parse with "yyyy-MM-dd HHmm". */
  function ParseDateTime(s: string): (r: Result<Time.DateTime>)
    ensures r.Err? ==> r.error == Failure(DateTimeFormatHint)
  {
    match Time.ParseCanonical(Trim(s))
    case Some(t) => Ok(t)
    case None => Err(Failure(DateTimeFormatHint))
  }

  /** t's canonical spelling, with any blanks around it, parses to t; and
      a text that parses to t is, trimmed, t's canonical spelling exactly
      when its own fields name a real instant. The other texts accepted are
      the ones SMART resolution moves (ParseDateTimeSmart). */
  lemma ParseDateTimeIff(s: string, t: Time.DateTime)
    ensures Trim(s) == Time.Format(t) ==> ParseDateTime(s) == Ok(t)
    ensures ParseDateTime(s) == Ok(t) ==>
              (Trim(s) == Time.Format(t) <==> Time.ValidTimestamp(Time.ReadFields(Trim(s))))
  {
    Time.CanonicalParseIff(Trim(s), t);
  }

  /** A day past the end of its month is read as the month's last day, and
      24:00 as midnight starting the next day. */
  lemma ParseDateTimeSmart()
    ensures ParseDateTime("2023-02-30 1800") == Ok(Time.Timestamp(2023, 2, 28, 18, 0))
    ensures ParseDateTime("2024-12-25 2400") == Ok(Time.Timestamp(2024, 12, 26, 0, 0))
  {
    TrimFixesTrimmed("2023-02-30 1800");
    TrimFixesTrimmed("2024-12-25 2400");
    Time.SmartExamples();
  }

  /** String.trim() then LocalDate.parse. */
  function ParseDate(s: string): (r: Result<Time.IsoDate>)
    ensures r.Err? ==> r.error == Failure(DateFormatHint)
  {
    match Time.ParseIsoDate(Trim(s))
    case Some(d) => Ok(d)
    case None => Err(Failure(DateFormatHint))
  }

  /** A text parses to the date d exactly when, trimmed, it is d's ISO
      spelling. */
  lemma ParseDateIff(s: string, d: Time.IsoDate)
    ensures ParseDate(s) == Ok(d) <==> Trim(s) == Time.FormatIsoDate(d)
  {
    Time.IsoDateParseIff(Trim(s), d);
  }

  // ------------------------------------------------------------ deadline

  /** A deadline: the line after its first eight characters, trimmed, is
      the description, " /by ", and the instant; only the text between the
      first " /by " and the next one is read as the instant. */
  function ParseDeadline(input: string): (r: Result<DeadlineFields>)
    ensures r == Err(IndexOutOfBounds) <==> |input| < 8
    ensures r == Err(Failure(DeadlineEmpty)) <==> |input| >= 8 && Trim(input[8..]) == []
  {
    match TrimmedRest(input, 8)
    case Err(e) => Err(e)
    case Ok(text) =>
      if text == [] then Err(Failure(DeadlineEmpty))
      else
        var parts := Split(text, By);
        if |parts| < 2 || Trim(parts[1]) == [] then Err(Failure(DeadlineNoBy))
        else
          match ParseDateTime(parts[1])
          case Err(e) => Err(e)
          case Ok(due) => Ok(DeadlineFields(parts[0], due))
  }

  /** A parsed deadline's description is the non-empty text before the
      first " /by ", and its instant is what the text between that " /by "
      and the next one parses to. */
  lemma ParseDeadlineOk(input: string)
    requires ParseDeadline(input).Ok?
    ensures var text, r := Trim(input[8..]), ParseDeadline(input).value;
            && Contains(text, By)
            && r.description == text[..IndexOf(text, By)]
            && r.description != [] && !IsTrimmable(r.description[0])
            && ParseDateTime(SecondPiece(text, By)) == Ok(r.due)
  {
    var text := Trim(input[8..]);
    SplitFirstFields(text, By);
    assert IndexOf(text, By) != 0 by {
      assert text[0] != By[0];
    }
  }

  /** Once there is a description, a " /by " and a non-blank piece after
      it, the deadline is exactly what that piece parses to: the instant
      with the description before the first " /by ", or the instant's
      error. */
  lemma ParseDeadlineIff(input: string)
    requires |input| >= 8 && Trim(input[8..]) != []
    requires Contains(Trim(input[8..]), By) && Trim(SecondPiece(Trim(input[8..]), By)) != []
    ensures var text := Trim(input[8..]);
            ParseDeadline(input) ==
              match ParseDateTime(SecondPiece(text, By))
              case Err(e) => Err(e)
              case Ok(due) => Ok(DeadlineFields(text[..IndexOf(text, By)], due))
  {
    var text := Trim(input[8..]);
    SplitHasTwoFields(text, By);
    SplitFirstFields(text, By);
  }

  /** A deadline whose instant is not a date-time gives the date-time
      hint. */
  lemma ParseDeadlineBadInstant()
    ensures ParseDeadline("deadline x /by tomorrow") == Err(Failure(DateTimeFormatHint))
  {
    var input := "deadline x /by tomorrow";
    BadInstantText(input, "x /by tomorrow");
    BadInstantRejected(input);
  }

  lemma BadInstantRejected(input: string)
    requires |input| >= 8 && Trim(input[8..]) != []
    requires Contains(Trim(input[8..]), By) && SecondPiece(Trim(input[8..]), By) == "tomorrow"
    ensures ParseDeadline(input) == Err(Failure(DateTimeFormatHint))
  {
    TrimFixesTrimmed("tomorrow");
    ParseDeadlineIff(input);
  }

  lemma BadInstantText(input: string, text: string)
    requires input == "deadline x /by tomorrow" && text == "x /by tomorrow"
    ensures Trim(input[8..]) == text
    ensures Contains(text, By) && SecondPiece(text, By) == "tomorrow"
  {
    assert input[8..] == " " + text + "";
    TrimPadded(" ", text, "");
    BadInstantPiece(text);
  }

  lemma BadInstantPiece(text: string)
    requires text == "x /by tomorrow"
    ensures Contains(text, By) && SecondPiece(text, By) == "tomorrow"
  {
    BadInstantBy(text);
    var rest := text[6..];
    assert rest == "tomorrow";
    MissingCharNotContained(rest, By, 1);
  }

  lemma BadInstantBy(text: string)
    requires text == "x /by tomorrow"
    ensures IndexOf(text, By) == 1
  {
    assert OccursAt(text, By, 1) by {
      assert text[1..6] == By;
    }
    assert !OccursAt(text, By, 0) by {
      assert text[0] != By[0];
    }
  }

  /** The "/by" error: there is a description, but no " /by ", or nothing
      but blanks between the first " /by " and the next one. */
  lemma ParseDeadlineNoBy(input: string)
    requires |input| >= 8 && Trim(input[8..]) != []
    ensures var text := Trim(input[8..]);
            ParseDeadline(input) == Err(Failure(DeadlineNoBy)) <==>
              !Contains(text, By) || Trim(SecondPiece(text, By)) == []
  {
    var text := Trim(input[8..]);
    SplitHasTwoFields(text, By);
    SplitFirstFields(text, By);
  }

  /** A deadline typed as "deadline", a description, " /by " and the
      canonical spelling of an instant parses to that description and that
      instant, provided the description starts with a printing character
      and holds no " /by " (not even one reaching into the separator). */
  lemma ParseDeadlineTyped(description: string, due: Time.DateTime)
    requires description != [] && !IsTrimmable(description[0])
    requires Separable(description, By)
    ensures ParseDeadline("deadline " + (description + By + Time.Format(due))) == Ok(DeadlineFields(description, due))
  {
    var f := Time.Format(due);
    var text := description + By + f;
    TypedRest("deadline ", description, By, f);
    SplitTyped(description, By, due);
    ParseDateTimeFormat(due);
    DeadlineFromParts("deadline " + text, text, description, f, due);
  }

  /** A command word and a space, then a description that starts with a
      printing character, a separator and a field that ends with one: the
      parser reads everything after the word. */
  lemma TypedRest(prefix: string, description: string, sep: string, f: string)
    requires prefix != [] && prefix[|prefix| - 1] == ' '
    requires description != [] && !IsTrimmable(description[0])
    requires f != [] && !IsTrimmable(f[|f| - 1])
    ensures TrimmedRest(prefix + (description + sep + f), |prefix| - 1) == Ok(description + sep + f)
  {
    var text := description + sep + f;
    assert Trimmed(text) by {
      assert text[|text| - 1] == f[|f| - 1];
    }
    AfterPrefix(prefix, text);
  }

  /** A separable description, a separator without repeated leading
      characters and an instant split back into the description and the
      instant. */
  lemma SplitTyped(description: string, sep: string, t: Time.DateTime)
    requires |sep| >= 2 && sep[0] != sep[1] && sep[1] in "|/"
    requires Separable(description, sep)
    ensures Split(description + sep + Time.Format(t), sep) == [description, Time.Format(t)]
  {
    var f := Time.Format(t);
    Time.FormatAvoids(t);
    SeparableByAbsence(f, sep);
    JoinCons(description, [f], sep);
    SplitJoin([description, f], sep);
  }

  /** What a command word and a space, followed by a text that starts and
      ends with a printing character, leave for the parser, whether it cuts
      before the space or after it. */
  lemma AfterPrefix(prefix: string, text: string)
    requires prefix != [] && prefix[|prefix| - 1] == ' '
    requires Trimmed(text)
    ensures TrimmedRest(prefix + text, |prefix|) == Ok(text)
    ensures TrimmedRest(prefix + text, |prefix| - 1) == Ok(text)
  {
    var input := prefix + text;
    assert input[|prefix|..] == text;
    TrimFixesTrimmed(text);
    assert input[|prefix| - 1..] == " " + text + "";
    TrimPadded(" ", text, "");
  }

  lemma DeadlineFromParts(input: string, text: string, description: string, f: string, due: Time.DateTime)
    requires TrimmedRest(input, 8) == Ok(text) && text != []
    requires Split(text, By) == [description, f] && Trim(f) != [] && ParseDateTime(f) == Ok(due)
    ensures ParseDeadline(input) == Ok(DeadlineFields(description, due))
  {
  }

  // --------------------------------------------------------------- event

  /** An event: the line after its first five characters, trimmed, is the
      description, " /from ", the start, " /to " and the end. Only the text
      between the first " /from " and the next one is read for the
      instants, and only its first two " /to "-separated pieces. */
  function ParseEvent(input: string): (r: Result<EventFields>)
    ensures r == Err(IndexOutOfBounds) <==> |input| < 5
    ensures r == Err(Failure(EventEmpty)) <==> |input| >= 5 && Trim(input[5..]) == []
  {
    match TrimmedRest(input, 5)
    case Err(e) => Err(e)
    case Ok(text) =>
      if text == [] then Err(Failure(EventEmpty))
      else
        var parts := Split(text, From);
        if |parts| < 2 then Err(Failure(EventNoFrom))
        else
          var times := Split(parts[1], To);
          if |times| < 2 || Trim(times[1]) == [] then Err(Failure(EventNoTo))
          else
            match (ParseDateTime(times[0]), ParseDateTime(times[1]))
            case (Err(e), _) => Err(e)
            case (Ok(_), Err(e)) => Err(e)
            case (Ok(start), Ok(end)) => Ok(EventFields(parts[0], start, end))
  }

  /** The "/from" error: there is a description but no " /from ". */
  lemma ParseEventNoFrom(input: string)
    requires |input| >= 5 && Trim(input[5..]) != []
    ensures ParseEvent(input) == Err(Failure(EventNoFrom)) <==> !Contains(Trim(input[5..]), From)
  {
    SplitHasTwoFields(Trim(input[5..]), From);
  }

  /** The "/to" error: there is a description and a " /from ", but the
      text after it up to the next " /from " has no " /to ", or nothing but
      blanks in the second " /to " piece. */
  lemma ParseEventNoTo(input: string)
    requires |input| >= 5 && Trim(input[5..]) != [] && Contains(Trim(input[5..]), From)
    ensures var text := Trim(input[5..]);
            var times := Split(SecondPiece(text, From), To);
            ParseEvent(input) == Err(Failure(EventNoTo)) <==> |times| < 2 || Trim(times[1]) == []
  {
    var text := Trim(input[5..]);
    SplitHasTwoFields(text, From);
    SplitFirstFields(text, From);
  }

  /** Once there is a description, a " /from " and, after it, a " /to "
      with a non-blank piece following, the event is exactly what the two
      " /to " pieces parse to: both instants with the description before
      the first " /from ", or the first piece's error, else the second's. */
  lemma ParseEventIff(input: string)
    requires |input| >= 5 && Trim(input[5..]) != [] && Contains(Trim(input[5..]), From)
    requires var times := Split(SecondPiece(Trim(input[5..]), From), To);
             |times| >= 2 && Trim(times[1]) != []
    ensures var text := Trim(input[5..]);
            var times := Split(SecondPiece(text, From), To);
            ParseEvent(input) ==
              match (ParseDateTime(times[0]), ParseDateTime(times[1]))
              case (Err(e), _) => Err(e)
              case (Ok(_), Err(e)) => Err(e)
              case (Ok(start), Ok(end)) => Ok(EventFields(text[..IndexOf(text, From)], start, end))
  {
    var text := Trim(input[5..]);
    SplitHasTwoFields(text, From);
    SplitFirstFields(text, From);
  }

  /** A parsed event's description is the non-empty text before the first
      " /from ", and its start and end are what the first two " /to "
      pieces of the text after it parse to. */
  lemma ParseEventOk(input: string)
    requires ParseEvent(input).Ok?
    ensures var text, r := Trim(input[5..]), ParseEvent(input).value;
            && Contains(text, From)
            && r.description == text[..IndexOf(text, From)]
            && r.description != [] && !IsTrimmable(r.description[0])
    ensures var text, r := Trim(input[5..]), ParseEvent(input).value;
            var times := Split(SecondPiece(text, From), To);
            && |times| >= 2 && Trim(times[1]) != []
            && ParseDateTime(times[0]) == Ok(r.start)
            && ParseDateTime(times[1]) == Ok(r.end)
  {
    var text := Trim(input[5..]);
    SplitFirstFields(text, From);
    assert IndexOf(text, From) != 0 by {
      assert text[0] != From[0];
    }
  }

  /** The instants part of a typed event, cut at " /to ", gives the two
      canonical spellings back. */
  lemma SplitTypedSpan(start: Time.DateTime, end: Time.DateTime)
    ensures Split(Time.Format(start) + To + Time.Format(end), To) == [Time.Format(start), Time.Format(end)]
  {
    var f1, f2 := Time.Format(start), Time.Format(end);
    Time.FormatAvoids(start);
    Time.FormatAvoids(end);
    SeparableByAbsence(f1, To);
    SeparableByAbsence(f2, To);
    JoinCons(f1, [f2], To);
    SplitJoin([f1, f2], To);
  }

  /** The instants part of a typed event holds no " /from ". */
  lemma SpanAvoidsFrom(start: Time.DateTime, end: Time.DateTime)
    ensures !Contains(Time.Format(start) + To + Time.Format(end), From)
  {
    var f1, f2 := Time.Format(start), Time.Format(end);
    Time.FormatAvoids(start);
    Time.FormatAvoids(end);
    assert 'f' !in f1 + To + f2;
    MissingCharNotContained(f1 + To + f2, From, 2);
  }

  /** The canonical spelling of an instant parses back to it. */
  lemma ParseDateTimeFormat(t: Time.DateTime)
    ensures ParseDateTime(Time.Format(t)) == Ok(t)
  {
    ParseDateTimeIff(Time.Format(t), t);
    TrimFixesTrimmed(Time.Format(t));
  }

  /** An event typed as "event", a description, " /from ", the canonical
      start, " /to " and the canonical end parses to those three, provided
      the description starts with a printing character and holds no
      " /from " (not even one reaching into the separator). */
  lemma ParseEventTyped(description: string, start: Time.DateTime, end: Time.DateTime)
    requires description != [] && !IsTrimmable(description[0])
    requires Separable(description, From)
    ensures ParseEvent("event " + (description + From + (Time.Format(start) + To + Time.Format(end))))
            == Ok(EventFields(description, start, end))
  {
    var f1, f2 := Time.Format(start), Time.Format(end);
    var span := f1 + To + f2;
    var text := description + From + span;
    TypedEventText(description, start, end);
    SplitTypedSpan(start, end);
    ParseDateTimeFormat(start);
    ParseDateTimeFormat(end);
    EventFromParts("event " + text, text, description, span, f1, f2, start, end);
  }

  /** The text of a typed event is what the parser reads after the command
      word, and its first " /from " is the one typed. */
  lemma TypedEventText(description: string, start: Time.DateTime, end: Time.DateTime)
    requires description != [] && !IsTrimmable(description[0])
    requires Separable(description, From)
    ensures var span := Time.Format(start) + To + Time.Format(end);
            var text := description + From + span;
            && text != []
            && TrimmedRest("event " + text, 5) == Ok(text)
            && Split(text, From) == [description, span]
  {
    var f1, f2 := Time.Format(start), Time.Format(end);
    var span := f1 + To + f2;
    assert span[|span| - 1] == f2[14];
    TypedRest("event ", description, From, span);
    SplitTypedEvent(description, start, end);
  }

  lemma SplitTypedEvent(description: string, start: Time.DateTime, end: Time.DateTime)
    requires Separable(description, From)
    ensures var span := Time.Format(start) + To + Time.Format(end);
            Split(description + From + span, From) == [description, span]
  {
    var span := Time.Format(start) + To + Time.Format(end);
    SpanAvoidsFrom(start, end);
    JoinCons(description, [span], From);
    SplitJoin([description, span], From);
  }

  lemma EventFromParts(input: string, text: string, description: string, span: string,
                       f1: string, f2: string, start: Time.DateTime, end: Time.DateTime)
    requires TrimmedRest(input, 5) == Ok(text) && text != []
    requires Split(text, From) == [description, span] && Split(span, To) == [f1, f2]
    requires Trim(f2) != [] && ParseDateTime(f1) == Ok(start) && ParseDateTime(f2) == Ok(end)
    ensures ParseEvent(input) == Ok(EventFields(description, start, end))
  {
  }

  // ------------------------------------------------------ index, keywords

  /** The 1-based task number after the command word: the rest of the line,
      trimmed, read by Integer.parseInt. */
  function ParseIndex(input: string, commandLength: int): (r: Result<int>)
    ensures r == Err(IndexOutOfBounds) <==> commandLength < 0 || commandLength > |input|
    ensures r == Err(Failure(IndexMissing)) <==>
              0 <= commandLength <= |input| && Trim(input[commandLength..]) == []
    ensures r == Err(Failure(IndexInvalid)) <==>
              0 <= commandLength <= |input| && Trim(input[commandLength..]) != []
              && ParseInt(Trim(input[commandLength..])).None?
    ensures r.Ok? ==>
              && MinInt <= r.value <= MaxInt
              && ParseInt(Trim(input[commandLength..])) == Some(r.value)
  {
    match TrimmedRest(input, commandLength)
    case Err(e) => Err(e)
    case Ok(text) =>
      if text == [] then Err(Failure(IndexMissing))
      else
        match ParseInt(text)
        case None => Err(Failure(IndexInvalid))
        case Some(n) => Ok(n)
  }

  /** A command word, a space and the decimal spelling of a Java int parses
      back to that int. */
  lemma ParseIndexTyped(word: string, n: int)
    requires MinInt <= n <= MaxInt
    ensures ParseIndex(word + " " + IntToString(n), |word|) == Ok(n)
  {
    var digits := IntToString(n);
    var input := word + " " + digits;
    assert input[|word|..] == " " + digits + "";
    assert digits != [] && !IsTrimmable(digits[0]) && !IsTrimmable(digits[|digits| - 1]) by {
      var m := if n < 0 then -n else n;
      var d := DecimalString(m);
      assert IsDigit(d[0]) && IsDigit(d[|d| - 1]);
      if n < 0 {
        assert digits == "-" + d;
      }
    }
    TrimPadded(" ", digits, "");
    ParseIntToString(n);
  }

  /** The keywords after the command word: the rest of the line, trimmed,
      cut at every run of \s characters. */
  function ParseKeyword(input: string, commandLength: int): (r: Result<seq<string>>)
    ensures r == Err(IndexOutOfBounds) <==> commandLength < 0 || commandLength > |input|
    ensures r == Err(Failure(KeywordsMissing)) <==>
              0 <= commandLength <= |input| && Trim(input[commandLength..]) == []
    ensures r.Ok? ==>
              && |r.value| >= 1 && AllTokens(r.value)
              && Concat(r.value) == RemoveWhitespace(Trim(input[commandLength..]))
  {
    match TrimmedRest(input, commandLength)
    case Err(e) => Err(e)
    case Ok(text) =>
      if text == [] then Err(Failure(KeywordsMissing))
      else
        SplitWhitespaceTokens(text);
        Ok(SplitWhitespace(text))
  }

  /** Keywords typed after the command word with any whitespace between
      them, and blanks around, parse back to those keywords, provided the
      first starts and the last ends with a printing character. */
  lemma ParseKeywordTyped(word: string, pre: string, ts: seq<string>, gaps: seq<string>, post: string)
    requires forall i :: 0 <= i < |pre| ==> IsTrimmable(pre[i])
    requires forall i :: 0 <= i < |post| ==> IsTrimmable(post[i])
    requires |ts| >= 1 && |gaps| == |ts| - 1 && AllTokens(ts)
    requires forall k :: 0 <= k < |gaps| ==> IsGap(gaps[k])
    requires !IsTrimmable(ts[0][0]) && !IsTrimmable(ts[|ts| - 1][|ts[|ts| - 1]| - 1])
    ensures ParseKeyword(word + (pre + Spaced(ts, gaps) + post), |word|) == Ok(ts)
  {
    var text := Spaced(ts, gaps);
    var input := word + (pre + text + post);
    assert input[|word|..] == pre + text + post;
    SpacedEnds(ts, gaps);
    TrimPadded(pre, text, post);
    SplitWhitespaceSpaced(ts, gaps);
  }
}
