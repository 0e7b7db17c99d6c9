/** Naive local date-times and dates: the canonical "yyyy-MM-dd HHmm" text
    form (used on disk and as the only accepted input form), the ISO
    "yyyy-MM-dd" date form, and the "MMM dd yyyy, h:mma" display form. */
module Time {
  import opened Results
  import opened Decimal

  /** The fields of a java.time.LocalDateTime down to the minute. */
  datatype Timestamp = Timestamp(year: int, month: int, day: int, hour: int, minute: int)

  /** The proleptic Gregorian leap-year rule java.time uses. */
  predicate IsLeapYear(y: int) {
    y % 4 == 0 && (y % 100 != 0 || y % 400 == 0)
  }

  function DaysInMonth(y: int, m: int): (n: int)
    requires 1 <= m <= 12
    ensures 28 <= n <= 31
  {
    if m == 2 then (if IsLeapYear(y) then 29 else 28)
    else if m == 4 || m == 6 || m == 9 || m == 11 then 30
    else 31
  }

  predicate ValidDate(y: int, m: int, d: int) {
    1 <= m <= 12 && 1 <= d <= DaysInMonth(y, m)
  }

  /** A real calendar instant whose year the pattern letters "yyyy"
      (year-of-era, so never 0) write as exactly four digits. */
  predicate ValidTimestamp(t: Timestamp) {
    && 1 <= t.year <= 9999
    && ValidDate(t.year, t.month, t.day)
    && 0 <= t.hour <= 23
    && 0 <= t.minute <= 59
  }

  type DateTime = t: Timestamp | ValidTimestamp(t) witness Timestamp(2000, 1, 1, 0, 0)

  // ------------------------------------------------- "yyyy-MM-dd HHmm"

  /** The fields written zero-padded to the widths of "yyyy-MM-dd HHmm",
      whether or not they name a real instant. */
  function Spell(f: Timestamp): (r: string)
    requires f.year >= 0 && f.month >= 0 && f.day >= 0 && f.hour >= 0 && f.minute >= 0
    ensures CanonicalShape(r)
  {
    Pad(f.year, 4) + "-" + Pad(f.month, 2) + "-" + Pad(f.day, 2) + " " + Pad(f.hour, 2) + Pad(f.minute, 2)
  }

  /** Formatting with the pattern "yyyy-MM-dd HHmm": every field zero-padded
      to its width. */
  function Format(t: DateTime): (r: string)
    ensures |r| == 15
    ensures forall i :: 0 <= i < |r| ==> IsDigit(r[i]) || r[i] == '-' || r[i] == ' '
    ensures IsDigit(r[0]) && IsDigit(r[14])
  {
    Spell(t)
  }

  /** The canonical form has its dashes at 4 and 7, its one space at 10,
      and digits everywhere else. */
  lemma FormatLayout(t: DateTime)
    ensures forall i :: 0 <= i < 15 ==> (Format(t)[i] == '-' <==> i == 4 || i == 7)
    ensures forall i :: 0 <= i < 15 ==> (Format(t)[i] == ' ' <==> i == 10)
    ensures forall i :: 0 <= i < 15 && i != 4 && i != 7 && i != 10 ==> IsDigit(Format(t)[i])
  {
  }

  /** The canonical form holds none of the characters '|', '/', 'f', 'o'
      and 't' that the storage and command separators are made of. */
  lemma FormatAvoids(t: DateTime)
    ensures '|' !in Format(t) && '/' !in Format(t)
    ensures 'f' !in Format(t) && 'o' !in Format(t) && 't' !in Format(t)
  {
  }

  /** The canonical spelling of 6 pm on Christmas Day 2024. */
  lemma FormatExample()
    ensures Format(Timestamp(2024, 12, 25, 18, 0)) == "2024-12-25 1800"
  {
    PadExamples();
    SpellOf(Timestamp(2024, 12, 25, 18, 0), "2024", "12", "25", "18", "00");
  }

  /** The spelling of fields whose padded forms are known. */
  lemma SpellOf(f: Timestamp, y: string, m: string, d: string, h: string, mi: string)
    requires f.year >= 0 && f.month >= 0 && f.day >= 0 && f.hour >= 0 && f.minute >= 0
    requires Pad(f.year, 4) == y && Pad(f.month, 2) == m && Pad(f.day, 2) == d
    requires Pad(f.hour, 2) == h && Pad(f.minute, 2) == mi
    ensures Spell(f) == y + "-" + m + "-" + d + " " + h + mi
  {
  }

  lemma PadExamples()
    ensures Pad(2024, 4) == "2024" && Pad(12, 2) == "12" && Pad(25, 2) == "25"
    ensures Pad(18, 2) == "18" && Pad(0, 2) == "00"
  {
    PadYearExample();
    assert Pad(12, 2) == "12" by {
      assert Pad(1, 1) == "1";
    }
    assert Pad(25, 2) == "25" by {
      assert Pad(2, 1) == "2";
    }
    assert Pad(18, 2) == "18" by {
      assert Pad(1, 1) == "1";
    }
    assert Pad(0, 2) == "00" by {
      assert Pad(0, 1) == "0";
    }
  }

  lemma PadYearExample()
    ensures Pad(2024, 4) == "2024"
  {
    assert Pad(2, 1) == "2";
    assert Pad(20, 2) == "20";
    assert Pad(202, 3) == "202";
  }

  /** Digits, dashes and the space exactly where "yyyy-MM-dd HHmm" has them. */
  predicate CanonicalShape(s: string) {
    && |s| == 15
    && s[4] == '-' && s[7] == '-' && s[10] == ' '
    && AllDigits(s[0..4]) && AllDigits(s[5..7]) && AllDigits(s[8..10])
    && AllDigits(s[11..13]) && AllDigits(s[13..15])
  }

  /** The numbers in the digit fields of a text of the pattern's shape,
      before they are resolved to an instant. */
  function ReadFields(s: string): Timestamp
    requires CanonicalShape(s)
  {
    Timestamp(DecimalValue(s[0..4]), DecimalValue(s[5..7]), DecimalValue(s[8..10]),
              DecimalValue(s[11..13]), DecimalValue(s[13..15]))
  }

  /** Fields that fit their widths are read back from their spelling. */
  lemma ReadSpell(f: Timestamp)
    requires 0 <= f.year < 10000 && 0 <= f.month < 100 && 0 <= f.day < 100
    requires 0 <= f.hour < 100 && 0 <= f.minute < 100
    ensures ReadFields(Spell(f)) == f
  {
    var s := Spell(f);
    assert Pow10(2) == 100 && Pow10(4) == 10000;
    assert s[0..4] == Pad(f.year, 4);
    assert s[5..7] == Pad(f.month, 2);
    assert s[8..10] == Pad(f.day, 2);
    assert s[11..13] == Pad(f.hour, 2);
    assert s[13..15] == Pad(f.minute, 2);
    PadValue(f.year, 4);
    PadValue(f.month, 2);
    PadValue(f.day, 2);
    PadValue(f.hour, 2);
    PadValue(f.minute, 2);
  }

  /** A text of the pattern's shape is the spelling of its own fields. */
  lemma SpellRead(s: string)
    requires CanonicalShape(s)
    ensures Spell(ReadFields(s)) == s
  {
    ValuePad(s[0..4]);
    ValuePad(s[5..7]);
    ValuePad(s[8..10]);
    ValuePad(s[11..13]);
    ValuePad(s[13..15]);
    assert s == s[0..4] + "-" + s[5..7] + "-" + s[8..10] + " " + s[11..13] + s[13..15];
  }

  /** The day itself when the month has it, otherwise the month's last day:
      the SMART resolver's "previous valid" rule for days 29 to 31. */
  function ClampDay(y: int, m: int, d: int): (r: int)
    requires 1 <= m <= 12 && 1 <= d <= 31
    ensures ValidDate(y, m, r) && r <= d
    ensures r < d ==> r == DaysInMonth(y, m)
  {
    if d <= DaysInMonth(y, m) then d else DaysInMonth(y, m)
  }

  /** Midnight at the start of the day after a date. */
  function StartOfNextDay(y: int, m: int, d: int): (r: Timestamp)
    requires ValidDate(y, m, d)
    ensures ValidDate(r.year, r.month, r.day) && r.hour == 0 && r.minute == 0
    ensures r.year == y || (r.year == y + 1 && m == 12 && d == 31 && r.month == 1 && r.day == 1)
  {
    if d < DaysInMonth(y, m) then Timestamp(y, m, d + 1, 0, 0)
    else if m < 12 then Timestamp(y, m + 1, 1, 0, 0)
    else Timestamp(y + 1, 1, 1, 0, 0)
  }

  /** ResolverStyle.SMART, the style of a formatter made by ofPattern: each
      field must lie in its range (the year of era from 1, the day of month
      up to 31); a day past the end of its month becomes the month's last
      day; and 24:00 is midnight at the start of the next day. An instant
      past the year 9999 is not a DateTime of this model. */
  function Resolve(f: Timestamp): (r: Option<DateTime>)
    ensures ValidTimestamp(f) ==> r == Some(f)
    ensures r.Some? ==> 1 <= f.month <= 12 && 1 <= f.day <= 31 && 0 <= f.minute <= 59
    ensures r.Some? ==> 0 <= f.hour <= 23 || (f.hour == 24 && f.minute == 0)
  {
    if !(1 <= f.year <= 9999 && 1 <= f.month <= 12 && 1 <= f.day <= 31 && 0 <= f.minute <= 59) then None
    else
      var day := ClampDay(f.year, f.month, f.day);
      if 0 <= f.hour <= 23 then Some(Timestamp(f.year, f.month, day, f.hour, f.minute))
      else if f.hour == 24 && f.minute == 0 then
        var t := StartOfNextDay(f.year, f.month, day);
        if t.year <= 9999 then Some(t) else None
      else None
  }

  /** The fields SMART resolution rejects: one outside its range, or 24:00
      at the end of the last day of 9999, which would leave the model's
      range of years. */
  lemma ResolveRejects(f: Timestamp)
    ensures Resolve(f).None? <==>
              || !(1 <= f.year <= 9999 && 1 <= f.month <= 12 && 1 <= f.day <= 31 && 0 <= f.minute <= 59)
              || !(0 <= f.hour <= 23 || (f.hour == 24 && f.minute == 0))
              || (f.hour == 24 && f.year == 9999 && f.month == 12 && f.day == 31)
  {
  }

  /** A day past the end of its month, up to 31, resolves to the month's
      last day with the rest unchanged. */
  lemma ResolveDayPastEnd(f: Timestamp)
    requires 1 <= f.year <= 9999 && 1 <= f.month <= 12 && DaysInMonth(f.year, f.month) < f.day <= 31
    requires 0 <= f.hour <= 23 && 0 <= f.minute <= 59
    ensures Resolve(f) == Some(f.(day := DaysInMonth(f.year, f.month)))
  {
  }

  /** 24:00 on a day resolves to midnight at the start of the next day. */
  lemma ResolveEndOfDay(f: Timestamp)
    requires 1 <= f.year <= 9999 && ValidDate(f.year, f.month, f.day) && f.hour == 24 && f.minute == 0
    requires f.year < 9999 || f.month < 12 || f.day < 31
    ensures Resolve(f) == Some(StartOfNextDay(f.year, f.month, f.day))
  {
  }

  /** LocalDateTime.parse(s, ofPattern("yyyy-MM-dd HHmm")): the whole text
      must have the pattern's shape, and its fields are resolved SMART. */
  function ParseCanonical(s: string): (r: Option<DateTime>)
  {
    if !CanonicalShape(s) then None else Resolve(ReadFields(s))
  }

  lemma ParseFormat(t: DateTime)
    ensures ParseCanonical(Format(t)) == Some(t)
  {
    ReadSpell(t);
  }

  /** A text whose fields already name a real instant parses to the instant
      it spells. */
  lemma FormatParse(s: string, t: DateTime)
    requires CanonicalShape(s) && ValidTimestamp(ReadFields(s))
    requires ParseCanonical(s) == Some(t)
    ensures Format(t) == s
  {
    SpellRead(s);
  }

  /** The canonical spelling of t parses to t, and a text that parses to t
      is t's canonical spelling exactly when its own fields are a real
      instant; the other accepted texts are those SMART resolution moves
      (ParseDayPastEnd, ParseEndOfDay). */
  lemma CanonicalParseIff(s: string, t: DateTime)
    ensures s == Format(t) ==> ParseCanonical(s) == Some(t)
    ensures ParseCanonical(s) == Some(t) ==> (s == Format(t) <==> ValidTimestamp(ReadFields(s)))
  {
    if s == Format(t) {
      ParseFormat(t);
      ReadSpell(t);
    }
    if ParseCanonical(s) == Some(t) && ValidTimestamp(ReadFields(s)) {
      FormatParse(s, t);
    }
  }

  /** A text naming a day past the end of its month parses to the month's
      last day. */
  lemma ParseDayPastEnd(s: string)
    requires CanonicalShape(s)
    requires var f := ReadFields(s);
             && 1 <= f.year && 1 <= f.month <= 12 && DaysInMonth(f.year, f.month) < f.day <= 31
             && f.hour <= 23 && f.minute <= 59
    ensures var f := ReadFields(s);
            ParseCanonical(s) == Some(f.(day := DaysInMonth(f.year, f.month)))
  {
    DecimalValueBound(s[0..4]);
    ResolveDayPastEnd(ReadFields(s));
  }

  /** A text naming 24:00 on a day parses to midnight at the start of the
      next day. */
  lemma ParseEndOfDay(s: string)
    requires CanonicalShape(s)
    requires var f := ReadFields(s);
             && 1 <= f.year && ValidDate(f.year, f.month, f.day) && f.hour == 24 && f.minute == 0
             && (f.year < 9999 || f.month < 12 || f.day < 31)
    ensures var f := ReadFields(s);
            ParseCanonical(s) == Some(StartOfNextDay(f.year, f.month, f.day))
  {
    DecimalValueBound(s[0..4]);
    ResolveEndOfDay(ReadFields(s));
  }

  /** February 30th 2023 is read as February 28th, and 24:00 on Christmas
      Day 2024 as midnight starting Boxing Day. */
  lemma SmartExamples()
    ensures ParseCanonical("2023-02-30 1800") == Some(Timestamp(2023, 2, 28, 18, 0))
    ensures ParseCanonical("2024-12-25 2400") == Some(Timestamp(2024, 12, 26, 0, 0))
  {
    ClampedText();
    EndOfDayText();
    var f1 := Timestamp(2023, 2, 30, 18, 0);
    var f2 := Timestamp(2024, 12, 25, 24, 0);
    ReadSpell(f1);
    ReadSpell(f2);
    assert Resolve(f1) == Some(Timestamp(2023, 2, 28, 18, 0));
    assert Resolve(f2) == Some(Timestamp(2024, 12, 26, 0, 0));
  }

  lemma ClampedText()
    ensures Spell(Timestamp(2023, 2, 30, 18, 0)) == "2023-02-30 1800"
  {
    ClampedPads();
    PadExamples();
    SpellOf(Timestamp(2023, 2, 30, 18, 0), "2023", "02", "30", "18", "00");
  }

  lemma ClampedPads()
    ensures Pad(2023, 4) == "2023" && Pad(2, 2) == "02" && Pad(30, 2) == "30"
  {
    assert Pad(2, 1) == "2";
    assert Pad(20, 2) == "20";
    assert Pad(202, 3) == "202";
    assert Pad(0, 1) == "0";
    assert Pad(3, 1) == "3";
  }

  lemma EndOfDayText()
    ensures Spell(Timestamp(2024, 12, 25, 24, 0)) == "2024-12-25 2400"
  {
    PadExamples();
    PadDay24();
    SpellOf(Timestamp(2024, 12, 25, 24, 0), "2024", "12", "25", "24", "00");
  }

  lemma PadDay24()
    ensures Pad(24, 2) == "24"
  {
    assert Pad(2, 1) == "2";
  }

  // -------------------------------------------------------- "yyyy-MM-dd"

  /** The fields of a java.time.LocalDate. */
  datatype Date = Date(year: int, month: int, day: int)

  /** A real calendar date whose proleptic year ISO 8601 writes as four
      digits, with a '-' before a year below 0. */
  predicate ValidIsoDate(d: Date) {
    -9999 <= d.year <= 9999 && ValidDate(d.year, d.month, d.day)
  }

  type IsoDate = d: Date | ValidIsoDate(d) witness Date(2000, 1, 1)

  /** The ISO 8601 calendar date in extended format, yyyy-MM-dd, with a
      minus sign before a negative year (sections 4.1.2.2 and 4.1.2.4 of
      ISO 8601:2004). */
  function FormatIsoDate(d: IsoDate): (r: string)
    ensures |r| == if d.year < 0 then 11 else 10
    ensures r[0] == '-' <==> d.year < 0
  {
    (if d.year < 0 then "-" + Pad(-d.year, 4) else Pad(d.year, 4)) + "-" + Pad(d.month, 2) + "-" + Pad(d.day, 2)
  }

  predicate IsoDateShape(s: string) {
    && |s| == 10
    && s[4] == '-' && s[7] == '-'
    && AllDigits(s[0..4]) && AllDigits(s[5..7]) && AllDigits(s[8..10])
  }

  /** The date named by a year and the two fields of an unsigned shape. */
  function IsoFields(year: int, s: string): Date
    requires IsoDateShape(s)
  {
    Date(year, DecimalValue(s[5..7]), DecimalValue(s[8..10]))
  }

  /** LocalDate.parse(s): ISO_LOCAL_DATE parsed strictly, so a four-digit
      year may carry a '-' but not a '+', "-0000" is refused, and a day past
      the end of its month is rejected. */
  function ParseIsoDate(s: string): (r: Option<IsoDate>)
  {
    if IsoDateShape(s) then
      var d := IsoFields(DecimalValue(s[0..4]), s);
      if ValidIsoDate(d) then Some(d) else None
    else if |s| == 11 && s[0] == '-' && IsoDateShape(s[1..]) && DecimalValue(s[1..][0..4]) != 0 then
      var d := IsoFields(-(DecimalValue(s[1..][0..4]) as int), s[1..]);
      if ValidIsoDate(d) then Some(d) else None
    else None
  }

  /** A text parses to the date d exactly when it is d's ISO spelling. */
  lemma IsoDateParseIff(s: string, d: IsoDate)
    ensures ParseIsoDate(s) == Some(d) <==> s == FormatIsoDate(d)
  {
    if ParseIsoDate(s) == Some(d) {
      IsoFormatParse(s, d);
    }
    if s == FormatIsoDate(d) {
      IsoParseFormat(d);
    }
  }

  /** The unsigned part of a date's spelling. */
  function IsoBody(d: Date): (r: string)
    requires -9999 <= d.year <= 9999 && 1 <= d.month <= 12 && 1 <= d.day <= 31
    ensures IsoDateShape(r)
  {
    Pad(if d.year < 0 then -d.year else d.year, 4) + "-" + Pad(d.month, 2) + "-" + Pad(d.day, 2)
  }

  lemma ReadIsoBody(d: Date)
    requires -9999 <= d.year <= 9999 && 1 <= d.month <= 12 && 1 <= d.day <= 31
    ensures var b := IsoBody(d);
            && DecimalValue(b[0..4]) == (if d.year < 0 then -d.year else d.year)
            && DecimalValue(b[5..7]) == d.month && DecimalValue(b[8..10]) == d.day
  {
    var b := IsoBody(d);
    var y := if d.year < 0 then -d.year else d.year;
    assert Pow10(2) == 100 && Pow10(4) == 10000;
    assert b[0..4] == Pad(y, 4);
    assert b[5..7] == Pad(d.month, 2);
    assert b[8..10] == Pad(d.day, 2);
    PadValue(y, 4);
    PadValue(d.month, 2);
    PadValue(d.day, 2);
  }

  lemma IsoParseFormat(d: IsoDate)
    ensures ParseIsoDate(FormatIsoDate(d)) == Some(d)
  {
    var s := FormatIsoDate(d);
    var b := IsoBody(d);
    ReadIsoBody(d);
    if d.year < 0 {
      assert s == "-" + b;
      assert s[1..] == b;
    } else {
      assert s == b;
    }
  }

  lemma IsoFormatParse(s: string, d: IsoDate)
    requires ParseIsoDate(s) == Some(d)
    ensures FormatIsoDate(d) == s
  {
    if IsoDateShape(s) {
      IsoBodyRead(s, d);
    } else {
      var b := s[1..];
      IsoBodyRead(b, d);
      assert s == "-" + b;
    }
  }

  /** An unsigned shape is the body of the date read from it. */
  lemma IsoBodyRead(b: string, d: Date)
    requires IsoDateShape(b) && -9999 <= d.year <= 9999
    requires d == IsoFields(d.year, b) && DecimalValue(b[0..4]) == (if d.year < 0 then -d.year else d.year)
    requires 1 <= d.month <= 12 && 1 <= d.day <= 31
    ensures IsoBody(d) == b
  {
    var y := if d.year < 0 then -d.year else d.year;
    assert IsoBody(d) == Pad(y, 4) + "-" + Pad(d.month, 2) + "-" + Pad(d.day, 2);
    PaddedDate(b, y, d.month, d.day);
  }

  lemma PaddedDate(b: string, y: nat, m: nat, dd: nat)
    requires IsoDateShape(b)
    requires DecimalValue(b[0..4]) == y && DecimalValue(b[5..7]) == m && DecimalValue(b[8..10]) == dd
    ensures Pad(y, 4) + "-" + Pad(m, 2) + "-" + Pad(dd, 2) == b
  {
    ValuePad(b[0..4]);
    ValuePad(b[5..7]);
    ValuePad(b[8..10]);
    DashedDate(b);
  }

  lemma DashedDate(b: string)
    requires |b| == 10 && b[4] == '-' && b[7] == '-'
    ensures b == b[0..4] + "-" + b[5..7] + "-" + b[8..10]
  {
  }

  // ---------------------------------------------- "MMM dd yyyy, h:mma"

  /** The pattern letters "MMM": the short English month name. */
  function MonthAbbrev(m: int): (r: string)
    requires 1 <= m <= 12
    ensures |r| == 3
  {
    ["Jan", "Feb", "Mar", "Apr", "May", "Jun", "Jul", "Aug", "Sep", "Oct", "Nov", "Dec"][m - 1]
  }

  /** The pattern letter "h": the hour on a 12-hour clock that reads 12 at
      midnight and at noon. */
  function ClockHour(h: int): (r: int)
    requires 0 <= h <= 23
    ensures 1 <= r <= 12
    ensures r % 12 == h % 12
  {
    if h % 12 == 0 then 12 else h % 12
  }

  /** The pattern "MMM dd yyyy". */
  function DisplayDate(t: DateTime): string
  {
    MonthAbbrev(t.month) + " " + Pad(t.day, 2) + " " + Pad(t.year, 4)
  }

  /** The pattern "h:mma", with the meridiem written "AM" or "PM". */
  function DisplayClock(t: DateTime): string
  {
    DecimalString(ClockHour(t.hour)) + ":" + Pad(t.minute, 2) + (if t.hour < 12 then "AM" else "PM")
  }

  /** The pattern "MMM dd yyyy, h:mma". */
  function Display(t: DateTime): string
  {
    DisplayDate(t) + ", " + DisplayClock(t)
  }
}
