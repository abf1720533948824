/** The text form in which SQLite stores and compares instants.

    The storage format is fixed-width (`YYYY-MM-DDTHH:MM:SS.ffffffZ`), so comparing two
    stored values as text must agree with comparing the instants.  Calendar dates are
    proleptic Gregorian; a date is defined from a day number by counting days, so the
    conversion is the calendar's own and not a formula to be trusted. */
module TimestampText {
  import opened Arith
  import opened Lexicographic

  const DAY: int := 86_400_000_000

  /** The Unix epoch, counted like everything here from 0000-01-01T00:00:00Z. */
  const EPOCH: int := 719_528 * DAY

  // ---------------------------------------------------------------------------
  // Fixed-width records of numbers
  // ---------------------------------------------------------------------------

  /** A decimal field and the separator written after it. */
  datatype Field = Field(width: nat, mark: string)

  function Render(values: seq<nat>, layout: seq<Field>): string
    requires |values| == |layout|
  {
    if values == [] then ""
    else Digits(values[0], layout[0].width) + layout[0].mark + Render(values[1..], layout[1..])
  }

  predicate FitsLayout(values: seq<nat>, layout: seq<Field>) {
    && |values| == |layout|
    && forall i :: 0 <= i < |values| ==> values[i] < Pow10(layout[i].width)
  }

  predicate Before(values: seq<nat>, others: seq<nat>)
    requires |values| == |others|
  {
    if values == [] then false
    else if values[0] != others[0] then values[0] < others[0]
    else Before(values[1..], others[1..])
  }

  lemma {:induction false} RenderLength(values: seq<nat>, others: seq<nat>, layout: seq<Field>)
    requires |values| == |others| == |layout|
    ensures |Render(values, layout)| == |Render(others, layout)|
  {
    if values != [] { RenderLength(values[1..], others[1..], layout[1..]); }
  }

  /** Fixed-width text compares as the numbers do, most significant field first. */
  lemma {:induction false} RenderOrder(values: seq<nat>, others: seq<nat>, layout: seq<Field>)
    requires FitsLayout(values, layout) && FitsLayout(others, layout)
    ensures Less(Render(values, layout), Render(others, layout)) <==> Before(values, others)
    ensures Render(values, layout) == Render(others, layout) <==> values == others
  {
    if values != [] {
      var a, b := Digits(values[0], layout[0].width), Digits(others[0], layout[0].width);
      var x, y := Render(values[1..], layout[1..]), Render(others[1..], layout[1..]);
      DigitsOrder(values[0], others[0], layout[0].width);
      RenderOrder(values[1..], others[1..], layout[1..]);
      LessConcat(a + layout[0].mark, b + layout[0].mark, x, y);
      LessConcat(a, b, layout[0].mark, layout[0].mark);
      LessIrreflexive(layout[0].mark);
      SameParts(a, b, layout[0].mark, x, y);
      assert values == [values[0]] + values[1..] && others == [others[0]] + others[1..];
    }
  }

  lemma SameParts(a: string, b: string, mark: string, x: string, y: string)
    requires |a| == |b|
    ensures a + mark + x == b + mark + y <==> a == b && x == y
    ensures a + mark == b + mark <==> a == b
  {
    assert (a + mark)[..|a|] == a && (b + mark)[..|b|] == b;
    assert (a + mark + x)[..|a|] == a && (b + mark + y)[..|b|] == b;
    assert (a + mark + x)[|a + mark|..] == x && (b + mark + y)[|b + mark|..] == y;
  }

  lemma {:induction false} BeforeTotal(values: seq<nat>, others: seq<nat>)
    requires |values| == |others|
    ensures Before(values, others) || values == others || Before(others, values)
  {
    if values != [] {
      BeforeTotal(values[1..], others[1..]);
      assert values == [values[0]] + values[1..] && others == [others[0]] + others[1..];
    }
  }

  // ---------------------------------------------------------------------------
  // The calendar
  // ---------------------------------------------------------------------------

  datatype Date = Date(year: nat, month: nat, day: nat) {
    predicate Valid() { 1 <= month <= 12 && 1 <= day <= DaysInMonth(year, month) }
  }

  predicate Leap(year: nat) { year % 4 == 0 && (year % 100 != 0 || year % 400 == 0) }

  function DaysInMonth(year: nat, month: nat): (days: nat)
    requires 1 <= month <= 12
    ensures 28 <= days <= 31
  {
    if month == 2 then (if Leap(year) then 29 else 28)
    else if month == 4 || month == 6 || month == 9 || month == 11 then 30
    else 31
  }

  /** Days before the first of the month, counted from the new year. */
  function MonthStart(year: nat, month: nat): nat
    requires 1 <= month <= 13
  {
    if month == 1 then 0 else MonthStart(year, month - 1) + DaysInMonth(year, month - 1)
  }

  function DaysInYear(year: nat): nat { if Leap(year) then 366 else 365 }

  /** Days before the new year, counted from 0000-01-01. */
  function YearStart(year: nat): nat {
    if year == 0 then 0 else YearStart(year - 1) + DaysInYear(year - 1)
  }

  function DayNumber(date: Date): nat
    requires date.Valid()
  {
    YearStart(date.year) + MonthStart(date.year, date.month) + date.day - 1
  }

  lemma {:induction false} MonthsInOrder(year: nat, month: nat, later: nat)
    requires 1 <= month < later <= 13
    ensures MonthStart(year, month) + DaysInMonth(year, month) <= MonthStart(year, later)
    decreases later
  {
    if month < later - 1 { MonthsInOrder(year, month, later - 1); }
  }

  lemma {:induction false} YearsInOrder(year: nat, later: nat)
    requires year < later
    ensures YearStart(year) + DaysInYear(year) <= YearStart(later)
    decreases later
  {
    if year < later - 1 { YearsInOrder(year, later - 1); }
  }

  lemma DatesInOrder(a: Date, b: Date)
    requires a.Valid() && b.Valid()
    requires a.year < b.year || (a.year == b.year && (a.month < b.month || (a.month == b.month && a.day < b.day)))
    ensures DayNumber(a) < DayNumber(b)
  {
    if a.year < b.year {
      YearsInOrder(a.year, b.year);
      MonthsInOrder(a.year, a.month, 13);
      MonthsMakeYear(a.year);
    } else if a.month < b.month {
      MonthsInOrder(a.year, a.month, b.month);
    }
  }

  lemma {:induction false} YearStartClosedForm(year: nat)
    ensures YearStart(year) == 365 * year + (year + 3) / 4 - (year + 99) / 100 + (year + 399) / 400
  {
    if year > 0 {
      YearStartClosedForm(year - 1);
      LeapYearsUpTo(year - 1);
    }
  }

  lemma LeapYearsUpTo(year: nat)
    ensures (year + 4) / 4 - (year + 100) / 100 + (year + 400) / 400
         == (year + 3) / 4 - (year + 99) / 100 + (year + 399) / 400 + (if Leap(year) then 1 else 0)
  {
    MultiplesUpTo(year, 4);
    MultiplesUpTo(year, 100);
    MultiplesUpTo(year, 400);
    LeapParts(year);
  }

  lemma MultiplesUpTo(n: nat, d: nat)
    requires d > 0
    ensures (n + 1 + (d - 1)) / d == (n + (d - 1)) / d + (if n % d == 0 then 1 else 0)
  {
    var q, r := n / d, n % d;
    assert n == q * d + r;
    assert (q + 1) * d == q * d + d;
    DivUnique(n + d, d, q + 1, r);
    if r == 0 {
      DivUnique(n + d - 1, d, q, d - 1);
    } else {
      DivUnique(n + d - 1, d, q + 1, r - 1);
    }
  }

  lemma LeapParts(year: nat)
    ensures year % 400 == 0 ==> year % 100 == 0
    ensures year % 100 == 0 ==> year % 4 == 0
  {
    if year % 400 == 0 { assert year == year / 400 * 4 * 100; }
    if year % 100 == 0 { assert year == year / 100 * 25 * 4; }
  }

  lemma MonthsMakeYear(year: nat)
    ensures MonthStart(year, 13) == DaysInYear(year)
  {
    assert MonthStart(year, 2) == 31;
    assert MonthStart(year, 3) == DaysInMonth(year, 2) + 31;
    assert MonthStart(year, 5) == DaysInMonth(year, 2) + 92;
    assert MonthStart(year, 7) == DaysInMonth(year, 2) + 153;
    assert MonthStart(year, 9) == DaysInMonth(year, 2) + 215;
    assert MonthStart(year, 11) == DaysInMonth(year, 2) + 276;
  }

  /** Days before a month, by the usual formula for the civil calendar. */
  lemma MonthStartClosedForm(year: nat, month: nat)
    requires 1 <= month <= 12
    ensures var leap := year % 4 == 0 && (year % 100 != 0 || year % 400 == 0);
            MonthStart(year, month) == (367 * month - 362) / 12 - (if month <= 2 then 0 else if leap then 1 else 2)
  {
    assert MonthStart(year, 2) == 31;
    assert MonthStart(year, 3) == DaysInMonth(year, 2) + 31;
    assert MonthStart(year, 5) == DaysInMonth(year, 2) + 92;
    assert MonthStart(year, 7) == DaysInMonth(year, 2) + 153;
    assert MonthStart(year, 9) == DaysInMonth(year, 2) + 215;
    assert MonthStart(year, 11) == DaysInMonth(year, 2) + 276;
  }

  /** The day number of a date, without counting days. */
  lemma DayNumberClosedForm(date: Date)
    requires date.Valid()
    ensures var y, leap := date.year, date.year % 4 == 0 && (date.year % 100 != 0 || date.year % 400 == 0);
            DayNumber(date) == 365 * y + (y + 3) / 4 - (y + 99) / 100 + (y + 399) / 400
                               + (367 * date.month - 362) / 12
                               - (if date.month <= 2 then 0 else if leap then 1 else 2) + date.day - 1
  {
    YearStartClosedForm(date.year);
    MonthStartClosedForm(date.year, date.month);
  }

  /** The Unix epoch, 1 January 1970, is day 719528. */
  lemma EpochDay()
    ensures DayNumber(Date(1970, 1, 1)) == EPOCH / DAY
  {
    hide YearStart;
    YearStartClosedForm(1970);
  }

  function NextDay(date: Date): (next: Date)
    requires date.Valid()
    ensures next.Valid()
  {
    if date.day < DaysInMonth(date.year, date.month) then date.(day := date.day + 1)
    else if date.month < 12 then Date(date.year, date.month + 1, 1)
    else Date(date.year + 1, 1, 1)
  }

  /** The date `n` days after 0000-01-01. */
  function DateOf(n: nat): (date: Date)
    ensures date.Valid()
  {
    if n == 0 then Date(0, 1, 1) else NextDay(DateOf(n - 1))
  }

  lemma {:induction false} DateOfDayNumber(n: nat)
    ensures DayNumber(DateOf(n)) == n
  {
    if n > 0 {
      var yesterday := DateOf(n - 1);
      DateOfDayNumber(n - 1);
      NextDayNumber(yesterday);
      assert DateOf(n) == NextDay(yesterday);
    }
  }

  lemma NextDayNumber(date: Date)
    requires date.Valid()
    ensures DayNumber(NextDay(date)) == DayNumber(date) + 1
  {
    if date.day == DaysInMonth(date.year, date.month) {
      assert MonthStart(date.year, date.month + 1)
             == MonthStart(date.year, date.month) + DaysInMonth(date.year, date.month);
      if date.month == 12 {
        MonthsMakeYear(date.year);
        assert YearStart(date.year + 1) == YearStart(date.year) + DaysInYear(date.year);
      }
    }
  }

  // ---------------------------------------------------------------------------
  // Instants and their text
  // ---------------------------------------------------------------------------

  /** Instants of the years 0000 to 9999, whose year is four digits. */
  predicate FourDigitYear(micros: int) { micros >= 0 && DateOf(micros / DAY).year <= 9999 }

  /** Those are the instants from the beginning of the year 0 to the end of 9999. */
  lemma FourDigitYears(micros: int)
    ensures FourDigitYear(micros) <==> 0 <= micros < DayNumber(Date(10_000, 1, 1)) * DAY
  {
    hide DayNumber, DateOf;
    if micros >= 0 {
      var date, limit := DateOf(micros / DAY), Date(10_000, 1, 1);
      DateOfDayNumber(micros / DAY);
      if date.year <= 9999 { DatesInOrder(date, limit); } else if date != limit { DatesInOrder(limit, date); }
    }
  }

  const SECONDS_LAYOUT: seq<Field> :=
    [Field(4, "-"), Field(2, "-"), Field(2, "T"), Field(2, ":"), Field(2, ":"), Field(2, ".")]

  /** Year, month, day, hour, minute and second of an instant. */
  function CivilFields(micros: nat): (fields: seq<nat>)
    ensures |fields| == 6
  {
    var date := DateOf(micros / DAY);
    var second := micros % DAY / 1_000_000;
    [date.year, date.month, date.day, second / 3600, second % 3600 / 60, second % 3600 % 60]
  }

  /** `format!("{:.6}", ts)` for an instant counted from the year 0. */
  function SixDigitText(micros: nat): string {
    Render(CivilFields(micros), SECONDS_LAYOUT) + Digits(micros % 1_000_000, 6) + "Z"
  }

  /** SQLite's `strftime('%Y-%m-%dT%H:%M:%fZ')`, which stops at milliseconds. */
  function ThreeDigitText(micros: nat): string {
    Render(CivilFields(micros), SECONDS_LAYOUT) + Digits(micros % 1_000_000 / 1000, 3) + "Z"
  }

  lemma CivilFieldsFit(micros: nat)
    requires FourDigitYear(micros)
    ensures FitsLayout(CivilFields(micros), SECONDS_LAYOUT)
  {
    assert Pow10(2) == 100 && Pow10(4) == 10000 by { assert Pow10(3) == 1000; }
  }

  // ---------------------------------------------------------------------------
  // Reading the text back
  // ---------------------------------------------------------------------------

  /** The text up to the fraction, laid out: four digits and two of each other field. */
  predicate LaidOut(text: string) {
    && |text| >= 20 && text[4] == '-' && text[7] == '-' && text[10] == 'T'
    && text[13] == ':' && text[16] == ':' && text[19] == '.'
  }

  lemma RenderCons(value: nat, values: seq<nat>, field: Field, layout: seq<Field>)
    requires |values| == |layout|
    ensures Render([value] + values, [field] + layout)
         == Digits(value, field.width) + (field.mark + Render(values, layout))
  {
    assert ([value] + values)[1..] == values && ([field] + layout)[1..] == layout;
  }

  const TIME_LAYOUT: seq<Field> := [Field(2, ":"), Field(2, ":"), Field(2, ".")]

  lemma RenderTime(h: nat, n: nat, s: nat)
    ensures Render([h, n, s], TIME_LAYOUT)
         == Digits(h, 2) + (":" + (Digits(n, 2) + (":" + (Digits(s, 2) + ("." + "")))))
  {
    hide Digits;
    assert Render([], []) == "";
    hide Render;
    RenderCons(s, [], Field(2, "."), []);
    RenderCons(n, [s], Field(2, ":"), [Field(2, ".")]);
    RenderCons(h, [n, s], Field(2, ":"), [Field(2, ":"), Field(2, ".")]);
    assert [s] + [] == [s] && [Field(2, ".")] + [] == [Field(2, ".")];
    assert [n] + [s] == [n, s] && [Field(2, ":")] + [Field(2, ".")] == [Field(2, ":"), Field(2, ".")];
    assert [h] + [n, s] == [h, n, s] && [Field(2, ":")] + [Field(2, ":"), Field(2, ".")] == TIME_LAYOUT;
  }

  lemma RenderSix(y: nat, m: nat, d: nat, h: nat, n: nat, s: nat)
    ensures Render([y, m, d, h, n, s], SECONDS_LAYOUT)
         == Digits(y, 4) + ("-" + (Digits(m, 2) + ("-" + (Digits(d, 2) + ("T" + Render([h, n, s], TIME_LAYOUT))))))
  {
    hide Digits, Render;
    RenderCons(d, [h, n, s], Field(2, "T"), TIME_LAYOUT);
    RenderCons(m, [d, h, n, s], Field(2, "-"), [Field(2, "T")] + TIME_LAYOUT);
    RenderCons(y, [m, d, h, n, s], Field(4, "-"), [Field(2, "-")] + ([Field(2, "T")] + TIME_LAYOUT));
    assert [d] + [h, n, s] == [d, h, n, s] && [m] + [d, h, n, s] == [m, d, h, n, s];
    assert [y] + [m, d, h, n, s] == [y, m, d, h, n, s];
    assert [Field(4, "-")] + ([Field(2, "-")] + ([Field(2, "T")] + TIME_LAYOUT)) == SECONDS_LAYOUT;
  }

  /** A field and its separator come off the front of a text. */
  lemma TakeField(field: string, mark: char, rest: string, text: string, at: nat)
    requires at <= |text| && text[at..] == field + ([mark] + rest)
    ensures at + |field| < |text| && text[at..at + |field|] == field && text[at + |field|] == mark
    ensures text[at + |field| + 1..] == rest
  {
    var tail, k := text[at..], |field|;
    assert tail[..k] == field && tail[k] == mark && tail[k + 1..] == rest;
    assert text[at..at + k] == tail[..k] && text[at + k] == tail[k] && text[at + k + 1..] == tail[k + 1..];
  }

  lemma SixFieldsSlice(y: string, m: string, d: string, h: string, n: string, s: string, rest: string, text: string)
    requires |y| == 4 && |m| == |d| == |h| == |n| == |s| == 2
    requires text == y + ("-" + (m + ("-" + (d + ("T" + (h + (":" + (n + (":" + (s + ("." + rest)))))))))))
    ensures LaidOut(text)
    ensures text[..4] == y && text[5..7] == m && text[8..10] == d
    ensures text[11..13] == h && text[14..16] == n && text[17..19] == s && text[20..] == rest
  {
    hide LaidOut;
    var fromS := s + ("." + rest);
    var fromN := n + (":" + fromS);
    var fromH := h + (":" + fromN);
    var fromD := d + ("T" + fromH);
    assert text[0..] == text;
    TakeField(y, '-', m + ("-" + fromD), text, 0);
    TakeField(m, '-', fromD, text, 5);
    TakeField(d, 'T', fromH, text, 8);
    TakeField(h, ':', fromN, text, 11);
    TakeField(n, ':', fromS, text, 14);
    TakeField(s, '.', rest, text, 17);
    assert text[0..4] == text[..4];
    IsLaidOut(text);
  }

  lemma IsLaidOut(text: string)
    requires |text| >= 20 && text[4] == '-' && text[7] == '-' && text[10] == 'T'
    requires text[13] == ':' && text[16] == ':' && text[19] == '.'
    ensures LaidOut(text)
  {
  }

  /** Text appended to the fields comes after the last separator. */
  lemma AppendToFields(y: string, m: string, d: string, h: string, n: string, s: string, rest: string)
    ensures y + ("-" + (m + ("-" + (d + ("T" + (h + (":" + (n + (":" + (s + ("." + ""))))))))))) + rest
         == y + ("-" + (m + ("-" + (d + ("T" + (h + (":" + (n + (":" + (s + ("." + rest)))))))))))
  {
    assert "." + "" + rest == "." + rest;
    assert s + ("." + "") + rest == s + ("." + rest);
  }

  /** The fields of the text, read as numbers, are a date and a time of day that give the second back. */
  lemma SecondsRead(micros: nat, rest: string)
    requires FourDigitYear(micros)
    ensures var text := Render(CivilFields(micros), SECONDS_LAYOUT) + rest;
            && LaidOut(text) && text[20..] == rest
            && Number(text[..4]) >= 0 && Number(text[5..7]) >= 0 && Number(text[8..10]) >= 0
            && var date := Date(Number(text[..4]), Number(text[5..7]), Number(text[8..10]));
               date.Valid()
               && micros / 1_000_000 == DayNumber(date) * 86_400 + Number(text[11..13]) * 3600
                                        + Number(text[14..16]) * 60 + Number(text[17..19])
  {
    hide DayNumber, Digits, Render, Number;
    var f := CivilFields(micros);
    CivilFieldsFit(micros);
    assert f == [f[0], f[1], f[2], f[3], f[4], f[5]];
    RenderSix(f[0], f[1], f[2], f[3], f[4], f[5]);
    RenderTime(f[3], f[4], f[5]);
    var y, m, d := Digits(f[0], 4), Digits(f[1], 2), Digits(f[2], 2);
    var h, n, second := Digits(f[3], 2), Digits(f[4], 2), Digits(f[5], 2);
    AppendToFields(y, m, d, h, n, second, rest);
    SixFieldsSlice(y, m, d, h, n, second, rest, Render(f, SECONDS_LAYOUT) + rest);
    DigitsRead(f[0], 4);
    DigitsRead(f[1], 2);
    DigitsRead(f[2], 2);
    DigitsRead(f[3], 2);
    DigitsRead(f[4], 2);
    DigitsRead(f[5], 2);
    DateOfDayNumber(micros / DAY);
    SecondsSplit(micros);
    assert DateOf(micros / DAY) == Date(f[0], f[1], f[2]);
  }

  /** Stored text can be read back: its digits are the calendar date and the time of exactly this
      microsecond (six digits) or of its millisecond (three). */
  lemma TextReadsBack(micros: nat)
    requires FourDigitYear(micros)
    ensures var text := SixDigitText(micros);
            && LaidOut(text) && |text| == 27 && text[26] == 'Z'
            && Number(text[..4]) >= 0 && Number(text[5..7]) >= 0 && Number(text[8..10]) >= 0
            && var date := Date(Number(text[..4]), Number(text[5..7]), Number(text[8..10]));
               date.Valid()
               && micros == (DayNumber(date) * 86_400 + Number(text[11..13]) * 3600
                             + Number(text[14..16]) * 60 + Number(text[17..19])) * 1_000_000 + Number(text[20..26])
    ensures var text := ThreeDigitText(micros);
            && LaidOut(text) && |text| == 24 && text[23] == 'Z' && text[..20] == SixDigitText(micros)[..20]
            && Number(text[20..23]) == micros % 1_000_000 / 1000
  {
    hide Number, DayNumber, Render, CivilFields, FourDigitYear;
    var p, f, g := Render(CivilFields(micros), SECONDS_LAYOUT), micros % 1_000_000, micros % 1_000_000 / 1000;
    SecondsRead(micros, Digits(f, 6) + "Z");
    SecondsRead(micros, Digits(g, 3) + "Z");
    MillionIsSixDigits();
    DigitsRead(f, 6);
    DigitsRead(g, 3);
    assert SixDigitText(micros) == p + (Digits(f, 6) + "Z") && ThreeDigitText(micros) == p + (Digits(g, 3) + "Z");
    assert SixDigitText(micros)[20..26] == SixDigitText(micros)[20..][..6] == Digits(f, 6);
    assert ThreeDigitText(micros)[20..23] == ThreeDigitText(micros)[20..][..3] == Digits(g, 3);
  }

  /** The second an instant falls in orders the fields. */
  lemma FieldsOrder(a: nat, b: nat)
    requires a / 1_000_000 < b / 1_000_000
    ensures Before(CivilFields(a), CivilFields(b))
  {
    var d, e := DateOf(a / DAY), DateOf(b / DAY);
    DateOfDayNumber(a / DAY);
    DateOfDayNumber(b / DAY);
    SecondsSplit(a);
    SecondsSplit(b);
    var x, y := CivilFields(a), CivilFields(b);
    if d == e {
      TimeOrder(a % DAY / 1_000_000, b % DAY / 1_000_000);
      var s, t := a % DAY / 1_000_000, b % DAY / 1_000_000;
      assert x[1..][1..][1..] == TimeFields(s) && y[1..][1..][1..] == TimeFields(t);
    } else {
      assert a / DAY < b / DAY;
      if !(d.year < e.year || (d.year == e.year && (d.month < e.month || (d.month == e.month && d.day < e.day)))) {
        DatesInOrder(e, d);
      }
      assert x[1..] == [d.month, d.day, x[3], x[4], x[5]] && y[1..] == [e.month, e.day, y[3], y[4], y[5]];
      assert x[1..][1..] == [d.day, x[3], x[4], x[5]] && y[1..][1..] == [e.day, y[3], y[4], y[5]];
    }
  }

  lemma SecondsSplit(a: nat)
    ensures a / 1_000_000 == a / DAY * 86_400 + a % DAY / 1_000_000 && 0 <= a % DAY / 1_000_000 < 86_400
  {
    assert a == a / DAY * DAY + a % DAY;
  }

  function TimeFields(second: nat): seq<nat> { [second / 3600, second % 3600 / 60, second % 3600 % 60] }

  lemma TimeOrder(s: nat, t: nat)
    requires s < t
    ensures Before(TimeFields(s), TimeFields(t))
  {
    ThreeFieldsBefore(s / 3600, s % 3600 / 60, s % 3600 % 60, t / 3600, t % 3600 / 60, t % 3600 % 60);
  }

  lemma ThreeFieldsBefore(h: nat, m: nat, s: nat, h': nat, m': nat, s': nat)
    requires m < 60 && s < 60 && m' < 60 && s' < 60 && h * 3600 + m * 60 + s < h' * 3600 + m' * 60 + s'
    ensures Before([h, m, s], [h', m', s'])
  {
    assert [h, m, s][1..] == [m, s] && [h', m', s'][1..] == [m', s'];
    assert [m, s][1..] == [s] && [m', s'][1..] == [s'];
  }

  /** A separator and what precedes it decide before the fraction is looked at. */
  lemma TextOrder(a: nat, b: nat)
    requires FourDigitYear(a) && FourDigitYear(b)
    ensures Less(SixDigitText(a), SixDigitText(b)) <==> a < b
    ensures SixDigitText(a) == SixDigitText(b) <==> a == b
  {
    var x, y := CivilFields(a), CivilFields(b);
    var p, q := Render(x, SECONDS_LAYOUT), Render(y, SECONDS_LAYOUT);
    var f, g := Digits(a % 1_000_000, 6), Digits(b % 1_000_000, 6);
    CivilFieldsFit(a);
    CivilFieldsFit(b);
    RenderOrder(x, y, SECONDS_LAYOUT);
    RenderLength(x, y, SECONDS_LAYOUT);
    FieldsDecideSeconds(a, b);
    MillionIsSixDigits();
    DigitsOrder(a % 1_000_000, b % 1_000_000, 6);
    LessConcat(p + f, q + g, "Z", "Z");
    LessConcat(p, q, f, g);
    LessIrreflexive("Z");
    SameParts(p + f, q + g, "Z", "", "");
    SameParts(p, q, "", f, g);
    assert p + "" == p && q + "" == q && p + f + "Z" + "" == p + f + "Z" && q + g + "Z" + "" == q + g + "Z";
  }

  lemma MillionIsSixDigits()
    ensures Pow10(6) == 1_000_000 && Pow10(3) == 1000
  {
    assert Pow10(3) == 1000;
    assert Pow10(5) == 100_000;
  }

  lemma FieldsDecideSeconds(a: nat, b: nat)
    ensures Before(CivilFields(a), CivilFields(b)) <==> a / 1_000_000 < b / 1_000_000
    ensures CivilFields(a) == CivilFields(b) <==> a / 1_000_000 == b / 1_000_000
  {
    if a / 1_000_000 < b / 1_000_000 {
      FieldsOrder(a, b);
      BeforeAsymmetric(CivilFields(a), CivilFields(b));
    } else if b / 1_000_000 < a / 1_000_000 {
      FieldsOrder(b, a);
      BeforeAsymmetric(CivilFields(b), CivilFields(a));
    } else {
      SecondsSplit(a);
      SecondsSplit(b);
      BeforeTotal(CivilFields(a), CivilFields(b));
      BeforeIrreflexive(CivilFields(a));
    }
  }

  lemma {:induction false} BeforeAsymmetric(values: seq<nat>, others: seq<nat>)
    requires |values| == |others| && Before(values, others)
    ensures !Before(others, values) && values != others
  {
    if values[0] == others[0] { BeforeAsymmetric(values[1..], others[1..]); }
  }

  lemma {:induction false} BeforeIrreflexive(values: seq<nat>)
    ensures !Before(values, values)
  {
    if values != [] { BeforeIrreflexive(values[1..]); }
  }

  /** A millisecond text against a microsecond text: the shorter fraction ends in 'Z', which sorts
      after every digit, so it is smaller only if its millisecond really is. */
  lemma MixedTextOrder(a: nat, b: nat)
    requires FourDigitYear(a) && FourDigitYear(b)
    ensures Less(ThreeDigitText(a), SixDigitText(b)) <==> a / 1000 < b / 1000
  {
    hide Digits, Render, CivilFields;
    var x, y := CivilFields(a), CivilFields(b);
    var p, q := Render(x, SECONDS_LAYOUT), Render(y, SECONDS_LAYOUT);
    var n := b % 1_000_000;
    var f, g, h := Digits(a % 1_000_000 / 1000, 3), Digits(n / 1000, 3), Digits(n % 1000, 3);
    CivilFieldsFit(a);
    CivilFieldsFit(b);
    RenderOrder(x, y, SECONDS_LAYOUT);
    RenderLength(x, y, SECONDS_LAYOUT);
    FieldsDecideSeconds(a, b);
    MillionIsSixDigits();
    DigitsOrder(a % 1_000_000 / 1000, n / 1000, 3);
    SixDigits(n);
    assert SixDigitText(b) == (q + g) + (h + "Z");
    assert ThreeDigitText(a) == (p + f) + "Z";
    LessConcat(p + f, q + g, "Z", h + "Z");
    LessConcat(p, q, f, g);
    SameParts(p, q, "", f, g);
    assert p + "" == p && q + "" == q;
    assert !Less("Z", h + "Z") by { assert h[0] == Digit(n % 1000 / 100 % 10) by { ThreeDigits(n % 1000); } }
    MillisOrder(a, b);
  }

  lemma MillisOrder(a: nat, b: nat)
    ensures a / 1000 < b / 1000 <==>
            a / 1_000_000 < b / 1_000_000
            || (a / 1_000_000 == b / 1_000_000 && a % 1_000_000 / 1000 < b % 1_000_000 / 1000)
  {
    assert a / 1000 == a / 1_000_000 * 1000 + a % 1_000_000 / 1000;
    assert b / 1000 == b / 1_000_000 * 1000 + b % 1_000_000 / 1000;
  }

  // ---------------------------------------------------------------------------
  // `timestamp_storage_text`
  // ---------------------------------------------------------------------------

  /** Rounding to microseconds with `RoundMode::Trunc`: towards the Unix epoch. */
  function TruncMicros(nanos: int): int {
    if nanos >= 0 then nanos / 1000 else -(-nanos / 1000)
  }

  predicate Storable(nanos: int) { FourDigitYear(TruncMicros(nanos) + EPOCH) }

  function StorageText(nanos: int): string
    requires Storable(nanos)
  {
    SixDigitText(TruncMicros(nanos) + EPOCH)
  }

  /** Every instant of those years can be stored; in nanoseconds from the Unix epoch, truncated. */
  lemma StorableInstants(nanos: int)
    ensures var first, last := 0 - DayNumber(Date(1970, 1, 1)) * 86_400_000_000,
                               (DayNumber(Date(10_000, 1, 1)) - DayNumber(Date(1970, 1, 1))) * 86_400_000_000;
            Storable(nanos) <==> first - 1 < (if nanos >= 0 then nanos / 1000 else -(-nanos / 1000)) < last
  {
    hide DayNumber, FourDigitYear;
    FourDigitYears(TruncMicros(nanos) + EPOCH);
    EpochDay();
    assert DayNumber(Date(1970, 1, 1)) == 719_528;
  }

  /** What is stored for an instant, read back: the calendar date and time of its microsecond, counted
      from 1 January 1970, with the rest of the nanoseconds cut off. */
  lemma StorageTextReadsBack(nanos: int)
    requires Storable(nanos)
    ensures var text := StorageText(nanos);
            && LaidOut(text) && |text| == 27 && text[26] == 'Z'
            && Number(text[..4]) >= 0 && Number(text[5..7]) >= 0 && Number(text[8..10]) >= 0
            && var date := Date(Number(text[..4]), Number(text[5..7]), Number(text[8..10]));
               date.Valid()
               && ((DayNumber(date) - DayNumber(Date(1970, 1, 1))) * 86_400 + Number(text[11..13]) * 3600
                   + Number(text[14..16]) * 60 + Number(text[17..19])) * 1_000_000 + Number(text[20..26])
                  == if nanos >= 0 then nanos / 1000 else -(-nanos / 1000)
  {
    hide Number, DayNumber, SixDigitText, ThreeDigitText, DateOf, LaidOut;
    TextReadsBack(TruncMicros(nanos) + EPOCH);
    EpochDay();
    assert DayNumber(Date(1970, 1, 1)) == 719_528;
  }

  /** Stored text compares exactly as the microsecond-truncated instants do. */
  lemma StorageTextIsOrderEmbedding(a: int, b: int)
    requires Storable(a) && Storable(b)
    ensures Less(StorageText(a), StorageText(b)) <==> TruncMicros(a) < TruncMicros(b)
    ensures StorageText(a) == StorageText(b) <==> TruncMicros(a) == TruncMicros(b)
  {
    TextOrder(TruncMicros(a) + EPOCH, TruncMicros(b) + EPOCH);
  }

  /** `locked_until < now` on stored text: truncation never makes a lease that is still running
      look expired, and hides an expiry for less than a microsecond (two around the epoch). */
  lemma LeaseNeverLooksExpiredEarly(lease: int, now: int)
    requires Storable(lease) && Storable(now)
    ensures Less(StorageText(lease), StorageText(now)) ==> lease < now
    ensures lease + 2000 <= now ==> Less(StorageText(lease), StorageText(now))
    ensures 0 <= lease && lease + 1000 <= now ==> Less(StorageText(lease), StorageText(now))
  {
    StorageTextIsOrderEmbedding(lease, now);
  }
}
