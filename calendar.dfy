/** The proleptic Gregorian calendar of Python's `datetime`, the one
    `strptime` format the pipeline parses EXIF timestamps with, and the one
    `strftime` format it expands a timestamp into. */
module Calendar {
  import opened Wrappers
  import opened Text

  /** A `datetime.datetime` as `strptime` builds it from
      '%Y:%m:%d %H:%M:%S' (microseconds are always zero and left out). */
  datatype DateTime = DateTime(year: int, month: int, day: int,
                               hour: int, minute: int, second: int)
  {
    /** The ranges `datetime` enforces on construction (MINYEAR 1,
        MAXYEAR 9999; seconds 0..59). */
    predicate Valid()
    {
      && 1 <= year <= 9999
      && 1 <= month <= 12
      && 1 <= day <= DaysInMonth(year, month)
      && 0 <= hour < 24
      && 0 <= minute < 60
      && 0 <= second < 60
    }
  }

  predicate IsLeap(y: int)
  {
    y % 4 == 0 && (y % 100 != 0 || y % 400 == 0)
  }

  function DaysInYear(y: int): int
  {
    if IsLeap(y) then 366 else 365
  }

  function DaysInMonth(y: int, m: int): int
    requires 1 <= m <= 12
  {
    if m == 2 then (if IsLeap(y) then 29 else 28)
    else if m == 4 || m == 6 || m == 9 || m == 11 then 30
    else 31
  }

  /** Days of year `y` in the months before month `m`. */
  function DaysBeforeMonth(y: int, m: int): nat
    requires 1 <= m <= 13
  {
    if m == 1 then 0 else DaysBeforeMonth(y, m - 1) + DaysInMonth(y, m - 1)
  }

  lemma DaysBeforeMonthYear(y: int)
    ensures DaysBeforeMonth(y, 13) == DaysInYear(y)
  {
    var feb := DaysInMonth(y, 2);
    assert DaysBeforeMonth(y, 2) == 31;
    assert DaysBeforeMonth(y, 3) == 31 + feb;
    assert DaysBeforeMonth(y, 4) == 62 + feb;
    assert DaysBeforeMonth(y, 5) == 92 + feb;
    assert DaysBeforeMonth(y, 6) == 123 + feb;
    assert DaysBeforeMonth(y, 7) == 153 + feb;
    assert DaysBeforeMonth(y, 8) == 184 + feb;
    assert DaysBeforeMonth(y, 9) == 215 + feb;
    assert DaysBeforeMonth(y, 10) == 245 + feb;
    assert DaysBeforeMonth(y, 11) == 276 + feb;
    assert DaysBeforeMonth(y, 12) == 306 + feb;
    assert DaysBeforeMonth(y, 13) == 337 + feb;
  }

  /** The twelve months fill the year exactly: every later month still fits. */
  lemma {:induction false} DaysBeforeMonthBound(y: int, m: int)
    requires 1 <= m <= 12
    ensures DaysBeforeMonth(y, m) + DaysInMonth(y, m) <= DaysInYear(y)
    decreases 13 - m
  {
    if m < 12 {
      DaysBeforeMonthBound(y, m + 1);
    } else {
      DaysBeforeMonthYear(y);
    }
  }

  /** `%j`: the day of the year, 1 for January 1st. */
  function DayOfYear(d: DateTime): (n: int)
    requires d.Valid()
    ensures 1 <= n <= DaysInYear(d.year) <= 366
  {
    DaysBeforeMonthBound(d.year, d.month);
    DaysBeforeMonth(d.year, d.month) + d.day
  }

  /** Days in the years before year `y` (year 1 starts the count). */
  function DaysBeforeYear(y: int): int
    requires y >= 1
  {
    var p := y - 1;
    365 * p + p / 4 - p / 100 + p / 400
  }

  /** Proleptic Gregorian day number: 0001-01-01 is day 1, as
      `datetime.toordinal()` counts. */
  function Ordinal(d: DateTime): int
    requires d.Valid()
  {
    DaysBeforeYear(d.year) + DayOfYear(d)
  }

  /** `%w`: the day of the week, 0 for Sunday up to 6 for Saturday.
      Day 1 (0001-01-01) was a Monday. */
  function Weekday(d: DateTime): (w: int)
    requires d.Valid()
    ensures 0 <= w <= 6
  {
    Ordinal(d) % 7
  }

  /** The same time of day on the following calendar day. */
  function NextDay(d: DateTime): DateTime
    requires d.Valid()
  {
    if d.day < DaysInMonth(d.year, d.month) then d.(day := d.day + 1)
    else if d.month < 12 then d.(month := d.month + 1, day := 1)
    else d.(year := d.year + 1, month := 1, day := 1)
  }

  lemma DaysBeforeNextYear(y: int)
    requires y >= 1
    ensures DaysBeforeYear(y + 1) == DaysBeforeYear(y) + DaysInYear(y)
  {
    var p := y - 1;
    assert y / 4 == p / 4 + (if y % 4 == 0 then 1 else 0);
    assert y / 100 == p / 100 + (if y % 100 == 0 then 1 else 0);
    assert y / 400 == p / 400 + (if y % 400 == 0 then 1 else 0);
    CenturiesAreLeap(y);
  }

  lemma CenturiesAreLeap(y: int)
    ensures y % 100 == 0 ==> y % 4 == 0
    ensures y % 400 == 0 ==> y % 100 == 0
  {
    if y % 100 == 0 {
      var q := y / 100;
      assert y == 4 * (25 * q);
    }
    if y % 400 == 0 {
      var q := y / 400;
      assert y == 100 * (4 * q);
    }
  }

  /** The day numbering has no gaps: the next calendar day is the next day
      number, across month and year ends and leap days alike. */
  lemma NextDayOrdinal(d: DateTime)
    requires d.Valid() && d.year < 9999
    ensures NextDay(d).Valid()
    ensures Ordinal(NextDay(d)) == Ordinal(d) + 1
  {
    if d.day == DaysInMonth(d.year, d.month) && d.month == 12 {
      DaysBeforeNextYear(d.year);
      DaysBeforeMonthYear(d.year);
    }
  }

  /** Hence the weekday advances by one, modulo seven, every day. */
  lemma WeekdayNextDay(d: DateTime)
    requires d.Valid() && d.year < 9999
    ensures NextDay(d).Valid()
    ensures Weekday(NextDay(d)) == (Weekday(d) + 1) % 7
  {
    NextDayOrdinal(d);
    ModSevenStep(Ordinal(d));
  }

  lemma ModSevenStep(o: int)
    ensures (o + 1) % 7 == (o % 7 + 1) % 7
  {
    var q, r := o / 7, o % 7;
    assert o + 1 == 7 * q + (r + 1);
    if r == 6 {
      assert o + 1 == 7 * (q + 1);
    }
  }

  /** The day of the year counts up by one inside a year and restarts at 1. */
  lemma DayOfYearNextDay(d: DateTime)
    requires d.Valid() && d.year < 9999
    ensures NextDay(d).Valid()
    ensures DayOfYear(NextDay(d)) == if d.month == 12 && d.day == 31 then 1 else DayOfYear(d) + 1
  {
  }

  /** 2000-01-01 was a Saturday. */
  lemma WeekdayMillennium()
    ensures Weekday(DateTime(2000, 1, 1, 0, 0, 0)) == 6
  {
  }

  /** The formats of `EXIF_DATETIME_STRF`, in the order they are tried. */
  const EXIF_DATETIME_STRF: seq<string> := ["%Y:%m:%d %H:%M:%S"]

  /** The canonical text of `d` in the EXIF format, e.g. "2020:05:01 10:00:00":
      the inverse that the parser below is specified against. */
  function ExifText(d: DateTime): string
    requires d.Valid()
  {
    Digits(d.year, 4) + ":" + Digits(d.month, 2) + ":" + Digits(d.day, 2) + " " +
    Digits(d.hour, 2) + ":" + Digits(d.minute, 2) + ":" + Digits(d.second, 2)
  }

  /** The layout '%Y:%m:%d %H:%M:%S' asks for: nineteen characters, digits
      everywhere except the separators. */
  predicate ExifShaped(s: string)
  {
    && |s| == 19 && s[4] == ':' && s[7] == ':' && s[10] == ' ' && s[13] == ':' && s[16] == ':'
    && AllDigits(s[0..4]) && AllDigits(s[5..7]) && AllDigits(s[8..10])
    && AllDigits(s[11..13]) && AllDigits(s[14..16]) && AllDigits(s[17..19])
  }

  /** The timestamp whose fields are the digit groups of a shaped text. */
  function FieldsOf(s: string): DateTime
    requires ExifShaped(s)
  {
    DateTime(Value(s[0..4]), Value(s[5..7]), Value(s[8..10]),
             Value(s[11..13]), Value(s[14..16]), Value(s[17..19]))
  }

  lemma ExifTextFieldsOf(s: string)
    requires ExifShaped(s) && FieldsOf(s).Valid()
    ensures ExifText(FieldsOf(s)) == s
  {
    DigitsValue(s[0..4]); DigitsValue(s[5..7]); DigitsValue(s[8..10]);
    DigitsValue(s[11..13]); DigitsValue(s[14..16]); DigitsValue(s[17..19]);
    assert s == s[0..4] + [s[4]] + s[5..7] + [s[7]] + s[8..10] + [s[10]] +
                s[11..13] + [s[13]] + s[14..16] + [s[16]] + s[17..19];
  }

  /** `datetime.strptime(s, fmt)` for the format '%Y:%m:%d %H:%M:%S': four
      year digits, two digits for each other field, the literal separators,
      nothing left over, and a date and time `datetime` accepts. `None`
      stands for the `ValueError` it raises otherwise. */
  function Strptime(s: string, fmt: string): (r: Option<DateTime>)
    requires fmt in EXIF_DATETIME_STRF
    ensures r.Some? ==> r.value.Valid() && ExifText(r.value) == s
  {
    if ExifShaped(s) && FieldsOf(s).Valid() then
      ExifTextFieldsOf(s);
      Some(FieldsOf(s))
    else None
  }

  /** Every valid timestamp is read back from its canonical text: together
      with the contract of `Strptime`, the parser accepts exactly the
      canonical texts of valid timestamps. */
  lemma StrptimeExifText(d: DateTime)
    requires d.Valid()
    ensures Strptime(ExifText(d), EXIF_DATETIME_STRF[0]) == Some(d)
  {
    ReadBackFields(d);
    ExifLayout(Digits(d.year, 4), Digits(d.month, 2), Digits(d.day, 2),
               Digits(d.hour, 2), Digits(d.minute, 2), Digits(d.second, 2));
  }

  /** Each zero-padded field of a valid timestamp reads back as itself. */
  lemma ReadBackFields(d: DateTime)
    requires d.Valid()
    ensures Value(Digits(d.year, 4)) == d.year && Value(Digits(d.month, 2)) == d.month
    ensures Value(Digits(d.day, 2)) == d.day && Value(Digits(d.hour, 2)) == d.hour
    ensures Value(Digits(d.minute, 2)) == d.minute && Value(Digits(d.second, 2)) == d.second
  {
    assert Pow10(2) == 100 && Pow10(4) == 10000;
    assert Value(Digits(d.year, 4)) == d.year by { ValueDigits(d.year, 4); }
    assert Value(Digits(d.month, 2)) == d.month by { ValueDigits(d.month, 2); }
    assert Value(Digits(d.day, 2)) == d.day by { ValueDigits(d.day, 2); }
    assert Value(Digits(d.hour, 2)) == d.hour by { ValueDigits(d.hour, 2); }
    assert Value(Digits(d.minute, 2)) == d.minute by { ValueDigits(d.minute, 2); }
    assert Value(Digits(d.second, 2)) == d.second by { ValueDigits(d.second, 2); }
  }

  /** A text laid out as '%Y:%m:%d %H:%M:%S' from digit groups is shaped,
      and its fields are the values of the groups. */
  lemma ExifLayout(y: string, mo: string, d: string, h: string, mi: string, s: string)
    requires |y| == 4 && |mo| == 2 && |d| == 2 && |h| == 2 && |mi| == 2 && |s| == 2
    requires AllDigits(y) && AllDigits(mo) && AllDigits(d) && AllDigits(h) && AllDigits(mi) && AllDigits(s)
    ensures var t := y + ":" + mo + ":" + d + " " + h + ":" + mi + ":" + s;
      && ExifShaped(t)
      && FieldsOf(t) == DateTime(Value(y), Value(mo), Value(d), Value(h), Value(mi), Value(s))
  {
    ExifGroups(y, mo, d, h, mi, s);
  }

  /** Where the groups of a text laid out as '%Y:%m:%d %H:%M:%S' sit. */
  lemma ExifGroups(y: string, mo: string, d: string, h: string, mi: string, s: string)
    requires |y| == 4 && |mo| == 2 && |d| == 2 && |h| == 2 && |mi| == 2 && |s| == 2
    ensures var t := y + ":" + mo + ":" + d + " " + h + ":" + mi + ":" + s;
      && |t| == 19 && t[4] == ':' && t[7] == ':' && t[10] == ' ' && t[13] == ':' && t[16] == ':'
      && t[0..4] == y && t[5..7] == mo && t[8..10] == d
      && t[11..13] == h && t[14..16] == mi && t[17..19] == s
  {
    var p8 := y + ":" + mo + ":" + d + " " + h + ":" + mi;
    var p6 := y + ":" + mo + ":" + d + " " + h;
    var p4 := y + ":" + mo + ":" + d;
    var p2 := y + ":" + mo;
    var t := p8 + ":" + s;
    assert t[16] == ':' && t[17..19] == s by {
      Extend(p8, ":", s);
    }
    assert t[13] == ':' && t[14..16] == mi by {
      assert t == p6 + ":" + (mi + ":" + s);
      Extend(p6, ":", mi + ":" + s);
    }
    assert t[10] == ' ' && t[11..13] == h by {
      assert t == p4 + " " + (h + ":" + mi + ":" + s);
      Extend(p4, " ", h + ":" + mi + ":" + s);
    }
    assert t[7] == ':' && t[8..10] == d by {
      assert t == p2 + ":" + (d + " " + h + ":" + mi + ":" + s);
      Extend(p2, ":", d + " " + h + ":" + mi + ":" + s);
    }
    assert t[4] == ':' && t[0..4] == y && t[5..7] == mo by {
      assert t == y + ":" + (mo + ":" + d + " " + h + ":" + mi + ":" + s);
      Extend(y, ":", mo + ":" + d + " " + h + ":" + mi + ":" + s);
    }
  }

  /** Where the parts of `a + sep + b` sit, for a one-character separator. */
  lemma Extend(a: string, sep: string, b: string)
    requires |sep| == 1
    ensures var t := a + sep + b;
      && |t| == |a| + 1 + |b| && t[|a|] == sep[0] && t[..|a|] == a && t[|a| + 1..] == b
  {
    var t := a + sep + b;
    assert t[..|a|] == a;
    assert t[|a| + 1..] == b;
  }

  /** The eight fields of `strftime('%Y %m %d %H %M %S %w %j')`, before they
      are joined with spaces. */
  function TupleFields(d: DateTime): seq<string>
    requires d.Valid()
  {
    [Digits(d.year, 4), Digits(d.month, 2), Digits(d.day, 2),
     Digits(d.hour, 2), Digits(d.minute, 2), Digits(d.second, 2),
     Digits(Weekday(d), 1), Digits(DayOfYear(d), 3)]
  }

  /** `d.strftime('%Y %m %d %H %M %S %w %j')` under Python 2, whose
      `datetime.strftime` raises `ValueError` for years before 1900 (`None`
      here). */
  function StrftimeTuple(d: DateTime): Option<string>
    requires d.Valid()
  {
    if d.year < 1900 then None else Some(Unwords(TupleFields(d)))
  }

  /** `.split()` of the formatted text yields the eight fields. */
  lemma TupleFieldsSplit(d: DateTime)
    requires d.Valid() && d.year >= 1900
    ensures StrftimeTuple(d).Some?
    ensures Split(StrftimeTuple(d).value) == TupleFields(d)
  {
    var fs := TupleFields(d);
    forall i | 0 <= i < |fs| ensures IsWord(fs[i]) {
      assert |fs[i]| > 0 && AllDigits(fs[i]);
    }
    SplitUnwords(fs);
  }

  /** Each field reads back as the component it renders: a 4-digit year
      (years 1900..9999 need no more and no fewer), 2-digit month, day,
      hour, minute and second, a 1-digit weekday and a 3-digit day of the
      year. */
  lemma TupleFieldsRead(d: DateTime)
    requires d.Valid()
    ensures |TupleFields(d)| == 8
    ensures ParseDigits(TupleFields(d)[0]) == Some(d.year as nat)
    ensures ParseDigits(TupleFields(d)[1]) == Some(d.month as nat)
    ensures ParseDigits(TupleFields(d)[2]) == Some(d.day as nat)
    ensures ParseDigits(TupleFields(d)[3]) == Some(d.hour as nat)
    ensures ParseDigits(TupleFields(d)[4]) == Some(d.minute as nat)
    ensures ParseDigits(TupleFields(d)[5]) == Some(d.second as nat)
    ensures ParseDigits(TupleFields(d)[6]) == Some(Weekday(d) as nat)
    ensures ParseDigits(TupleFields(d)[7]) == Some(DayOfYear(d) as nat)
  {
    var fs := TupleFields(d);
    ReadField(fs, 0, d.year, 4); ReadField(fs, 1, d.month, 2);
    ReadField(fs, 2, d.day, 2); ReadField(fs, 3, d.hour, 2);
    ReadField(fs, 4, d.minute, 2); ReadField(fs, 5, d.second, 2);
    ReadField(fs, 6, Weekday(d), 1); ReadField(fs, 7, DayOfYear(d), 3);
  }

  lemma ReadField(fs: seq<string>, i: nat, n: nat, w: nat)
    requires i < |fs| && fs[i] == Digits(n, w)
    requires 0 < w && n < Pow10(w)
    ensures ParseDigits(fs[i]) == Some(n)
  {
    ParseDigitsRoundTrip(n, w);
  }
}
