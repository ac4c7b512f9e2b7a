/** Calendar days as the page uses them: a day is named by its ISO string
    "YYYY-MM-DD" (the key of every occupied-date set and of every grid cell),
    days are stepped one at a time, and strings are ordered with `<`. */
module Calendar {
  import opened Text

  /** A date by year, month (1 to 12) and day of month. */
  datatype Date = Date(year: nat, month: nat, day: nat)

  /** Gregorian leap years, as JavaScript's `Date` counts them. */
  predicate IsLeapYear(y: nat)
  {
    y % 4 == 0 && (y % 100 != 0 || y % 400 == 0)
  }

  function DaysInMonth(y: nat, m: nat): (n: nat)
    ensures 28 <= n <= 31
  {
    if m == 2 then (if IsLeapYear(y) then 29 else 28)
    else if m == 4 || m == 6 || m == 9 || m == 11 then 30
    else 31
  }

  /** The date exists on the calendar. */
  predicate IsCalendarDate(d: Date)
  {
    1 <= d.month <= 12 && 1 <= d.day <= DaysInMonth(d.year, d.month)
  }

  /** A calendar day with a four-digit year: the range in which the grid's
      `${year}-MM-DD` strings and `toISOString().slice(0, 10)` agree. */
  type Day = d: Date | IsCalendarDate(d) && 1000 <= d.year <= 9999 witness Date(2000, 1, 1)

  /** Chronological order (JavaScript compares the two `Date` values). */
  predicate Before(a: Date, b: Date)
  {
    a.year < b.year || (a.year == b.year && (a.month < b.month || (a.month == b.month && a.day < b.day)))
  }

  predicate NotAfter(a: Date, b: Date)
  {
    a == b || Before(a, b)
  }

  /** `current.setDate(current.getDate() + 1)`: the next calendar day. */
  function Next(d: Date): (r: Date)
    requires IsCalendarDate(d)
    ensures IsCalendarDate(r) && Before(d, r)
  {
    if d.day < DaysInMonth(d.year, d.month) then Date(d.year, d.month, d.day + 1)
    else if d.month < 12 then Date(d.year, d.month + 1, 1)
    else Date(d.year + 1, 1, 1)
  }

  /** No calendar date lies strictly between a day and the next one. */
  lemma NextIsSuccessor(d: Date, x: Date)
    requires IsCalendarDate(d) && IsCalendarDate(x)
    ensures Before(d, x) <==> NotAfter(Next(d), x)
  {
  }

  /** A measure that grows along the chronological order; it bounds the
      day-stepping loops. */
  function Rank(d: Date): int
  {
    d.year * 372 + d.month * 31 + d.day
  }

  lemma RankMonotone(a: Date, b: Date)
    requires IsCalendarDate(a) && IsCalendarDate(b)
    ensures Before(a, b) ==> Rank(a) < Rank(b)
  {
  }

  /** The string naming a day: `toISOString().slice(0, 10)`, which for a
      four-digit year is also the grid's `${year}-${MM}-${DD}`. The
      concatenation is grouped from the right to follow its comparison. */
  function Key(d: Day): (s: string)
    ensures |s| == 10 && s[4] == '-' && s[7] == '-'
  {
    Pad(d.year, 4) + ("-" + (Pad(d.month, 2) + ("-" + Pad(d.day, 2))))
  }

  /** Keys of two days that agree on year and month compare by day. */
  lemma MonthDayOrder(a: Day, b: Day)
    ensures StrLess("-" + (Pad(a.month, 2) + ("-" + Pad(a.day, 2))), "-" + (Pad(b.month, 2) + ("-" + Pad(b.day, 2))))
        <==> a.month < b.month || (a.month == b.month && a.day < b.day)
    ensures "-" + (Pad(a.month, 2) + ("-" + Pad(a.day, 2))) == "-" + (Pad(b.month, 2) + ("-" + Pad(b.day, 2)))
        <==> a.month == b.month && a.day == b.day
  {
    assert Pow10(2) == 100;
    var ma, da := Pad(a.month, 2), Pad(a.day, 2);
    var mb, db := Pad(b.month, 2), Pad(b.day, 2);
    PadOrder(a.month, b.month, 2);
    PadOrder(a.day, b.day, 2);
    StrLessConcat("-", ma + ("-" + da), "-", mb + ("-" + db));
    StrLessConcat(ma, "-" + da, mb, "-" + db);
    StrLessConcat("-", da, "-", db);
    var ra, rb := "-" + (ma + ("-" + da)), "-" + (mb + ("-" + db));
    if ra == rb {
      assert ra[1..3] == ma && rb[1..3] == mb;
      assert ra[4..] == da && rb[4..] == db;
    }
  }

  /** Comparing the keys of two days with `<` is the same as comparing the
      days chronologically, and only the same day has the same key. */
  lemma KeyOrder(a: Day, b: Day)
    ensures StrLess(Key(a), Key(b)) <==> Before(a, b)
    ensures Key(a) == Key(b) <==> a == b
  {
    assert Pow10(4) == 10000;
    var ya, yb := Pad(a.year, 4), Pad(b.year, 4);
    var ra, rb := "-" + (Pad(a.month, 2) + ("-" + Pad(a.day, 2))), "-" + (Pad(b.month, 2) + ("-" + Pad(b.day, 2)));
    PadOrder(a.year, b.year, 4);
    MonthDayOrder(a, b);
    StrLessConcat(ya, ra, yb, rb);
    if Key(a) == Key(b) {
      assert Key(a)[..4] == ya && Key(b)[..4] == yb;
      assert Key(a)[4..] == ra && Key(b)[4..] == rb;
    }
  }

  /** No two days share a key. */
  lemma KeyInjective()
    ensures forall a: Day, b: Day :: Key(a) == Key(b) ==> a == b
  {
    forall a: Day, b: Day
      ensures Key(a) == Key(b) ==> a == b
    {
      KeyOrder(a, b);
    }
  }

  /** The list view's `date.split('-').reverse().join('/')`: no dash is
      left in what is shown. */
  function DisplayDate(s: string): (r: string)
    ensures '-' !in r
  {
    JoinAvoids(Reverse(Split(s, '-')), '/', '-');
    Join(Reverse(Split(s, '-')), '/')
  }

  /** The list view shows a stored day as "DD/MM/YYYY". */
  lemma DisplayOfKey(d: Day)
    ensures DisplayDate(Key(d)) == Pad(d.day, 2) + "/" + Pad(d.month, 2) + "/" + Pad(d.year, 4)
  {
    assert Pow10(2) == 100 && Pow10(4) == 10000;
    var y, m, dd := Pad(d.year, 4), Pad(d.month, 2), Pad(d.day, 2);
    assert '-' !in y && '-' !in m && '-' !in dd;
    assert Key(d) == y + ['-'] + (m + ['-'] + dd);
    SplitAfterPiece(y, m + ['-'] + dd, '-');
    SplitAfterPiece(m, dd, '-');
    SplitWhole(dd, '-');
    assert Split(Key(d), '-') == [y, m, dd];
    assert Reverse([y, m, dd]) == [dd, m, y];
    assert Join([m, y], '/') == m + ['/'] + y by {
      assert [m, y][1..] == [y];
    }
    assert [dd, m, y][1..] == [m, y];
  }
}
