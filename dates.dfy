/** Calendar dates and clock times as the application writes and reads them:
    `strftime("%d.%m.%Y")` for ride dates, `strftime("%Y-%m-%d")` for vehicle
    and licence dates, `strftime("%H:%M")` for ride times, the matching
    `strptime` parsers, and the SQL expression
    `SUBSTR(date,7,4)||SUBSTR(date,4,2)||SUBSTR(date,1,2)` that turns a stored
    `DD.MM.YYYY` string into a sortable `YYYYMMDD` key. */
module Dates {
  import opened Strings
  import opened Options

  /** A calendar day (Python's `datetime.date`). */
  datatype Date = Date(year: nat, month: nat, day: nat)

  /** A clock time to the minute (Python's `datetime.time` as the forms use it). */
  datatype Time = Time(hour: nat, minute: nat)

  predicate IsLeapYear(y: nat)
  {
    (y % 4 == 0 && y % 100 != 0) || y % 400 == 0
  }

  function DaysInMonth(y: nat, m: nat): nat
  {
    if m == 2 then (if IsLeapYear(y) then 29 else 28)
    else if m == 4 || m == 6 || m == 9 || m == 11 then 30
    else 31
  }

  /** The dates Python's `date` type can hold (`date.min` to `date.max`). */
  predicate ValidDate(d: Date)
  {
    1 <= d.year <= 9999 && 1 <= d.month <= 12 && 1 <= d.day <= DaysInMonth(d.year, d.month)
  }

  predicate ValidTime(t: Time)
  {
    t.hour < 24 && t.minute < 60
  }

  /** Chronological order on dates. */
  predicate Before(a: Date, b: Date)
  {
    a.year < b.year || (a.year == b.year && (a.month < b.month || (a.month == b.month && a.day < b.day)))
  }

  /** Chronological order on times of day. */
  predicate TimeBefore(a: Time, b: Time)
  {
    a.hour < b.hour || (a.hour == b.hour && a.minute < b.minute)
  }

  function Pow10(w: nat): (p: nat)
    ensures p >= 1
  {
    if w == 0 then 1 else 10 * Pow10(w - 1)
  }

  predicate IsDigit(c: char)
  {
    '0' <= c <= '9'
  }

  predicate AllDigits(s: string)
  {
    forall i :: 0 <= i < |s| ==> IsDigit(s[i])
  }

  function Digit(n: nat): (c: char)
    requires n < 10
    ensures IsDigit(c)
  {
    (48 + n) as char
  }

  function DigitValue(c: char): (n: nat)
    requires IsDigit(c)
    ensures n < 10 && Digit(n) == c
  {
    (c as int - 48) as nat
  }

  /** `n` written with exactly `width` decimal digits, zero-filled on the left
      (what `%d`, `%m`, `%Y`, `%H` and `%M` print). */
  function Pad(n: nat, width: nat): (s: string)
    requires n < Pow10(width)
    ensures |s| == width && AllDigits(s)
  {
    if width == 0 then [] else Pad(n / 10, width - 1) + [Digit(n % 10)]
  }

  /** The value of a string of decimal digits. */
  function Value(s: string): nat
    requires AllDigits(s)
  {
    if s == [] then 0 else 10 * Value(s[..|s| - 1]) + DigitValue(s[|s| - 1])
  }

  /** `strftime("%d.%m.%Y")`, the stored form of a ride date. */
  function FormatDotted(d: Date): (s: string)
    requires ValidDate(d)
    ensures |s| == 10
  {
    Pad(d.day, 2) + "." + Pad(d.month, 2) + "." + Pad(d.year, 4)
  }

  /** `strftime("%Y-%m-%d")`, the stored form of licence and registration dates. */
  function FormatDashed(d: Date): (s: string)
    requires ValidDate(d)
    ensures |s| == 10
  {
    Pad(d.year, 4) + "-" + Pad(d.month, 2) + "-" + Pad(d.day, 2)
  }

  /** `strftime("%Y%m%d")`, which is what SQLite's `STRFTIME('%Y%m%d','now')`
      yields for the current day. */
  function CompactDate(d: Date): (s: string)
    requires ValidDate(d)
    ensures |s| == 8
  {
    Pad(d.year, 4) + Pad(d.month, 2) + Pad(d.day, 2)
  }

  /** `strftime("%H:%M")`, the stored form of a ride time. */
  function FormatTime(t: Time): (s: string)
    requires ValidTime(t)
    ensures |s| == 5
  {
    Pad(t.hour, 2) + ":" + Pad(t.minute, 2)
  }

  /** The SQL sort key `SUBSTR(date,7,4)||SUBSTR(date,4,2)||SUBSTR(date,1,2)`,
      defined on every stored string, well-formed or not. */
  function DateKey(date: string): string
  {
    Substr(date, 7, 4) + Substr(date, 4, 2) + Substr(date, 1, 2)
  }

  /** A stored ride date that is not before `today` by the SQL comparison
      `DateKey(date) >= STRFTIME('%Y%m%d','now')`. */
  predicate NotPast(date: string, today: Date)
    requires ValidDate(today)
  {
    !Lt(DateKey(date), CompactDate(today))
  }

  /** `datetime.strptime(s, "%d.%m.%Y").date()` on its canonical, zero-padded
      input; `None` where strptime raises `ValueError`. */
  function ParseDotted(s: string): (r: Option<Date>)
    ensures r.Some? ==> ValidDate(r.value)
  {
    if |s| == 10 && s[2] == '.' && s[5] == '.'
       && AllDigits(s[0..2]) && AllDigits(s[3..5]) && AllDigits(s[6..10])
    then
      var d := Date(Value(s[6..10]), Value(s[3..5]), Value(s[0..2]));
      if ValidDate(d) then Some(d) else None
    else None
  }

  /** `datetime.strptime(s, "%H:%M").time()` on its canonical input. */
  function ParseTime(s: string): (r: Option<Time>)
    ensures r.Some? ==> ValidTime(r.value)
  {
    if |s| == 5 && s[2] == ':' && AllDigits(s[0..2]) && AllDigits(s[3..5])
    then
      var t := Time(Value(s[0..2]), Value(s[3..5]));
      if ValidTime(t) then Some(t) else None
    else None
  }

  /** The date the ride editor starts from: the stored date, or today when it
      does not parse. */
  function DateOrToday(s: string, today: Date): (d: Date)
    requires ValidDate(today)
    ensures ValidDate(d)
    ensures ParseDotted(s).Some? ==> d == ParseDotted(s).value
    ensures ParseDotted(s).None? ==> d == today
  {
    match ParseDotted(s)
    case Some(d) => d
    case None => today
  }

  /** The time the ride editor starts from: the stored time, or midnight. */
  function TimeOrMidnight(s: string): (t: Time)
    ensures ValidTime(t)
    ensures ParseTime(s).Some? ==> t == ParseTime(s).value
    ensures ParseTime(s).None? ==> t == Time(0, 0)
  {
    match ParseTime(s)
    case Some(t) => t
    case None => Time(0, 0)
  }

  // ---------------------------------------------------------------------------
  // Digits

  lemma {:induction false} ValuePad(n: nat, width: nat)
    requires n < Pow10(width)
    ensures Value(Pad(n, width)) == n
  {
    if width > 0 {
      var s := Pad(n, width);
      assert s[..|s| - 1] == Pad(n / 10, width - 1);
      ValuePad(n / 10, width - 1);
    }
  }

  lemma {:induction false} PadValue(s: string)
    requires AllDigits(s)
    ensures Value(s) < Pow10(|s|) && Pad(Value(s), |s|) == s
  {
    if s != [] {
      var init := s[..|s| - 1];
      PadValue(init);
      assert s == init + [s[|s| - 1]];
    }
  }

  /** Zero-filled numbers of one width compare as strings exactly as they
      compare as numbers. */
  lemma {:induction false} PadOrder(a: nat, b: nat, width: nat)
    requires a < Pow10(width) && b < Pow10(width)
    ensures Lt(Pad(a, width), Pad(b, width)) <==> a < b
    ensures Pad(a, width) == Pad(b, width) <==> a == b
  {
    if width == 0 {
    } else {
      PadOrder(a / 10, b / 10, width - 1);
      LtConcat(Pad(a / 10, width - 1), [Digit(a % 10)], Pad(b / 10, width - 1), [Digit(b % 10)]);
      if Pad(a, width) == Pad(b, width) {
        ValuePad(a, width);
        ValuePad(b, width);
      }
    }
  }

  // ---------------------------------------------------------------------------
  // The sort key

  /** Applied to a date stored by `strftime("%d.%m.%Y")`, the SQL key
      expression yields the `YYYYMMDD` string of that date. */
  lemma DateKeyOfDotted(d: Date)
    requires ValidDate(d)
    ensures DateKey(FormatDotted(d)) == CompactDate(d)
  {
    var s := FormatDotted(d);
    assert s[6..10] == Pad(d.year, 4);
    assert s[3..5] == Pad(d.month, 2);
    assert s[0..2] == Pad(d.day, 2);
  }

  /** Three zero-filled fields of widths 4, 2, 2 sort as the number triple. */
  lemma FieldsOrder(y1: nat, m1: nat, d1: nat, y2: nat, m2: nat, d2: nat)
    requires y1 < Pow10(4) && y2 < Pow10(4) && m1 < Pow10(2) && m2 < Pow10(2) && d1 < Pow10(2) && d2 < Pow10(2)
    ensures Lt(Pad(y1, 4) + Pad(m1, 2) + Pad(d1, 2), Pad(y2, 4) + Pad(m2, 2) + Pad(d2, 2))
            <==> y1 < y2 || (y1 == y2 && (m1 < m2 || (m1 == m2 && d1 < d2)))
  {
    PadOrder(y1, y2, 4);
    PadOrder(m1, m2, 2);
    PadOrder(d1, d2, 2);
    Lexicographic3(Pad(y1, 4), Pad(m1, 2), Pad(d1, 2), Pad(y2, 4), Pad(m2, 2), Pad(d2, 2),
                   y1 < y2, y1 == y2, m1 < m2, m1 == m2, d1 < d2, d1 == d2);
  }

  /** Three zero-filled fields of widths 4, 2, 2 spell the same text exactly
      when the number triples are equal. */
  lemma FieldsEqual(y1: nat, m1: nat, d1: nat, y2: nat, m2: nat, d2: nat)
    requires y1 < Pow10(4) && y2 < Pow10(4) && m1 < Pow10(2) && m2 < Pow10(2) && d1 < Pow10(2) && d2 < Pow10(2)
    ensures Pad(y1, 4) + Pad(m1, 2) + Pad(d1, 2) == Pad(y2, 4) + Pad(m2, 2) + Pad(d2, 2)
            <==> y1 == y2 && m1 == m2 && d1 == d2
  {
    PadOrder(y1, y2, 4);
    PadOrder(m1, m2, 2);
    PadOrder(d1, d2, 2);
    Lexicographic3(Pad(y1, 4), Pad(m1, 2), Pad(d1, 2), Pad(y2, 4), Pad(m2, 2), Pad(d2, 2),
                   y1 < y2, y1 == y2, m1 < m2, m1 == m2, d1 < d2, d1 == d2);
  }

  /** Three equal-width fields, each ordered as a number, order their
      concatenation lexicographically. */
  lemma Lexicographic3(ya: string, ma: string, da: string, yb: string, mb: string, db: string,
                       yLess: bool, ySame: bool, mLess: bool, mSame: bool, dLess: bool, dSame: bool)
    requires |ya| == |yb| && |ma| == |mb|
    requires (Lt(ya, yb) <==> yLess) && (ya == yb <==> ySame)
    requires (Lt(ma, mb) <==> mLess) && (ma == mb <==> mSame)
    requires (Lt(da, db) <==> dLess) && (da == db <==> dSame)
    ensures Lt(ya + ma + da, yb + mb + db) <==> yLess || (ySame && (mLess || (mSame && dLess)))
    ensures ya + ma + da == yb + mb + db <==> ySame && mSame && dSame
  {
    LtConcat3(ya, ma, da, yb, mb, db);
  }

  /** `YYYYMMDD` strings sort in calendar order. */
  lemma CompactDateOrder(a: Date, b: Date)
    requires ValidDate(a) && ValidDate(b)
    ensures Lt(CompactDate(a), CompactDate(b)) <==> Before(a, b)
    ensures CompactDate(a) == CompactDate(b) <==> a == b
  {
    FieldsOrder(a.year, a.month, a.day, b.year, b.month, b.day);
    FieldsEqual(a.year, a.month, a.day, b.year, b.month, b.day);
  }

  /** For dates the application stored, comparing their SQL keys is comparing
      the dates themselves. */
  lemma DateKeyOrder(a: Date, b: Date)
    requires ValidDate(a) && ValidDate(b)
    ensures Lt(DateKey(FormatDotted(a)), DateKey(FormatDotted(b))) <==> Before(a, b)
    ensures DateKey(FormatDotted(a)) == DateKey(FormatDotted(b)) <==> a == b
  {
    DateKeyOfDotted(a);
    DateKeyOfDotted(b);
    CompactDateOrder(a, b);
  }

  /** A stored ride date passes the SQL "not in the past" test exactly when the
      ride's day is today or later. */
  lemma NotPastIsChronological(d: Date, today: Date)
    requires ValidDate(d) && ValidDate(today)
    ensures NotPast(FormatDotted(d), today) <==> !Before(d, today)
  {
    DateKeyOfDotted(d);
    CompactDateOrder(d, today);
  }

  /** Stored `HH:MM` times sort in clock order, and two times are stored as
      the same text exactly when they are equal. */
  lemma TimeOrder(a: Time, b: Time)
    requires ValidTime(a) && ValidTime(b)
    ensures Lt(FormatTime(a), FormatTime(b)) <==> TimeBefore(a, b)
    ensures FormatTime(a) == FormatTime(b) <==> a == b
  {
    if FormatTime(a) == FormatTime(b) {
      assert FormatTime(a)[0..2] == Pad(a.hour, 2) && FormatTime(b)[0..2] == Pad(b.hour, 2);
      assert FormatTime(a)[3..5] == Pad(a.minute, 2) && FormatTime(b)[3..5] == Pad(b.minute, 2);
    }
    PadOrder(a.hour, b.hour, 2);
    PadOrder(a.minute, b.minute, 2);
    LtConcat(Pad(a.hour, 2), ":" + Pad(a.minute, 2), Pad(b.hour, 2), ":" + Pad(b.minute, 2));
    LtConcat(":", Pad(a.minute, 2), ":", Pad(b.minute, 2));
    assert FormatTime(a) == Pad(a.hour, 2) + (":" + Pad(a.minute, 2));
    assert FormatTime(b) == Pad(b.hour, 2) + (":" + Pad(b.minute, 2));
  }

  // ---------------------------------------------------------------------------
  // Round trips between strftime and strptime

  /** A date written by `strftime("%d.%m.%Y")` parses back to itself. */
  lemma DottedRoundTrip(d: Date)
    requires ValidDate(d)
    ensures ParseDotted(FormatDotted(d)) == Some(d)
  {
    var s := FormatDotted(d);
    assert s[0..2] == Pad(d.day, 2);
    assert s[3..5] == Pad(d.month, 2);
    assert s[6..10] == Pad(d.year, 4);
    ValuePad(d.day, 2);
    ValuePad(d.month, 2);
    ValuePad(d.year, 4);
  }

  /** Only canonical strings parse: whatever parses is re-printed unchanged. */
  lemma DottedParseCanonical(s: string)
    requires ParseDotted(s).Some?
    ensures FormatDotted(ParseDotted(s).value) == s
  {
    PadValue(s[0..2]);
    PadValue(s[3..5]);
    PadValue(s[6..10]);
    assert s == s[0..2] + "." + s[3..5] + "." + s[6..10];
  }

  lemma TimeRoundTrip(t: Time)
    requires ValidTime(t)
    ensures ParseTime(FormatTime(t)) == Some(t)
  {
    var s := FormatTime(t);
    assert s[0..2] == Pad(t.hour, 2);
    assert s[3..5] == Pad(t.minute, 2);
    ValuePad(t.hour, 2);
    ValuePad(t.minute, 2);
  }

  lemma TimeParseCanonical(s: string)
    requires ParseTime(s).Some?
    ensures FormatTime(ParseTime(s).value) == s
  {
    PadValue(s[0..2]);
    PadValue(s[3..5]);
    assert s == s[0..2] + ":" + s[3..5];
  }

  /** Opening the ride editor on a stored date and saving without touching the
      date field writes the same string back. */
  lemma EditKeepsStoredDate(d: Date, today: Date)
    requires ValidDate(d) && ValidDate(today)
    ensures FormatDotted(DateOrToday(FormatDotted(d), today)) == FormatDotted(d)
  {
    DottedRoundTrip(d);
  }
}
