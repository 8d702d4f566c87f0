/** The proleptic Gregorian calendar on integer day numbers (day 0 is
    1970-01-01), and the "DD-Mon" label that `strftime("%d-%b")` gives a
    day in an English locale. */
module Calendar {

  datatype CivilDate = CivilDate(year: int, month: int, day: int)

  /** Days in the 400-year cycle, and the day number of 0000-03-01. */
  const DaysPer400Years := 146097
  const ShiftToMarch0000 := 719468

  predicate IsLeapYear(y: int) {
    y % 4 == 0 && (y % 100 != 0 || y % 400 == 0)
  }

  function DaysInMonth(y: int, m: int): int
    requires 1 <= m <= 12
  {
    if m == 2 then (if IsLeapYear(y) then 29 else 28)
    else if m == 4 || m == 6 || m == 9 || m == 11 then 30
    else 31
  }

  predicate ValidDate(c: CivilDate) {
    1 <= c.month <= 12 && 1 <= c.day <= DaysInMonth(c.year, c.month)
  }

  /** Days in the first `yoe` years of an era. Eras are counted from March
      so that a leap day falls at the very end of a year. */
  function EraYearStart(yoe: int): int {
    365 * yoe + yoe / 4 - yoe / 100
  }

  /** Day of a March-based year at which March-based month `mp` starts. */
  function MonthStart(mp: int): int {
    (153 * mp + 2) / 5
  }

  /** Splits a day of a 400-year era into (year of era, day of that
      March-based year): three centuries of 36524 days and a last one of
      36525, each of 4-year blocks of 1461 days, each of years of 365 days
      with the leap day closing the block. */
  function SplitEra(doe: int): (r: (int, int))
    requires 0 <= doe < DaysPer400Years
    ensures 0 <= r.0 <= 399 && 0 <= r.1 <= 365
    ensures EraYearStart(r.0) + r.1 == doe
    ensures r.1 == 365 ==> IsLeapYear(r.0 + 1)
  {
    var c := CenturyOf(doe);
    var doc := doe - 36524 * c;
    var q := BlockOf(doc);
    var doq := doc - 1461 * q;
    var yq := YearOfBlock(doq);
    EraYearStartParts(c, q, yq);
    LeapYearCloses(c, q);
    (100 * c + 4 * q + yq, doq - 365 * yq)
  }

  /** The century of an era a day falls in; the last one has a day more. */
  function CenturyOf(doe: int): (c: int)
    requires 0 <= doe < DaysPer400Years
    ensures 0 <= c <= 3 && 36524 * c <= doe <= 36524 * c + 36524
    ensures c < 3 ==> doe < 36524 * c + 36524
  {
    if doe / 36524 < 3 then doe / 36524 else 3
  }

  /** The four-year block of a century a day falls in. */
  function BlockOf(doc: int): (q: int)
    requires 0 <= doc <= 36524
    ensures 0 <= q <= 24 && 1461 * q <= doc < 1461 * q + 1461
  {
    doc / 1461
  }

  /** The year of a four-year block a day falls in; the last one has the
      leap day. */
  function YearOfBlock(doq: int): (yq: int)
    requires 0 <= doq < 1461
    ensures 0 <= yq <= 3 && 365 * yq <= doq <= 365 * yq + 365
    ensures yq < 3 ==> doq < 365 * yq + 365
  {
    if doq / 365 < 3 then doq / 365 else 3
  }

  /** `SplitEra` inverts `EraYearStart` on the first 365 days of a year. */
  lemma SplitEraInverse(yoe: int, doy: int)
    requires 0 <= yoe <= 399 && 0 <= doy < 365
    ensures 0 <= EraYearStart(yoe) + doy < DaysPer400Years
    ensures SplitEra(EraYearStart(yoe) + doy) == (yoe, doy)
  {
    var c, q, yq := yoe / 100, (yoe % 100) / 4, yoe % 4;
    assert yoe == 100 * c + 4 * q + yq;
    EraYearStartParts(c, q, yq);
    SplitEraOfParts(EraYearStart(yoe) + doy, c, q, yq, doy);
  }

  lemma SplitEraOfParts(doe: int, c: int, q: int, yq: int, doy: int)
    requires 0 <= c <= 3 && 0 <= q <= 24 && 0 <= yq <= 3 && 0 <= doy < 365
    requires doe == 36524 * c + 1461 * q + 365 * yq + doy
    ensures 0 <= doe < DaysPer400Years
    ensures SplitEra(doe) == (100 * c + 4 * q + yq, doy)
  {
    PartsOf(doe, c, q, yq, doy);
    SplitEraSteps(doe, c, q, yq);
  }

  /** A day of an era written as centuries, blocks, years and days
      decomposes into exactly those. */
  lemma PartsOf(doe: int, c: int, q: int, yq: int, doy: int)
    requires 0 <= c <= 3 && 0 <= q <= 24 && 0 <= yq <= 3 && 0 <= doy < 365
    requires doe == 36524 * c + 1461 * q + 365 * yq + doy
    ensures 0 <= doe < DaysPer400Years
    ensures CenturyOf(doe) == c
    ensures BlockOf(doe - 36524 * c) == q
    ensures YearOfBlock(doe - 36524 * c - 1461 * q) == yq
  {
  }

  /** `SplitEra` peels off centuries, then blocks, then years. */
  lemma SplitEraSteps(doe: int, c: int, q: int, yq: int)
    requires 0 <= doe < DaysPer400Years && CenturyOf(doe) == c
    requires 0 <= doe - 36524 * c <= 36524 && BlockOf(doe - 36524 * c) == q
    requires 0 <= doe - 36524 * c - 1461 * q < 1461 && YearOfBlock(doe - 36524 * c - 1461 * q) == yq
    ensures SplitEra(doe) == (100 * c + 4 * q + yq, doe - 36524 * c - 1461 * q - 365 * yq)
  {
  }

  /** The year starts of `c` centuries, `q` four-year blocks and `yq` years. */
  lemma EraYearStartParts(c: int, q: int, yq: int)
    requires 0 <= c <= 3 && 0 <= q <= 24 && 0 <= yq <= 3
    ensures EraYearStart(100 * c + 4 * q + yq) == 36524 * c + 1461 * q + 365 * yq
  {
    var yoe := 100 * c + 4 * q + yq;
    assert yoe / 4 == 25 * c + q by {
      DivModUnique(yoe, 4, 25 * c + q, yq);
    }
    assert yoe / 100 == c by {
      DivModUnique(yoe, 100, c, 4 * q + yq);
    }
  }

  /** The year after the last of a four-year block is a leap year, except
      at the end of the first three centuries of an era. */
  lemma LeapYearCloses(c: int, q: int)
    requires 0 <= c <= 3 && 0 <= q <= 24
    ensures q < 24 || c == 3 ==> IsLeapYear(100 * c + 4 * q + 4)
  {
    var y := 100 * c + 4 * q + 4;
    assert y % 4 == 0 by {
      DivModUnique(y, 4, 25 * c + q + 1, 0);
    }
    if q < 24 {
      assert y % 100 == 4 * q + 4 by {
        DivModUnique(y, 100, c, 4 * q + 4);
      }
    }
  }

  /** Leap years repeat every 400 years. */
  lemma LeapYearPeriodic(y: int, era: int)
    ensures IsLeapYear(y + 400 * era) == IsLeapYear(y)
  {
    var w := y + 400 * era;
    assert w % 4 == y % 4 by {
      ModShift(y, 100 * era, 4);
    }
    assert w % 100 == y % 100 by {
      ModShift(y, 4 * era, 100);
    }
    assert w % 400 == y % 400 by {
      ModShift(y, era, 400);
    }
  }

  lemma ModShift(a: int, k: int, n: int)
    requires 0 < n
    ensures (a + n * k) % n == a % n
    ensures (a + n * k) / n == a / n + k
  {
    var q, r := a / n, a % n;
    assert a == n * q + r;
    assert a + n * k == n * (q + k) + r;
    DivModUnique(a + n * k, n, q + k, r);
  }

  lemma {:induction false} MulAtLeast(n: int, k: int)
    requires 0 < n && 1 <= k
    ensures n * k >= n
  {
    if k > 1 {
      MulAtLeast(n, k - 1);
      assert n * k == n * (k - 1) + n;
    }
  }

  /** Euclidean division has a unique quotient and remainder. */
  lemma DivModUnique(a: int, n: int, q: int, r: int)
    requires 0 < n && 0 <= r < n && a == n * q + r
    ensures a / n == q && a % n == r
  {
    var q', r' := a / n, a % n;
    assert n * q' + r' == n * q + r;
    if q' < q {
      MulAtLeast(n, q - q');
    } else if q < q' {
      MulAtLeast(n, q' - q);
    }
  }

  /** The March-based month and day of a day of a March-based year. */
  function SplitYear(doy: int): (r: (int, int))
    requires 0 <= doy <= 365
    ensures 0 <= r.0 <= 11 && 1 <= r.1
    ensures MonthStart(r.0) + r.1 - 1 == doy
    ensures r.0 < 11 ==> r.1 <= DaysInMonth(0, if r.0 < 10 then r.0 + 3 else r.0 - 9)
    ensures r.0 == 11 ==> r.1 <= 28 || (doy == 365 && r.1 == 29)
  {
    var mp := (5 * doy + 2) / 153;
    (mp, doy - MonthStart(mp) + 1)
  }

  /** The 400-year era, counted from 0000-03-01, that day `z` falls in. */
  function EraOf(z: int): int {
    (z + ShiftToMarch0000) / DaysPer400Years
  }

  /** The day of its era that day `z` is. */
  function DayOfEra(z: int): (doe: int)
    ensures 0 <= doe < DaysPer400Years
    ensures z + ShiftToMarch0000 == EraOf(z) * DaysPer400Years + doe
  {
    z + ShiftToMarch0000 - EraOf(z) * DaysPer400Years
  }

  /** The calendar date of day number `z`. */
  function CivilFromDays(z: int): (r: CivilDate)
    ensures ValidDate(r)
  {
    var era := EraOf(z);
    var yd := SplitEra(DayOfEra(z));
    var yoe, doy := yd.0, yd.1;
    var md := SplitYear(doy);
    var mp, d := md.0, md.1;
    var m := if mp < 10 then mp + 3 else mp - 9;
    var y := yoe + era * 400;
    LeapYearPeriodic(yoe + 1, era);
    CivilDate(if m <= 2 then y + 1 else y, m, d)
  }

  function DaysFromCivil(c: CivilDate): int
    requires 1 <= c.month <= 12
  {
    var y := MarchYear(c);
    var era := y / 400;
    var yoe := y - era * 400;
    var mp := MarchMonth(c.month);
    var doy := MonthStart(mp) + c.day - 1;
    var doe := EraYearStart(yoe) + doy;
    era * DaysPer400Years + doe - ShiftToMarch0000
  }

  /** Every day number names exactly one calendar date: converting to a
      date and back returns the same day. */
  lemma DaysRoundTrip(z: int)
    ensures DaysFromCivil(CivilFromDays(z)) == z
  {
    var era, yoe := CivilFromDaysParts(z);
    DaysFromCivilOf(CivilFromDays(z), era, yoe);
  }

  /** `CivilFromDays` read back: the era and March-based year of era it
      went through, and how the day number is made up from them. */
  lemma CivilFromDaysParts(z: int) returns (era: int, yoe: int)
    ensures var c := CivilFromDays(z);
      && 0 <= yoe < 400 && MarchYear(c) == yoe + era * 400
      && z + ShiftToMarch0000
         == era * DaysPer400Years + EraYearStart(yoe) + MonthStart(MarchMonth(c.month)) + c.day - 1
  {
    era := EraOf(z);
    var doy;
    yoe, doy := SplitEra(DayOfEra(z)).0, SplitEra(DayOfEra(z)).1;
    var mp, d := SplitYear(doy).0, SplitYear(doy).1;
    var c := CivilFromDays(z);
    assert c.day == d && MarchMonth(c.month) == mp && MarchYear(c) == yoe + era * 400;
  }

  /** The month counted from March, 0 to 11. */
  function MarchMonth(month: int): int {
    if month > 2 then month - 3 else month + 9
  }

  /** The year counted from March: January and February belong to the
      year before. */
  function MarchYear(c: CivilDate): int {
    if c.month <= 2 then c.year - 1 else c.year
  }

  /** `DaysFromCivil` of a date in year `yoe` of era `era`, counted from
      March. */
  lemma DaysFromCivilOf(c: CivilDate, era: int, yoe: int)
    requires 1 <= c.month <= 12 && 0 <= yoe < 400 && MarchYear(c) == yoe + era * 400
    ensures DaysFromCivil(c)
         == era * DaysPer400Years + EraYearStart(yoe) + MonthStart(MarchMonth(c.month)) + c.day - 1 - ShiftToMarch0000
  {
    assert MarchYear(c) / 400 == era by {
      ModShift(yoe, era, 400);
    }
  }

  /** English abbreviated month names, as `%b` prints them. */
  const MonthAbbreviations: seq<string> :=
    ["Jan", "Feb", "Mar", "Apr", "May", "Jun", "Jul", "Aug", "Sep", "Oct", "Nov", "Dec"]

  function DigitChar(n: int): char
    requires 0 <= n <= 9
  {
    ('0' as int + n) as char
  }

  /** `%d`: the day of the month as two zero-padded decimal digits. */
  function TwoDigits(n: int): (s: string)
    requires 0 <= n <= 99
    ensures |s| == 2
  {
    [DigitChar(n / 10), DigitChar(n % 10)]
  }

  /** `strftime("%d-%b")` of a day and month, e.g. "05-Mar". */
  function DayMonthLabel(day: int, month: int): (s: string)
    requires 1 <= day <= 31 && 1 <= month <= 12
    ensures |s| == 6 && s[2] == '-'
    ensures s[..2] == TwoDigits(day) && s[3..] == MonthAbbreviations[month - 1]
  {
    TwoDigits(day) + "-" + MonthAbbreviations[month - 1]
  }

  /** The "DD-Mon" label of day number `z`: its day of the month in two
      digits, a dash, and its month's English abbreviation. */
  function Label(z: int): (s: string)
    ensures |s| == 6 && s[2] == '-'
    ensures s[..2] == TwoDigits(CivilFromDays(z).day)
    ensures s[3..] == MonthAbbreviations[CivilFromDays(z).month - 1]
  {
    var c := CivilFromDays(z);
    DayMonthLabel(c.day, c.month)
  }

  /** Two days carry the same label exactly when they share day of month and
      month: the label forgets only the year. */
  lemma {:induction false} LabelMeansDayAndMonth(z1: int, z2: int)
    ensures Label(z1) == Label(z2) <==>
      CivilFromDays(z1).day == CivilFromDays(z2).day && CivilFromDays(z1).month == CivilFromDays(z2).month
  {
    var c1, c2 := CivilFromDays(z1), CivilFromDays(z2);
    if Label(z1) == Label(z2) {
      var s := Label(z1);
      assert TwoDigits(c1.day) == s[..2] == TwoDigits(c2.day);
      TwoDigitsInjective(c1.day, c2.day);
      assert MonthAbbreviations[c1.month - 1] == s[3..] == MonthAbbreviations[c2.month - 1];
      MonthAbbreviationsDistinct(c1.month - 1, c2.month - 1);
    }
  }

  lemma TwoDigitsInjective(a: int, b: int)
    requires 0 <= a <= 99 && 0 <= b <= 99 && TwoDigits(a) == TwoDigits(b)
    ensures a == b
  {
    assert TwoDigits(a)[0] == TwoDigits(b)[0];
    assert TwoDigits(a)[1] == TwoDigits(b)[1];
  }

  lemma MonthAbbreviationsDistinct(i: int, j: int)
    requires 0 <= i < 12 && 0 <= j < 12 && MonthAbbreviations[i] == MonthAbbreviations[j]
    ensures i == j
  {
  }
}
