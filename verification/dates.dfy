/** Resolving the "DD-Mon" text dates scraped for dividends to concrete
    days. The script enumerates every day from a year before today to a
    year after today (both ends included), labels each "DD-Mon", and for a
    text date keeps the matching days: the declaration date takes the
    earliest of them (`.min()`), the ex-dividend and payment dates the
    latest (`.max()`). No match yields a missing date (pandas' NaT). */
module DateLookup {
  import opened Wrappers
  import opened Calendar

  /** `timedelta(days=365)` on either side of today. */
  const WindowRadius := 365

  predicate InWindow(today: int, d: int) {
    today - WindowRadius <= d <= today + WindowRadius
  }

  /** The least day in [lo, hi] that `labelOf` maps to `text`, if there is one. */
  function EarliestMatch(lo: int, hi: int, text: string, labelOf: int -> string): (r: Option<int>)
    decreases hi - lo
    ensures r.Some? ==> lo <= r.value <= hi && labelOf(r.value) == text
    ensures r.Some? ==> forall d :: lo <= d <= hi && labelOf(d) == text ==> r.value <= d
    ensures r.None? <==> forall d :: lo <= d <= hi ==> labelOf(d) != text
  {
    if lo > hi then None
    else if labelOf(lo) == text then Some(lo)
    else EarliestMatch(lo + 1, hi, text, labelOf)
  }

  /** The greatest day in [lo, hi] that `labelOf` maps to `text`, if there is one. */
  function LatestMatch(lo: int, hi: int, text: string, labelOf: int -> string): (r: Option<int>)
    decreases hi - lo
    ensures r.Some? ==> lo <= r.value <= hi && labelOf(r.value) == text
    ensures r.Some? ==> forall d :: lo <= d <= hi && labelOf(d) == text ==> d <= r.value
    ensures r.None? <==> forall d :: lo <= d <= hi ==> labelOf(d) != text
  {
    if lo > hi then None
    else if labelOf(hi) == text then Some(hi)
    else LatestMatch(lo, hi - 1, text, labelOf)
  }

  /** DECLARATION_DATE: the earliest day of the window labelled `text`. */
  function DeclarationDate(today: int, text: string): (r: Option<int>)
    ensures r.Some? ==> InWindow(today, r.value) && Label(r.value) == text
    ensures r.Some? ==> forall d :: InWindow(today, d) && Label(d) == text ==> r.value <= d
    ensures r.None? <==> forall d :: InWindow(today, d) ==> Label(d) != text
  {
    EarliestMatch(today - WindowRadius, today + WindowRadius, text, Label)
  }

  /** EX-DIVIDEND_DATE and PAYMENT_DATE: the latest day of the window
      labelled `text`. */
  function ExOrPaymentDate(today: int, text: string): (r: Option<int>)
    ensures r.Some? ==> InWindow(today, r.value) && Label(r.value) == text
    ensures r.Some? ==> forall d :: InWindow(today, d) && Label(d) == text ==> d <= r.value
    ensures r.None? <==> forall d :: InWindow(today, d) ==> Label(d) != text
  {
    LatestMatch(today - WindowRadius, today + WindowRadius, text, Label)
  }

  /** The two rules agree on whether a label resolves at all; when it does,
      the declaration reading is never later than the ex-dividend/payment
      reading, and they coincide exactly when the label matches one day. */
  lemma ResolutionAsymmetry(today: int, text: string)
    ensures DeclarationDate(today, text).Some? <==> ExOrPaymentDate(today, text).Some?
    ensures DeclarationDate(today, text).Some? ==>
      DeclarationDate(today, text).value <= ExOrPaymentDate(today, text).value
    ensures DeclarationDate(today, text).Some? ==>
      (DeclarationDate(today, text) == ExOrPaymentDate(today, text) <==>
       forall d :: InWindow(today, d) && Label(d) == text ==> d == DeclarationDate(today, text).value)
  {
  }

  /** Two distinct days of the window share a label: the declaration date
      resolves to the earlier (or an even earlier match), the ex-dividend
      and payment dates to the later (or an even later match). */
  lemma TieBreak(today: int, text: string, d1: int, d2: int)
    requires InWindow(today, d1) && InWindow(today, d2) && d1 < d2
    requires Label(d1) == text && Label(d2) == text
    ensures DeclarationDate(today, text).Some? && DeclarationDate(today, text).value <= d1
    ensures ExOrPaymentDate(today, text).Some? && d2 <= ExOrPaymentDate(today, text).value
    ensures DeclarationDate(today, text) != ExOrPaymentDate(today, text)
  {
  }

  /** A text that is not six characters long never resolves. */
  lemma MalformedTextIsMissing(today: int, text: string)
    requires |text| != 6
    ensures DeclarationDate(today, text).None? && ExOrPaymentDate(today, text).None?
  {
  }

  /** Day 20736 is 2026-10-10. Its label also matches 2025-10-10 and
      2027-10-10, both inside the 731-day window, so a label can match
      three days: "10-Oct" resolves to 2025-10-10 as a declaration date and
      to 2027-10-10 as an ex-dividend or payment date, two years apart. */
  lemma ThreeMatchesExample()
    ensures CivilFromDays(20736) == CivilDate(2026, 10, 10)
    ensures Label(20736 - 365) == Label(20736) == Label(20736 + 365) == "10-Oct"
    ensures DeclarationDate(20736, "10-Oct") == Some(20736 - 365)
    ensures ExOrPaymentDate(20736, "10-Oct") == Some(20736 + 365)
  {
    SplitEraInverse(25, 223);
    SplitEraInverse(26, 223);
    SplitEraInverse(27, 223);
    TenthOfOctober(20371, 9354, 25);
    TenthOfOctober(20736, 9719, 26);
    TenthOfOctober(21101, 10084, 27);
    assert EarliestMatch(20371, 21101, "10-Oct", Label) == Some(20371);
    assert LatestMatch(20371, 21101, "10-Oct", Label) == Some(21101);
  }

  /** Day `z`, day `doe` of the era starting 2000-03-01 and `yoe` years into
      it, is 10 October of year 2000 + `yoe`. */
  lemma TenthOfOctober(z: int, doe: int, yoe: int)
    requires z + ShiftToMarch0000 == 5 * DaysPer400Years + doe
    requires 0 <= doe < DaysPer400Years
    requires SplitEra(doe) == (yoe, 223)
    ensures CivilFromDays(z) == CivilDate(2000 + yoe, 10, 10)
    ensures Label(z) == "10-Oct"
  {
    assert EraOf(z) == 5 by {
      ModShift(doe, 5, DaysPer400Years);
    }
    assert DayOfEra(z) == doe;
    assert SplitYear(223) == (7, 10);
    assert CivilFromDays(z) == CivilDate(2000 + yoe, 10, 10);
    assert TwoDigits(10) == "10";
  }
}
