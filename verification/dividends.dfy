/** The body of `format_dividends`: the scraped dividend table gets the
    fixed ten-column schema, ".L" on every ticker, and its three "DD-Mon"
    text dates resolved to days of the two-year window around today. The
    numeric conversions of SHARE_PRICE, DIV_IMPACT and DIVIDEND are floating
    point and are not modelled: those cells pass through unchanged. */
module Dividends {
  import opened Wrappers
  import opened Calendar
  import opened DateLookup
  import opened Tables
  import Universe

  const Schema: seq<string> := ["TICKER", "NAME", "MARKET", "SHARE_PRICE", "DIVIDEND", "TYPE",
                                "DIV_IMPACT", "DECLARATION_DATE", "EX-DIVIDEND_DATE", "PAYMENT_DATE"]

  const TickerColumn := 0
  const DeclarationColumn := 7
  const ExDividendColumn := 8
  const PaymentColumn := 9

  /** A DECLARATION_DATE cell after resolution: the earliest day of the
      window whose label is the cell's text, or missing. */
  function DeclarationCell(today: int, c: Cell): (r: Cell)
    ensures r.Date? || r == Missing
    ensures r.Date? <==> c.Text? && exists d :: InWindow(today, d) && Label(d) == c.text
    ensures r.Date? ==> InWindow(today, r.day) && Label(r.day) == c.text
    ensures r.Date? ==> forall d :: InWindow(today, d) && Label(d) == c.text ==> r.day <= d
  {
    if !c.Text? then Missing
    else match DeclarationDate(today, c.text)
      case Some(d) => Date(d)
      case None => Missing
  }

  /** An EX-DIVIDEND_DATE or PAYMENT_DATE cell after resolution: the latest
      day of the window whose label is the cell's text, or missing. */
  function ExOrPaymentCell(today: int, c: Cell): (r: Cell)
    ensures r.Date? || r == Missing
    ensures r.Date? <==> c.Text? && exists d :: InWindow(today, d) && Label(d) == c.text
    ensures r.Date? ==> InWindow(today, r.day) && Label(r.day) == c.text
    ensures r.Date? ==> forall d :: InWindow(today, d) && Label(d) == c.text ==> d <= r.day
  {
    if !c.Text? then Missing
    else match ExOrPaymentDate(today, c.text)
      case Some(d) => Date(d)
      case None => Missing
  }

  /** Some ticker cell holds a value that is neither text nor missing;
      `+= '.L'` then raises TypeError. Missing cells are skipped by pandas'
      element-wise addition on an object column and stay missing. */
  predicate HasNonTextTicker(t: Table)
    requires WellFormed(t) && |t.columns| == |Schema|
  {
    exists i :: 0 <= i < |t.rows| && !t.rows[i][TickerColumn].Text? && t.rows[i][TickerColumn] != Missing
  }

  /** A ticker cell after `+= '.L'`: text gains the suffix, missing stays missing. */
  function SuffixedTicker(c: Cell): (r: Cell)
    requires c.Text? || c == Missing
    ensures r == Missing <==> c == Missing
    ensures c.Text? ==>
      && r.Text? && |r.text| == |c.text| + 2
      && r.text[..|c.text|] == c.text && r.text[|c.text|..] == Universe.ExchangeSuffix
  {
    if c.Text? then Text(c.text + Universe.ExchangeSuffix) else Missing
  }

  /** One row after formatting: the ticker suffixed, the three date cells
      resolved, the six cells between them as scraped. */
  function FormatRow(today: int, row: seq<Cell>): (r: seq<Cell>)
    requires |row| == |Schema| && (row[TickerColumn].Text? || row[TickerColumn] == Missing)
    ensures |r| == |Schema|
    ensures r[TickerColumn] == SuffixedTicker(row[TickerColumn])
    ensures r[TickerColumn + 1..DeclarationColumn] == row[TickerColumn + 1..DeclarationColumn]
    ensures r[DeclarationColumn] == DeclarationCell(today, row[DeclarationColumn])
    ensures r[ExDividendColumn] == ExOrPaymentCell(today, row[ExDividendColumn])
    ensures r[PaymentColumn] == ExOrPaymentCell(today, row[PaymentColumn])
  {
    var ticker := SuffixedTicker(row[TickerColumn]);
    var declared := DeclarationCell(today, row[DeclarationColumn]);
    var exDividend := ExOrPaymentCell(today, row[ExDividendColumn]);
    var payment := ExOrPaymentCell(today, row[PaymentColumn]);
    [ticker] + row[TickerColumn + 1..DeclarationColumn] + [declared, exDividend, payment]
  }

  /** `format_dividends` with `pull_dividends` set, on the scraped table.
      Assigning the schema fails unless the table has exactly ten columns;
      suffixing fails on a ticker that is present but not text. */
  function Format(t: Table, today: int): (r: Result<Table, Error>)
    requires WellFormed(t)
    ensures r.Failure? <==> |t.columns| != |Schema| || HasNonTextTicker(t)
    ensures |t.columns| != |Schema| ==> r == Failure(LengthMismatch(|t.columns|, |Schema|))
    ensures r.Success? ==> WellFormed(r.value) && r.value.columns == Schema
    ensures r.Success? ==> |r.value.rows| == |t.rows|
    ensures r.Success? ==> forall i :: 0 <= i < |t.rows| ==>
      && (t.rows[i][TickerColumn].Text? ==>
            r.value.rows[i][TickerColumn] == Text(t.rows[i][TickerColumn].text + Universe.ExchangeSuffix))
      && (t.rows[i][TickerColumn] == Missing ==> r.value.rows[i][TickerColumn] == Missing)
      && r.value.rows[i][1..DeclarationColumn] == t.rows[i][1..DeclarationColumn]
      && r.value.rows[i][DeclarationColumn] == DeclarationCell(today, t.rows[i][DeclarationColumn])
      && r.value.rows[i][ExDividendColumn] == ExOrPaymentCell(today, t.rows[i][ExDividendColumn])
      && r.value.rows[i][PaymentColumn] == ExOrPaymentCell(today, t.rows[i][PaymentColumn])
  {
    var renamed :- SetColumns(t, Schema);
    if HasNonTextTicker(renamed) then Failure(TypeError("can only concatenate str to str"))
    else
      var rows := seq(|t.rows|, i requires 0 <= i < |t.rows| => FormatRow(today, t.rows[i]));
      Success(Table(Schema, rows))
  }

  /** Within one row, a declaration date and an ex-dividend (or payment)
      date written with the same text resolve in that order. */
  lemma SameTextOrdered(today: int, c: Cell)
    ensures DeclarationCell(today, c).Date? <==> ExOrPaymentCell(today, c).Date?
    ensures DeclarationCell(today, c).Date? ==> DeclarationCell(today, c).day <= ExOrPaymentCell(today, c).day
  {
    if c.Text? {
      ResolutionAsymmetry(today, c.text);
    }
  }

  /** Formatting keeps every scraped row and every ticker's base symbol;
      a missing ticker stays missing. */
  lemma TickersKeepBase(t: Table, today: int, i: int)
    requires WellFormed(t)
    requires Format(t, today).Success?
    requires 0 <= i < |t.rows|
    ensures var c := Format(t, today).value.rows[i][TickerColumn];
      && (t.rows[i][TickerColumn].Text? ==>
            c.Text? && |c.text| >= 2 && c.text[..|c.text| - 2] == t.rows[i][TickerColumn].text
            && c.text[|c.text| - 2..] == Universe.ExchangeSuffix)
      && (t.rows[i][TickerColumn] == Missing <==> c == Missing)
  {
    var before := t.rows[i][TickerColumn];
    var c := Format(t, today).value.rows[i][TickerColumn];
    assert before.Text? || before == Missing;
    if before.Text? {
      var s := before.text + Universe.ExchangeSuffix;
      assert c == Text(s);
      assert s[..|s| - 2] == before.text;
    }
  }
}
