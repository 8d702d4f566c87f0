/** The `Market_Analysis` object and the script that drives it: the
    attributes it carries between steps, and each step as a function from
    one state to the next. What the steps fetch from the network (the
    constituent lists, the scraped dividend table, the provider's price
    response) arrives as a parameter. A step that raises yields the
    exception instead of a state. */
module Analysis {
  import opened Wrappers
  import opened Sorting
  import opened Text
  import opened Tables
  import Universe
  import Dividends
  import MarketData

  /** The attributes of a `Market_Analysis`. `dividends` and `marketData`
      are absent until the step that sets them has run. The two bounds of
      the price history are only handed to the provider. */
  datatype State = State(
    dataFrom: int,
    dataTo: int,
    pullDividends: bool,
    tickers: seq<string>,
    dividends: Option<Table>,
    marketData: Option<MarketData.Response>)

  /** Every stored frame has one cell per column in each row. */
  predicate Valid(a: State) {
    && (a.dividends.Some? ==> WellFormed(a.dividends.value))
    && (a.marketData.Some? ==> MarketData.ResponseWellFormed(a.marketData.value))
  }

  /** `__init__`: keeps the three inputs and builds the ticker universe
      from the FTSE 100 and FTSE 250 constituent lists. */
  function Init(dataFrom: int, dataTo: int, pullDividends: bool,
                ftse100: seq<string>, ftse250: seq<string>): (a: State)
    ensures Valid(a)
    ensures a.dataFrom == dataFrom && a.dataTo == dataTo && a.pullDividends == pullDividends
    ensures Sorted(a.tickers, LexLe)
    ensures multiset(a.tickers) == multiset(Universe.Candidates(ftse100, ftse250))
    ensures a.dividends.None? && a.marketData.None?
  {
    State(dataFrom, dataTo, pullDividends, Universe.Build(ftse100, ftse250), None, None)
  }

  /** `get_dividends`: with the flag set, the dividend table becomes the
      scraped table (the two index pages, concatenated); otherwise nothing
      happens. */
  function GetDividends(a: State, scraped: Table): (r: State)
    requires Valid(a) && WellFormed(scraped)
    ensures Valid(r)
    ensures !a.pullDividends ==> r == a
    ensures a.pullDividends ==> r == a.(dividends := Some(scraped))
  {
    if a.pullDividends then a.(dividends := Some(scraped)) else a
  }

  /** `format_dividends`: with the flag set, formats the stored dividend
      table, which must exist (AttributeError otherwise); with the flag
      clear, nothing happens. */
  function FormatDividends(a: State, today: int): (r: Result<State, Error>)
    requires Valid(a)
    ensures r.Success? ==> Valid(r.value)
    ensures r.Success? ==> r.value.(dividends := a.dividends) == a
    ensures !a.pullDividends ==> r == Success(a)
    ensures a.pullDividends && a.dividends.None? ==> r == Failure(AttributeError("dividends"))
    ensures a.pullDividends && a.dividends.Some? ==>
      match Dividends.Format(a.dividends.value, today)
      case Success(t) => r == Success(a.(dividends := Some(t)))
      case Failure(e) => r == Failure(e)
  {
    if !a.pullDividends then Success(a)
    else if a.dividends.None? then Failure(AttributeError("dividends"))
    else
      var t :- Dividends.Format(a.dividends.value, today);
      Success(a.(dividends := Some(t)))
  }

  /** `download_market_data`: stores the provider's answer for the
      universe over [dataFrom, dataTo). */
  function DownloadMarketData(a: State, response: MarketData.Response): (r: State)
    requires Valid(a) && MarketData.ResponseWellFormed(response)
    ensures Valid(r)
    ensures r.marketData == Some(response)
    ensures r.(marketData := a.marketData) == a
  {
    a.(marketData := Some(response))
  }

  /** `reformat_market_data`: reshapes the stored market data in place.
      The result is stored as a flat frame, so running the step again
      reshapes that frame. Without downloaded data the attribute is
      missing. */
  function ReformatMarketData(a: State): (r: Result<State, Error>)
    requires Valid(a)
    ensures r.Success? ==> Valid(r.value)
    ensures a.marketData.None? ==> r == Failure(AttributeError("market_data"))
    ensures r.Success? ==> r.value.(marketData := a.marketData) == a
    ensures a.marketData.Some? ==>
      match MarketData.Reformat(a.tickers, a.marketData.value)
      case Success(f) => r == Success(a.(marketData := Some(MarketData.Flat(f))))
      case Failure(e) => r == Failure(e)
  {
    if a.marketData.None? then Failure(AttributeError("market_data"))
    else
      var f :- MarketData.Reformat(a.tickers, a.marketData.value);
      Success(a.(marketData := Some(MarketData.Flat(f))))
  }

  /** The script: build the object, fetch and format dividends, download
      and reshape the market data. */
  function Run(dataFrom: int, dataTo: int, pullDividends: bool,
               ftse100: seq<string>, ftse250: seq<string>,
               scraped: Table, today: int, response: MarketData.Response): (r: Result<State, Error>)
    requires WellFormed(scraped) && MarketData.ResponseWellFormed(response)
    ensures r.Success? ==> Valid(r.value) && r.value.pullDividends == pullDividends
    ensures r.Success? ==> r.value.tickers == Universe.Build(ftse100, ftse250)
  {
    var a := Init(dataFrom, dataTo, pullDividends, ftse100, ftse250);
    var b := GetDividends(a, scraped);
    assert b.pullDividends == pullDividends && b.tickers == a.tickers;
    var c :- FormatDividends(b, today);
    var d := DownloadMarketData(c, response);
    assert d.pullDividends == pullDividends && d.tickers == a.tickers;
    ReformatMarketData(d)
  }

  /** With the flag clear, neither dividend step changes the state. */
  lemma DividendStepsInert(a: State, scraped: Table, today: int)
    requires Valid(a) && WellFormed(scraped) && !a.pullDividends
    ensures FormatDividends(GetDividends(a, scraped), today) == Success(a)
  {
  }

  /** With the flag set, the two dividend steps together format the
      scraped table. */
  lemma DividendStepsFormatScraped(a: State, scraped: Table, today: int)
    requires Valid(a) && WellFormed(scraped) && a.pullDividends
    ensures var r := FormatDividends(GetDividends(a, scraped), today);
      && (r.Success? <==> Dividends.Format(scraped, today).Success?)
      && (r.Success? ==> r.value == a.(dividends := Some(Dividends.Format(scraped, today).value)))
  {
  }

  /** A run with the flag clear never holds a dividend table, and its
      market data is the reshaped provider answer for the universe. */
  lemma RunWithoutDividends(dataFrom: int, dataTo: int,
                            ftse100: seq<string>, ftse250: seq<string>,
                            scraped: Table, today: int, response: MarketData.Response)
    requires WellFormed(scraped) && MarketData.ResponseWellFormed(response)
    ensures var r := Run(dataFrom, dataTo, false, ftse100, ftse250, scraped, today, response);
      var g := MarketData.Reformat(Universe.Build(ftse100, ftse250), response);
      && (r.Success? <==> g.Success?)
      && (r.Success? ==> r.value.dividends.None? && r.value.marketData == Some(MarketData.Flat(g.value)))
  {
    var a := Init(dataFrom, dataTo, false, ftse100, ftse250);
    DividendStepsInert(a, scraped, today);
  }
}
