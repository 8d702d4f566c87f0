/** The body of `reformat_market_data`. The provider's response is a
    per-date table when one ticker was requested and a table with a
    (ticker, field) column pair per series when several were. The
    several-ticker response is stacked into (ticker, field, date, value)
    observations, dropping missing values, and unstacked into one row per
    (ticker, date) with one column per field; the one-ticker response gets
    its date index back as a column and a first "Ticker" column. Both then
    have their column names upper-cased, lose ADJ CLOSE and are indexed by
    TICKER. */
module MarketData {
  import opened Wrappers
  import opened Sorting
  import opened Text
  import opened Tables

  const TickerColumn := "Ticker"
  const DateColumn := "Date"
  const AdjustedClose := "ADJ CLOSE"
  const IndexKey := "TICKER"

  /** The several-ticker response: one row per date, one column per
      (ticker, field) pair. */
  datatype Grouped = Grouped(dates: seq<int>, columns: seq<(string, string)>, rows: seq<seq<Cell>>)

  predicate GroupedWellFormed(g: Grouped) {
    && |g.rows| == |g.dates|
    && forall i :: 0 <= i < |g.rows| ==> |g.rows[i]| == |g.columns|
  }

  /** What the provider returned. */
  datatype Response = Flat(frame: Indexed) | ByTicker(grouped: Grouped)

  /** One value of the long table built by `T.stack()`. */
  datatype Obs = Obs(ticker: string, field: string, date: int, value: Cell)

  /** The non-missing entries of `s`, in order (`stack` drops NaN). */
  function Present(s: seq<Obs>): (r: seq<Obs>)
    ensures forall o :: o in r <==> o in s && o.value != Missing
  {
    if |s| == 0 then []
    else (if s[0].value == Missing then [] else [s[0]]) + Present(s[1..])
  }

  /** `o` is the value of column `j` at some date, with that column's
      ticker and field. */
  ghost predicate IsCellOf(g: Grouped, o: Obs, j: int)
    requires GroupedWellFormed(g) && 0 <= j < |g.columns|
  {
    exists i :: 0 <= i < |g.dates| && o == Obs(g.columns[j].0, g.columns[j].1, g.dates[i], g.rows[i][j])
  }

  /** Column `j` of the response as observations, one per date. */
  function ColumnObs(g: Grouped, j: int): (r: seq<Obs>)
    requires GroupedWellFormed(g) && 0 <= j < |g.columns|
    ensures forall o :: o in r <==> o.value != Missing && IsCellOf(g, o, j)
  {
    var all := seq(|g.dates|, i requires 0 <= i < |g.dates| =>
      Obs(g.columns[j].0, g.columns[j].1, g.dates[i], g.rows[i][j]));
    assert forall o :: o in all <==> IsCellOf(g, o, j) by {
      forall o | IsCellOf(g, o, j)
        ensures o in all
      {
        var i :| 0 <= i < |g.dates| && o == Obs(g.columns[j].0, g.columns[j].1, g.dates[i], g.rows[i][j]);
        assert all[i] == o;
      }
    }
    Present(all)
  }

  /** Columns `j` onwards, stacked column by column. */
  function StackFrom(g: Grouped, j: int): (r: seq<Obs>)
    requires GroupedWellFormed(g) && 0 <= j <= |g.columns|
    decreases |g.columns| - j
    ensures forall o :: o in r <==> o.value != Missing && exists k :: j <= k < |g.columns| && IsCellOf(g, o, k)
  {
    if j == |g.columns| then []
    else ColumnObs(g, j) + StackFrom(g, j + 1)
  }

  /** `market_data.T.stack()` as a list of observations: every non-missing
      value of the response, labelled with its ticker, field and date. */
  function Stack(g: Grouped): (r: seq<Obs>)
    requires GroupedWellFormed(g)
    ensures forall o :: o in r <==> o.value != Missing && exists k :: 0 <= k < |g.columns| && IsCellOf(g, o, k)
  {
    StackFrom(g, 0)
  }

  /** Two observations for the same ticker, field and date. */
  predicate SameSlot(a: Obs, b: Obs) {
    a.ticker == b.ticker && a.field == b.field && a.date == b.date
  }

  /** `unstack` refuses an index with repeated entries. */
  predicate HasDuplicateSlots(obs: seq<Obs>) {
    exists i, j :: 0 <= i < j < |obs| && SameSlot(obs[i], obs[j])
  }

  /** (ticker, date) row keys ordered by ticker, then by date. */
  function KeyLe(a: (string, int), b: (string, int)): bool {
    if a.0 == b.0 then a.1 <= b.1 else LexLe(a.0, b.0)
  }

  lemma KeyLeTotalOrder()
    ensures TotalOrder(KeyLe)
  {
    LexLeTotalOrder();
  }

  function FieldsOf(obs: seq<Obs>): (r: seq<string>)
    ensures forall f :: f in r <==> exists o :: o in obs && o.field == f
  {
    var r := seq(|obs|, i requires 0 <= i < |obs| => obs[i].field);
    assert forall o :: o in obs ==> o.field in r by {
      forall o | o in obs
        ensures o.field in r
      {
        var i :| 0 <= i < |obs| && obs[i] == o;
        assert r[i] == o.field;
      }
    }
    r
  }

  function KeysOf(obs: seq<Obs>): (r: seq<(string, int)>)
    ensures forall k :: k in r <==> exists o :: o in obs && (o.ticker, o.date) == k
  {
    var r := seq(|obs|, i requires 0 <= i < |obs| => (obs[i].ticker, obs[i].date));
    assert forall o :: o in obs ==> (o.ticker, o.date) in r by {
      forall o | o in obs
        ensures (o.ticker, o.date) in r
      {
        var i :| 0 <= i < |obs| && obs[i] == o;
        assert r[i] == (o.ticker, o.date);
      }
    }
    r
  }

  /** The value observed for `field` at row key `key`, or missing. */
  function ValueAt(obs: seq<Obs>, key: (string, int), field: string): (c: Cell)
    ensures (forall o :: o in obs ==> !SameSlot(o, Obs(key.0, field, key.1, Missing))) ==> c == Missing
    ensures !HasDuplicateSlots(obs) ==>
      forall o :: o in obs && SameSlot(o, Obs(key.0, field, key.1, Missing)) ==> c == o.value
  {
    if |obs| == 0 then Missing
    else if SameSlot(obs[0], Obs(key.0, field, key.1, Missing)) then obs[0].value
    else
      assert !HasDuplicateSlots(obs) ==> !HasDuplicateSlots(obs[1..]) by {
        if HasDuplicateSlots(obs[1..]) {
          var i, j :| 0 <= i < j < |obs[1..]| && SameSlot(obs[1..][i], obs[1..][j]);
          assert SameSlot(obs[i + 1], obs[j + 1]);
        }
      }
      ValueAt(obs[1..], key, field)
  }

  /** The field columns of the wide table: each observed field once, in
      ascending order. */
  function WideFields(obs: seq<Obs>): (r: seq<string>)
    ensures Sorted(r, LexLe) && Distinct(r)
    ensures forall f :: f in r <==> exists o :: o in obs && o.field == f
  {
    LexLeTotalOrder();
    SortedDistinct(FieldsOf(obs), LexLe)
  }

  /** The row keys of the wide table: each observed (ticker, date) once,
      ordered by ticker, then date. */
  function WideKeys(obs: seq<Obs>): (r: seq<(string, int)>)
    ensures Sorted(r, KeyLe) && Distinct(r)
    ensures forall k :: k in r <==> exists o :: o in obs && (o.ticker, o.date) == k
  {
    KeyLeTotalOrder();
    SortedDistinct(KeysOf(obs), KeyLe)
  }

  /** One wide row: its key, then the value of each field at that key. */
  function WideRow(obs: seq<Obs>, key: (string, int), fields: seq<string>): (row: seq<Cell>)
    ensures |row| == 2 + |fields| && row[0] == Text(key.0) && row[1] == Date(key.1)
    ensures forall k :: 0 <= k < |fields| ==> row[2 + k] == ValueAt(obs, key, fields[k])
  {
    [Text(key.0), Date(key.1)] + seq(|fields|, k requires 0 <= k < |fields| => ValueAt(obs, key, fields[k]))
  }

  /** `set_index(['Ticker','Date','Type']).unstack().reset_index()` with the
      column labels flattened: "Ticker", "Date", then one column per field. */
  function Unstack(obs: seq<Obs>): (r: Result<Table, Error>)
    ensures r.Failure? <==> HasDuplicateSlots(obs)
    ensures r.Success? ==> WellFormed(r.value)
    ensures r.Success? ==> r.value.columns == [TickerColumn, DateColumn] + WideFields(obs)
    ensures r.Success? ==> |r.value.rows| == |WideKeys(obs)|
    ensures r.Success? ==> forall i :: 0 <= i < |r.value.rows| ==>
      r.value.rows[i] == WideRow(obs, WideKeys(obs)[i], WideFields(obs))
  {
    if HasDuplicateSlots(obs) then Failure(ValueError("Index contains duplicate entries, cannot reshape"))
    else
      var fields := WideFields(obs);
      var keys := WideKeys(obs);
      Success(Table([TickerColumn, DateColumn] + fields,
        seq(|keys|, i requires 0 <= i < |keys| => WideRow(obs, keys[i], fields))))
  }

  /** Every observation lands in the wide table: in the row of its ticker
      and date, under the column of its field. */
  lemma UnstackPlacesEveryValue(obs: seq<Obs>, o: Obs)
    requires !HasDuplicateSlots(obs)
    requires o in obs
    ensures var t := Unstack(obs).value;
      exists i, k :: 0 <= i < |t.rows| && 2 <= k < |t.columns| &&
        t.rows[i][0] == Text(o.ticker) && t.rows[i][1] == Date(o.date) &&
        t.columns[k] == o.field && t.rows[i][k] == o.value
  {
    var keys, fields := WideKeys(obs), WideFields(obs);
    assert (o.ticker, o.date) in keys;
    var i :| 0 <= i < |keys| && keys[i] == (o.ticker, o.date);
    assert o.field in fields;
    var k :| 0 <= k < |fields| && fields[k] == o.field;
    WideCell(obs, i, k);
    assert SameSlot(o, Obs(keys[i].0, fields[k], keys[i].1, Missing));
  }

  /** The cell of wide row `i` under field column `k`. */
  lemma WideCell(obs: seq<Obs>, i: int, k: int)
    requires !HasDuplicateSlots(obs)
    requires 0 <= i < |WideKeys(obs)| && 0 <= k < |WideFields(obs)|
    ensures var t := Unstack(obs).value;
      && 0 <= i < |t.rows| && 2 <= 2 + k < |t.columns|
      && t.rows[i][0] == Text(WideKeys(obs)[i].0) && t.rows[i][1] == Date(WideKeys(obs)[i].1)
      && t.columns[2 + k] == WideFields(obs)[k]
      && t.rows[i][2 + k] == ValueAt(obs, WideKeys(obs)[i], WideFields(obs)[k])
  {
  }

  /** Every wide row comes from some observation, and no (ticker, date)
      pair has two rows; rows run by ticker, then date. */
  lemma UnstackRowsAreKeyed(obs: seq<Obs>, i: int, j: int)
    requires !HasDuplicateSlots(obs)
    requires 0 <= i < j < |Unstack(obs).value.rows|
    ensures var t := Unstack(obs).value;
      && (exists o :: o in obs && t.rows[i][0] == Text(o.ticker) && t.rows[i][1] == Date(o.date))
      && t.rows[i][..2] != t.rows[j][..2]
      && KeyLe((t.rows[i][0].text, t.rows[i][1].day), (t.rows[j][0].text, t.rows[j][1].day))
  {
    var t := Unstack(obs).value;
    var keys := WideKeys(obs);
    assert keys[i] in keys;
    assert t.rows[i][..2] == [Text(keys[i].0), Date(keys[i].1)];
    assert t.rows[j][..2] == [Text(keys[j].0), Date(keys[j].1)];
  }

  /** The one-ticker path: `reset_index()` then `insert(0, 'Ticker', ticker)`. */
  function SinglePath(f: Indexed, ticker: string): (r: Result<Table, Error>)
    requires IndexedWellFormed(f)
    ensures r.Failure? <==> f.indexName in f.columns || TickerColumn in [f.indexName] + f.columns
    ensures r.Success? ==> WellFormed(r.value)
    ensures r.Success? ==> r.value.columns == [TickerColumn, f.indexName] + f.columns
    ensures r.Success? ==> |r.value.rows| == |f.rows|
    ensures r.Success? ==> forall i :: 0 <= i < |f.rows| ==>
      r.value.rows[i] == [Text(ticker), f.index[i]] + f.rows[i]
  {
    var t :- ResetIndex(f);
    var r := InsertFirst(t, TickerColumn, Text(ticker));
    if r.Success? then
      assert forall i :: 0 <= i < |f.rows| ==> r.value.rows[i] == [r.value.rows[i][0]] + r.value.rows[i][1..];
      r
    else r
  }

  /** The names of `names` upper-cased, in order. */
  function UpperAll(names: seq<string>): (r: seq<string>)
    ensures |r| == |names| && forall i :: 0 <= i < |names| ==> r[i] == Upper(names[i])
    ensures forall c :: c in r ==> IsUpper(c)
  {
    seq(|names|, i requires 0 <= i < |names| => Upper(names[i]))
  }

  /** The tail both paths share: upper-case the column names, drop
      ADJ CLOSE, index by TICKER. */
  function Finish(t: Table): (r: Result<Indexed, Error>)
    requires WellFormed(t)
    ensures AdjustedClose !in UpperAll(t.columns) ==> r == Failure(KeyError(AdjustedClose))
    ensures r.Success? <==>
      AdjustedClose in UpperAll(t.columns) && CountLabel(Without(UpperAll(t.columns), AdjustedClose), IndexKey) == 1
    ensures r.Success? ==> IndexedWellFormed(r.value) && r.value.indexName == IndexKey
    ensures r.Success? ==> |r.value.rows| == |t.rows|
    ensures r.Success? ==> forall c :: c in r.value.columns ==> IsUpper(c)
    ensures r.Success? ==> AdjustedClose !in r.value.columns && IndexKey !in r.value.columns
    ensures r.Success? ==> r.value.columns == Without(Without(UpperAll(t.columns), AdjustedClose), IndexKey)
    ensures r.Success? ==> IndexKey in UpperAll(t.columns) && forall i :: 0 <= i < |t.rows| ==>
      r.value.index[i] == t.rows[i][PositionOf(UpperAll(t.columns), IndexKey)]
    ensures r.Success? ==> exists qs :: CellsKept(Table(UpperAll(t.columns), t.rows), AdjustedClose, IndexKey, r.value, qs)
  {
    var upper := UpperColumns(t);
    assert upper == Table(UpperAll(t.columns), t.rows);
    var dropped :- DropColumn(upper, AdjustedClose);
    WithoutTwo(UpperAll(t.columns), AdjustedClose, IndexKey);
    var r := SetIndex(dropped, IndexKey);
    if r.Failure? then r
    else
      DropThenSetIndex(upper, AdjustedClose, IndexKey);
      r
  }

  predicate ResponseWellFormed(response: Response) {
    match response
    case Flat(f) => IndexedWellFormed(f)
    case ByTicker(g) => GroupedWellFormed(g)
  }

  /** `reformat_market_data`: the several-ticker path when more than one
      ticker was requested, the one-ticker path otherwise, then the shared
      tail. A response of the other shape fails as pandas would: the
      per-date table has three columns where four names are assigned, and
      a (ticker, field) pair has no `upper`. With no ticker at all,
      `tickers[0]` raises IndexError. */
  function Reformat(tickers: seq<string>, response: Response): (r: Result<Indexed, Error>)
    requires ResponseWellFormed(response)
    ensures |tickers| == 0 && response.ByTicker? ==> r == Failure(IndexError)
    ensures r.Success? ==> IndexedWellFormed(r.value) && r.value.indexName == IndexKey
    ensures r.Success? ==> forall c :: c in r.value.columns ==> IsUpper(c)
    ensures r.Success? ==> AdjustedClose !in r.value.columns && IndexKey !in r.value.columns
    ensures r.Success? ==> (|tickers| > 1 <==> response.ByTicker?)
  {
    if |tickers| > 1 then
      match response
      case ByTicker(g) =>
        var wide :- Unstack(Stack(g));
        Finish(wide)
      case Flat(_) => Failure(LengthMismatch(3, 4))
    else
      match response
      case Flat(f) =>
        var t :- ResetIndex(f);
        if |tickers| == 0 then Failure(IndexError)
        else
          var t' :- InsertFirst(t, TickerColumn, Text(tickers[0]));
          Finish(t')
      case ByTicker(_) =>
        if |tickers| == 0 then Failure(IndexError)
        else Failure(AttributeError("upper"))
  }

  /** With exactly one ticker, every row is indexed by that ticker and the
      remaining columns are the date index followed by the provider's
      columns, upper-cased, in their original order, without ADJ CLOSE. */
  lemma SingleTickerResult(ticker: string, f: Indexed)
    requires IndexedWellFormed(f)
    requires Reformat([ticker], Flat(f)).Success?
    ensures var r := Reformat([ticker], Flat(f)).value;
      && |r.index| == |f.rows|
      && (forall i :: 0 <= i < |r.index| ==> r.index[i] == Text(ticker))
      && r.columns == Without(Without(UpperAll([TickerColumn, f.indexName] + f.columns), AdjustedClose), IndexKey)
  {
    var t := SinglePathIsTaken(ticker, f);
    FinishKeepsTicker(t, ticker);
  }

  /** The shared tail on a table whose first column is "Ticker", holding
      `ticker` in every row, indexes every row by `ticker`. */
  lemma FinishKeepsTicker(t: Table, ticker: string)
    requires WellFormed(t) && |t.columns| > 0 && t.columns[0] == TickerColumn
    requires forall i :: 0 <= i < |t.rows| ==> t.rows[i][0] == Text(ticker)
    requires Finish(t).Success?
    ensures forall i :: 0 <= i < |t.rows| ==> Finish(t).value.index[i] == Text(ticker)
  {
    FinishIndexesFirst(t);
  }

  /** A successful one-ticker reformat is `Finish` on the one-ticker path. */
  lemma SinglePathIsTaken(ticker: string, f: Indexed) returns (t: Table)
    requires IndexedWellFormed(f)
    requires Reformat([ticker], Flat(f)).Success?
    ensures SinglePath(f, ticker).Success? && t == SinglePath(f, ticker).value
    ensures WellFormed(t) && Reformat([ticker], Flat(f)) == Finish(t)
    ensures t.columns == [TickerColumn, f.indexName] + f.columns && |t.rows| == |f.rows|
    ensures forall i :: 0 <= i < |t.rows| ==> t.rows[i][0] == Text(ticker)
    ensures AdjustedClose in UpperAll(t.columns)
  {
    t := SinglePath(f, ticker).value;
  }

  lemma TickerUpper()
    ensures Upper(TickerColumn) == IndexKey
  {
  }

  lemma DateUpper()
    ensures Upper(DateColumn) == "DATE"
  {
    UpperWord(DateColumn, "DATE");
  }

  /** With several tickers, the columns are the date followed by each
      field observed in the response once, in ascending order of the
      provider's names, upper-cased, without ADJ CLOSE; there is one row
      per (ticker, date) pair that holds a value. */
  lemma SeveralTickersResult(tickers: seq<string>, g: Grouped)
    requires GroupedWellFormed(g) && |tickers| > 1
    requires Reformat(tickers, ByTicker(g)).Success?
    ensures var r := Reformat(tickers, ByTicker(g)).value;
      && r.columns == Without(Without(UpperAll([TickerColumn, DateColumn] + WideFields(Stack(g))), AdjustedClose), IndexKey)
      && |r.rows| == |WideKeys(Stack(g))|
      && forall i :: 0 <= i < |r.rows| ==>
           && r.index[i] == Text(WideKeys(Stack(g))[i].0)
           && |r.rows[i]| > 0 && r.rows[i][0] == Date(WideKeys(Stack(g))[i].1)
  {
    var wide := Unstack(Stack(g)).value;
    assert Reformat(tickers, ByTicker(g)) == Finish(wide);
    FinishOfWide(Stack(g));
  }

  /** `Finish` on the unstacked table indexes row `i` by the ticker of
      the `i`-th key and starts it with that key's date. */
  lemma FinishOfWide(obs: seq<Obs>)
    requires Unstack(obs).Success? && Finish(Unstack(obs).value).Success?
    ensures var r := Finish(Unstack(obs).value).value;
      forall i :: 0 <= i < |WideKeys(obs)| ==>
        && r.index[i] == Text(WideKeys(obs)[i].0)
        && |r.rows[i]| > 0 && r.rows[i][0] == Date(WideKeys(obs)[i].1)
  {
    var wide := Unstack(obs).value;
    var keys := WideKeys(obs);
    forall i | 0 <= i < |wide.rows|
      ensures wide.rows[i][0] == Text(keys[i].0) && wide.rows[i][1] == Date(keys[i].1)
    {
      var row := WideRow(obs, keys[i], WideFields(obs));
      assert wide.rows[i] == row;
    }
    FinishOfKeyed(wide, keys);
  }

  /** `Finish` on a table that starts with "Ticker" and "Date" columns
      holding `keys`: row `i` is indexed by the ticker of `keys[i]` and
      starts with its date. */
  lemma FinishOfKeyed(t: Table, keys: seq<(string, int)>)
    requires WellFormed(t) && |t.columns| > 1 && t.columns[0] == TickerColumn && t.columns[1] == DateColumn
    requires |keys| == |t.rows|
    requires forall i :: 0 <= i < |t.rows| ==> t.rows[i][0] == Text(keys[i].0) && t.rows[i][1] == Date(keys[i].1)
    requires Finish(t).Success?
    ensures var r := Finish(t).value;
      forall i :: 0 <= i < |keys| ==>
        && r.index[i] == Text(keys[i].0)
        && |r.rows[i]| > 0 && r.rows[i][0] == Date(keys[i].1)
  {
    FinishIndexesFirst(t);
    FinishKeepsSecondFirst(t);
    var r := Finish(t).value;
    forall i | 0 <= i < |keys|
      ensures r.index[i] == Text(keys[i].0) && |r.rows[i]| > 0 && r.rows[i][0] == Date(keys[i].1)
    {
      assert r.index[i] == t.rows[i][0] && r.rows[i][0] == t.rows[i][1];
    }
  }

  /** `Finish` on a table whose first column is "Ticker" indexes each row
      by its first cell. */
  lemma FinishIndexesFirst(t: Table)
    requires WellFormed(t) && |t.columns| > 0 && t.columns[0] == TickerColumn
    requires Finish(t).Success?
    ensures forall i :: 0 <= i < |t.rows| ==> Finish(t).value.index[i] == t.rows[i][0]
  {
    var u := UpperAll(t.columns);
    assert u[0] == IndexKey by {
      TickerUpper();
    }
    assert PositionOf(u, IndexKey) == 0;
  }

  /** `Finish` on a table whose first columns are "Ticker" and "Date"
      leaves each row's date as its first remaining cell. */
  lemma FinishKeepsSecondFirst(t: Table)
    requires WellFormed(t) && |t.columns| > 1 && t.columns[0] == TickerColumn && t.columns[1] == DateColumn
    requires Finish(t).Success?
    ensures forall i :: 0 <= i < |t.rows| ==>
      |Finish(t).value.rows[i]| > 0 && Finish(t).value.rows[i][0] == t.rows[i][1]
  {
    var u := UpperAll(t.columns);
    assert u[0] == IndexKey by {
      TickerUpper();
    }
    assert u[1] == "DATE" by {
      DateUpper();
    }
    var qs :| CellsKept(Table(u, t.rows), AdjustedClose, IndexKey, Finish(t).value, qs);
    FirstKeptIsSecond(Table(u, t.rows), AdjustedClose, IndexKey, Finish(t).value, qs);
  }

  /** The fields of a one-ticker provider frame of this layout: dates as
      the index, then these eight columns. Which columns the provider sends
      depends on its version; this layout is one example. */
  const ProviderFields: seq<string> :=
    ["Open", "High", "Low", "Close", "Adj Close", "Volume", "Dividends", "Stock Splits"]

  /** For one ticker, a provider frame of this layout comes out keyed by
      TICKER with the date first and the fields in the provider's order. */
  lemma ProviderFrameSingleTicker(ticker: string, f: Indexed)
    requires IndexedWellFormed(f) && f.indexName == DateColumn && f.columns == ProviderFields
    ensures Reformat([ticker], Flat(f)).Success?
    ensures Reformat([ticker], Flat(f)).value.columns == ProviderOutput
  {
    var t := SinglePath(f, ticker);
    assert t.Success? && t.value.columns == [TickerColumn, DateColumn] + ProviderFields;
    ProviderColumns(t.value.columns);
    assert Reformat([ticker], Flat(f)) == Finish(t.value);
  }

  /** The columns a one-ticker provider frame ends with. */
  const ProviderOutput: seq<string> :=
    ["DATE", "OPEN", "HIGH", "LOW", "CLOSE", "VOLUME", "DIVIDENDS", "STOCK SPLITS"]

  /** The column names of the one-ticker path, through the shared tail. */
  lemma ProviderColumns(names: seq<string>)
    requires names == [TickerColumn, DateColumn] + ProviderFields
    ensures AdjustedClose in UpperAll(names)
    ensures CountLabel(Without(UpperAll(names), AdjustedClose), IndexKey) == 1
    ensures Without(Without(UpperAll(names), AdjustedClose), IndexKey) == ProviderOutput
  {
    var rest := ProviderOutput[..5];
    var tail := ProviderOutput[5..];
    assert UpperAll(names) == [IndexKey] + rest + [AdjustedClose] + tail by {
      UpperProviderNames(names);
    }
    var dropped := Without(UpperAll(names), AdjustedClose);
    assert dropped == [IndexKey] + (rest + tail) by {
      DropMiddle([IndexKey] + rest, AdjustedClose, tail);
    }
    assert [] + [IndexKey] + (rest + tail) == dropped;
    DropMiddle([], IndexKey, rest + tail);
  }

  /** The provider's column names, upper-cased. */
  lemma UpperProviderNames(names: seq<string>)
    requires names == [TickerColumn, DateColumn] + ProviderFields
    ensures UpperAll(names) == ["TICKER", "DATE", "OPEN", "HIGH", "LOW", "CLOSE", "ADJ CLOSE",
                                "VOLUME", "DIVIDENDS", "STOCK SPLITS"]
  {
    UpperWord("Ticker", "TICKER");
    UpperWord("Date", "DATE");
    UpperWord("Open", "OPEN");
    UpperWord("High", "HIGH");
    UpperWord("Low", "LOW");
    UpperWord("Close", "CLOSE");
    UpperWord("Adj Close", "ADJ CLOSE");
    UpperWord("Volume", "VOLUME");
    UpperWord("Dividends", "DIVIDENDS");
    UpperWord("Stock Splits", "STOCK SPLITS");
  }

  /** `u` is `s` upper-cased when it is so character by character. */
  lemma UpperWord(s: string, u: string)
    requires |s| == |u| && forall i :: 0 <= i < |s| ==> UpperChar(s[i]) == u[i]
    ensures Upper(s) == u
  {
  }
}
