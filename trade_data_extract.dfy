/**
  The `FinanceData` variant: the weekend adjustment of the download window,
  the price series loaded once at construction, and the interim market value
  fold that skips trades with no price row and keeps its dates aligned with
  its values.
*/
module TradeDataExtract {
  import opened Wrappers
  import opened Calendar
  import opened Prices
  import opened Returns

  /** `str.upper()` on the ASCII letters a ticker is made of. */
  function AsciiUpper(s: string): (r: string)
    ensures |r| == |s|
    ensures forall i :: 0 <= i < |r| ==> !('a' <= r[i] <= 'z')
    ensures forall i :: 0 <= i < |r| ==> r[i] == s[i] || ('a' <= s[i] <= 'z' && r[i] as int + 32 == s[i] as int)
  {
    seq(|s|, i requires 0 <= i < |s| => if 'a' <= s[i] <= 'z' then (s[i] as int - 32) as char else s[i])
  }

  /**
    `adjust_date_for_weekend`: a Monday to Friday date is kept; a Saturday or
    Sunday goes one business day back, which is the Friday before it.
  */
  function AdjustDateForWeekend(date: int): (r: int)
    ensures IsBusinessDay(r) && r <= date && date - r <= 2
    ensures IsBusinessDay(date) ==> r == date
    ensures !IsBusinessDay(date) ==> IsoWeekday(r) == 5 && r == BusinessDayBefore(date)
  {
    if !(1 <= IsoWeekday(date) < 6) then
      FirstBusinessDayFromFixesBusinessDays(BusinessDayBefore(date));
      NextWeekday(date - 1);
      NextWeekday(date - 2);
      FirstBusinessDayFrom(BusinessDayBefore(date))
    else date
  }

  /** The adjusted date is the latest business day on or before the date. */
  lemma {:induction false} AdjustDateForWeekendIsLatest(date: int)
    ensures forall k :: AdjustDateForWeekend(date) < k <= date ==> !IsBusinessDay(k)
  {
    if !IsBusinessDay(date) {
      BusinessDayBeforeIsLatest(date);
    }
  }

  /** Adjusting an adjusted date changes nothing. */
  lemma AdjustDateForWeekendIdempotent(date: int)
    ensures AdjustDateForWeekend(AdjustDateForWeekend(date)) == AdjustDateForWeekend(date)
  {
  }

  /** The dates passed to the download; its end date is exclusive. */
  datatype Window = Window(first: int, last: int)

  /**
    The window `FinanceData` downloads for [start, end]: one day is taken off
    the start and one added to the end, and each is adjusted for weekends.
    The first day is the latest business day strictly before `start`, which
    supplies the base Close of the first daily return; the last is the latest
    business day on or before `end + 1`.
  */
  function DownloadWindow(start: int, end: int): (w: Window)
    ensures w.first < start && IsBusinessDay(w.first)
    ensures forall k :: w.first < k < start ==> !IsBusinessDay(k)
    ensures w.last <= end + 1 && IsBusinessDay(w.last)
    ensures forall k :: w.last < k <= end + 1 ==> !IsBusinessDay(k)
  {
    AdjustDateForWeekendIsLatest(start - 1);
    AdjustDateForWeekendIsLatest(end + 1);
    Window(AdjustDateForWeekend(start - 1), AdjustDateForWeekend(end + 1))
  }

  /**
    As written, an `end` on a Friday yields that very Friday as the exclusive
    end of the download, so the last day of the window is not downloaded.
  */
  lemma {:induction false} FridayEndIsNotDownloaded(start: int, end: int)
    requires IsoWeekday(end) == 5
    ensures DownloadWindow(start, end).last == end
  {
    NextWeekday(end);
  }

  /**
    The window as evidently intended: the end rolls forward to the first
    business day after `end`, so every day of [start, end] lies before the
    exclusive end and no business day is downloaded beyond it.
  */
  function IntendedDownloadWindow(start: int, end: int): (w: Window)
    ensures w.first == DownloadWindow(start, end).first
    ensures end < w.last && IsBusinessDay(w.last)
    ensures forall k :: end < k < w.last ==> !IsBusinessDay(k)
  {
    FirstBusinessDayFromIsEarliest(end + 1);
    Window(AdjustDateForWeekend(start - 1), FirstBusinessDayFrom(end + 1))
  }

  /**
    `load_data` for the shifted dates held by `FinanceData`: both are adjusted
    for weekends, the table for that window is fetched, and the returns are
    derived from its closes.
  */
  function LoadData(ticker: string, start: int, end: int, fetch: (string, int, int) -> seq<PriceRow>): (s: Series)
    requires ClosesPositive(fetch(ticker, AdjustDateForWeekend(start), AdjustDateForWeekend(end)))
    ensures s.data == fetch(ticker, AdjustDateForWeekend(start), AdjustDateForWeekend(end))
    ensures s.price == Closes(s.data)
    ensures AllPositive(s.price) && s.returnPlotData == ReturnPlotData(s.price)
    ensures |s.data| > 0 ==> s.geometricMean == s.price[|s.price| - 1] / s.price[0] - 1.0
    ensures |s.data| == 0 ==> s.geometricMean == 0.0
  {
    Derive(fetch(ticker, AdjustDateForWeekend(start), AdjustDateForWeekend(end)))
  }

  /** The interim values and dates built so far, and the market value carried forward. */
  datatype Valuation = Valuation(interimValues: seq<real>, tradeDates: seq<int>, marketValue: real)

  /** A trade inside the window with a price row on or after its date produces a value. */
  predicate Executes(data: seq<PriceRow>, startDate: int, endDate: int, t: Trade) {
    startDate <= t.day <= endDate && Priced(data, t.day)
  }

  /** The trades that produce a value, in input order. */
  function ExecutedTrades(data: seq<PriceRow>, startDate: int, endDate: int, trades: seq<Trade>): (r: seq<Trade>)
    ensures |r| <= |trades|
    ensures forall t :: t in r <==> t in trades && Executes(data, startDate, endDate, t)
    ensures AllPriced(data, r)
  {
    if |trades| == 0 then []
    else
      var t := trades[|trades| - 1];
      ExecutedTrades(data, startDate, endDate, trades[..|trades| - 1])
        + (if Executes(data, startDate, endDate, t) then [t] else [])
  }

  /** One iteration of the loop of `calculate_interim_values`. */
  function Step(data: seq<PriceRow>, startDate: int, endDate: int, v: Valuation, t: Trade): (w: Valuation)
    requires OpensPositive(data)
    ensures !Executes(data, startDate, endDate, t) ==> w == v
    ensures Executes(data, startDate, endDate, t) ==>
      && w.marketValue == Revalue(v.marketValue, RowOnOrAfter(data, t.day), t.shares)
      && w.interimValues == v.interimValues + [w.marketValue]
      && w.tradeDates == v.tradeDates + [t.day]
  {
    if startDate <= t.day <= endDate then
      match FirstOnOrAfter(data, t.day)
      case None => v
      case Some(i) =>
        var interim := Revalue(v.marketValue, data[i], t.shares);
        Valuation(v.interimValues + [interim], v.tradeDates + [t.day], interim)
    else v
  }

  /** The state after the loop has processed `trades`. */
  function Interim(data: seq<PriceRow>, startDate: int, endDate: int, beginningValue: real, trades: seq<Trade>): (v: Valuation)
    requires OpensPositive(data)
    ensures |v.interimValues| == |v.tradeDates| <= |trades|
  {
    if |trades| == 0 then Valuation([], [], beginningValue)
    else Step(data, startDate, endDate, Interim(data, startDate, endDate, beginningValue, trades[..|trades| - 1]), trades[|trades| - 1])
  }

  /** Selecting executed trades distributes over concatenation, so it keeps input order. */
  lemma {:induction false} ExecutedTradesConcat(data: seq<PriceRow>, startDate: int, endDate: int, a: seq<Trade>, b: seq<Trade>)
    ensures ExecutedTrades(data, startDate, endDate, a + b)
      == ExecutedTrades(data, startDate, endDate, a) + ExecutedTrades(data, startDate, endDate, b)
  {
    if |b| == 0 {
      assert a + b == a;
    } else {
      var b' := b[..|b| - 1];
      var t := b[|b| - 1];
      var last := if Executes(data, startDate, endDate, t) then [t] else [];
      assert (a + b)[..|a + b| - 1] == a + b' && (a + b)[|a + b| - 1] == t;
      ExecutedTradesConcat(data, startDate, endDate, a, b');
      assert ExecutedTrades(data, startDate, endDate, b) == ExecutedTrades(data, startDate, endDate, b') + last;
    }
  }

  /**
    The fold produces exactly one value per executed trade, in input order:
    the values are the chain the executed trades produce from the beginning
    value, the k-th date is the date of the trade that produced the k-th
    value, and the market value carried forward is the last value (the
    beginning value when no trade executed).
  */
  lemma {:induction false} InterimIsChain(data: seq<PriceRow>, startDate: int, endDate: int, beginningValue: real, trades: seq<Trade>)
    requires OpensPositive(data)
    ensures var executed := ExecutedTrades(data, startDate, endDate, trades);
      var values := Chain(data, beginningValue, executed);
      Interim(data, startDate, endDate, beginningValue, trades)
        == Valuation(values, Days(executed), LastOr(beginningValue, values))
  {
    if |trades| > 0 {
      var before := trades[..|trades| - 1];
      var t := trades[|trades| - 1];
      InterimIsChain(data, startDate, endDate, beginningValue, before);
      var executed := ExecutedTrades(data, startDate, endDate, trades);
      var executedBefore := ExecutedTrades(data, startDate, endDate, before);
      if Executes(data, startDate, endDate, t) {
        assert executed == executedBefore + [t];
        ChainSnoc(data, beginningValue, executedBefore, t);
        DaysSnoc(executedBefore, t);
      } else {
        assert executed == executedBefore;
      }
    }
  }

  /**
    Interim values and trade dates always have equal length, and the k-th
    date is the trade that produced the k-th value.
  */
  lemma InterimDatesMatchValues(data: seq<PriceRow>, startDate: int, endDate: int, beginningValue: real, trades: seq<Trade>)
    requires OpensPositive(data)
    ensures var v := Interim(data, startDate, endDate, beginningValue, trades);
      var executed := ExecutedTrades(data, startDate, endDate, trades);
      && |v.interimValues| == |v.tradeDates| == |executed|
      && (forall k :: 0 <= k < |executed| ==> v.tradeDates[k] == executed[k].day)
      && (|executed| > 0 ==>
            v.interimValues[0] == Revalue(beginningValue, RowOnOrAfter(data, executed[0].day), executed[0].shares))
      && (forall k :: 0 < k < |executed| ==>
            v.interimValues[k] == Revalue(v.interimValues[k - 1], RowOnOrAfter(data, executed[k].day), executed[k].shares))
  {
    InterimIsChain(data, startDate, endDate, beginningValue, trades);
  }

  /** Removing a trade that does not execute leaves the executed trades as they were. */
  lemma ExecutedTradesSkip(data: seq<PriceRow>, startDate: int, endDate: int, before: seq<Trade>, t: Trade, after: seq<Trade>)
    requires !Executes(data, startDate, endDate, t)
    ensures ExecutedTrades(data, startDate, endDate, before + [t] + after)
         == ExecutedTrades(data, startDate, endDate, before + after)
  {
    calc {
      ExecutedTrades(data, startDate, endDate, before + [t] + after);
      { ExecutedTradesConcat(data, startDate, endDate, before + [t], after); }
      ExecutedTrades(data, startDate, endDate, before + [t]) + ExecutedTrades(data, startDate, endDate, after);
      { assert (before + [t])[..|before|] == before; }
      ExecutedTrades(data, startDate, endDate, before) + ExecutedTrades(data, startDate, endDate, after);
      { ExecutedTradesConcat(data, startDate, endDate, before, after); }
      ExecutedTrades(data, startDate, endDate, before + after);
    }
  }

  /**
    A trade that does not execute (outside the window, or with no price row
    on or after its date) can be removed from anywhere in the input without
    changing the result: it emits nothing and the market value carries over.
  */
  lemma SkippedTradeChangesNothing(data: seq<PriceRow>, startDate: int, endDate: int, beginningValue: real,
                                   before: seq<Trade>, t: Trade, after: seq<Trade>)
    requires OpensPositive(data)
    requires !Executes(data, startDate, endDate, t)
    ensures Interim(data, startDate, endDate, beginningValue, before + [t] + after)
         == Interim(data, startDate, endDate, beginningValue, before + after)
  {
    ExecutedTradesSkip(data, startDate, endDate, before, t, after);
    InterimIsChain(data, startDate, endDate, beginningValue, before + [t] + after);
    InterimIsChain(data, startDate, endDate, beginningValue, before + after);
  }

  /** With no executed trade both lists are empty and the value stays at the beginning value. */
  lemma NothingExecutedKeepsBeginningValue(data: seq<PriceRow>, startDate: int, endDate: int, beginningValue: real, trades: seq<Trade>)
    requires OpensPositive(data)
    requires forall k :: 0 <= k < |trades| ==> !Executes(data, startDate, endDate, trades[k])
    ensures Interim(data, startDate, endDate, beginningValue, trades) == Valuation([], [], beginningValue)
  {
    InterimIsChain(data, startDate, endDate, beginningValue, trades);
  }

  /** Processing one more trade is one more step. */
  lemma InterimAppend(data: seq<PriceRow>, startDate: int, endDate: int, beginningValue: real, trades: seq<Trade>, t: Trade)
    requires OpensPositive(data)
    ensures Interim(data, startDate, endDate, beginningValue, trades + [t])
         == Step(data, startDate, endDate, Interim(data, startDate, endDate, beginningValue, trades), t)
  {
    assert (trades + [t])[..|trades|] == trades;
  }

  /** A zero-share step that executes appends the carried value re-marked from Open to Close. */
  lemma ZeroShareStepRemarks(data: seq<PriceRow>, startDate: int, endDate: int, v: Valuation, t: Trade)
    requires OpensPositive(data)
    requires t.shares == 0.0 && Executes(data, startDate, endDate, t)
    ensures var w := Step(data, startDate, endDate, v, t);
      var row := RowOnOrAfter(data, t.day);
      && w.interimValues == v.interimValues + [w.marketValue]
      && w.tradeDates == v.tradeDates + [t.day]
      && w.marketValue * row.open == v.marketValue * row.close
  {
    RevalueSplitsPosition(v.marketValue, RowOnOrAfter(data, t.day), 0.0);
  }

  /**
    A zero-share trade inside the window is not filtered out: when it has a
    row it still emits a value, the carried value re-marked from that row's
    Open to its Close.
  */
  lemma ZeroShareTradeIsRemarked(data: seq<PriceRow>, startDate: int, endDate: int, beginningValue: real, trades: seq<Trade>, t: Trade)
    requires OpensPositive(data)
    requires t.shares == 0.0 && Executes(data, startDate, endDate, t)
    ensures var v := Interim(data, startDate, endDate, beginningValue, trades);
      var w := Interim(data, startDate, endDate, beginningValue, trades + [t]);
      var row := RowOnOrAfter(data, t.day);
      && w.interimValues == v.interimValues + [w.marketValue]
      && w.tradeDates == v.tradeDates + [t.day]
      && w.marketValue * row.open == v.marketValue * row.close
  {
    InterimAppend(data, startDate, endDate, beginningValue, trades, t);
    ZeroShareStepRemarks(data, startDate, endDate, Interim(data, startDate, endDate, beginningValue, trades), t);
  }

  /**
    `FinanceData`: built for a ticker and a date range, it holds the shifted
    range, the downloaded table and its derived returns, and computes the
    interim market values of a list of trades against that table.
  */
  class FinanceData {
    const ticker: string
    const start: int
    const end: int
    const data: seq<PriceRow>
    const returnPlotData: seq<real>
    const geometricMean: real
    const price: seq<real>

    /** `__init__`: the ticker upper-cased, the range widened by a day on each side, then `load_data`. */
    constructor (ticker: string, start: int, end: int, fetch: (string, int, int) -> seq<PriceRow>)
      requires ClosesPositive(fetch(AsciiUpper(ticker), DownloadWindow(start, end).first, DownloadWindow(start, end).last))
      ensures this.ticker == AsciiUpper(ticker)
      ensures this.start == start - 1 && this.end == end + 1
      ensures data == fetch(this.ticker, DownloadWindow(start, end).first, DownloadWindow(start, end).last)
      ensures Series(data, returnPlotData, geometricMean, price) == LoadData(this.ticker, this.start, this.end, fetch)
    {
      this.ticker := AsciiUpper(ticker);
      this.start := start - 1;
      this.end := end + 1;
      var loaded := LoadData(AsciiUpper(ticker), start - 1, end + 1, fetch);
      data := loaded.data;
      returnPlotData := loaded.returnPlotData;
      geometricMean := loaded.geometricMean;
      price := loaded.price;
    }

    /**
      `calculate_interim_values`: every trade inside [startDate, endDate]
      with a row dated on or after it re-values the position at that row and
      appends the value and the trade's date; other trades are passed over.
    */
    method CalculateInterimValues(startDate: int, endDate: int, beginningValue: real, trades: seq<Trade>)
      returns (interimValues: seq<real>, tradeDates: seq<int>)
      requires OpensPositive(data)
      ensures var v := Interim(data, startDate, endDate, beginningValue, trades);
        interimValues == v.interimValues && tradeDates == v.tradeDates
      ensures |interimValues| == |tradeDates|
    {
      interimValues, tradeDates := [], [];
      var marketValue := beginningValue;
      for i := 0 to |trades|
        invariant Interim(data, startDate, endDate, beginningValue, trades[..i])
          == Valuation(interimValues, tradeDates, marketValue)
      {
        var trade := trades[i];
        if startDate <= trade.day <= endDate {
          var sharesTraded := trade.shares;
          var tradeData := FirstOnOrAfter(data, trade.day);
          if tradeData.Some? {
            var row := data[tradeData.value];
            var interimMarketValue := (marketValue / row.open + sharesTraded) * row.close;
            assert interimMarketValue == Revalue(marketValue, row, sharesTraded);
            interimValues := interimValues + [interimMarketValue];
            marketValue := interimMarketValue;
            tradeDates := tradeDates + [trade.day];
          }
        }
        assert trades[..i + 1][..i] == trades[..i];
      }
      assert trades[..|trades|] == trades;
      InterimDatesMatchValues(data, startDate, endDate, beginningValue, trades);
    }
  }
}
