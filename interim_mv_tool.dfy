/**
  The script variant: `load_data` with its blank-ticker guard and inline
  business-day boundaries, and `calculate_interim_values`, which selects the
  trades in the window, lets zero-share trades emit nothing, fails when a
  traded date has no price row on or after it, and returns the dates of all
  selected trades.
*/
module InterimMvTool {
  import opened Wrappers
  import opened Calendar
  import opened Prices
  import opened Returns
  import TradeDataExtract

  /**
    The start of the download window: `start - 1` is kept when it is a
    Monday to Thursday (`range(1, 5)` leaves Friday out) and otherwise goes
    one business day back: a Friday to the Thursday, a Saturday or Sunday to
    the Friday before.
  */
  function StartBoundary(start: int): (r: int)
    ensures IsBusinessDay(r) && r < start && start - r <= 3
    ensures IsoWeekday(start - 1) <= 4 ==> r == start - 1
    ensures IsoWeekday(start - 1) == 5 ==> r == start - 2 && IsoWeekday(r) == 4
    ensures IsoWeekday(start - 1) >= 6 ==> r == BusinessDayBefore(start - 1) && IsoWeekday(r) == 5
  {
    var date := start - 1;
    if !(1 <= IsoWeekday(date) < 5) then
      FirstBusinessDayFromFixesBusinessDays(BusinessDayBefore(date));
      NextWeekday(date - 1);
      NextWeekday(date - 2);
      FirstBusinessDayFrom(BusinessDayBefore(date))
    else date
  }

  /**
    The end of the download window: `end + 1` is kept when it is a Monday to
    Friday (a Friday is kept because it is already a business day) and a
    Saturday or Sunday rolls forward to the Monday after.  The result is the
    first business day after `end`.
  */
  function EndBoundary(end: int): (r: int)
    ensures IsBusinessDay(r) && end < r && r - end <= 3
    ensures IsBusinessDay(end + 1) ==> r == end + 1
    ensures !IsBusinessDay(end + 1) ==> IsoWeekday(r) == 1
    ensures forall k :: end < k < r ==> !IsBusinessDay(k)
  {
    var date := end + 1;
    FirstBusinessDayFromIsEarliest(date);
    NextWeekday(date);
    NextWeekday(date + 1);
    if !(1 <= IsoWeekday(date) < 5) then FirstBusinessDayFrom(date) else date
  }

  /**
    As written, a start on a Saturday puts the window start on the Thursday,
    although the Friday in between is a business day before the start: the
    linked returns then include Friday's return, from before the period.
  */
  lemma {:induction false} SaturdayStartReachesThursday(start: int)
    requires IsoWeekday(start) == 6
    ensures StartBoundary(start) == start - 2
    ensures StartBoundary(start) < start - 1 < start && IsBusinessDay(start - 1)
  {
    NextWeekday(start - 1);
  }

  /**
    The start boundary as evidently intended (`range(1, 6)`, as in
    `adjust_date_for_weekend`): the latest business day strictly before the
    start, whose Close is the base of the first return in the period.
  */
  function IntendedStartBoundary(start: int): (r: int)
    ensures r < start && IsBusinessDay(r)
    ensures forall k :: r < k < start ==> !IsBusinessDay(k)
  {
    TradeDataExtract.AdjustDateForWeekendIsLatest(start - 1);
    TradeDataExtract.AdjustDateForWeekend(start - 1)
  }

  /**
    `load_data`: a blank ticker returns nothing and computes nothing;
    otherwise the table for the adjusted window is fetched and its returns
    derived (the Close column is fetched a second time for `price`, which
    yields the same column).
  */
  function LoadData(ticker: string, start: int, end: int, fetch: (string, int, int) -> seq<PriceRow>): (r: Option<Series>)
    requires ticker != "" ==> ClosesPositive(fetch(ticker, StartBoundary(start), EndBoundary(end)))
    ensures r.None? <==> ticker == ""
    ensures r.Some? ==> r.value.data == fetch(ticker, StartBoundary(start), EndBoundary(end))
    ensures r.Some? ==> r.value.price == Closes(r.value.data)
    ensures r.Some? ==> AllPositive(r.value.price) && r.value.returnPlotData == ReturnPlotData(r.value.price)
    ensures r.Some? && |r.value.data| > 0 ==>
      r.value.geometricMean == r.value.price[|r.value.price| - 1] / r.value.price[0] - 1.0
    ensures r.Some? && |r.value.data| == 0 ==> r.value.geometricMean == 0.0
  {
    if ticker == "" then None
    else Some(Derive(fetch(ticker, StartBoundary(start), EndBoundary(end))))
  }

  /** The trades with a non-zero share count, in order: the ones that produce a value. */
  function NonZeroTrades(trades: seq<Trade>): (r: seq<Trade>)
    ensures |r| <= |trades|
    ensures forall t :: t in r <==> t in trades && t.shares != 0.0
    ensures |r| == |trades| <==> forall k :: 0 <= k < |trades| ==> trades[k].shares != 0.0
  {
    if |trades| == 0 then []
    else
      var t := trades[|trades| - 1];
      var before := trades[..|trades| - 1];
      assert forall k :: 0 <= k < |before| ==> before[k] == trades[k];
      NonZeroTrades(before) + (if t.shares != 0.0 then [t] else [])
  }

  /**
    Dropping the zero-share trades distributes over concatenation, so the
    trades that produce a value keep their input order.
  */
  lemma {:induction false} NonZeroTradesConcat(a: seq<Trade>, b: seq<Trade>)
    ensures NonZeroTrades(a + b) == NonZeroTrades(a) + NonZeroTrades(b)
  {
    if |b| == 0 {
      assert a + b == a;
    } else {
      var b' := b[..|b| - 1];
      var t := b[|b| - 1];
      var last := if t.shares != 0.0 then [t] else [];
      assert (a + b)[..|a + b| - 1] == a + b' && (a + b)[|a + b| - 1] == t;
      calc {
        NonZeroTrades(a + b);
        NonZeroTrades(a + b') + last;
        { NonZeroTradesConcat(a, b'); }
        (NonZeroTrades(a) + NonZeroTrades(b')) + last;
        NonZeroTrades(a) + (NonZeroTrades(b') + last);
        NonZeroTrades(a) + NonZeroTrades(b);
      }
    }
  }

  /** The loop state: the values so far and the carried value, or the error `iloc[0]` raised. */
  datatype FoldState = Valued(interimValues: seq<real>, marketValue: real) | Raised(tradeDay: int)

  /** One iteration of the second loop of `calculate_interim_values`. */
  function Step(data: seq<PriceRow>, s: FoldState, t: Trade): (r: FoldState)
    requires OpensPositive(data)
    ensures s.Raised? || t.shares == 0.0 ==> r == s
    ensures s.Valued? && t.shares != 0.0 && !Priced(data, t.day) ==> r == Raised(t.day)
    ensures s.Valued? && t.shares != 0.0 && Priced(data, t.day) ==>
      var value := Revalue(s.marketValue, RowOnOrAfter(data, t.day), t.shares);
      r == Valued(s.interimValues + [value], value)
  {
    match s
    case Raised(_) => s
    case Valued(values, marketValue) =>
      if t.shares == 0.0 then s
      else match FirstOnOrAfter(data, t.day)
        case None => Raised(t.day)
        case Some(i) =>
          var interim := Revalue(marketValue, data[i], t.shares);
          Valued(values + [interim], interim)
  }

  /** The loop state after processing `trades`. */
  function Fold(data: seq<PriceRow>, beginningValue: real, trades: seq<Trade>): (r: FoldState)
    requires OpensPositive(data)
    ensures r.Valued? ==> |r.interimValues| <= |trades|
  {
    if |trades| == 0 then Valued([], beginningValue)
    else Step(data, Fold(data, beginningValue, trades[..|trades| - 1]), trades[|trades| - 1])
  }

  /** Every trade with shares has a price row on or after its date. */
  predicate TradedDaysPriced(data: seq<PriceRow>, trades: seq<Trade>) {
    forall k :: 0 <= k < |trades| && trades[k].shares != 0.0 ==> Priced(data, trades[k].day)
  }

  /** The loop fails exactly when some trade with shares has no price row on or after its date. */
  lemma {:induction false} FoldRaisesIffUnpriced(data: seq<PriceRow>, beginningValue: real, trades: seq<Trade>)
    requires OpensPositive(data)
    ensures Fold(data, beginningValue, trades).Valued? <==> TradedDaysPriced(data, trades)
  {
    if |trades| > 0 {
      var before := trades[..|trades| - 1];
      FoldRaisesIffUnpriced(data, beginningValue, before);
      assert forall k :: 0 <= k < |before| ==> before[k] == trades[k];
      if !TradedDaysPriced(data, trades) && TradedDaysPriced(data, before) {
        var t := trades[|trades| - 1];
        assert t.shares != 0.0 && !Priced(data, t.day);
      }
    }
  }

  /** When every traded date is priced, so is every non-zero trade. */
  lemma NonZeroTradesPriced(data: seq<PriceRow>, trades: seq<Trade>)
    requires TradedDaysPriced(data, trades)
    ensures AllPriced(data, NonZeroTrades(trades))
  {
    var nonZero := NonZeroTrades(trades);
    assert forall k :: 0 <= k < |nonZero| ==> nonZero[k] in trades;
  }

  /** One more trade keeps the fold equal to the chain of the non-zero trades. */
  lemma FoldAppend(data: seq<PriceRow>, beginningValue: real, before: seq<Trade>, t: Trade)
    requires OpensPositive(data) && AllPriced(data, NonZeroTrades(before))
    requires t.shares != 0.0 ==> Priced(data, t.day)
    requires var values := Chain(data, beginningValue, NonZeroTrades(before));
      Fold(data, beginningValue, before) == Valued(values, LastOr(beginningValue, values))
    ensures AllPriced(data, NonZeroTrades(before + [t]))
    ensures var values := Chain(data, beginningValue, NonZeroTrades(before + [t]));
      Fold(data, beginningValue, before + [t]) == Valued(values, LastOr(beginningValue, values))
  {
    var trades := before + [t];
    assert trades[..|before|] == before;
    assert Fold(data, beginningValue, trades) == Step(data, Fold(data, beginningValue, before), t);
    var nonZero := NonZeroTrades(before);
    if t.shares != 0.0 {
      assert NonZeroTrades(trades) == nonZero + [t];
      ChainSnoc(data, beginningValue, nonZero, t);
    } else {
      assert NonZeroTrades(trades) == nonZero;
    }
  }

  /**
    When the loop does not fail its values are the chain the non-zero trades
    produce from the beginning value, and the carried value is the last one.
  */
  lemma {:induction false} FoldIsChain(data: seq<PriceRow>, beginningValue: real, trades: seq<Trade>)
    requires OpensPositive(data) && TradedDaysPriced(data, trades)
    ensures AllPriced(data, NonZeroTrades(trades))
    ensures var values := Chain(data, beginningValue, NonZeroTrades(trades));
      Fold(data, beginningValue, trades) == Valued(values, LastOr(beginningValue, values))
  {
    if |trades| > 0 {
      var before := trades[..|trades| - 1];
      var t := trades[|trades| - 1];
      assert trades == before + [t];
      assert forall k :: 0 <= k < |before| ==> before[k] == trades[k];
      FoldIsChain(data, beginningValue, before);
      FoldAppend(data, beginningValue, before, t);
    }
  }

  /**
    A zero-share trade can be removed from anywhere in the selected trades
    without changing the outcome: it emits no value and the market value
    carries over.
  */
  lemma {:induction false} ZeroShareTradeChangesNothing(data: seq<PriceRow>, beginningValue: real,
                                                        before: seq<Trade>, t: Trade, after: seq<Trade>)
    requires OpensPositive(data) && t.shares == 0.0
    ensures Fold(data, beginningValue, before + [t] + after) == Fold(data, beginningValue, before + after)
  {
    if |after| == 0 {
      assert before + [t] + after == before + [t];
      assert (before + [t])[..|before|] == before;
      assert before + after == before;
    } else {
      var after' := after[..|after| - 1];
      var u := after[|after| - 1];
      ZeroShareTradeChangesNothing(data, beginningValue, before, t, after');
      assert (before + [t] + after)[..|before + [t] + after| - 1] == before + [t] + after';
      assert (before + after)[..|before + after| - 1] == before + after';
    }
  }

  /**
    The values are never more than the selected trades, and as many exactly
    when no selected trade has zero shares; so the returned dates, one per
    selected trade, outnumber the values whenever a zero-share trade is
    selected.
  */
  lemma ValuesNoMoreThanTrades(data: seq<PriceRow>, beginningValue: real, trades: seq<Trade>)
    requires OpensPositive(data) && Fold(data, beginningValue, trades).Valued?
    ensures |Fold(data, beginningValue, trades).interimValues| <= |Days(trades)|
    ensures |Fold(data, beginningValue, trades).interimValues| == |Days(trades)|
      <==> forall k :: 0 <= k < |trades| ==> trades[k].shares != 0.0
  {
    FoldRaisesIffUnpriced(data, beginningValue, trades);
    FoldIsChain(data, beginningValue, trades);
  }

  /**
    As written, the display pairs the k-th value with the k-th returned
    date: with a zero-share trade on day 3 before a ten-share trade on day 7
    (beginning value 1000, Open 100, Close 110 on day 10), the only value,
    2200 from the day-7 trade, is shown against day 3.
  */
  lemma DisplayPairsValueWithWrongDate()
    ensures var data := [PriceRow(10, 100.0, 110.0)];
      var trades := [Trade(3, 0.0), Trade(7, 10.0)];
      && Fold(data, 1000.0, trades) == Valued([2200.0], 2200.0)
      && Days(trades)[0] == 3
      && NonZeroTrades(trades) == [Trade(7, 10.0)]
  {
    var data := [PriceRow(10, 100.0, 110.0)];
    var trades := [Trade(3, 0.0), Trade(7, 10.0)];
    assert trades[..1] == [Trade(3, 0.0)];
    assert trades[..1][..0] == [];
    assert FirstOnOrAfter(data, 7) == Some(0);
  }

  /**
    The dates as evidently intended: one per value, the date of the non-zero
    trade that produced it, as `FinanceData.calculate_interim_values` keeps
    them.
  */
  function AlignedTradeDates(trades: seq<Trade>): (r: seq<int>)
    ensures |r| == |NonZeroTrades(trades)|
    ensures forall k :: 0 <= k < |r| ==> r[k] == NonZeroTrades(trades)[k].day
  {
    Days(NonZeroTrades(trades))
  }

  /**
    With the aligned dates every value is paired with the trade that
    produced it: the k-th value re-values the (k-1)-th at the row on or
    after the k-th date, with that trade's shares.
  */
  lemma AlignedDatesMatchValues(data: seq<PriceRow>, beginningValue: real, trades: seq<Trade>)
    requires OpensPositive(data) && Fold(data, beginningValue, trades).Valued?
    ensures var values := Fold(data, beginningValue, trades).interimValues;
      var dates := AlignedTradeDates(trades);
      var nonZero := NonZeroTrades(trades);
      && |values| == |dates|
      && (forall k :: 0 <= k < |dates| ==> Priced(data, dates[k]))
      && (|values| > 0 ==>
            values[0] == Revalue(beginningValue, RowOnOrAfter(data, dates[0]), nonZero[0].shares))
      && (forall k :: 0 < k < |values| ==>
            values[k] == Revalue(values[k - 1], RowOnOrAfter(data, dates[k]), nonZero[k].shares))
  {
    FoldRaisesIffUnpriced(data, beginningValue, trades);
    FoldIsChain(data, beginningValue, trades);
  }

  /** What `calculate_interim_values` returns, or the error it raises. */
  datatype Outcome = Returned(interimValues: seq<real>, tradeDates: seq<int>) | IndexError(tradeDay: int)

  /** Once the loop has raised, later trades do not matter. */
  lemma {:induction false} RaisedIsFinal(data: seq<PriceRow>, beginningValue: real, trades: seq<Trade>, j: nat)
    requires OpensPositive(data) && j <= |trades| && Fold(data, beginningValue, trades[..j]).Raised?
    ensures Fold(data, beginningValue, trades) == Fold(data, beginningValue, trades[..j])
  {
    if j < |trades| {
      var before := trades[..|trades| - 1];
      assert before[..j] == trades[..j];
      RaisedIsFinal(data, beginningValue, before, j);
    } else {
      assert trades[..j] == trades;
    }
  }

  /**
    The first loop of `calculate_interim_values`: the trades dated inside
    [startDate, endDate] are appended in input order.
  */
  method SelectTrades(startDate: int, endDate: int, candidates: seq<Trade>) returns (trades: seq<Trade>)
    ensures trades == TradesInWindow(candidates, startDate, endDate)
    ensures forall k :: 0 <= k < |trades| ==> startDate <= trades[k].day <= endDate
  {
    trades := [];
    for i := 0 to |candidates|
      invariant trades == TradesInWindow(candidates[..i], startDate, endDate)
    {
      var trade := candidates[i];
      if startDate <= trade.day <= endDate {
        trades := trades + [trade];
      }
      assert candidates[..i + 1][..i] == candidates[..i];
    }
    assert candidates[..|candidates|] == candidates;
  }

  /** The fold over one more selected trade is one more step. */
  lemma FoldPrefixStep(data: seq<PriceRow>, beginningValue: real, trades: seq<Trade>, j: nat)
    requires OpensPositive(data) && j < |trades|
    ensures Fold(data, beginningValue, trades[..j + 1]) == Step(data, Fold(data, beginningValue, trades[..j]), trades[j])
  {
    assert trades[..j + 1][..j] == trades[..j];
  }

  /**
    The second loop of `calculate_interim_values`: the position is re-valued
    for each selected trade with non-zero shares, and the loop raises when
    such a trade has no price row on or after its date; the dates of all
    selected trades are returned beside the values.
  */
  method ValueTrades(data: seq<PriceRow>, beginningValue: real, trades: seq<Trade>) returns (outcome: Outcome)
    requires OpensPositive(data)
    ensures match Fold(data, beginningValue, trades)
      case Valued(values, _) => outcome == Returned(values, Days(trades))
      case Raised(day) => outcome == IndexError(day)
  {
    var interimValues: seq<real> := [];
    var marketValue := beginningValue;
    for j := 0 to |trades|
      invariant Fold(data, beginningValue, trades[..j]) == Valued(interimValues, marketValue)
    {
      var trade := trades[j];
      FoldPrefixStep(data, beginningValue, trades, j);
      var sharesTraded := trade.shares;
      if sharesTraded != 0.0 {
        var tradeData := FirstOnOrAfter(data, trade.day);
        if tradeData.None? {
          RaisedIsFinal(data, beginningValue, trades, j + 1);
          return IndexError(trade.day);
        }
        var row := data[tradeData.value];
        var interimMarketValue := (marketValue / row.open + sharesTraded) * row.close;
        assert interimMarketValue == Revalue(marketValue, row, sharesTraded);
        interimValues := interimValues + [interimMarketValue];
        marketValue := interimMarketValue;
      }
    }
    assert trades[..|trades|] == trades;
    outcome := Returned(interimValues, Days(trades));
  }

  /**
    `calculate_interim_values` with the trades as input: the trades dated
    inside the window are selected, then valued.
  */
  method CalculateInterimValues(data: seq<PriceRow>, startDate: int, endDate: int, beginningValue: real, candidates: seq<Trade>)
    returns (outcome: Outcome)
    requires OpensPositive(data)
    ensures var trades := TradesInWindow(candidates, startDate, endDate);
      match Fold(data, beginningValue, trades)
      case Valued(values, _) => outcome == Returned(values, Days(trades))
      case Raised(day) => outcome == IndexError(day)
  {
    var trades := SelectTrades(startDate, endDate, candidates);
    outcome := ValueTrades(data, beginningValue, trades);
  }
}
