/**
  The price table and trades both variants of the interim market value
  calculation work on, the lookup of the price row a trade executes at, and
  the one-step revaluation of the position.
*/
module Prices {
  import opened Wrappers

  /** One row of the downloaded table: its date and its Open and Close prices. */
  datatype PriceRow = PriceRow(day: int, open: real, close: real)

  /** A dated share trade; positive shares are a purchase, negative a sale. */
  datatype Trade = Trade(day: int, shares: real)

  /** The table is indexed by date: strictly ascending, so no date repeats. */
  predicate StrictlyAscending(rows: seq<PriceRow>) {
    forall i, j :: 0 <= i < j < |rows| ==> rows[i].day < rows[j].day
  }

  predicate OpensPositive(rows: seq<PriceRow>) {
    forall i :: 0 <= i < |rows| ==> rows[i].open > 0.0
  }

  predicate ClosesPositive(rows: seq<PriceRow>) {
    forall i :: 0 <= i < |rows| ==> rows[i].close > 0.0
  }

  /**
    `data[data.index >= day].iloc[0]` as a position in the table: the first
    row, in table order, dated on or after `day`; None when the selection is
    empty.
  */
  function FirstOnOrAfter(rows: seq<PriceRow>, day: int): (r: Option<nat>)
    ensures r.Some? ==> r.value < |rows| && rows[r.value].day >= day
    ensures r.Some? ==> forall j :: 0 <= j < r.value ==> rows[j].day < day
    ensures r.None? <==> forall j :: 0 <= j < |rows| ==> rows[j].day < day
  {
    if |rows| == 0 then None
    else if rows[0].day >= day then Some(0)
    else match FirstOnOrAfter(rows[1..], day)
      case None => None
      case Some(i) => Some(i + 1)
  }

  /** A trade dated `day` has a row to execute at. */
  predicate Priced(rows: seq<PriceRow>, day: int) {
    FirstOnOrAfter(rows, day).Some?
  }

  function RowOnOrAfter(rows: seq<PriceRow>, day: int): PriceRow
    requires Priced(rows, day)
  {
    rows[FirstOnOrAfter(rows, day).value]
  }

  /**
    In a table sorted by date the row a trade executes at is the EARLIEST row
    dated on or after the trade, so a trade on a day without a row executes
    on the next day that has one, and a trade on a day with a row executes
    on that very row.
  */
  lemma {:induction false} RowOnOrAfterIsEarliest(rows: seq<PriceRow>, day: int)
    requires StrictlyAscending(rows) && Priced(rows, day)
    ensures RowOnOrAfter(rows, day).day >= day
    ensures forall j :: 0 <= j < |rows| && rows[j].day >= day ==> RowOnOrAfter(rows, day).day <= rows[j].day
    ensures forall j :: 0 <= j < |rows| && rows[j].day == day ==> RowOnOrAfter(rows, day) == rows[j]
  {
    var i := FirstOnOrAfter(rows, day).value;
    forall j | 0 <= j < |rows| && rows[j].day >= day
      ensures rows[i].day <= rows[j].day
    {
      if i < j {
        assert rows[i].day < rows[j].day;
      }
    }
  }

  /**
    One trade: the current value is turned into implied shares at the Open,
    the traded shares are added, and the position is marked at the Close.
  */
  function Revalue(marketValue: real, row: PriceRow, shares: real): real
    requires row.open > 0.0
  {
    (marketValue / row.open + shares) * row.close
  }

  /**
    The revalued position splits in two: the value held before the trade
    earns the Open-to-Close move of the row, and the traded shares are worth
    their Close value.  A zero-share trade is therefore a pure re-mark from
    Open to Close.
  */
  lemma RevalueSplitsPosition(marketValue: real, row: PriceRow, shares: real)
    requires row.open > 0.0
    ensures Revalue(marketValue, row, shares) == marketValue * (row.close / row.open) + shares * row.close
    ensures shares == 0.0 ==> Revalue(marketValue, row, shares) * row.open == marketValue * row.close
  {
    calc {
      Revalue(marketValue, row, shares);
      (marketValue / row.open) * row.close + shares * row.close;
    }
  }

  /** The trades dated inside the inclusive window [lo, hi], in input order. */
  function TradesInWindow(trades: seq<Trade>, lo: int, hi: int): (r: seq<Trade>)
    ensures |r| <= |trades|
    ensures forall t :: t in r <==> t in trades && lo <= t.day <= hi
  {
    if |trades| == 0 then []
    else
      var t := trades[|trades| - 1];
      TradesInWindow(trades[..|trades| - 1], lo, hi) + (if lo <= t.day <= hi then [t] else [])
  }

  /**
    Selecting the trades in a window distributes over concatenation, so the
    selection keeps the input order.
  */
  lemma {:induction false} TradesInWindowConcat(a: seq<Trade>, b: seq<Trade>, lo: int, hi: int)
    ensures TradesInWindow(a + b, lo, hi) == TradesInWindow(a, lo, hi) + TradesInWindow(b, lo, hi)
  {
    if |b| == 0 {
      assert a + b == a;
    } else {
      var b' := b[..|b| - 1];
      var t := b[|b| - 1];
      var last := if lo <= t.day <= hi then [t] else [];
      assert (a + b)[..|a + b| - 1] == a + b' && (a + b)[|a + b| - 1] == t;
      calc {
        TradesInWindow(a + b, lo, hi);
        TradesInWindow(a + b', lo, hi) + last;
        { TradesInWindowConcat(a, b', lo, hi); }
        (TradesInWindow(a, lo, hi) + TradesInWindow(b', lo, hi)) + last;
        TradesInWindow(a, lo, hi) + (TradesInWindow(b', lo, hi) + last);
        TradesInWindow(a, lo, hi) + TradesInWindow(b, lo, hi);
      }
    }
  }

  /** The trade dates, one per trade. */
  function Days(trades: seq<Trade>): (r: seq<int>)
    ensures |r| == |trades|
    ensures forall k :: 0 <= k < |trades| ==> r[k] == trades[k].day
  {
    seq(|trades|, k requires 0 <= k < |trades| => trades[k].day)
  }

  function LastOr(default: real, values: seq<real>): real {
    if |values| == 0 then default else values[|values| - 1]
  }

  predicate AllPriced(rows: seq<PriceRow>, trades: seq<Trade>) {
    forall k :: 0 <= k < |trades| ==> Priced(rows, trades[k].day)
  }

  /**
    The chain of interim market values that a list of executed trades
    produces from a beginning value: each value re-values the one before it
    (the beginning value for the first) at the row its trade executes at.
  */
  function Chain(rows: seq<PriceRow>, beginning: real, trades: seq<Trade>): (values: seq<real>)
    requires OpensPositive(rows) && AllPriced(rows, trades)
    ensures |values| == |trades|
    ensures |trades| > 0 ==> values[0] == Revalue(beginning, RowOnOrAfter(rows, trades[0].day), trades[0].shares)
    ensures forall k {:trigger trades[k]} :: 0 < k < |trades| ==>
      values[k] == Revalue(values[k - 1], RowOnOrAfter(rows, trades[k].day), trades[k].shares)
  {
    if |trades| == 0 then []
    else
      var before := Chain(rows, beginning, trades[..|trades| - 1]);
      var t := trades[|trades| - 1];
      assert forall k :: 0 <= k < |before| ==> trades[..|trades| - 1][k] == trades[k];
      before + [Revalue(LastOr(beginning, before), RowOnOrAfter(rows, t.day), t.shares)]
  }

  /** One more trade adds its date at the end. */
  lemma DaysSnoc(trades: seq<Trade>, t: Trade)
    ensures Days(trades + [t]) == Days(trades) + [t.day]
  {
  }

  /** One more executed trade appends its revaluation of the last value of the chain. */
  lemma ChainSnoc(rows: seq<PriceRow>, beginning: real, trades: seq<Trade>, t: Trade)
    requires OpensPositive(rows) && AllPriced(rows, trades) && Priced(rows, t.day)
    ensures AllPriced(rows, trades + [t])
    ensures var before := Chain(rows, beginning, trades);
      Chain(rows, beginning, trades + [t])
        == before + [Revalue(LastOr(beginning, before), RowOnOrAfter(rows, t.day), t.shares)]
  {
    assert (trades + [t])[..|trades|] == trades;
  }
}
