/**
  The return arithmetic over the Close column of a downloaded table: daily
  close-to-close returns, the same returns in percent for plotting, and their
  geometric linking into one return over the whole period.
*/
module Returns {
  import opened Prices

  /** `data["Close"]`: the Close column. */
  function Closes(rows: seq<PriceRow>): (price: seq<real>)
    ensures |price| == |rows|
    ensures forall i :: 0 <= i < |rows| ==> price[i] == rows[i].close
  {
    seq(|rows|, i requires 0 <= i < |rows| => rows[i].close)
  }

  predicate AllPositive(price: seq<real>) {
    forall i :: 0 <= i < |price| ==> price[i] > 0.0
  }

  /**
    `price.pct_change()` without its leading missing value: one return per
    pair of consecutive closes, and compounding the i-th return onto the i-th
    close gives the next close.
  */
  function PctChange(price: seq<real>): (r: seq<real>)
    requires AllPositive(price)
    ensures |r| == if |price| == 0 then 0 else |price| - 1
    ensures forall i {:trigger r[i]} :: 0 <= i < |r| ==> price[i + 1] == price[i] * (1.0 + r[i])
  {
    if |price| == 0 then []
    else seq(|price| - 1, i requires 0 <= i < |price| - 1 => price[i + 1] / price[i] - 1.0)
  }

  /** `price.pct_change() * 100`: the same returns in percent. */
  function ReturnPlotData(price: seq<real>): (r: seq<real>)
    requires AllPositive(price)
    ensures |r| == |PctChange(price)|
    ensures forall i {:trigger r[i]} :: 0 <= i < |r| ==> price[i + 1] == price[i] * (1.0 + r[i] / 100.0)
  {
    var daily := PctChange(price);
    seq(|daily|, i requires 0 <= i < |daily| => daily[i] * 100.0)
  }

  /** `(1 + rates).prod()`: the growth factor of the linked returns (1 for none). */
  function Compound(rates: seq<real>): real {
    if |rates| == 0 then 1.0
    else Compound(rates[..|rates| - 1]) * (1.0 + rates[|rates| - 1])
  }

  /**
    Geometric linking is associative: linking the returns of two consecutive
    periods gives the product of the two periods' growth factors.
  */
  lemma {:induction false} CompoundConcat(a: seq<real>, b: seq<real>)
    ensures Compound(a + b) == Compound(a) * Compound(b)
  {
    if |b| == 0 {
      assert a + b == a;
    } else {
      var b' := b[..|b| - 1];
      var x := b[|b| - 1];
      assert (a + b)[..|a + b| - 1] == a + b';
      CompoundConcat(a, b');
      calc {
        Compound(a + b);
        Compound(a + b') * (1.0 + x);
        (Compound(a) * Compound(b')) * (1.0 + x);
        Compound(a) * (Compound(b') * (1.0 + x));
        Compound(a) * Compound(b);
      }
    }
  }

  /** Growing by `c` and then by `g` is growing by their product. */
  lemma GrowTwice(first: real, c: real, middle: real, g: real, last: real)
    requires first * c == middle && middle * g == last
    ensures first * (c * g) == last
  {
    assert first * (c * g) == (first * c) * g;
  }

  /**
    Any rates that carry each price to the next compound from the first price
    to the last.
  */
  lemma {:induction false} CompoundLinks(price: seq<real>, rates: seq<real>)
    requires |price| == |rates| + 1
    requires forall i {:trigger rates[i]} :: 0 <= i < |rates| ==> price[i + 1] == price[i] * (1.0 + rates[i])
    ensures price[0] * Compound(rates) == price[|rates|]
  {
    var n := |rates|;
    if n > 0 {
      var before := rates[..n - 1];
      assert forall i {:trigger before[i]} :: 0 <= i < n - 1 ==> before[i] == rates[i];
      CompoundLinks(price[..n], before);
      assert price[n] == price[n - 1] * (1.0 + rates[n - 1]);
      GrowTwice(price[0], Compound(before), price[n - 1], 1.0 + rates[n - 1], price[n]);
    }
  }

  /** Compounding the daily returns onto the first close reaches the last close. */
  lemma CompoundTelescopes(price: seq<real>)
    requires AllPositive(price) && |price| > 0
    ensures price[0] * Compound(PctChange(price)) == price[|price| - 1]
  {
    CompoundLinks(price, PctChange(price));
  }

  /**
    `(1 + price.pct_change()).prod() - 1`; pandas skips the leading missing
    return.  For positive closes it telescopes: the last close over the first,
    minus one, and zero when there is at most one close.
  */
  function GeometricMean(price: seq<real>): (m: real)
    requires AllPositive(price)
    ensures |price| > 0 ==> m == price[|price| - 1] / price[0] - 1.0
    ensures |price| <= 1 ==> m == 0.0
  {
    if |price| > 0 then
      CompoundTelescopes(price);
      assert Compound(PctChange(price)) == price[|price| - 1] / price[0];
      Compound(PctChange(price)) - 1.0
    else Compound(PctChange(price)) - 1.0
  }

  /** What `load_data` returns: the table, the percent returns, the geometric mean and the closes. */
  datatype Series = Series(data: seq<PriceRow>, returnPlotData: seq<real>, geometricMean: real, price: seq<real>)

  /**
    The return arithmetic of `load_data` over a downloaded table.  An empty
    table (nothing downloaded) links no returns, so its geometric mean is 0.
  */
  function Derive(data: seq<PriceRow>): (s: Series)
    requires ClosesPositive(data)
    ensures s.data == data && s.price == Closes(data)
    ensures AllPositive(s.price) && s.returnPlotData == ReturnPlotData(s.price)
    ensures |data| > 0 ==> s.geometricMean == data[|data| - 1].close / data[0].close - 1.0
    ensures |data| == 0 ==> s.geometricMean == 0.0
  {
    var price := Closes(data);
    Series(data, ReturnPlotData(price), GeometricMean(price), price)
  }
}
