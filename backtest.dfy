/** The backtest ledger of the strategy: a day-by-day walk over (close price,
    signal) pairs that carries cash and a share position from one day to the
    next, trading in lots of 100 shares, and records cash, position and total
    value for every day. Arithmetic is exact (real cash and prices). */
module Backtest {

  /** The minimum tradable share increment. */
  const LotSize: int := 100

  /** Cash and share position carried from one day to the next. */
  datatype Account = Account(cash: real, position: int)

  /** The ledger invariant: no debt, no short position, whole lots only. */
  predicate Valid(a: Account) {
    a.cash >= 0.0 && a.position >= 0 && a.position % LotSize == 0
  }

  /** Worth of an account marked at the given price. */
  function Value(a: Account, price: real): real {
    a.cash + a.position as real * price
  }

  /** Shares bought on a buy day: the three successive floor divisions
      cash // 3 // price // 100, scaled back to shares. */
  function BuyVolume(cash: real, price: real): (v: int)
    requires cash >= 0.0 && price > 0.0
    ensures v >= 0 && v % LotSize == 0
  {
    var third := (cash / 3.0).Floor;
    var shares := (third as real / price).Floor;
    var lots := (shares as real / 100.0).Floor;
    BuyVolumeBounds(third, price, shares, lots);
    lots * LotSize
  }

  /** The buy volume is the largest whole number of lots whose cost stays
      within floor(cash / 3), and so within a third of the cash. */
  lemma BuyVolumeIsLargest(cash: real, price: real)
    requires cash >= 0.0 && price > 0.0
    ensures BuyVolume(cash, price) as real * price <= (cash / 3.0).Floor as real
    ensures (BuyVolume(cash, price) + LotSize) as real * price > (cash / 3.0).Floor as real
    ensures BuyVolume(cash, price) as real * price <= cash / 3.0
  {
    var third := (cash / 3.0).Floor;
    var shares := (third as real / price).Floor;
    var lots := (shares as real / 100.0).Floor;
    BuyVolumeBounds(third, price, shares, lots);
  }

  /** The floor facts behind BuyVolume's contract. */
  lemma BuyVolumeBounds(third: int, price: real, shares: int, lots: int)
    requires third >= 0 && price > 0.0
    requires shares == (third as real / price).Floor
    requires lots == (shares as real / 100.0).Floor
    ensures lots >= 0
    ensures (lots * LotSize) as real * price <= third as real
    ensures (lots * LotSize + LotSize) as real * price > third as real
  {
    FloorDivBounds(third as real, price);
    assert 100 * lots <= shares < 100 * lots + 100;
    MulLe((lots * LotSize) as real, shares as real, price);
    BelowScaled(third as real, (shares + 1) as real, (lots * LotSize + LotSize) as real, price);
  }

  lemma BelowScaled(q: real, x: real, y: real, c: real)
    requires q < x * c && x <= y && c > 0.0
    ensures q < y * c
  {
    MulLe(x, y, c);
  }

  /** Dividing a non-negative amount by a positive price and rounding down
      gives the largest whole count whose cost fits in the amount. */
  lemma FloorDivBounds(q: real, p: real)
    requires q >= 0.0 && p > 0.0
    ensures (q / p).Floor >= 0
    ensures (q / p).Floor as real * p <= q < ((q / p).Floor + 1) as real * p
  {
    var r := q / p;
    var f := r.Floor as real;
    assert r * p == q;
    if r < 0.0 {
      MulLt(r, 0.0, p);
    }
    assert r < (r.Floor + 1) as real;
    MulLt(r, (r.Floor + 1) as real, p);
    assert q < (r.Floor + 1) as real * p;
    MulLe(f, r, p);
    assert f * p <= q;
  }

  lemma MulLe(x: real, y: real, c: real)
    requires x <= y && c > 0.0
    ensures x * c <= y * c
  {
  }

  lemma MulLt(x: real, y: real, c: real)
    requires x < y && c > 0.0
    ensures x * c < y * c
  {
  }

  /** Shares sold on a sell day: position // 3 // 100, scaled back to
      shares. The result is the largest whole number of lots that is at
      most a third of the position. */
  function SellVolume(position: int): (v: int)
    requires position >= 0
    ensures v >= 0 && v % LotSize == 0
    ensures 3 * v <= position < 3 * (v + LotSize)
  {
    position / 3 / 100 * LotSize
  }

  /** One day of the ledger: signal 1 buys when cash covers at least one lot,
      signal -1 sells when a position is held, anything else holds. */
  function Step(a: Account, price: real, signal: int): Account
    requires price > 0.0
  {
    if signal == 1 && a.cash >= price * 100.0 then
      var volume := BuyVolume(a.cash, price);
      if volume > 0 then Account(a.cash - volume as real * price, a.position + volume)
      else a
    else if signal == -1 && a.position > 0 then
      var volume := SellVolume(a.position);
      Account(a.cash + volume as real * price, a.position - volume)
    else a
  }

  /** Trading moves worth between cash and shares at the day's price, so the
      account's value at that price is the same before and after the day. */
  lemma StepKeepsValue(a: Account, price: real, signal: int)
    requires price > 0.0
    ensures Value(Step(a, price, signal), price) == Value(a, price)
  {
    if signal == 1 && a.cash >= price * 100.0 {
      var v := BuyVolume(a.cash, price);
      if v > 0 {
        TradeKeepsValue(a, v, price);
      }
    } else if signal == -1 && a.position > 0 {
      TradeKeepsValue(a, -SellVolume(a.position), price);
    }
  }

  /** Moving `shares` shares (negative: selling) at `price` leaves the value
      at that price unchanged. */
  lemma TradeKeepsValue(a: Account, shares: int, price: real)
    ensures Value(Account(a.cash - shares as real * price, a.position + shares), price)
         == Value(a, price)
  {
  }

  /** A buy day never lowers the position nor raises the cash, a sell day
      does the opposite, and any other signal changes nothing. */
  lemma StepDirection(a: Account, price: real, signal: int)
    requires price > 0.0
    ensures var b := Step(a, price, signal);
      (signal == 1 ==> b.position >= a.position && b.cash <= a.cash) &&
      (signal == -1 ==> b.position <= a.position && b.cash >= a.cash) &&
      (signal != 1 && signal != -1 ==> b == a)
  {
    if signal == 1 && a.cash >= price * 100.0 {
      var v := BuyVolume(a.cash, price);
      MulLe(0.0, v as real, price);
    } else if signal == -1 && a.position > 0 {
      var v := SellVolume(a.position);
      MulLe(0.0, v as real, price);
    }
  }

  /** Every day keeps the ledger invariant. */
  lemma StepKeepsValid(a: Account, price: real, signal: int)
    requires price > 0.0 && Valid(a)
    ensures Valid(Step(a, price, signal))
  {
    if signal == 1 && a.cash >= price * 100.0 {
      BuyVolumeIsLargest(a.cash, price);
      BuyKeepsValid(a, BuyVolume(a.cash, price), price);
    } else if signal == -1 && a.position > 0 {
      SellKeepsValid(a, SellVolume(a.position), price);
    }
  }

  /** Buying a whole number of lots that costs at most the cash keeps the
      ledger invariant. */
  lemma BuyKeepsValid(a: Account, v: int, price: real)
    requires Valid(a) && price > 0.0
    requires v >= 0 && v % LotSize == 0 && v as real * price <= a.cash
    ensures Valid(Account(a.cash - v as real * price, a.position + v))
  {
    LotsClosed(a.position, v);
  }

  /** Selling a whole number of lots, at most the position, keeps the
      ledger invariant. */
  lemma SellKeepsValid(a: Account, v: int, price: real)
    requires Valid(a) && price > 0.0
    requires 0 <= v <= a.position && v % LotSize == 0
    ensures Valid(Account(a.cash + v as real * price, a.position - v))
  {
    MulLe(0.0, v as real, price);
    LotsClosed(a.position, -v);
  }

  /** Whole lots plus or minus whole lots are whole lots. */
  lemma LotsClosed(x: int, y: int)
    requires x % LotSize == 0 && y % LotSize == 0
    ensures (x + y) % LotSize == 0
  {
  }

  /** A buy commits at most a third of the cash; a sell gives up at most a
      third of the position. */
  lemma StepTradesAtMostAThird(a: Account, price: real, signal: int)
    requires price > 0.0 && a.cash >= 0.0 && a.position >= 0
    ensures var b := Step(a, price, signal);
      3.0 * b.cash >= 2.0 * a.cash && 3 * b.position >= 2 * a.position
  {
    if signal == 1 && a.cash >= price * 100.0 {
      BuyVolumeIsLargest(a.cash, price);
    } else if signal == -1 && a.position > 0 {
      MulLe(0.0, SellVolume(a.position) as real, price);
    }
  }

  /** A buy with less than three lots' worth of cash trades nothing, and so
      does a sell of a position below three lots. */
  lemma StepSmallTradesAreNoOps(a: Account, price: real, signal: int)
    requires price > 0.0 && a.cash >= 0.0 && a.position >= 0
    requires signal == 1 ==> a.cash < 3.0 * 100.0 * price
    requires signal == -1 ==> a.position < 3 * LotSize
    ensures Step(a, price, signal) == a
  {
    if signal == 1 && a.cash >= price * 100.0 {
      SmallBuyIsEmpty(a.cash, price);
    }
  }

  /** Less than three lots' worth of cash buys no lot: a third of it does
      not cover one. */
  lemma SmallBuyIsEmpty(cash: real, price: real)
    requires cash >= 0.0 && price > 0.0 && cash < 3.0 * 100.0 * price
    ensures BuyVolume(cash, price) == 0
  {
    BuyVolumeIsLargest(cash, price);
    NoLotWithin(BuyVolume(cash, price), (cash / 3.0).Floor as real, price);
  }

  /** A whole number of lots that costs at most a budget below one lot's
      cost is no lots at all. */
  lemma NoLotWithin(v: int, budget: real, price: real)
    requires v >= 0 && v % LotSize == 0 && price > 0.0
    requires v as real * price <= budget < LotSize as real * price
    ensures v == 0
  {
    if v > 0 {
      MulLe(LotSize as real, v as real, price);
      assert false;
    }
  }

  /** All prices of the run are positive close prices. */
  predicate PositivePrices(prices: seq<real>) {
    forall i :: 0 <= i < |prices| ==> prices[i] > 0.0
  }

  /** The account day k opens with: the previous day's row, or, on the
      first day, the initial cash and no shares. */
  function Opening(rows: seq<Account>, initialCash: real, k: nat): Account
    requires k <= |rows|
  {
    if k == 0 then Account(initialCash, 0) else rows[k - 1]
  }

  /** `rows` are the ledger of the first |rows| days: every row is the
      account its day opened with after one Step at that day's close and
      signal. */
  ghost predicate IsLedger(prices: seq<real>, signals: seq<int>, initialCash: real, rows: seq<Account>)
    requires |prices| == |signals| && PositivePrices(prices) && |rows| <= |prices|
  {
    forall k {:trigger Opening(rows, initialCash, k)} :: 0 <= k < |rows| ==>
      rows[k] == Step(Opening(rows, initialCash, k), prices[k], signals[k])
  }

  /** A ledger extended by the next day's Step is a ledger. */
  lemma LedgerAppend(prices: seq<real>, signals: seq<int>, initialCash: real, rows: seq<Account>, next: Account)
    requires |prices| == |signals| && PositivePrices(prices) && |rows| < |prices|
    requires IsLedger(prices, signals, initialCash, rows)
    requires next == Step(Opening(rows, initialCash, |rows|), prices[|rows|], signals[|rows|])
    ensures IsLedger(prices, signals, initialCash, rows + [next])
  {
    var longer := rows + [next];
    forall k | 0 <= k < |longer|
      ensures longer[k] == Step(Opening(longer, initialCash, k), prices[k], signals[k])
    {
      if k < |rows| {
        assert Opening(longer, initialCash, k) == Opening(rows, initialCash, k);
      }
    }
  }

  /** Every prefix of a ledger is a ledger. */
  lemma LedgerPrefix(prices: seq<real>, signals: seq<int>, initialCash: real, rows: seq<Account>, n: nat)
    requires |prices| == |signals| && PositivePrices(prices) && |rows| <= |prices| && n <= |rows|
    requires IsLedger(prices, signals, initialCash, rows)
    ensures IsLedger(prices, signals, initialCash, rows[..n])
  {
    var pre := rows[..n];
    forall k | 0 <= k < n
      ensures pre[k] == Step(Opening(pre, initialCash, k), prices[k], signals[k])
    {
      assert Opening(pre, initialCash, k) == Opening(rows, initialCash, k);
    }
  }

  /** The ledger of a run is determined by its prices, signals and initial
      cash: two ledgers of the same number of days are equal. */
  lemma {:induction false} LedgerUnique(prices: seq<real>, signals: seq<int>, initialCash: real,
                                        rows1: seq<Account>, rows2: seq<Account>)
    requires |prices| == |signals| && PositivePrices(prices) && |rows1| == |rows2| <= |prices|
    requires IsLedger(prices, signals, initialCash, rows1)
    requires IsLedger(prices, signals, initialCash, rows2)
    ensures rows1 == rows2
  {
    if rows1 != [] {
      var n := |rows1| - 1;
      LedgerPrefix(prices, signals, initialCash, rows1, n);
      LedgerPrefix(prices, signals, initialCash, rows2, n);
      LedgerUnique(prices, signals, initialCash, rows1[..n], rows2[..n]);
      assert n > 0 ==> rows1[n - 1] == rows1[..n][n - 1] && rows2[n - 1] == rows2[..n][n - 1];
      assert Opening(rows1, initialCash, n) == Opening(rows2, initialCash, n);
      assert rows1 == rows1[..n] + [rows1[n]];
      assert rows2 == rows2[..n] + [rows2[n]];
    }
  }

  /** Starting from non-negative cash, every row of a ledger is valid. */
  lemma {:induction false} LedgerStaysValid(prices: seq<real>, signals: seq<int>, initialCash: real, rows: seq<Account>)
    requires |prices| == |signals| && PositivePrices(prices) && |rows| <= |prices|
    requires IsLedger(prices, signals, initialCash, rows) && initialCash >= 0.0
    ensures forall k :: 0 <= k < |rows| ==> Valid(rows[k])
  {
    if rows != [] {
      var n := |rows| - 1;
      LedgerPrefix(prices, signals, initialCash, rows, n);
      LedgerStaysValid(prices, signals, initialCash, rows[..n]);
      var opening := Opening(rows, initialCash, n);
      assert n > 0 ==> opening == rows[..n][n - 1];
      StepKeepsValid(opening, prices[n], signals[n]);
    }
  }

  /** A day's trades never change that day's worth: every row is worth, at
      its day's close, what the account it opened with is worth there. Worth
      moves from day to day only with the close. */
  lemma LedgerKeepsDayValue(prices: seq<real>, signals: seq<int>, initialCash: real, rows: seq<Account>)
    requires |prices| == |signals| && PositivePrices(prices) && |rows| <= |prices|
    requires IsLedger(prices, signals, initialCash, rows)
    ensures forall k :: 0 <= k < |rows| ==>
      Value(rows[k], prices[k]) == Value(Opening(rows, initialCash, k), prices[k])
  {
    forall k | 0 <= k < |rows|
      ensures Value(rows[k], prices[k]) == Value(Opening(rows, initialCash, k), prices[k])
    {
      StepKeepsValue(Opening(rows, initialCash, k), prices[k], signals[k]);
    }
  }

  /** At a constant close every row of the ledger is worth the initial cash,
      whatever the signals. */
  lemma {:induction false} FlatPriceKeepsValue(prices: seq<real>, signals: seq<int>, initialCash: real,
                                               rows: seq<Account>, p: real)
    requires |prices| == |signals| && PositivePrices(prices) && |rows| <= |prices|
    requires IsLedger(prices, signals, initialCash, rows)
    requires forall i :: 0 <= i < |prices| ==> prices[i] == p
    ensures forall k :: 0 <= k < |rows| ==> Value(rows[k], p) == initialCash
  {
    if rows != [] {
      var n := |rows| - 1;
      LedgerPrefix(prices, signals, initialCash, rows, n);
      FlatPriceKeepsValue(prices, signals, initialCash, rows[..n], p);
      var opening := Opening(rows, initialCash, n);
      assert n > 0 ==> opening == rows[..n][n - 1];
      StepKeepsValue(opening, prices[n], signals[n]);
    }
  }

  /** Ledger rows read off the cash and position lists, day by day. */
  function Rows(cashList: seq<real>, positionList: seq<int>): (rows: seq<Account>)
    requires |cashList| == |positionList|
    ensures |rows| == |cashList|
    ensures forall k :: 0 <= k < |rows| ==> rows[k] == Account(cashList[k], positionList[k])
  {
    seq(|cashList|, k requires 0 <= k < |cashList| => Account(cashList[k], positionList[k]))
  }

  lemma RowsAppend(cashList: seq<real>, positionList: seq<int>, cash: real, position: int)
    requires |cashList| == |positionList|
    ensures Rows(cashList + [cash], positionList + [position]) == Rows(cashList, positionList) + [Account(cash, position)]
  {
    assert Rows(cashList + [cash], positionList + [position])[|cashList|] == Account(cash, position);
  }

  /** Appending one day's trade outcome, from the account that day opened
      with, to the lists extends the ledger. */
  lemma DayAppend(prices: seq<real>, signals: seq<int>, initialCash: real,
                  cashList: seq<real>, positionList: seq<int>, opening: Account, cash: real, position: int)
    requires |prices| == |signals| && PositivePrices(prices)
    requires |cashList| == |positionList| < |prices|
    requires IsLedger(prices, signals, initialCash, Rows(cashList, positionList))
    requires |cashList| == 0 ==> opening == Account(initialCash, 0)
    requires |cashList| > 0 ==> opening == Account(cashList[|cashList| - 1], positionList[|cashList| - 1])
    requires Account(cash, position) == Step(opening, prices[|cashList|], signals[|cashList|])
    ensures IsLedger(prices, signals, initialCash, Rows(cashList + [cash], positionList + [position]))
  {
    assert opening == Opening(Rows(cashList, positionList), initialCash, |cashList|);
    LedgerAppend(prices, signals, initialCash, Rows(cashList, positionList), Account(cash, position));
    RowsAppend(cashList, positionList, cash, position);
  }

  /** The cash and position lists of a ledger from non-negative cash stay
      non-negative, and positions stay whole lots. */
  lemma ListsStayValid(prices: seq<real>, signals: seq<int>, initialCash: real,
                       cashList: seq<real>, positionList: seq<int>)
    requires |prices| == |signals| && PositivePrices(prices)
    requires |cashList| == |positionList| <= |prices|
    requires IsLedger(prices, signals, initialCash, Rows(cashList, positionList))
    requires initialCash >= 0.0
    ensures forall i :: 0 <= i < |cashList| ==>
      cashList[i] >= 0.0 && positionList[i] >= 0 && positionList[i] % LotSize == 0
  {
    var rows := Rows(cashList, positionList);
    LedgerStaysValid(prices, signals, initialCash, rows);
    forall i | 0 <= i < |cashList|
      ensures cashList[i] >= 0.0 && positionList[i] >= 0 && positionList[i] % LotSize == 0
    {
      assert Valid(rows[i]);
    }
  }

  /** Every total value is that day's cash plus its position marked at that
      day's close. */
  predicate MarkedToMarket(prices: seq<real>, cashList: seq<real>, positionList: seq<int>, totalValueList: seq<real>) {
    |cashList| == |positionList| == |totalValueList| <= |prices| &&
    forall k :: 0 <= k < |totalValueList| ==>
      totalValueList[k] == cashList[k] + positionList[k] as real * prices[k]
  }

  lemma MarkedAppend(prices: seq<real>, cashList: seq<real>, positionList: seq<int>, totalValueList: seq<real>,
                     cash: real, position: int, price: real, totalValue: real)
    requires MarkedToMarket(prices, cashList, positionList, totalValueList) && |cashList| < |prices|
    requires price == prices[|cashList|] && totalValue == cash + position as real * price
    ensures MarkedToMarket(prices, cashList + [cash], positionList + [position], totalValueList + [totalValue])
  {
  }

  /** One day's trade decision of the backtest loop. */
  method TradeDay(cash0: real, position0: int, price: real, signal: int) returns (cash: real, position: int)
    requires price > 0.0
    ensures Account(cash, position) == Step(Account(cash0, position0), price, signal)
  {
    cash, position := cash0, position0;
    if signal == 1 && cash >= price * 100.0 {
      var volume := BuyVolume(cash, price);
      var cost := volume as real * price;
      if volume > 0 {
        position := position + volume;
        cash := cash - cost;
      }
      assert Account(cash, position) == Step(Account(cash0, position0), price, signal);
    } else if signal == -1 && position > 0 {
      var volume := SellVolume(position);
      cash := cash + volume as real * price;
      position := position - volume;
      assert Account(cash, position) == Step(Account(cash0, position0), price, signal);
    }
  }

  /** The backtest loop: one row per day in each of the three lists, in input
      order. The rows form the ledger of the run, each total value is cash
      plus position marked at that day's close, and, from non-negative
      initial cash, cash and position stay non-negative and the position a
      whole number of lots. */
  method RunBacktest(prices: seq<real>, signals: seq<int>, initialCash: real)
    returns (cashList: seq<real>, positionList: seq<int>, totalValueList: seq<real>)
    requires |prices| == |signals| && PositivePrices(prices)
    ensures |cashList| == |positionList| == |totalValueList| == |prices|
    ensures IsLedger(prices, signals, initialCash, Rows(cashList, positionList))
    ensures MarkedToMarket(prices, cashList, positionList, totalValueList)
    ensures initialCash >= 0.0 ==> forall i :: 0 <= i < |prices| ==>
      cashList[i] >= 0.0 && positionList[i] >= 0 && positionList[i] % LotSize == 0
  {
    var cash := initialCash;
    var position := 0;
    cashList, positionList, totalValueList := [], [], [];
    var i := 0;
    while i < |prices|
      invariant 0 <= i <= |prices|
      invariant |cashList| == |positionList| == |totalValueList| == i
      invariant IsLedger(prices, signals, initialCash, Rows(cashList, positionList))
      invariant i == 0 ==> cash == initialCash && position == 0
      invariant i > 0 ==> cash == cashList[i - 1] && position == positionList[i - 1]
      invariant MarkedToMarket(prices, cashList, positionList, totalValueList)
    {
      var price := prices[i];
      var signal := signals[i];
      ghost var opening := Account(cash, position);
      cash, position := TradeDay(cash, position, price, signal);
      var totalValue := cash + position as real * price;
      DayAppend(prices, signals, initialCash, cashList, positionList, opening, cash, position);
      MarkedAppend(prices, cashList, positionList, totalValueList, cash, position, price, totalValue);
      cashList := cashList + [cash];
      positionList := positionList + [position];
      totalValueList := totalValueList + [totalValue];
      i := i + 1;
    }
    if initialCash >= 0.0 {
      ListsStayValid(prices, signals, initialCash, cashList, positionList);
    }
  }

  /** Two days at a close of 100 with signals buy then sell, from one
      million in cash. */
  lemma WorkedExample()
    ensures IsLedger([100.0, 100.0], [1, -1], 1000000.0,
                     [Account(670000.0, 3300), Account(780000.0, 2200)])
    ensures Value(Account(670000.0, 3300), 100.0) == 1000000.0
    ensures Value(Account(780000.0, 2200), 100.0) == 1000000.0
  {
    var third := (1000000.0 / 3.0).Floor;
    assert third == 333333;
    assert (third as real / 100.0).Floor == 3333;
    assert (3333 as real / 100.0).Floor == 33;
    assert BuyVolume(1000000.0, 100.0) == 3300;
  }

  /** The floors of the buy volume are taken one division at a time, and
      that is not the same as one floor of cash / 3 / price / 100: at cash
      152.1 and price 0.505 the third of the cash is 50.7, whose floor 50
      buys 99 shares, no whole lot, although 50.7 itself buys a lot. */
  lemma NestedFloorsDiffer()
    ensures BuyVolume(152.1, 0.505) == 0
    ensures (152.1 / 3.0 / 0.505 / 100.0).Floor * LotSize == 100
  {
    assert (152.1 / 3.0).Floor == 50;
    assert (50 as real / 0.505).Floor == 99;
    assert (99 as real / 100.0).Floor == 0;
  }
}
