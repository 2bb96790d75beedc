# Backtest ledger and greedy labels of ML-OptPathQTS

ML-OptPathQTS trains a classifier on technical indicators of one stock's
daily bars and backtests the classifier's buy/sell signals. This project
models the two parts of `Stock` in `ML_OptPathQTS.py` that are plain
computation, and proves properties of them.

- **The backtest ledger** (`Stock.backtest`). The loop walks the days in order and carries
  cash and a share position from one day to the next.
  - On a buy signal (1), when cash covers one lot of 100 shares, it buys `cash // 3 // price // 100` lots.
  - On a sell signal (-1), when shares are held, it sells `position // 3 // 100` lots.
  - Every other signal holds.
  - Each day it records cash, position and total value (`cash + position * price`).

  Module `Backtest` (`backtest.dfy`) models this.
  - The decision for one day is the function `Step`, implemented by the method `TradeDay`.
  - The loop is the method `RunBacktest`. It is proved to produce the ledger `IsLedger`: every row is `Step` applied to the account the day opened with.
  - The day-level and ledger-level properties are lemmas about `Step` and `IsLedger`.

- **The greedy labels** (`Stock.generate_labels`). This part makes the training targets. A scan over
  the closes with a `holding` flag labels a day 1 when not holding and the next close is higher. It
  labels a day -1 when holding and the next close is lower. Every other day is labelled 0.

  Module `Labels` (`labels.dfy`) models this. The method `GenerateLabels` is proved to produce the
  greedy labelling `Greedy`. The lemmas derive what the labelling promises from `Greedy`.

Prices and cash are exact reals. The three floor divisions of the buy volume are written as
`.Floor` one division at a time, as the code does them.

## Model

| member | source | states |
|---|---|---|
| Backtest.Value | ML_OptPathQTS.py:128 | the total value of an account at a close, cash + position * price; a definition with no ensures of its own, used by StepKeepsValue, LedgerKeepsDayValue, FlatPriceKeepsValue and WorkedExample |
| Backtest.BuyVolume | ML_OptPathQTS.py:119 | the buy volume is a non-negative whole number of lots |
| Backtest.BuyVolumeIsLargest | ML_OptPathQTS.py:119-120 | the buy volume costs at most floor(cash / 3), and so at most a third of the cash, and one more lot would cost more than floor(cash / 3) |
| Backtest.SmallBuyIsEmpty | ML_OptPathQTS.py:119-121 | with less than three lots' worth of cash the buy volume is 0, so the `volume > 0` guard skips the trade |
| Backtest.SellVolume | ML_OptPathQTS.py:125 | the sell volume is a non-negative whole number of lots, at most a third of the position, and one more lot would exceed that third |
| Backtest.Step | ML_OptPathQTS.py:118-127 | one day's if/elif on (cash, position): buy, sell or hold; a definition with no ensures of its own, whose properties are the Step* lemmas below and which TradeDay is proved to compute |
| Backtest.StepKeepsValue | ML_OptPathQTS.py:118-128 | a day's trade leaves the account's value at that day's close unchanged |
| Backtest.StepDirection | ML_OptPathQTS.py:118-127 | a buy day never lowers the position and never raises the cash; a sell day does the opposite; any signal other than 1 or -1 leaves the account unchanged |
| Backtest.StepKeepsValid | ML_OptPathQTS.py:118-127 | one day keeps cash non-negative and the position a non-negative whole number of lots |
| Backtest.BuyKeepsValid | ML_OptPathQTS.py:119-123 | buying whole lots that cost at most the cash keeps cash non-negative and the position whole lots |
| Backtest.SellKeepsValid | ML_OptPathQTS.py:125-127 | selling whole lots, at most the position, keeps cash non-negative and the position whole lots |
| Backtest.StepTradesAtMostAThird | ML_OptPathQTS.py:119-127 | a day spends at most a third of the cash and sells at most a third of the position |
| Backtest.StepSmallTradesAreNoOps | ML_OptPathQTS.py:118-127 | a buy with less than three lots' worth of cash changes nothing, and neither does a sell of a position below three lots; this covers both the volume of 0 and the guard that skips it |
| Backtest.NestedFloorsDiffer | ML_OptPathQTS.py:119 | the successive floors of the code buy nothing at cash 152.1 and price 0.505, whereas a single floor of cash / 3 / price / 100 would buy one lot |
| Backtest.TradeDay | ML_OptPathQTS.py:116-127 | the cash and position after the day's if/elif are exactly `Step` of the opening cash and position |
| Backtest.RunBacktest | ML_OptPathQTS.py:111-135 | one entry per day in each of the three lists; the (cash, position) rows are the ledger `IsLedger` of the prices, signals and initial cash; every total value is that day's cash plus position times close; from non-negative initial cash, every cash entry is non-negative and every position a non-negative whole number of lots |
| Backtest.LedgerAppend | ML_OptPathQTS.py:115-131 | a ledger extended by the next day's `Step` is a ledger of one more day |
| Backtest.LedgerPrefix | ML_OptPathQTS.py:115-131 | every prefix of a ledger is the ledger of that many days |
| Backtest.LedgerUnique | ML_OptPathQTS.py:111-131 | the ledger is determined by prices, signals and initial cash: two ledgers of the same length are equal |
| Backtest.LedgerStaysValid | ML_OptPathQTS.py:111-131 | from non-negative initial cash, every row of a ledger has non-negative cash and a non-negative whole-lot position |
| Backtest.ListsStayValid | ML_OptPathQTS.py:129-130 | the same invariant, read off the cash and position lists themselves |
| Backtest.LedgerKeepsDayValue | ML_OptPathQTS.py:118-128 | every row is worth, at its day's close, what its opening account is worth there, so the total value moves only with the close |
| Backtest.FlatPriceKeepsValue | ML_OptPathQTS.py:111-131 | at a constant close, every row is worth the initial cash, whatever the signals |
| Backtest.WorkedExample | ML_OptPathQTS.py:118-128 | from 1,000,000 at price 100 with signals [1, -1], the rows are (670000, 3300) and then (780000, 2200), and both are worth 1,000,000 |
| Backtest.MarkedAppend | ML_OptPathQTS.py:128-131 | appending cash, position and cash + position * price keeps every recorded total marked to its day's close |
| Labels.GenerateLabels | ML_OptPathQTS.py:82-91 | the labels are the greedy labelling `Greedy` of the closes, and the final flag is the holding flag they leave |
| Labels.LastTrade | ML_OptPathQTS.py:83-90 | the last non-zero label of a prefix, or 0, which stands for the value of the `holding` flag; no ensures of its own, characterized by LastTradeSpec |
| Labels.Holding | ML_OptPathQTS.py:83-90 | the `holding` flag after a prefix of labels: its last trade is a buy; no ensures of its own, characterized by HoldingIsLastBuy |
| Labels.Decide | ML_OptPathQTS.py:85-90 | the label one scan step writes from the flag and two consecutive closes; no ensures of its own, its range is DecideRange and its effect on a labelling is GreedyDirection |
| Labels.LastTradeSpec | ML_OptPathQTS.py:83-90 | the last trade is 0 exactly when all labels are 0; otherwise it is a label that only 0 labels follow |
| Labels.HoldingIsLastBuy | ML_OptPathQTS.py:86-90 | holding is set exactly when some label is 1 and only 0 labels follow it |
| Labels.GreedyShape | ML_OptPathQTS.py:82-91 | one label per close; every label is -1, 0 or 1; the last label is 0; at most one close gives all zeros |
| Labels.GreedyDirection | ML_OptPathQTS.py:85-90 | a label of 1 is followed by a higher close, and a label of -1 by a lower one |
| Labels.FirstTradeIsBuy | ML_OptPathQTS.py:83-87 | the first non-zero label is 1 |
| Labels.TradesAlternate | ML_OptPathQTS.py:83-90 | two non-zero labels with only zeros between them have opposite signs, so the trades alternate 1, -1, 1, ... |
| Labels.GreedyUnique | ML_OptPathQTS.py:82-91 | the greedy labelling of a series of closes is unique |
| Labels.WriteStep | ML_OptPathQTS.py:85-90 | one scan step extends the labelled prefix by one day and leaves the holding flag of the longer prefix |
| Labels.LabelsExample | ML_OptPathQTS.py:82-91 | the closes 1, 2, 3, 2, 1, 2 are labelled 1, 0, -1, 0, 1, 0 and end holding |

## Left out

- Fetching bars (`init_tushare`, `fetch_data`, lines 37-51) is left out because it is network I/O. The API token is part of that code.
- Indicator computation (`calc_indicators`, lines 53-75) is left out. It calls TA-Lib and pandas rolling and EWM functions with floating-point numerics that are not visible here.
- The classifier is left out: `train_model` (lines 94-103) and the `predict` call at line 110 are sklearn calls. The signals are an input of `RunBacktest`.
- `plot_results` (lines 138-161) is left out because it only draws charts. The fitness-like reduction inside it is left out for the same reason.
- The orchestration in `run` (lines 163-173) is left out.
- A simulated-annealing search over training windows does not appear in `ML_OptPathQTS.py`, so there is nothing of it to model.
- Floating-point rounding is not modelled. Cash, prices and values are exact reals, so the value identities are exact.
- Writing the lists into the data frame's columns (lines 133-135) is not modelled. `RunBacktest` returns the three lists.
- Backtest.RunBacktest requires every close to be positive. A buy day at a close of 0 makes the code divide by zero, and the data feed gives positive closes.
- Backtest.BuyVolume follows the code's successive floors `cash // 3 // price // 100`. A single floor of cash / 3 / price / 100 would buy one lot more in some cases; NestedFloorsDiffer shows one.
- Backtest.Step treats any signal other than 1 or -1 as hold, as the if/elif does; the classifier is expected to emit only -1, 0 and 1, and nothing in the code enforces that.
- Backtest.TradeDay takes the if/elif of lines 118-127 out of the loop body into a method of its own. The loop calls it once per day.
- Labels.GenerateLabels also returns the final `holding` flag, which the source keeps local. This makes the property at lines 86-90 statable.
- Labels.GenerateLabels holds the labels as a local sequence. The code assigns into a local list by index, and the sequence is updated the same way. Nothing else refers to the list, so no aliasing is lost.
- Labels.GenerateLabels states "each index is written at most once" only as a loop invariant: the cells from the current index on are still 0. It is not a separate contract.
- Separating the label column from the data frame (line 91) is not modelled.
