/** Greedy training labels over a series of closes: scanning the days in
    order with a holding flag, the day before a rise is labelled a buy (1)
    when not holding, the day before a fall is labelled a sell (-1) when
    holding, and every other day 0. */
module Labels {

  /** The last non-zero label of a sequence, or 0 when every label is 0. */
  function LastTrade(labels: seq<int>): int {
    if |labels| == 0 then 0
    else if labels[|labels| - 1] != 0 then labels[|labels| - 1]
    else LastTrade(labels[..|labels| - 1])
  }

  /** LastTrade is 0 exactly when there is no trade; otherwise it is the
      label of a cell that only 0 labels follow. */
  lemma {:induction false} LastTradeSpec(labels: seq<int>)
    ensures LastTrade(labels) == 0 <==> forall j :: 0 <= j < |labels| ==> labels[j] == 0
    ensures LastTrade(labels) != 0 ==>
      exists j :: 0 <= j < |labels| && labels[j] == LastTrade(labels) &&
                  forall k :: j < k < |labels| ==> labels[k] == 0
    decreases |labels|
  {
    if |labels| > 0 && labels[|labels| - 1] == 0 {
      var pre := labels[..|labels| - 1];
      LastTradeSpec(pre);
      if LastTrade(pre) != 0 {
        var j :| 0 <= j < |pre| && pre[j] == LastTrade(pre) && forall k :: j < k < |pre| ==> pre[k] == 0;
        assert labels[j] == LastTrade(labels);
      }
    }
  }

  /** The holding flag after a prefix of labels: the last trade was a buy. */
  predicate Holding(labels: seq<int>) {
    LastTrade(labels) == 1
  }

  /** The label one scan step writes, from the holding flag and the closes
      of the day and the next day. */
  function Decide(holding: bool, today: real, tomorrow: real): int {
    if !holding && tomorrow > today then 1
    else if holding && tomorrow < today then -1
    else 0
  }

  /** The first n labels are the ones the scan writes. */
  predicate GreedyUpTo(close: seq<real>, labels: seq<int>, n: nat)
    requires n < |close| && |labels| == |close|
  {
    forall j :: 0 <= j < n ==> labels[j] == Decide(Holding(labels[..j]), close[j], close[j + 1])
  }

  /** `labels` is the greedy labelling of `close`: one label per day; each
      day but the last is labelled by Decide from the holding flag its
      earlier labels leave, and the last day is 0. */
  predicate Greedy(close: seq<real>, labels: seq<int>) {
    |labels| == |close| &&
    forall j {:trigger labels[j]} :: 0 <= j < |labels| ==>
      labels[j] == (if j + 1 < |close| then Decide(Holding(labels[..j]), close[j], close[j + 1]) else 0)
  }

  /** Appending a label whose value is 0 leaves the last trade alone; any
      other label becomes the last trade. */
  lemma LastTradeAppend(labels: seq<int>, x: int)
    ensures LastTrade(labels + [x]) == if x != 0 then x else LastTrade(labels)
  {
    assert (labels + [x])[..|labels|] == labels;
  }

  /** The last trade is the label at j when j holds a trade and only 0
      labels follow it. */
  lemma {:induction false} LastTradeAt(labels: seq<int>, j: nat)
    requires j < |labels| && labels[j] != 0
    requires forall k :: j < k < |labels| ==> labels[k] == 0
    ensures LastTrade(labels) == labels[j]
    decreases |labels|
  {
    if j < |labels| - 1 {
      var pre := labels[..|labels| - 1];
      LastTradeAt(pre, j);
    }
  }

  /** The scan of the source: one zero label per day, then for each day i
      from 1 on, label i - 1 becomes 1 when not holding and the close rose,
      or -1 when holding and the close fell, flipping the flag on each
      write. The result is the greedy labelling, and the final flag is the
      holding flag it leaves. */
  method GenerateLabels(close: seq<real>) returns (labels: seq<int>, holding: bool)
    ensures Greedy(close, labels)
    ensures holding == Holding(labels)
  {
    labels := seq(|close|, _ => 0);
    holding := false;
    var i := 1;
    while i < |close|
      invariant 1 <= i <= if |close| == 0 then 1 else |close|
      invariant |labels| == |close|
      invariant forall k :: i - 1 <= k < |labels| ==> labels[k] == 0
      invariant |close| > 0 ==> GreedyUpTo(close, labels, i - 1)
      invariant holding == Holding(labels[..i - 1])
    {
      ghost var before := labels;
      ghost var flag := holding;
      if !holding && close[i] > close[i - 1] {
        labels := labels[i - 1 := 1];
        holding := true;
      } else if holding && close[i] < close[i - 1] {
        labels := labels[i - 1 := -1];
        holding := false;
      }
      WriteStep(close, before, labels, i - 1, flag, holding, Decide(flag, close[i - 1], close[i]));
      i := i + 1;
    }
    if |close| > 0 {
      assert labels == labels[..|close| - 1] + [0];
      LastTradeAppend(labels[..|close| - 1], 0);
    }
  }

  /** One scan step: writing `written`, the label Decide gives, at cell p,
      whose old value is 0, extends the scanned prefix by one cell, and the
      flag the step leaves is the holding flag of that longer prefix. */
  lemma WriteStep(close: seq<real>, before: seq<int>, after: seq<int>, p: nat,
                  flag: bool, holding: bool, written: int)
    requires p + 1 < |close| && |before| == |close| && before[p] == 0
    requires GreedyUpTo(close, before, p)
    requires after == before[p := written]
    requires flag == Holding(before[..p])
    requires written == Decide(flag, close[p], close[p + 1])
    requires written == 1 ==> holding
    requires written == -1 ==> !holding
    requires written == 0 ==> holding == flag
    ensures GreedyUpTo(close, after, p + 1)
    ensures holding == Holding(after[..p + 1])
  {
    forall j | 0 <= j <= p
      ensures after[..j] == before[..j]
    {
    }
    assert after[..p + 1] == before[..p] + [written];
    LastTradeAppend(before[..p], written);
  }

  /** The label of day j in a greedy labelling. */
  lemma GreedyAt(close: seq<real>, labels: seq<int>, j: nat)
    requires Greedy(close, labels) && j < |labels|
    ensures j + 1 < |close| ==> labels[j] == Decide(Holding(labels[..j]), close[j], close[j + 1])
    ensures j + 1 == |close| ==> labels[j] == 0
  {
  }

  /** Decide only ever yields a buy, a sell or 0. */
  lemma DecideRange(holding: bool, today: real, tomorrow: real)
    ensures Decide(holding, today, tomorrow) in {-1, 0, 1}
  {
  }

  /** One label per day, each a buy, a sell or 0; the last day is never
      labelled, so series of at most one close are all 0. */
  lemma GreedyShape(close: seq<real>, labels: seq<int>)
    requires Greedy(close, labels)
    ensures |labels| == |close|
    ensures forall j :: 0 <= j < |labels| ==> labels[j] in {-1, 0, 1}
    ensures |close| > 0 ==> labels[|close| - 1] == 0
    ensures |close| <= 1 ==> forall j :: 0 <= j < |labels| ==> labels[j] == 0
  {
    forall j | 0 <= j < |labels|
      ensures labels[j] in {-1, 0, 1}
    {
      if j + 1 < |close| {
        DecideRange(Holding(labels[..j]), close[j], close[j + 1]);
      }
    }
  }

  /** A buy label is followed by a higher close, a sell label by a lower
      one. */
  lemma GreedyDirection(close: seq<real>, labels: seq<int>, j: nat)
    requires Greedy(close, labels) && j < |labels|
    ensures labels[j] == 1 ==> j + 1 < |close| && close[j + 1] > close[j]
    ensures labels[j] == -1 ==> j + 1 < |close| && close[j + 1] < close[j]
  {
    GreedyAt(close, labels, j);
  }

  /** The first trade of a greedy labelling is a buy. */
  lemma FirstTradeIsBuy(close: seq<real>, labels: seq<int>, k: nat)
    requires Greedy(close, labels) && k < |labels| && labels[k] != 0
    requires forall j :: 0 <= j < k ==> labels[j] == 0
    ensures labels[k] == 1
  {
    LastTradeSpec(labels[..k]);
    GreedyAt(close, labels, k);
  }

  /** Two trades of a greedy labelling with only 0 labels between them are a
      buy and a sell, in either order: trades strictly alternate. */
  lemma TradesAlternate(close: seq<real>, labels: seq<int>, j: nat, k: nat)
    requires Greedy(close, labels) && j < k < |labels|
    requires labels[j] != 0 && labels[k] != 0
    requires forall m :: j < m < k ==> labels[m] == 0
    ensures labels[k] == -labels[j]
  {
    GreedyShape(close, labels);
    LastTradeAt(labels[..k], j);
    GreedyAt(close, labels, k);
  }

  /** The greedy labelling of a series is unique. */
  lemma GreedyUnique(close: seq<real>, labels1: seq<int>, labels2: seq<int>)
    requires Greedy(close, labels1) && Greedy(close, labels2)
    ensures labels1 == labels2
  {
    SamePrefix(close, labels1, labels2, |close|);
    assert labels1 == labels1[..|close|] && labels2 == labels2[..|close|];
  }

  lemma {:induction false} SamePrefix(close: seq<real>, labels1: seq<int>, labels2: seq<int>, n: nat)
    requires Greedy(close, labels1) && Greedy(close, labels2) && n <= |close|
    ensures labels1[..n] == labels2[..n]
  {
    if n > 0 {
      SamePrefix(close, labels1, labels2, n - 1);
      GreedyAt(close, labels1, n - 1);
      GreedyAt(close, labels2, n - 1);
      assert labels1[..n - 1] == labels2[..n - 1];
      assert labels1[..n] == labels1[..n - 1] + [labels1[n - 1]];
      assert labels2[..n] == labels2[..n - 1] + [labels2[n - 1]];
    }
  }

  /** The holding flag is set exactly when the last trade is a buy: some
      label is 1 and only 0 labels follow it. */
  lemma HoldingIsLastBuy(labels: seq<int>)
    ensures Holding(labels) <==>
      exists j :: 0 <= j < |labels| && labels[j] == 1 &&
                  forall k :: j < k < |labels| ==> labels[k] == 0
  {
    LastTradeSpec(labels);
    if j :| 0 <= j < |labels| && labels[j] == 1 && forall k :: j < k < |labels| ==> labels[k] == 0 {
      LastTradeAt(labels, j);
    }
  }

  /** Closes 1, 2, 3, 2, 1, 2: buy before the first rise, hold through the
      second, sell before the first fall, wait, buy again, and end holding. */
  lemma LabelsExample()
    ensures Greedy([1.0, 2.0, 3.0, 2.0, 1.0, 2.0], [1, 0, -1, 0, 1, 0])
    ensures Holding([1, 0, -1, 0, 1, 0])
  {
    var close := [1.0, 2.0, 3.0, 2.0, 1.0, 2.0];
    var labels := [1, 0, -1, 0, 1, 0];
    assert labels[..0] == [];
    assert labels[..1] == [1];
    assert labels[..2] == [1, 0] && labels[..1] == [1, 0][..1];
    assert labels[..3] == [1, 0, -1] && labels[..2] == [1, 0, -1][..2];
    assert labels[..4] == [1, 0, -1, 0] && labels[..3] == [1, 0, -1, 0][..3];
    assert labels[..5] == [1, 0, -1, 0, 1];
  }
}
