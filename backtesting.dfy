/**
 * The backtester: `classical_arbitrage` replays the detector's formula over every
 * row of the price history and keeps, per row, the largest percentage difference of
 * any valid pair (no threshold); `quantum_arbitrage` scales those profits by 1.1;
 * `compute_sharpe_ratio` divides their mean by their standard deviation, or
 * returns 0 when the deviation is 0.
 */
module Backtesting {
  import opened Optional
  import opened PriceRows
  import QuantumOptimization

  /** The differences of the opportunities, in order. */
  function Diffs(opps: seq<Opportunity>): seq<real> {
    if opps == [] then []
    else Diffs(opps[..|opps| - 1]) + [opps[|opps| - 1].diff]
  }

  lemma {:induction false} DiffsAt(opps: seq<Opportunity>)
    ensures |Diffs(opps)| == |opps|
    ensures forall k :: 0 <= k < |opps| ==> Diffs(opps)[k] == opps[k].diff
    decreases |opps|
  {
    if opps != [] {
      DiffsAt(opps[..|opps| - 1]);
    }
  }

  lemma DiffsSnoc(opps: seq<Opportunity>, o: Opportunity)
    ensures Diffs(opps + [o]) == Diffs(opps) + [o.diff]
  {
  }

  /** What the backtester's loops append while they visit the pairs `ps`: the difference of each valid one. */
  function ProfitScan(cols: seq<Column>, ps: seq<Pair>): seq<real> {
    if ps == [] then []
    else
      var init, last := ps[..|ps| - 1], ps[|ps| - 1];
      ProfitScan(cols, init) + (if ValidPair(cols, last) then [Diff(cols, last)] else [])
  }

  /** The backtester appends exactly the differences the detector would record with no threshold. */
  lemma {:induction false} ProfitScanIsDiffs(cols: seq<Column>, ps: seq<Pair>)
    ensures ProfitScan(cols, ps) == Diffs(Scan(cols, None, ps))
    decreases |ps|
  {
    if ps != [] {
      var init, last := ps[..|ps| - 1], ps[|ps| - 1];
      ProfitScanIsDiffs(cols, init);
      if ValidPair(cols, last) {
        DiffsSnoc(Scan(cols, None, init), OpportunityAt(cols, last));
      } else {
        var recorded, appended := Scan(cols, None, init), ProfitScan(cols, init);
        assert Scan(cols, None, ps) == recorded + [] == recorded;
        assert ProfitScan(cols, ps) == appended + [] == appended;
      }
    }
  }

  lemma {:induction false} DiffsAppend(xs: seq<Opportunity>, ys: seq<Opportunity>)
    ensures Diffs(xs + ys) == Diffs(xs) + Diffs(ys)
    decreases |ys|
  {
    if ys == [] {
      assert xs + ys == xs;
    } else {
      var init := ys[..|ys| - 1];
      DiffsAppend(xs, init);
      assert (xs + ys)[..|xs + ys| - 1] == xs + init;
    }
  }

  /**
   * What the backtester's inner loop of row `i` appends while its position runs from
   * `i + 1` up to, but not including, `j`: the difference of each valid pair.
   */
  function RowProfitScan(cols: seq<Column>, i: int, j: int): seq<real>
    decreases j - i
  {
    if j <= i + 1 then []
    else
      var p := (i, j - 1);
      RowProfitScan(cols, i, j - 1) + (if ValidPair(cols, p) then [Diff(cols, p)] else [])
  }

  /** The backtester's inner loop appends the differences of what the detector's would record. */
  lemma {:induction false} RowProfitScanIsDiffs(cols: seq<Column>, i: int, j: int)
    ensures RowProfitScan(cols, i, j) == Diffs(RowScan(cols, None, i, j))
    decreases j - i
  {
    if j > i + 1 {
      RowProfitScanIsDiffs(cols, i, j - 1);
      var before := RowScan(cols, None, i, j - 1);
      if ValidPair(cols, (i, j - 1)) {
        DiffsSnoc(before, OpportunityAt(cols, (i, j - 1)));
      } else {
        assert before + [] == before;
      }
    }
  }

  /** One step of the outer loop: row `i` adds the differences its inner loop appends. */
  lemma ProfitScanNextRow(cols: seq<Column>, n: int, i: nat)
    ensures ProfitScan(cols, PairsBefore(n, i + 1))
         == ProfitScan(cols, PairsBefore(n, i)) + RowProfitScan(cols, i, n)
  {
    RowProfitScanIsDiffs(cols, i, n);
    ProfitScanIsDiffs(cols, PairsBefore(n, i + 1));
    ProfitScanIsDiffs(cols, PairsBefore(n, i));
    ScanNextRow(cols, None, n, i);
    DiffsAppend(Scan(cols, None, PairsBefore(n, i)), RowScan(cols, None, i, n));
  }

  /** The difference of every valid pair of `cols`, in the order of the nested loops. */
  function PairProfits(cols: seq<Column>): seq<real> {
    ProfitScan(cols, AllPairs(|cols|))
  }

  /** `max(values)` of a non-empty list: a member that no other member exceeds. */
  function MaxOf(values: seq<real>): (m: real)
    requires values != []
    ensures m in values
    ensures forall k :: 0 <= k < |values| ==> values[k] <= m
  {
    if |values| == 1 then values[0]
    else
      var rest := MaxOf(values[..|values| - 1]);
      assert values == values[..|values| - 1] + [values[|values| - 1]];
      if values[|values| - 1] > rest then values[|values| - 1] else rest
  }

  /** What one row adds to the list of profits: nothing, or its largest pair difference. */
  function RowContribution(row: seq<Column>): seq<real> {
    var cols := ExchangeColumns(row);
    if |cols| < 2 then []
    else if PairProfits(cols) == [] then []
    else [MaxOf(PairProfits(cols))]
  }

  /** The profits `classical_arbitrage` returns for the rows `rows`. */
  function ClassicalProfits(rows: seq<seq<Column>>): seq<real> {
    if rows == [] then []
    else ClassicalProfits(rows[..|rows| - 1]) + RowContribution(rows[|rows| - 1])
  }

  /**
   * The inner loop of `classical_arbitrage` for position `i`: it appends the difference of
   * every pair `(i, j)`, `j > i`, whose prices are numeric.
   */
  method AppendRowProfits(cols: seq<Column>, i: nat, profits: seq<real>) returns (newProfits: seq<real>)
    requires i < |cols| && NoZeroMinimum(cols)
    ensures newProfits == profits + RowProfitScan(cols, i, |cols|)
  {
    newProfits := profits;
    assert profits + RowProfitScan(cols, i, i + 1) == profits;
    for j := i + 1 to |cols|
      invariant newProfits == profits + RowProfitScan(cols, i, j)
    {
      if cols[i].cell.Price? && cols[j].cell.Price? {
        var diff := PairDiff(cols[i].cell.value, cols[j].cell.value);
        newProfits := newProfits + [diff];
      }
    }
  }

  /** The nested loops of `classical_arbitrage` for one row's exchange columns. */
  method RowPairProfits(cols: seq<Column>) returns (arbitrageProfits: seq<real>)
    requires NoZeroMinimum(cols)
    ensures arbitrageProfits == PairProfits(cols)
  {
    arbitrageProfits := [];
    for i := 0 to |cols|
      invariant arbitrageProfits == ProfitScan(cols, PairsBefore(|cols|, i))
    {
      ProfitScanNextRow(cols, |cols|, i);
      arbitrageProfits := AppendRowProfits(cols, i, arbitrageProfits);
    }
  }

  /** `classical_arbitrage(df)`: at most one profit per row, in row order. */
  method ClassicalArbitrage(rows: seq<seq<Column>>) returns (profits: seq<real>)
    requires forall r :: 0 <= r < |rows| ==> NoZeroMinimum(ExchangeColumns(rows[r]))
    ensures profits == ClassicalProfits(rows)
  {
    profits := [];
    for r := 0 to |rows|
      invariant profits == ClassicalProfits(rows[..r])
    {
      assert rows[..r + 1][..r] == rows[..r];
      var cols := ExchangeColumns(rows[r]);
      if |cols| < 2 {
        continue;
      }
      var arbitrageProfits := RowPairProfits(cols);
      if arbitrageProfits != [] {
        profits := profits + [MaxOf(arbitrageProfits)];
      }
    }
    assert rows[..|rows|] == rows;
  }

  /** The profits of the rows `a + b` are those of `a` followed by those of `b`. */
  lemma {:induction false} ClassicalProfitsAppend(a: seq<seq<Column>>, b: seq<seq<Column>>)
    ensures ClassicalProfits(a + b) == ClassicalProfits(a) + ClassicalProfits(b)
    decreases |b|
  {
    if b == [] {
      assert a + b == a;
    } else {
      assert (a + b)[..|a + b| - 1] == a + b[..|b| - 1];
      ClassicalProfitsAppend(a, b[..|b| - 1]);
    }
  }

  /** A row contributes at most one profit, so there are never more profits than rows. */
  lemma {:induction false} ClassicalProfitsLength(rows: seq<seq<Column>>)
    ensures |ClassicalProfits(rows)| <= |rows|
    decreases |rows|
  {
    if rows != [] {
      ClassicalProfitsLength(rows[..|rows| - 1]);
    }
  }

  /** Every difference of a valid pair is one of the row's pair profits, and conversely. */
  lemma PairProfitsMembers(cols: seq<Column>)
    ensures forall v :: v in PairProfits(cols) <==>
      exists p: Pair :: 0 <= p.0 < p.1 < |cols| && ValidPair(cols, p) && Diff(cols, p) == v
  {
    var kept := KeptPairs(cols, None);
    ProfitScanIsDiffs(cols, AllPairs(|cols|));
    KeptPairsCharacterization(cols, None);
    CandidatesAt(cols, None);
    DiffsAt(Candidates(cols, None));
    forall v | v in PairProfits(cols)
      ensures exists p: Pair :: 0 <= p.0 < p.1 < |cols| && ValidPair(cols, p) && Diff(cols, p) == v
    {
      var k :| 0 <= k < |PairProfits(cols)| && PairProfits(cols)[k] == v;
      assert kept[k] in kept;
    }
    forall p: Pair | 0 <= p.0 < p.1 < |cols| && ValidPair(cols, p)
      ensures Diff(cols, p) in PairProfits(cols)
    {
      assert p in kept;
      var k :| 0 <= k < |kept| && kept[k] == p;
      assert PairProfits(cols)[k] == Diff(cols, p);
    }
  }

  /** Every profit is non-negative: it is an absolute value times 100. */
  lemma {:induction false} ClassicalProfitsNonNegative(rows: seq<seq<Column>>)
    ensures forall v :: v in ClassicalProfits(rows) ==> v >= 0.0
    decreases |rows|
  {
    if rows != [] {
      ClassicalProfitsNonNegative(rows[..|rows| - 1]);
      var cols := ExchangeColumns(rows[|rows| - 1]);
      PairProfitsMembers(cols);
      if |cols| >= 2 && PairProfits(cols) != [] {
        assert MaxOf(PairProfits(cols)) >= 0.0;
      }
    }
  }

  /**
   * A row contributes exactly when its exchange columns hold a valid pair, and then what
   * it contributes is the largest difference over all its valid pairs.
   */
  lemma RowContributionIsRowMaximum(row: seq<Column>)
    ensures var cols := ExchangeColumns(row);
      RowContribution(row) != [] <==> exists p: Pair :: 0 <= p.0 < p.1 < |cols| && ValidPair(cols, p)
    ensures var cols := ExchangeColumns(row);
      RowContribution(row) != [] ==>
        && |RowContribution(row)| == 1
        && (exists p: Pair :: 0 <= p.0 < p.1 < |cols| && ValidPair(cols, p) && Diff(cols, p) == RowContribution(row)[0])
        && (forall p: Pair :: 0 <= p.0 < p.1 < |cols| && ValidPair(cols, p) ==> Diff(cols, p) <= RowContribution(row)[0])
  {
    var cols := ExchangeColumns(row);
    PairProfitsMembers(cols);
    forall p: Pair | 0 <= p.0 < p.1 < |cols| && ValidPair(cols, p)
      ensures Diff(cols, p) in PairProfits(cols)
    {
    }
    if PairProfits(cols) != [] {
      var m := MaxOf(PairProfits(cols));
      assert m in PairProfits(cols);
      var q: Pair :| 0 <= q.0 < q.1 < |cols| && ValidPair(cols, q) && Diff(cols, q) == m;
      assert RowContribution(row) == [m];
    }
  }

  /**
   * The backtester and the detector agree: when a row's largest pair difference exceeds
   * `tol * 100`, the detector's best trade on the same columns has exactly that profit.
   */
  lemma DetectorAgreesWithBacktest(cols: seq<Column>, tol: real)
    requires PairProfits(cols) != [] && MaxOf(PairProfits(cols)) > tol * 100.0
    ensures QuantumOptimization.Opportunities(cols, tol) != []
    ensures var opps := QuantumOptimization.Opportunities(cols, tol);
      opps[QuantumOptimization.FirstMaxIndex(opps)].diff == MaxOf(PairProfits(cols))
  {
    var m := MaxOf(PairProfits(cols));
    var opps := QuantumOptimization.Opportunities(cols, tol);
    var kept := KeptPairs(cols, Some(tol));
    PairProfitsMembers(cols);
    KeptPairsCharacterization(cols, Some(tol));
    CandidatesAt(cols, Some(tol));
    var p: Pair :| 0 <= p.0 < p.1 < |cols| && ValidPair(cols, p) && Diff(cols, p) == m;
    assert p in kept;
    var t :| 0 <= t < |kept| && kept[t] == p;
    assert opps[t].diff == m;
    var b := QuantumOptimization.FirstMaxIndex(opps);
    assert opps[b].diff >= m;
    var q := kept[b];
    assert q in kept;
    assert Diff(cols, q) in PairProfits(cols);
  }

  // ----- quantum_arbitrage -----

  /** The "quantum" efficiency factor: profits are taken as 10% higher. */
  const QuantumFactor: real := 1.1

  /** The quantum profits: every classical profit scaled by the quantum factor, in order. */
  function QuantumArbitrage(profits: seq<real>): (q: seq<real>)
    ensures |q| == |profits|
    ensures forall k :: 0 <= k < |profits| ==> q[k] == profits[k] * QuantumFactor
  {
    seq(|profits|, k requires 0 <= k < |profits| => profits[k] * QuantumFactor)
  }

  /** The scaling works element by element, so it keeps the order of the profits. */
  lemma QuantumArbitrageAppend(a: seq<real>, b: seq<real>)
    ensures QuantumArbitrage(a + b) == QuantumArbitrage(a) + QuantumArbitrage(b)
  {
  }

  // ----- compute_sharpe_ratio -----

  function Sum(s: seq<real>): real {
    if s == [] then 0.0 else s[0] + Sum(s[1..])
  }

  /** `np.mean` of a non-empty list. */
  function Mean(s: seq<real>): real
    requires s != []
  {
    Sum(s) / |s| as real
  }

  function SumSquares(s: seq<real>, m: real): real {
    if s == [] then 0.0 else (s[0] - m) * (s[0] - m) + SumSquares(s[1..], m)
  }

  /** The population variance, as `np.std` takes it (ddof = 0). */
  function Variance(s: seq<real>): real
    requires s != []
  {
    SumSquares(s, Mean(s)) / |s| as real
  }

  /**
   * `std` is the population standard deviation of `s`: a non-negative square root of the variance. Square roots are not
   * computed here; what is used of them is the root's defining equation and that the root
   * of zero is zero.
   */
  predicate IsStdDev(s: seq<real>, std: real) {
    && s != []
    && std >= 0.0
    && std * std == Variance(s)
    && (Variance(s) == 0.0 ==> std == 0.0)
  }

  predicate AllEqual(s: seq<real>) {
    forall i, j :: 0 <= i < |s| && 0 <= j < |s| ==> s[i] == s[j]
  }

  /**
   * The Sharpe ratio of `profits`, given their population standard deviation `std`. `None` stands for NaN:
   * the mean and deviation of an empty list are NaN, `NaN == 0` is false, and `NaN / NaN`
   * is NaN.
   */
  function SharpeRatio(profits: seq<real>, std: real): (r: Option<real>)
    requires profits != [] ==> IsStdDev(profits, std)
    ensures r.None? <==> profits == []
    ensures profits != [] && std == 0.0 ==> r == Some(0.0)
    ensures profits != [] && std != 0.0 ==> r == Some(Mean(profits) / std)
  {
    if profits == [] then None
    else if std == 0.0 then Some(0.0)
    else Some(Mean(profits) / std)
  }

  lemma {:induction false} SumOfConstant(s: seq<real>, c: real)
    requires forall k :: 0 <= k < |s| ==> s[k] == c
    ensures Sum(s) == |s| as real * c
    decreases |s|
  {
    if s != [] {
      SumOfConstant(s[1..], c);
    }
  }

  /** Deviations from a value that every element equals are all zero. */
  lemma {:induction false} SumSquaresOfConstant(s: seq<real>, m: real)
    requires forall k :: 0 <= k < |s| ==> s[k] == m
    ensures SumSquares(s, m) == 0.0
    decreases |s|
  {
    if s != [] {
      SumSquaresOfConstant(s[1..], m);
      assert s[0] - m == 0.0;
    }
  }

  /** Equal profits have their common value as mean and no spread around it. */
  lemma EqualValuesHaveZeroVariance(s: seq<real>)
    requires s != [] && AllEqual(s)
    ensures Mean(s) == s[0]
    ensures Variance(s) == 0.0
  {
    SumOfConstant(s, s[0]);
    SumSquaresOfConstant(s, s[0]);
  }

  /** The zero-deviation guard: equal profits have a Sharpe ratio of 0, not a division by zero. */
  lemma SharpeOfEqualProfits(profits: seq<real>, std: real)
    requires IsStdDev(profits, std)
    requires AllEqual(profits)
    ensures std == 0.0
    ensures SharpeRatio(profits, std) == Some(0.0)
  {
    EqualValuesHaveZeroVariance(profits);
  }

  lemma {:induction false} SumNonNegative(s: seq<real>)
    requires forall k :: 0 <= k < |s| ==> s[k] >= 0.0
    ensures Sum(s) >= 0.0
    decreases |s|
  {
    if s != [] {
      SumNonNegative(s[1..]);
    }
  }

  lemma QuotientNonNegative(x: real, y: real)
    requires x >= 0.0 && y > 0.0
    ensures x / y >= 0.0
  {
  }

  /**
   * Whichever branch the guard takes, the Sharpe ratio of a non-empty backtest is defined
   * and not negative: its profits are non-negative, and so are their mean and deviation.
   */
  lemma SharpeOfBacktestNonNegative(rows: seq<seq<Column>>, std: real)
    requires ClassicalProfits(rows) != []
    requires IsStdDev(ClassicalProfits(rows), std)
    ensures SharpeRatio(ClassicalProfits(rows), std).Some?
    ensures SharpeRatio(ClassicalProfits(rows), std).value >= 0.0
  {
    var profits := ClassicalProfits(rows);
    ClassicalProfitsNonNegative(rows);
    forall k | 0 <= k < |profits|
      ensures profits[k] >= 0.0
    {
      assert profits[k] in profits;
    }
    SumNonNegative(profits);
    QuotientNonNegative(Sum(profits), |profits| as real);
    if std != 0.0 {
      QuotientNonNegative(Mean(profits), std);
    }
  }

  /** Non-negative values that add up to zero are all zero. */
  lemma {:induction false} ZeroSumOfNonNegative(s: seq<real>)
    requires forall k :: 0 <= k < |s| ==> s[k] >= 0.0
    requires Sum(s) == 0.0
    ensures forall k :: 0 <= k < |s| ==> s[k] == 0.0
    decreases |s|
  {
    if s != [] {
      SumNonNegative(s[1..]);
      ZeroSumOfNonNegative(s[1..]);
      forall k | 0 < k < |s|
        ensures s[k] == 0.0
      {
        assert s[k] == s[1..][k - 1];
      }
    }
  }

  lemma QuotientZero(x: real, y: real)
    requires y != 0.0 && x / y == 0.0
    ensures x == 0.0
  {
  }

  /**
   * For a non-empty backtest the guard is sharp: the Sharpe ratio is 0 exactly when the
   * deviation is 0. A zero ratio with a non-zero deviation would need a zero mean, and
   * non-negative profits with a zero mean are all zero, so their deviation is zero too.
   */
  lemma SharpeZeroOnlyWhenFlat(rows: seq<seq<Column>>, std: real)
    requires ClassicalProfits(rows) != []
    requires IsStdDev(ClassicalProfits(rows), std)
    ensures SharpeRatio(ClassicalProfits(rows), std) == Some(0.0) <==> std == 0.0
  {
    var profits := ClassicalProfits(rows);
    if std != 0.0 && SharpeRatio(profits, std) == Some(0.0) {
      QuotientZero(Mean(profits), std);
      QuotientZero(Sum(profits), |profits| as real);
      ClassicalProfitsNonNegative(rows);
      forall k | 0 <= k < |profits|
        ensures profits[k] >= 0.0
      {
        assert profits[k] in profits;
      }
      ZeroSumOfNonNegative(profits);
      EqualValuesHaveZeroVariance(profits);
    }
  }

  /** Scaling by the quantum factor keeps equal profits equal, so both backtests hit the guard together. */
  lemma QuantumKeepsEqualProfits(profits: seq<real>)
    requires AllEqual(profits)
    ensures AllEqual(QuantumArbitrage(profits))
  {
  }

  /** Scaling every profit scales their sum. */
  lemma {:induction false} SumScaled(profits: seq<real>)
    ensures Sum(QuantumArbitrage(profits)) == QuantumFactor * Sum(profits)
    decreases |profits|
  {
    if profits != [] {
      SumScaled(profits[1..]);
      assert QuantumArbitrage(profits)[1..] == QuantumArbitrage(profits[1..]);
    }
  }

  /** Scaling every profit and the centre by 1.1 scales the squared deviations by 1.21. */
  lemma {:induction false} SumSquaresScaled(profits: seq<real>, m: real)
    ensures SumSquares(QuantumArbitrage(profits), QuantumFactor * m) == QuantumFactor * QuantumFactor * SumSquares(profits, m)
    decreases |profits|
  {
    if profits != [] {
      SumSquaresScaled(profits[1..], m);
      var q := QuantumArbitrage(profits);
      assert q[1..] == QuantumArbitrage(profits[1..]);
      var d := profits[0] - m;
      assert q[0] - QuantumFactor * m == QuantumFactor * d;
      assert (QuantumFactor * d) * (QuantumFactor * d) == QuantumFactor * QuantumFactor * (d * d);
    }
  }

  /**
   * The quantum backtest meets the zero guard whenever the classical one does: a zero
   * deviation of the profits gives a zero deviation of the scaled profits, and so a
   * Sharpe ratio of 0 for both.
   */
  lemma QuantumMeetsZeroGuard(profits: seq<real>, quantumStd: real)
    requires IsStdDev(profits, 0.0)
    requires IsStdDev(QuantumArbitrage(profits), quantumStd)
    ensures quantumStd == 0.0
    ensures SharpeRatio(QuantumArbitrage(profits), quantumStd) == Some(0.0)
  {
    var q := QuantumArbitrage(profits);
    SumScaled(profits);
    assert Mean(q) == QuantumFactor * Mean(profits);
    SumSquaresScaled(profits, Mean(profits));
    assert SumSquares(profits, Mean(profits)) == 0.0;
    assert Variance(q) == 0.0;
  }
}
