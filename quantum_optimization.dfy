/**
 * The arbitrage-opportunity detector (`percentage_based_arbitrage`): over the
 * exchange columns of the latest price row, list every unordered pair whose
 * percentage difference strictly exceeds `slippage_tolerance * 100`, and report
 * the first pair with the largest difference as the best trade, or the sentinel
 * `("None", 0.0, [])` when there is nothing to report.
 */
module QuantumOptimization {
  import opened Optional
  import opened PriceRows

  /** The label the detector returns when it finds no trade. */
  const NoTrade: string := "None"

  /** The opportunities listed for exchange columns `cols` at slippage tolerance `tol`. */
  function Opportunities(cols: seq<Column>, tol: real): seq<Opportunity> {
    Candidates(cols, Some(tol))
  }

  /** The column positions of the listed opportunities, in the order they are listed. */
  function QualifyingPairs(cols: seq<Column>, tol: real): seq<Pair> {
    KeptPairs(cols, Some(tol))
  }

  /** The label of a trade: the two column labels joined by ` vs `. */
  function TradeLabel(o: Opportunity): (text: string)
    ensures |text| == |o.ex1| + 4 + |o.ex2|
    ensures text[..|o.ex1|] == o.ex1
    ensures text[|o.ex1|..|o.ex1| + 4] == " vs "
    ensures text[|o.ex1| + 4..] == o.ex2
  {
    o.ex1 + " vs " + o.ex2
  }

  /** Position `k` holds a largest difference, and every earlier position a strictly smaller one. */
  predicate IsFirstMax(opps: seq<Opportunity>, k: int) {
    && 0 <= k < |opps|
    && (forall m :: 0 <= m < |opps| ==> opps[m].diff <= opps[k].diff)
    && (forall m :: 0 <= m < k ==> opps[m].diff < opps[k].diff)
  }

  /**
   * The opportunity with the largest difference, chosen as Python's `max` chooses it: it
   * scans left to right and replaces its candidate only by a strictly larger one, so it
   * returns the first of equal maxima.
   */
  function FirstMaxIndex(opps: seq<Opportunity>): (k: nat)
    requires |opps| > 0
    ensures IsFirstMax(opps, k)
  {
    if |opps| == 1 then 0
    else
      var b := FirstMaxIndex(opps[..|opps| - 1]);
      if opps[|opps| - 1].diff > opps[b].diff then |opps| - 1 else b
  }

  /**
   * The nested loops of `percentage_based_arbitrage`: visit every pair `i < j` of the
   * exchange columns and append those whose difference exceeds `tol * 100`. A pair with a
   * non-numeric price is skipped (the `except ValueError` branch) and the loops go on.
   */
  method FindOpportunities(cols: seq<Column>, tol: real) returns (opps: seq<Opportunity>)
    requires NoZeroMinimum(cols)
    ensures opps == Opportunities(cols, tol)
  {
    opps := [];
    for i := 0 to |cols|
      invariant opps == Scan(cols, Some(tol), PairsBefore(|cols|, i))
    {
      ScanNextRow(cols, Some(tol), |cols|, i);
      opps := AppendRowOpportunities(cols, tol, i, opps);
    }
  }

  /** One step `(i, j)` of the inner loop, in the terms the loop body tests. */
  lemma OpportunityStep(cols: seq<Column>, tol: real, i: nat, j: int)
    requires i < j < |cols| && NoZeroMinimum(cols)
    ensures RowScan(cols, Some(tol), i, j + 1)
         == RowScan(cols, Some(tol), i, j)
          + (if cols[i].cell.Price? && cols[j].cell.Price?
                && PairDiff(cols[i].cell.value, cols[j].cell.value) > tol * 100.0
             then [Opportunity(cols[i].name, cols[j].name, PairDiff(cols[i].cell.value, cols[j].cell.value))]
             else [])
  {
  }

  /**
   * The inner loop of `percentage_based_arbitrage` for position `i`: it appends an
   * opportunity for every pair `(i, j)`, `j > i`, of numeric prices that differ by more
   * than `tol * 100` percent.
   */
  method AppendRowOpportunities(cols: seq<Column>, tol: real, i: nat, opps: seq<Opportunity>)
    returns (newOpps: seq<Opportunity>)
    requires i < |cols| && NoZeroMinimum(cols)
    ensures newOpps == opps + RowScan(cols, Some(tol), i, |cols|)
  {
    newOpps := opps;
    assert opps + RowScan(cols, Some(tol), i, i + 1) == opps;
    for j := i + 1 to |cols|
      invariant newOpps == opps + RowScan(cols, Some(tol), i, j)
    {
      OpportunityStep(cols, tol, i, j);
      if cols[i].cell.Price? && cols[j].cell.Price? {
        var diff := PairDiff(cols[i].cell.value, cols[j].cell.value);
        if diff > tol * 100.0 {
          newOpps := newOpps + [Opportunity(cols[i].name, cols[j].name, diff)];
        }
      }
    }
  }

  /**
   * `percentage_based_arbitrage(price_data, slippage_tolerance)` on one row of the price
   * table. Returns the best trade's label, its profit percentage, and all opportunities.
   */
  method PercentageBasedArbitrage(row: seq<Column>, tol: real)
    returns (bestTrade: string, profit: real, opps: seq<Opportunity>)
    requires NoZeroMinimum(ExchangeColumns(row))
    ensures opps == Opportunities(ExchangeColumns(row), tol)
    ensures |ExchangeColumns(row)| < 2 ==> bestTrade == NoTrade && profit == 0.0 && opps == []
    ensures opps == [] ==> bestTrade == NoTrade && profit == 0.0
    ensures opps != [] ==>
      var best := opps[FirstMaxIndex(opps)];
      bestTrade == TradeLabel(best) && profit == best.diff
  {
    var cols := ExchangeColumns(row);
    if |cols| < 2 {
      FewColumnsNoOpportunity(cols, tol);
      return NoTrade, 0.0, [];
    }
    opps := FindOpportunities(cols, tol);
    if opps == [] {
      return NoTrade, 0.0, [];
    }
    var best := opps[FirstMaxIndex(opps)];
    bestTrade, profit := TradeLabel(best), best.diff;
  }

  /** With fewer than two exchange columns there is nothing to compare. */
  lemma FewColumnsNoOpportunity(cols: seq<Column>, tol: real)
    requires |cols| < 2
    ensures Opportunities(cols, tol) == []
  {
    AllPairsOfFew(|cols|);
  }

  /**
   * Every listed opportunity comes from a pair of positions `i < j` whose prices are
   * numeric: it carries their labels, their percentage difference, and that difference
   * strictly exceeds `tol * 100`.
   */
  lemma OpportunitiesSound(cols: seq<Column>, tol: real)
    ensures |Opportunities(cols, tol)| == |QualifyingPairs(cols, tol)|
    ensures forall k :: 0 <= k < |QualifyingPairs(cols, tol)| ==>
      var p, o := QualifyingPairs(cols, tol)[k], Opportunities(cols, tol)[k];
      && 0 <= p.0 < p.1 < |cols|
      && ValidPair(cols, p)
      && o.ex1 == cols[p.0].name && o.ex2 == cols[p.1].name
      && o.diff == PairDiff(cols[p.0].cell.value, cols[p.1].cell.value)
      && o.diff > tol * 100.0
  {
    KeptPairsCharacterization(cols, Some(tol));
    CandidatesAt(cols, Some(tol));
  }

  /** Conversely, every pair `i < j` of numeric prices over the threshold is listed. */
  lemma OpportunitiesComplete(cols: seq<Column>, tol: real, i: int, j: int)
    requires 0 <= i < j < |cols|
    requires ValidPair(cols, (i, j)) && Diff(cols, (i, j)) > tol * 100.0
    ensures exists k :: 0 <= k < |QualifyingPairs(cols, tol)| && QualifyingPairs(cols, tol)[k] == (i, j)
    ensures Opportunity(cols[i].name, cols[j].name, Diff(cols, (i, j))) in Opportunities(cols, tol)
  {
    KeptPairsCharacterization(cols, Some(tol));
    CandidatesAt(cols, Some(tol));
    var qp := QualifyingPairs(cols, tol);
    assert (i, j) in qp;
    var k :| 0 <= k < |qp| && qp[k] == (i, j);
    assert Opportunities(cols, tol)[k] == OpportunityAt(cols, (i, j));
  }

  /**
   * The listed opportunities follow the loops' enumeration order (by first position, then
   * by second), so no unordered pair is listed twice.
   */
  lemma OpportunitiesInEnumerationOrder(cols: seq<Column>, tol: real, a: int, b: int)
    requires 0 <= a < b < |QualifyingPairs(cols, tol)|
    ensures LexLess(QualifyingPairs(cols, tol)[a], QualifyingPairs(cols, tol)[b])
    ensures QualifyingPairs(cols, tol)[a] != QualifyingPairs(cols, tol)[b]
  {
    KeptPairsCharacterization(cols, Some(tol));
  }

  /**
   * A non-numeric cell is not fatal: turning cell `b` into one removes exactly the pairs
   * that involve position `b`, and every other pair is judged as before.
   */
  lemma BadCellSkipsOnlyItsPairs(cols: seq<Column>, tol: real, b: int)
    requires 0 <= b < |cols|
    ensures var spoiled := cols[b := Column(cols[b].name, NonNumeric)];
      forall p :: p in QualifyingPairs(spoiled, tol) <==>
        p in QualifyingPairs(cols, tol) && p.0 != b && p.1 != b
  {
  }

  /** Two equal prices differ by 0%, which never exceeds a non-negative tolerance. */
  lemma EqualPricesNeverFlagged(cols: seq<Column>, tol: real, i: int, j: int)
    requires tol >= 0.0
    requires 0 <= i < j < |cols| && cols[i].cell.Price? && cols[j].cell.Price?
    requires cols[i].cell.value == cols[j].cell.value
    ensures (i, j) !in QualifyingPairs(cols, tol)
  {
  }

  /**
   * For prices 100 and 105 at tolerance 0.005 the one pair is flagged with a difference of
   * exactly 5%: the difference is taken relative to the smaller price.
   */
  lemma ExampleHundredAndHundredFive()
    ensures Opportunities([Column("CoinGecko_A", Price(100.0)), Column("CoinGecko_B", Price(105.0))], 0.005)
         == [Opportunity("CoinGecko_A", "CoinGecko_B", 5.0)]
  {
    var cols := [Column("CoinGecko_A", Price(100.0)), Column("CoinGecko_B", Price(105.0))];
    assert RowPairs(0, 2) == [(0, 1)] by {
      assert RowPairs(0, 1) == [];
    }
    assert RowPairs(1, 2) == [];
    assert AllPairs(2) == [(0, 1)];
    assert Diff(cols, (0, 1)) == 5.0;
    assert [(0, 1)][..0] == [];
  }
}
