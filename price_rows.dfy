/**
 * What the opportunity detector and the backtester share: one row of the price
 * table, the rule that picks the exchange columns out of it, the percentage
 * difference of two prices, and the enumeration of the unordered column pairs
 * `i < j` in the order of the two nested loops: by `i`, then by `j`.
 *
 * Both loops are specified by the same functions: what the loops record while
 * visiting a sequence of pairs (`Scan`) or one row of the inner loop (`RowScan`),
 * and the positions of the pairs they keep (`SelectPairs`).
 */
module PriceRows {
  import opened Optional

  /** A cell as `float(cell)` sees it: a number, or a value that raises ValueError. */
  datatype Cell = Price(value: real) | NonNumeric

  /** One labelled cell of a row of the price table. */
  datatype Column = Column(name: string, cell: Cell)

  /** What distinguishes an exchange price column from the others (`timestamp`, ...). */
  const SourceTag: string := "CoinGecko"

  /** Python's `sub in s` for strings. */
  predicate Contains(s: string, sub: string)
    decreases |s|
  {
    |sub| <= |s| && (s[..|sub|] == sub || Contains(s[1..], sub))
  }

  /** `sub` occurs in `s` starting at position `k`. */
  predicate OccursAt(s: string, sub: string, k: int) {
    0 <= k <= |s| - |sub| && s[k..k + |sub|] == sub
  }

  /** A match found by `Contains` occurs at some offset. */
  lemma {:induction false} ContainsOccurs(s: string, sub: string)
    requires Contains(s, sub)
    ensures exists k :: OccursAt(s, sub, k)
    decreases |s|
  {
    if s[..|sub|] == sub {
      assert OccursAt(s, sub, 0);
    } else {
      ContainsOccurs(s[1..], sub);
      var k :| OccursAt(s[1..], sub, k);
      assert s[k + 1..k + 1 + |sub|] == s[1..][k..k + |sub|];
      assert OccursAt(s, sub, k + 1);
    }
  }

  /** An occurrence at any offset is found by `Contains`. */
  lemma {:induction false} OccursContains(s: string, sub: string, k: int)
    requires OccursAt(s, sub, k)
    ensures Contains(s, sub)
    decreases k
  {
    if k > 0 && s[..|sub|] != sub {
      assert s[1..][k - 1..k - 1 + |sub|] == s[k..k + |sub|];
      OccursContains(s[1..], sub, k - 1);
    }
  }

  /** `Contains` is the substring relation: `sub` occurs in `s` at some offset. */
  lemma ContainsIsSubstring(s: string, sub: string)
    ensures Contains(s, sub) <==> exists k :: OccursAt(s, sub, k)
  {
    if Contains(s, sub) {
      ContainsOccurs(s, sub);
    }
    forall k | OccursAt(s, sub, k)
      ensures Contains(s, sub)
    {
      OccursContains(s, sub, k);
    }
  }

  predicate IsExchangeLabel(name: string) {
    Contains(name, SourceTag)
  }

  /** The exchange columns of a row: those whose label contains the source tag, in the row's order. */
  function ExchangeColumns(row: seq<Column>): (cols: seq<Column>)
    ensures |cols| <= |row|
    ensures forall k :: 0 <= k < |cols| ==> cols[k] in row && IsExchangeLabel(cols[k].name)
  {
    if row == [] then []
    else
      var init, last := row[..|row| - 1], row[|row| - 1];
      ExchangeColumns(init) + (if IsExchangeLabel(last.name) then [last] else [])
  }

  /** The filter keeps exactly the columns whose label contains the source tag. */
  lemma {:induction false} ExchangeColumnsMembers(row: seq<Column>)
    ensures forall c :: c in ExchangeColumns(row) <==> c in row && IsExchangeLabel(c.name)
    decreases |row|
  {
    if row != [] {
      var init, last := row[..|row| - 1], row[|row| - 1];
      assert row == init + [last];
      ExchangeColumnsMembers(init);
    }
  }

  /** The filter keeps the relative order of the columns: it distributes over concatenation. */
  lemma {:induction false} ExchangeColumnsAppend(a: seq<Column>, b: seq<Column>)
    ensures ExchangeColumns(a + b) == ExchangeColumns(a) + ExchangeColumns(b)
    decreases |b|
  {
    if b == [] {
      assert a + b == a;
    } else {
      var init, last := b[..|b| - 1], b[|b| - 1];
      assert (a + b)[..|a + b| - 1] == a + init;
      ExchangeColumnsAppend(a, init);
    }
  }

  /** The `timestamp` column of the price table is never taken for an exchange price. */
  lemma TimestampNeverPaired(row: seq<Column>)
    ensures forall c :: c in ExchangeColumns(row) ==> c.name != "timestamp"
  {
    ExchangeColumnsMembers(row);
    assert "timestamp"[0] != SourceTag[0];
    assert |"timestamp"[1..]| < |SourceTag|;
    assert !IsExchangeLabel("timestamp");
  }

  function Min(x: real, y: real): real {
    if x <= y then x else y
  }

  function Abs(x: real): real {
    if x < 0.0 then -x else x
  }

  /**
   * The difference of two prices as a percentage of the smaller one, taken in absolute
   * value. A zero minimum raises ZeroDivisionError, which no caller catches.
   */
  function PairDiff(p1: real, p2: real): (d: real)
    requires Min(p1, p2) != 0.0
    ensures d >= 0.0
    ensures d == 0.0 <==> p1 == p2
  {
    var q := (p1 - p2) / Min(p1, p2);
    assert q == 0.0 <==> p1 - p2 == 0.0;
    Abs(q) * 100.0
  }

  // ----- enumeration of the unordered pairs of column positions -----

  type Pair = (int, int)

  /** The pairs `(i, k)` for `i < k < j`, in increasing `k`: the inner loop up to `j`. */
  function RowPairs(i: int, j: int): seq<Pair>
    decreases j - i
  {
    if j <= i + 1 then [] else RowPairs(i, j - 1) + [(i, j - 1)]
  }

  /** The complete inner loops for the first `i` values of the outer loop over `n` columns. */
  function PairsBefore(n: int, i: nat): seq<Pair> {
    if i == 0 then [] else PairsBefore(n, i - 1) + RowPairs(i - 1, n)
  }

  /** Every pair the two nested loops visit, in the order they visit them. */
  function AllPairs(n: nat): seq<Pair> {
    PairsBefore(n, n)
  }

  /** The order of the nested loops: first by outer position, then by inner position. */
  predicate LexLess(p: Pair, q: Pair) {
    p.0 < q.0 || (p.0 == q.0 && p.1 < q.1)
  }

  predicate StrictlyIncreasing(ps: seq<Pair>) {
    forall a, b :: 0 <= a < b < |ps| ==> LexLess(ps[a], ps[b])
  }

  /** A strictly increasing sequence visits no pair twice. */
  lemma IncreasingIsDuplicateFree(ps: seq<Pair>, a: int, b: int)
    requires StrictlyIncreasing(ps)
    requires 0 <= a < |ps| && 0 <= b < |ps| && a != b
    ensures ps[a] != ps[b]
  {
  }

  lemma IncreasingAppend(xs: seq<Pair>, ys: seq<Pair>)
    requires StrictlyIncreasing(xs) && StrictlyIncreasing(ys)
    requires forall x, y :: x in xs && y in ys ==> LexLess(x, y)
    ensures StrictlyIncreasing(xs + ys)
  {
  }

  lemma {:induction false} RowPairsMembers(i: int, j: int)
    ensures forall p :: p in RowPairs(i, j) <==> p.0 == i && i < p.1 < j
    decreases j - i
  {
    if j > i + 1 {
      RowPairsMembers(i, j - 1);
    }
  }

  lemma {:induction false} RowPairsIncreasing(i: int, j: int)
    ensures StrictlyIncreasing(RowPairs(i, j))
    decreases j - i
  {
    if j > i + 1 {
      RowPairsIncreasing(i, j - 1);
      RowPairsMembers(i, j - 1);
      IncreasingAppend(RowPairs(i, j - 1), [(i, j - 1)]);
    }
  }

  lemma {:induction false} PairsBeforeMembers(n: int, i: nat)
    ensures forall p :: p in PairsBefore(n, i) <==> 0 <= p.0 < i && p.0 < p.1 < n
  {
    if i > 0 {
      PairsBeforeMembers(n, i - 1);
      RowPairsMembers(i - 1, n);
    }
  }

  lemma {:induction false} PairsBeforeIncreasing(n: int, i: nat)
    ensures StrictlyIncreasing(PairsBefore(n, i))
  {
    if i > 0 {
      PairsBeforeIncreasing(n, i - 1);
      PairsBeforeMembers(n, i - 1);
      RowPairsIncreasing(i - 1, n);
      RowPairsMembers(i - 1, n);
      IncreasingAppend(PairsBefore(n, i - 1), RowPairs(i - 1, n));
    }
  }

  /**
   * The nested loops over `n` columns visit exactly the pairs `i < j < n`, each once,
   * in the order of `LexLess`.
   */
  lemma AllPairsEnumeration(n: nat)
    ensures forall p :: p in AllPairs(n) <==> 0 <= p.0 < p.1 < n
    ensures StrictlyIncreasing(AllPairs(n))
  {
    PairsBeforeMembers(n, n);
    PairsBeforeIncreasing(n, n);
  }

  /** Fewer than two columns give no pair at all. */
  lemma AllPairsOfFew(n: nat)
    requires n < 2
    ensures AllPairs(n) == []
  {
    if n == 1 {
      assert RowPairs(0, 1) == [];
    }
  }

  // ----- which pairs are kept, and what is recorded for them -----

  /** Both prices of the pair parse as numbers and their minimum is not zero. */
  predicate ValidPair(cols: seq<Column>, p: Pair) {
    && 0 <= p.0 < |cols| && 0 <= p.1 < |cols|
    && cols[p.0].cell.Price? && cols[p.1].cell.Price?
    && Min(cols[p.0].cell.value, cols[p.1].cell.value) != 0.0
  }

  /**
   * No pair `i < j` of numeric cells has a zero minimum: the condition under which the
   * source's loops never raise ZeroDivisionError.
   */
  predicate NoZeroMinimum(cols: seq<Column>) {
    forall i, j :: 0 <= i < j < |cols| && cols[i].cell.Price? && cols[j].cell.Price? ==>
      Min(cols[i].cell.value, cols[j].cell.value) != 0.0
  }

  function Diff(cols: seq<Column>, p: Pair): real
    requires ValidPair(cols, p)
  {
    PairDiff(cols[p.0].cell.value, cols[p.1].cell.value)
  }

  /**
   * Whether the loops record the pair: its prices are numeric and, when there is a
   * threshold (the slippage tolerance), the difference strictly exceeds `threshold * 100`.
   */
  predicate Keep(cols: seq<Column>, threshold: Option<real>, p: Pair) {
    ValidPair(cols, p) && (threshold.Some? ==> Diff(cols, p) > threshold.value * 100.0)
  }

  /** The pairs of `ps` that are kept, in their order in `ps`. */
  function SelectPairs(cols: seq<Column>, threshold: Option<real>, ps: seq<Pair>): (r: seq<Pair>)
    ensures |r| <= |ps|
    ensures forall p :: p in r <==> p in ps && Keep(cols, threshold, p)
  {
    if ps == [] then []
    else
      var init, last := ps[..|ps| - 1], ps[|ps| - 1];
      assert ps == init + [last];
      SelectPairs(cols, threshold, init) + (if Keep(cols, threshold, last) then [last] else [])
  }

  /** Selecting keeps the enumeration order. */
  lemma {:induction false} SelectPairsIncreasing(cols: seq<Column>, threshold: Option<real>, ps: seq<Pair>)
    requires StrictlyIncreasing(ps)
    ensures StrictlyIncreasing(SelectPairs(cols, threshold, ps))
    decreases |ps|
  {
    if ps != [] {
      var init, last := ps[..|ps| - 1], ps[|ps| - 1];
      assert ps == init + [last];
      SelectPairsIncreasing(cols, threshold, init);
      forall x | x in init
        ensures LexLess(x, last)
      {
        var a :| 0 <= a < |init| && init[a] == x;
        assert ps[a] == x;
      }
      IncreasingAppend(SelectPairs(cols, threshold, init), if Keep(cols, threshold, last) then [last] else []);
    }
  }

  /** An arbitrage opportunity: the two column labels and their percentage difference. */
  datatype Opportunity = Opportunity(ex1: string, ex2: string, diff: real)

  function OpportunityAt(cols: seq<Column>, p: Pair): Opportunity
    requires ValidPair(cols, p)
  {
    Opportunity(cols[p.0].name, cols[p.1].name, Diff(cols, p))
  }

  /** What the loops record, in order, while they visit the pairs `ps`. */
  function Scan(cols: seq<Column>, threshold: Option<real>, ps: seq<Pair>): seq<Opportunity> {
    if ps == [] then []
    else
      var init, last := ps[..|ps| - 1], ps[|ps| - 1];
      Scan(cols, threshold, init) + (if Keep(cols, threshold, last) then [OpportunityAt(cols, last)] else [])
  }

  /** The `k`-th recorded opportunity belongs to the `k`-th kept pair of `ps`. */
  lemma {:induction false} ScanAt(cols: seq<Column>, threshold: Option<real>, ps: seq<Pair>)
    ensures |Scan(cols, threshold, ps)| == |SelectPairs(cols, threshold, ps)|
    ensures forall k :: 0 <= k < |SelectPairs(cols, threshold, ps)| ==>
      && Keep(cols, threshold, SelectPairs(cols, threshold, ps)[k])
      && Scan(cols, threshold, ps)[k] == OpportunityAt(cols, SelectPairs(cols, threshold, ps)[k])
    decreases |ps|
  {
    if ps != [] {
      var init, last := ps[..|ps| - 1], ps[|ps| - 1];
      assert ps == init + [last];
      ScanAt(cols, threshold, init);
      var sel := SelectPairs(cols, threshold, ps);
      forall k | 0 <= k < |sel|
        ensures Keep(cols, threshold, sel[k])
      {
        assert sel[k] in sel;
      }
    }
  }

  /**
   * What the inner loop of row `i` records while its position runs from `i + 1` up to,
   * but not including, `j`.
   */
  function RowScan(cols: seq<Column>, threshold: Option<real>, i: int, j: int): seq<Opportunity>
    decreases j - i
  {
    if j <= i + 1 then []
    else
      var p := (i, j - 1);
      RowScan(cols, threshold, i, j - 1) + (if Keep(cols, threshold, p) then [OpportunityAt(cols, p)] else [])
  }

  /** Visiting `ps` and then `qs` records what each records, one after the other. */
  lemma {:induction false} ScanAppend(cols: seq<Column>, threshold: Option<real>, ps: seq<Pair>, qs: seq<Pair>)
    ensures Scan(cols, threshold, ps + qs) == Scan(cols, threshold, ps) + Scan(cols, threshold, qs)
    decreases |qs|
  {
    if qs == [] {
      assert ps + qs == ps;
    } else {
      var init := qs[..|qs| - 1];
      ScanAppend(cols, threshold, ps, init);
      assert (ps + qs)[..|ps + qs| - 1] == ps + init;
    }
  }

  /** The inner loop of row `i` records what `Scan` records over the pairs of that row. */
  lemma {:induction false} RowScanIsScan(cols: seq<Column>, threshold: Option<real>, i: int, j: int)
    ensures RowScan(cols, threshold, i, j) == Scan(cols, threshold, RowPairs(i, j))
    decreases j - i
  {
    if j > i + 1 {
      RowScanIsScan(cols, threshold, i, j - 1);
      var ps := RowPairs(i, j - 1);
      assert (ps + [(i, j - 1)])[..|ps|] == ps;
    }
  }

  /** One step of the outer loop: row `i` adds what its inner loop records. */
  lemma ScanNextRow(cols: seq<Column>, threshold: Option<real>, n: int, i: nat)
    ensures Scan(cols, threshold, PairsBefore(n, i + 1))
         == Scan(cols, threshold, PairsBefore(n, i)) + RowScan(cols, threshold, i, n)
  {
    ScanAppend(cols, threshold, PairsBefore(n, i), RowPairs(i, n));
    RowScanIsScan(cols, threshold, i, n);
  }

  /** Every pair over `cols` that is kept, in enumeration order. */
  function KeptPairs(cols: seq<Column>, threshold: Option<real>): seq<Pair> {
    SelectPairs(cols, threshold, AllPairs(|cols|))
  }

  /** The opportunities the nested loops record over `cols`. */
  function Candidates(cols: seq<Column>, threshold: Option<real>): seq<Opportunity> {
    Scan(cols, threshold, AllPairs(|cols|))
  }

  /**
   * The kept pairs are exactly the kept pairs `i < j` of column positions, each listed once,
   * in the order of the nested loops.
   */
  lemma KeptPairsCharacterization(cols: seq<Column>, threshold: Option<real>)
    ensures forall p :: p in KeptPairs(cols, threshold) <==> 0 <= p.0 < p.1 < |cols| && Keep(cols, threshold, p)
    ensures StrictlyIncreasing(KeptPairs(cols, threshold))
  {
    AllPairsEnumeration(|cols|);
    SelectPairsIncreasing(cols, threshold, AllPairs(|cols|));
  }

  /** The `k`-th candidate is the `k`-th kept pair's labels and difference. */
  lemma CandidatesAt(cols: seq<Column>, threshold: Option<real>)
    ensures |Candidates(cols, threshold)| == |KeptPairs(cols, threshold)|
    ensures forall k :: 0 <= k < |KeptPairs(cols, threshold)| ==>
      && Keep(cols, threshold, KeptPairs(cols, threshold)[k])
      && Candidates(cols, threshold)[k] == OpportunityAt(cols, KeptPairs(cols, threshold)[k])
  {
    ScanAt(cols, threshold, AllPairs(|cols|));
  }
}
