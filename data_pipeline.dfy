/**
 * The price collector: `fetch_prices` turns one CoinGecko `simple/price` response into
 * a dictionary from column names (`CoinGecko_ETH`, ...) to quotes and counts the API
 * calls it makes; `save_prices` skips the call when the newest stored row is less than
 * 300 seconds old, and otherwise appends one timestamped row to the price table unless
 * nothing was fetched.
 *
 * The HTTP request and the clock are parameters: a `Response` is what the request and
 * its JSON decoding produced, and the two UTC clock readings are seconds since a fixed
 * epoch. The CSV file is the `table` field: `None` when the file
 * does not exist, otherwise its rows in file order.
 */
module DataPipeline {
  import opened Optional
  import PriceRows

  /** A decoded JSON value. */
  datatype Json =
    | JNull
    | JBool(b: bool)
    | JNum(n: real)
    | JStr(s: string)
    | JList(items: seq<Json>)
    | JObj(fields: map<string, Json>)

  /** The outcome of the request: it raised (network error, invalid JSON), or it produced a body. */
  datatype Response = Failed | Body(json: Json)

  /** `COINGECKO_TOKENS`: the CoinGecko ids to request and the symbols their columns are named after. */
  const Tokens: seq<(string, string)> :=
    [("ethereum", "ETH"), ("tether", "USDT"), ("dai", "DAI"), ("wrapped-bitcoin", "WBTC")]

  const ColumnPrefix: string := "CoinGecko_"

  /** The minimum age, in seconds, of the newest row before the collector calls the API again. */
  const ThrottleSeconds: real := 300.0

  /** The column a token's price is stored under: the source prefix followed by the symbol. */
  function ColumnName(symbol: string): string {
    ColumnPrefix + symbol
  }

  /** A token entry's `usd` quote, or `None` where the lookup raises (not an object, or no `usd` key). */
  function UsdQuote(entry: Json): Option<Json> {
    if entry.JObj? && "usd" in entry.fields then Some(entry.fields["usd"]) else None
  }

  /**
   * The loop over the first `n` tokens of an object body: `None` once a present token's
   * entry has no usable `usd` quote, since that lookup raises and the whole call returns `{}`.
   */
  function CollectPrices(data: map<string, Json>, n: nat): Option<map<string, Json>>
    requires n <= |Tokens|
  {
    if n == 0 then Some(map[])
    else
      match CollectPrices(data, n - 1)
      case None => None
      case Some(prices) =>
        var id, symbol := Tokens[n - 1].0, Tokens[n - 1].1;
        if id !in data then Some(prices)
        else
          match UsdQuote(data[id])
          case None => None
          case Some(quote) => Some(prices[ColumnName(symbol) := quote])
  }

  /**
   * What `fetch_prices` returns for `response`. A failed request, an `error` key and a
   * malformed quote all give `{}`; so does every body that is not an object, because the
   * membership tests and the lookup of a token's entry either raise on it or find nothing.
   */
  function FetchedPrices(response: Response): (prices: map<string, Json>)
    ensures forall key :: key in prices ==> exists k :: 0 <= k < |Tokens| && key == ColumnName(Tokens[k].1)
  {
    match response
    case Failed => map[]
    case Body(data) =>
      if !data.JObj? then map[]
      else if "error" in data.fields then map[]
      else
        var collected := CollectPrices(data.fields, |Tokens|);
        if collected.None? then map[]
        else
          CollectPricesKeys(data.fields, |Tokens|);
          collected.value
  }

  /** Every present token of `data` among the first `n` has a usable quote. */
  predicate QuotesUsable(data: map<string, Json>, n: nat)
    requires n <= |Tokens|
  {
    forall k :: 0 <= k < n && Tokens[k].0 in data ==> UsdQuote(data[Tokens[k].0]).Some?
  }

  /** The symbols of the tracked tokens are pairwise distinct, and so are their column names. */
  lemma ColumnNamesDistinct(a: int, b: int)
    requires 0 <= a < |Tokens| && 0 <= b < |Tokens| && a != b
    ensures ColumnName(Tokens[a].1) != ColumnName(Tokens[b].1)
  {
    var x, y := ColumnName(Tokens[a].1), ColumnName(Tokens[b].1);
    assert x[|ColumnPrefix|..] == Tokens[a].1;
    assert y[|ColumnPrefix|..] == Tokens[b].1;
  }

  /** The loop gets through all `n` tokens exactly when every present one has a usable quote. */
  lemma {:induction false} CollectPricesSucceeds(data: map<string, Json>, n: nat)
    requires n <= |Tokens|
    ensures CollectPrices(data, n).Some? <==> QuotesUsable(data, n)
  {
    if n > 0 {
      CollectPricesSucceeds(data, n - 1);
      assert QuotesUsable(data, n) <==>
        && QuotesUsable(data, n - 1)
        && (Tokens[n - 1].0 in data ==> UsdQuote(data[Tokens[n - 1].0]).Some?);
    }
  }

  /** Every key the loop writes is the column name of one of the tokens it visited. */
  lemma {:induction false} CollectPricesKeys(data: map<string, Json>, n: nat)
    requires n <= |Tokens|
    requires CollectPrices(data, n).Some?
    ensures forall key :: key in CollectPrices(data, n).value ==>
      exists k :: 0 <= k < n && key == ColumnName(Tokens[k].1)
  {
    if n > 0 {
      CollectPricesKeys(data, n - 1);
      forall key | key in CollectPrices(data, n).value
        ensures exists k :: 0 <= k < n && key == ColumnName(Tokens[k].1)
      {
        if key != ColumnName(Tokens[n - 1].1) {
          assert key in CollectPrices(data, n - 1).value;
        }
      }
    }
  }

  /**
   * The loop writes `CoinGecko_<symbol>` exactly for the visited tokens present in the
   * body, with the token's `usd` quote; no later token overwrites an earlier one.
   */
  lemma {:induction false} CollectPricesEntries(data: map<string, Json>, n: nat)
    requires n <= |Tokens|
    requires QuotesUsable(data, n)
    ensures CollectPrices(data, n).Some?
    ensures forall k :: 0 <= k < n ==>
      (ColumnName(Tokens[k].1) in CollectPrices(data, n).value <==> Tokens[k].0 in data)
    ensures forall k :: 0 <= k < n && Tokens[k].0 in data ==>
      CollectPrices(data, n).value[ColumnName(Tokens[k].1)] == UsdQuote(data[Tokens[k].0]).value
  {
    CollectPricesSucceeds(data, n);
    if n > 0 {
      CollectPricesEntries(data, n - 1);
      var before, prices := CollectPrices(data, n - 1).value, CollectPrices(data, n).value;
      var id, name := Tokens[n - 1].0, ColumnName(Tokens[n - 1].1);
      assert prices == if id in data then before[name := UsdQuote(data[id]).value] else before;
      forall k | 0 <= k < n - 1
        ensures ColumnName(Tokens[k].1) != name
      {
        ColumnNamesDistinct(k, n - 1);
      }
      CollectPricesKeys(data, n - 1);
      assert name !in before;
    }
  }

  /**
   * The loop succeeds exactly when every present token has a usable quote, and then it
   * maps `CoinGecko_<symbol>` to the token's quote for exactly the tokens present in
   * the body, and holds no other key.
   */
  lemma CollectPricesSpec(data: map<string, Json>, n: nat)
    requires n <= |Tokens|
    ensures CollectPrices(data, n).Some? <==> QuotesUsable(data, n)
    ensures CollectPrices(data, n).Some? ==>
      var prices := CollectPrices(data, n).value;
      && (forall key :: key in prices ==> exists k :: 0 <= k < n && key == ColumnName(Tokens[k].1))
      && (forall k :: 0 <= k < n ==>
            (ColumnName(Tokens[k].1) in prices <==> Tokens[k].0 in data))
      && (forall k :: 0 <= k < n && Tokens[k].0 in data ==>
            prices[ColumnName(Tokens[k].1)] == UsdQuote(data[Tokens[k].0]).value)
  {
    CollectPricesSucceeds(data, n);
    if CollectPrices(data, n).Some? {
      CollectPricesKeys(data, n);
      CollectPricesEntries(data, n);
    }
  }

  /** Once a token's lookup has raised, the later tokens do not matter. */
  lemma {:induction false} CollectPricesStaysFailed(data: map<string, Json>, k: nat, n: nat)
    requires k <= n <= |Tokens|
    requires CollectPrices(data, k).None?
    ensures CollectPrices(data, n).None?
    decreases n - k
  {
    if k < n {
      CollectPricesStaysFailed(data, k + 1, n);
    }
  }

  /**
   * A well-formed object body without an `error` key yields one entry per token present
   * in it, named after the token's symbol and holding its `usd` quote, and no other entry.
   */
  lemma FetchedPricesOfQuotes(fields: map<string, Json>)
    requires "error" !in fields
    requires QuotesUsable(fields, |Tokens|)
    ensures var prices := FetchedPrices(Body(JObj(fields)));
      && (forall key :: key in prices ==> exists k :: 0 <= k < |Tokens| && key == ColumnName(Tokens[k].1))
      && (forall k :: 0 <= k < |Tokens| ==>
            (ColumnName(Tokens[k].1) in prices <==> Tokens[k].0 in fields))
      && (forall k :: 0 <= k < |Tokens| && Tokens[k].0 in fields ==>
            prices[ColumnName(Tokens[k].1)] == fields[Tokens[k].0].fields["usd"])
  {
    CollectPricesSpec(fields, |Tokens|);
  }

  /**
   * Nothing is fetched from a failed request, a body that is not an object, a body with an
   * `error` key, or a body in which some present token has no usable quote.
   */
  lemma FetchedPricesEmpty(response: Response)
    ensures FetchedPrices(response) == map[] <==>
      || response.Failed?
      || !response.json.JObj?
      || "error" in response.json.fields
      || !QuotesUsable(response.json.fields, |Tokens|)
      || (forall k :: 0 <= k < |Tokens| ==> Tokens[k].0 !in response.json.fields)
  {
    if response.Body? && response.json.JObj? {
      var fields := response.json.fields;
      CollectPricesSpec(fields, |Tokens|);
      if "error" !in fields && QuotesUsable(fields, |Tokens|) {
        var prices := CollectPrices(fields, |Tokens|).value;
        if exists k :: 0 <= k < |Tokens| && Tokens[k].0 in fields {
          var k :| 0 <= k < |Tokens| && Tokens[k].0 in fields;
          assert ColumnName(Tokens[k].1) in prices;
        }
      }
    }
  }

  /** Every fetched column is one the detector and the backtester treat as an exchange price. */
  lemma FetchedColumnsAreExchangeColumns(response: Response)
    ensures forall key :: key in FetchedPrices(response) ==> PriceRows.IsExchangeLabel(key)
  {
  }

  /** One row of the price table: the second-resolution timestamp and the fetched prices. */
  datatype Snapshot = Snapshot(timestamp: int, prices: map<string, Json>)

  /** The newest timestamp of a table with rows: the maximum over its `timestamp` column. */
  function LastTimestamp(rows: seq<Snapshot>): (t: int)
    requires rows != []
    ensures exists i :: 0 <= i < |rows| && rows[i].timestamp == t
    ensures forall i :: 0 <= i < |rows| ==> rows[i].timestamp <= t
  {
    if |rows| == 1 then rows[0].timestamp
    else
      var before := LastTimestamp(rows[..|rows| - 1]);
      var t := rows[|rows| - 1].timestamp;
      assert forall i :: 0 <= i < |rows| - 1 ==> rows[i] == rows[..|rows| - 1][i];
      if t > before then t else before
  }

  /**
   * `save_prices` returns before calling the API: the file exists, has rows, and its
   * newest row is less than 300 seconds older than `now`. A file with a header and no rows
   * never throttles: the maximum of no timestamps is NaT and the comparison is false.
   */
  predicate Throttled(table: Option<seq<Snapshot>>, now: real)
    ensures Throttled(table, now) <==>
      table.Some? && exists i :: 0 <= i < |table.value| && now - table.value[i].timestamp as real < ThrottleSeconds
  {
    table.Some? && table.value != [] && now - LastTimestamp(table.value) as real < ThrottleSeconds
  }

  /**
   * The table after an unthrottled call that fetched `prices` at second `stamp`. It changes
   * only when something was fetched; the old rows then stay as they were, in order, and
   * exactly one row follows them, carrying the stamp and the prices.
   */
  function NextTable(table: Option<seq<Snapshot>>, stamp: int, prices: map<string, Json>)
    : (next: Option<seq<Snapshot>>)
    ensures prices == map[] <==> next == table
    ensures prices != map[] ==>
      && next.Some?
      && |next.value| == |table.GetOr([])| + 1
      && next.value[..|next.value| - 1] == table.GetOr([])
      && next.value[|next.value| - 1] == Snapshot(stamp, prices)
  {
    if prices == map[] then table
    else Some(table.GetOr([]) + [Snapshot(stamp, prices)])
  }

  /** The collector's state: the global `api_call_count` and the CSV file. */
  class PriceCollector {
    var apiCallCount: nat
    var table: Option<seq<Snapshot>>

    constructor (existing: Option<seq<Snapshot>>)
      ensures apiCallCount == 0
      ensures table == existing
    {
      apiCallCount := 0;
      table := existing;
    }

    /** `fetch_prices()`, answered by `response`. The call is counted whatever the outcome. */
    method FetchPrices(response: Response) returns (prices: map<string, Json>)
      modifies this
      ensures apiCallCount == old(apiCallCount) + 1
      ensures table == old(table)
      ensures prices == FetchedPrices(response)
    {
      apiCallCount := apiCallCount + 1;
      if response.Failed? || !response.json.JObj? {
        return map[];
      }
      var data := response.json.fields;
      if "error" in data {
        return map[];
      }
      prices := map[];
      for k := 0 to |Tokens|
        invariant CollectPrices(data, k) == Some(prices)
      {
        var id, symbol := Tokens[k].0, Tokens[k].1;
        if id in data {
          var entry := data[id];
          if !(entry.JObj? && "usd" in entry.fields) {
            CollectPricesStaysFailed(data, k + 1, |Tokens|);
            return map[];
          }
          prices := prices[ColumnName(symbol) := entry.fields["usd"]];
        }
      }
    }

    /**
     * `save_prices()`. `now` is the clock reading for the throttle, `stampClock` the later
     * one the new row is stamped with (`strftime` keeps whole seconds), and `response`
     * answers the API call if one is made.
     */
    method SavePrices(now: real, stampClock: real, response: Response)
      modifies this
      ensures Throttled(old(table), now) ==>
        apiCallCount == old(apiCallCount) && table == old(table)
      ensures !Throttled(old(table), now) ==>
        && apiCallCount == old(apiCallCount) + 1
        && table == NextTable(old(table), stampClock.Floor, FetchedPrices(response))
    {
      if table.Some? && table.value != [] {
        var lastTimestamp := LastTimestamp(table.value);
        var timeDiff := now - lastTimestamp as real;
        if timeDiff < ThrottleSeconds {
          return;
        }
      }
      var prices := FetchPrices(response);
      if prices == map[] {
        return;
      }
      var row := Snapshot(stampClock.Floor, prices);
      match table
      case None =>
        assert [] + [row] == [row];
        table := Some([row]);
      case Some(rows) =>
        table := Some(rows + [row]);
    }
  }

  /** After a row is written at second `stamp`, every call less than 300 seconds later is throttled. */
  lemma ThrottleAfterWrite(table: Option<seq<Snapshot>>, stamp: int, prices: map<string, Json>, later: real)
    requires prices != map[]
    requires later - stamp as real < ThrottleSeconds
    ensures Throttled(NextTable(table, stamp, prices), later)
  {
  }

  /** Rows are at least 300 seconds apart, in file order. */
  predicate Spaced(rows: seq<Snapshot>) {
    forall i, j :: 0 <= i < j < |rows| ==> rows[i].timestamp as real + ThrottleSeconds <= rows[j].timestamp as real
  }

  /**
   * With a clock that does not go back between the two readings, an unthrottled save keeps
   * the rows at least 300 seconds apart: the newest row is at least 300 seconds older than
   * `now`, and since it was stamped at a whole second so is the new stamp.
   */
  lemma SaveKeepsSpacing(table: Option<seq<Snapshot>>, now: real, stampClock: real, prices: map<string, Json>)
    requires table.Some? ==> Spaced(table.value)
    requires !Throttled(table, now)
    requires now <= stampClock
    ensures var next := NextTable(table, stampClock.Floor, prices);
      next.Some? ==> Spaced(next.value)
  {
    if prices != map[] {
      var rows := table.GetOr([]);
      var next := rows + [Snapshot(stampClock.Floor, prices)];
      if rows != [] {
        var last := LastTimestamp(rows);
        assert last as real + ThrottleSeconds <= stampClock.Floor as real by {
          assert (last + 300) as real <= now;
          assert last + 300 <= now.Floor;
          assert now.Floor <= stampClock.Floor;
        }
      }
      forall i, j | 0 <= i < j < |next|
        ensures next[i].timestamp as real + ThrottleSeconds <= next[j].timestamp as real
      {
        if j < |rows| {
          assert next[i] == rows[i] && next[j] == rows[j];
        } else {
          assert next[i] == rows[i];
        }
      }
    }
  }
}
