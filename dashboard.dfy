/**
 * The dashboard panel's decisions: how it takes in a newly gathered
 * transaction table, and how it reads the network and blockchain figures
 * into its status label (synchronisation percentage, the tick, the "up to"
 * date and the connection colour).
 *
 * Times are milliseconds since the Unix epoch, as `Date.getTime` gives them.
 */
module Dashboard {
  import opened JavaLang
  import opened Presentation
  import opened Transactions
  import opened TableRefresh

  /** `new Date("18 Nov 2016 01:53:31 GMT").getTime()`: the chain's start. */
  const StartDateMillis: int := 1479434011000

  /** A last block at most this old counts as synchronised. */
  const SyncedWindowMillis: int := 20 * 60 * 1000

  // ---------------------------------------------------------------------------
  // Connection colour
  // ---------------------------------------------------------------------------

  /** The colour of the connections glyph, overwritten as the count passes each threshold. */
  function ConnectionColor(numConnections: int): (color: string)
    ensures numConnections <= 0 ==> color == "red"
    ensures 1 <= numConnections <= 2 ==> color == "#cc3300"
    ensures 3 <= numConnections <= 6 ==> color == "black"
    ensures 7 <= numConnections ==> color == "green"
  {
    var netColor := "red";
    var netColor := if numConnections > 0 then "#cc3300" else netColor;
    var netColor := if numConnections > 2 then "black" else netColor;
    if numConnections > 6 then "green" else netColor
  }

  // ---------------------------------------------------------------------------
  // Synchronisation
  // ---------------------------------------------------------------------------

  /** The percentage clamped into `[0, 100]`. */
  function Clamp(d: real): (c: real)
    ensures 0.0 <= c <= 100.0
    ensures 0.0 <= d <= 100.0 ==> c == d
  {
    if d < 0.0 then 0.0 else if d > 100.0 then 100.0 else d
  }

  /**
   * `100 - remaining / full * 100`, clamped, for a chain that lags behind.
   * With `full` zero the Java quotient is positive infinity, so the
   * percentage clamps to 0.
   */
  function LagPercentage(remaining: int, full: int): (d: real)
    requires remaining > SyncedWindowMillis
    ensures 0.0 <= d <= 100.0
    ensures full >= remaining ==> d == 100.0 - (remaining as real / full as real) * 100.0
    ensures 0 < full < remaining ==> d == 0.0
    ensures full <= 0 ==> d == if full == 0 then 0.0 else 100.0
  {
    if full == 0 then 0.0
    else
      var q := remaining as real / full as real;
      assert full >= remaining ==> 0.0 < q <= 1.0;
      assert 0 < full < remaining ==> q > 1.0;
      assert full < 0 ==> q < 0.0;
      Clamp(100.0 - q * 100.0)
  }

  /** The percentage text the label shows and the integer the panel reports. */
  datatype SyncStatus = SyncStatus(percentage: string, blockchainPercentage: int)

  /**
   * The synchronisation status at `nowMillis` for a chain whose last block is
   * from `lastBlockDate`: "100" while the block is at most 20 minutes old,
   * else the lag percentage, formatted, and truncated to an `int`.
   */
  function SyncOf(nowMillis: int, lastBlockDate: int, env: Environment): (s: SyncStatus)
    ensures nowMillis - lastBlockDate <= SyncedWindowMillis ==> s == SyncStatus("100", 100)
    ensures 0 <= s.blockchainPercentage <= 100
  {
    var fullTime := nowMillis - StartDateMillis;
    var remainingTime := nowMillis - lastBlockDate;
    if remainingTime > SyncedWindowMillis then
      var d := LagPercentage(remainingTime, fullTime);
      SyncStatus(env.formatPercentage(d), d.Floor)
    else
      SyncStatus("100", 100)
  }

  lemma QuotientMonotone(a: real, b: real, c: real)
    requires c > 0.0 && a <= b
    ensures a / c <= b / c
  {
    assert b / c - a / c == (b - a) / c;
  }

  /**
   * A more recent last block never lowers the reported percentage.
   */
  lemma SyncMonotone(nowMillis: int, earlier: int, later: int, env: Environment)
    requires earlier <= later
    ensures SyncOf(nowMillis, earlier, env).blockchainPercentage <= SyncOf(nowMillis, later, env).blockchainPercentage
  {
    var full := nowMillis - StartDateMillis;
    var r1, r2 := nowMillis - earlier, nowMillis - later;
    if r2 > SyncedWindowMillis && full > 0 {
      QuotientMonotone(r2 as real, r1 as real, full as real);
      var d1, d2 := LagPercentage(r1, full), LagPercentage(r2, full);
      assert d1 <= d2;
    }
  }

  /**
   * Once the chain has started, the panel reports 100 exactly while the last
   * block is at most 20 minutes old.
   */
  lemma ReportsHundredIffRecent(nowMillis: int, lastBlockDate: int, env: Environment)
    requires nowMillis > StartDateMillis
    ensures SyncOf(nowMillis, lastBlockDate, env).blockchainPercentage == 100
        <==> nowMillis - lastBlockDate <= SyncedWindowMillis
  {
    var full := nowMillis - StartDateMillis;
    var remaining := nowMillis - lastBlockDate;
    if remaining > SyncedWindowMillis {
      var q := remaining as real / full as real;
      assert q > 0.0;
      var d := LagPercentage(remaining, full);
      assert d < 100.0;
    }
  }

  /** A last-block date before the chain's start is shown, and written back, as the start. */
  function ClampToStart(lastBlockDate: int): (date: int)
    ensures date >= StartDateMillis
    ensures date == lastBlockDate || date == StartDateMillis
    ensures lastBlockDate >= StartDateMillis ==> date == lastBlockDate
  {
    if lastBlockDate < StartDateMillis then StartDateMillis else lastBlockDate
  }

  lemma ClampToStartIdempotent(lastBlockDate: int)
    ensures ClampToStart(ClampToStart(lastBlockDate)) == ClampToStart(lastBlockDate)
  {
  }

  // ---------------------------------------------------------------------------
  // The network and blockchain label
  // ---------------------------------------------------------------------------

  /** What the label says, without its HTML. `tick` is empty unless synchronised. */
  datatype NetworkLabel = NetworkLabel(
    percentage: string,
    tick: string,
    upTo: string,
    numConnections: int,
    color: string,
    connectionsSymbol: string)

  /** The glyph after a complete percentage, set off by a space. */
  function TickSymbol(env: Environment): (symbol: string)
    ensures |symbol| == 2 && symbol[0] == ' '
  {
    if env.os == MacOs || env.os == Windows then " \U{2606}" else " \U{2705}"
  }

  /** The glyph after the peer count, set off by a space. */
  function ConnectionsSymbol(env: Environment): (symbol: string)
    ensures |symbol| == 2 && symbol[0] == ' '
    ensures symbol != TickSymbol(env)
  {
    if env.os == MacOs || env.os == Windows then " \U{21D4}" else " \U{26D7}"
  }

  /**
   * The label for `numConnections` peers and a last block from
   * `lastBlockDate`: the percentage is taken from the date as reported, the
   * "up to" date after it is clamped to the start.
   */
  function NetworkLabelOf(numConnections: int, lastBlockDate: int, nowMillis: int, env: Environment): (shown: NetworkLabel)
    ensures shown.percentage == SyncOf(nowMillis, lastBlockDate, env).percentage
    ensures shown.tick != "" <==> shown.percentage == "100"
    ensures nowMillis - lastBlockDate <= SyncedWindowMillis ==> shown.tick != ""
    ensures shown.upTo == env.localeDate(ClampToStart(lastBlockDate))
    ensures shown.numConnections == numConnections && shown.color == ConnectionColor(numConnections)
  {
    var percentage := SyncOf(nowMillis, lastBlockDate, env).percentage;
    var tick := if percentage == "100" then TickSymbol(env) else "";
    NetworkLabel(percentage, tick, env.localeDate(ClampToStart(lastBlockDate)),
                 numConnections, ConnectionColor(numConnections), ConnectionsSymbol(env))
  }

  /** The figures the network gathering thread last obtained; the panel writes the clamped date back. */
  class NetworkAndBlockchainInfo {
    var numConnections: int
    var lastBlockDate: int

    constructor (numConnections: int, lastBlockDate: int)
      ensures this.numConnections == numConnections && this.lastBlockDate == lastBlockDate
    {
      this.numConnections := numConnections;
      this.lastBlockDate := lastBlockDate;
    }
  }

  // ---------------------------------------------------------------------------
  // The panel
  // ---------------------------------------------------------------------------

  class DashboardPanel {
    /** The transaction data the table was last handed. */
    var lastTransactionsData: Table
    /** The rows the Swing table on screen was built from. */
    var shownTransactions: Table
    /** `getBlockchainPercentage()`; `None` while the label was never updated. */
    var blockchainPercentage: Option<int>
    /** The network and blockchain label; `None` while never set. */
    var networkLabel: Option<NetworkLabel>
    /** How often the transactions table was rebuilt. */
    ghost var tableRebuilds: nat

    /** The table on screen always shows the last data taken in. */
    ghost predicate Valid()
      reads this
    {
      shownTransactions == lastTransactionsData
    }

    ghost function TransactionsState(): TableState
      reads this
    {
      TableState(lastTransactionsData, tableRebuilds)
    }

    constructor (initialData: Table)
      ensures Valid()
      ensures lastTransactionsData == initialData && tableRebuilds == 0
      ensures blockchainPercentage == None && networkLabel == None
    {
      lastTransactionsData := initialData;
      shownTransactions := initialData;
      blockchainPercentage := None;
      networkLabel := None;
      tableRebuilds := 0;
    }

    /**
     * Opening the dashboard gathers the transaction table first; `null` where
     * that throws and the panel is not created.
     */
    static method Open(publicTransactions: Table, zReceivedTransactions: Table, env: Environment)
      returns (panel: DashboardPanel?)
      ensures panel == null <==> !AllWellFormed(publicTransactions + zReceivedTransactions)
      ensures panel != null ==> fresh(panel) && panel.Valid() && panel.tableRebuilds == 0
      ensures panel != null ==> panel.blockchainPercentage == None && panel.networkLabel == None
      ensures panel != null ==>
                panel.lastTransactionsData == Relabelled(SortedByDate(publicTransactions + zReceivedTransactions), env)
    {
      var data := TransactionsFromWallet(publicTransactions, zReceivedTransactions, env);
      if data.None? {
        return null;
      }
      panel := new DashboardPanel(data.value);
    }

    /**
     * The timer's refresh with the gathering thread's last data (`None` for
     * `null`): rebuild the table only when the data changed, and keep the
     * data either way.
     */
    method UpdateWalletTransactionsTable(newTransactionsData: Option<Table>)
      requires Valid()
      modifies this
      ensures Valid()
      ensures TransactionsState() == ShowIfChanged(old(TransactionsState()), newTransactionsData)
      ensures blockchainPercentage == old(blockchainPercentage) && networkLabel == old(networkLabel)
    {
      if newTransactionsData.None? {
        return;
      }
      var newData := newTransactionsData.value;
      if lastTransactionsData != newData {
        shownTransactions := newData;
        tableRebuilds := tableRebuilds + 1;
      }
      lastTransactionsData := newData;
    }

    /**
     * The timer's refresh of the network and blockchain label with the
     * thread's last figures (`null` before the first gathering).
     */
    method UpdateNetworkAndBlockchainLabel(info: NetworkAndBlockchainInfo?, nowMillis: int, env: Environment)
      modifies this, info
      ensures info == null ==> unchanged(this)
      ensures info != null ==>
                && info.lastBlockDate == ClampToStart(old(info.lastBlockDate))
                && info.numConnections == old(info.numConnections)
                && blockchainPercentage == Some(SyncOf(nowMillis, old(info.lastBlockDate), env).blockchainPercentage)
                && networkLabel == Some(NetworkLabelOf(info.numConnections, old(info.lastBlockDate), nowMillis, env))
      ensures lastTransactionsData == old(lastTransactionsData) && shownTransactions == old(shownTransactions)
      ensures tableRebuilds == old(tableRebuilds)
    {
      if info == null {
        return;
      }
      var fullTime := nowMillis - StartDateMillis;
      var remainingTime := nowMillis - info.lastBlockDate;

      var percentage := "100";
      if remainingTime > SyncedWindowMillis {
        var dPercentage := LagPercentage(remainingTime, fullTime);
        percentage := env.formatPercentage(dPercentage);
        blockchainPercentage := Some(dPercentage.Floor);
      } else {
        blockchainPercentage := Some(100);
      }

      if info.lastBlockDate < StartDateMillis {
        info.lastBlockDate := StartDateMillis;
      }

      var tick := "";
      if percentage == "100" {
        tick := TickSymbol(env);
      }

      networkLabel := Some(NetworkLabel(percentage, tick, env.localeDate(info.lastBlockDate),
                                        info.numConnections, ConnectionColor(info.numConnections),
                                        ConnectionsSymbol(env)));
    }
  }
}
