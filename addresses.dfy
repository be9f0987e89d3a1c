/**
 * The addresses panel: its table of balances per address (transparent
 * addresses first, then private Z addresses), the cache that remembers which
 * transparent addresses are invalid or watch-only, and the two refreshes of
 * the table, the interactive one and the automated one it holds back for a
 * minute after each interactive refresh.
 *
 * What the wallet reports is an `AddressBridge` value: the address lists the
 * panel asks for, the balance strings per address, and the validity oracle.
 */
module Addresses {
  import opened JavaLang
  import opened Presentation
  import opened TableRefresh

  /** What a transparent address is shown as once it is known to be invalid or watch-only. */
  const InvalidAddressLabel: string := "<INVALID OR WATCH-ONLY ADDRESS> !!!"

  /** The automated refresh stays off for this long after an interactive one. */
  const ThrottleMillis: int := 60 * 1000

  const BalanceColumn: nat := 0
  const ConfirmedColumn: nat := 1
  const AddressColumn: nat := 2

  /**
   * The wallet's answers: the Z addresses, all public addresses, the public
   * addresses with unspent outputs, the confirmed and the unconfirmed balance
   * string of an address, and whether an address is watch-only or invalid.
   */
  datatype AddressBridge = AddressBridge(
    zAddresses: seq<string>,
    allPublicAddresses: seq<string>,
    addressesWithUnspentOutputs: seq<string>,
    balance: string -> string,
    unconfirmedBalance: string -> string,
    isWatchOnlyOrInvalid: string -> bool)

  /** Every transparent address the wallet knows, duplicates collapsed. */
  function TAddresses(bridge: AddressBridge): (combined: set<string>)
    ensures forall a :: a in combined <==> a in bridge.allPublicAddresses || a in bridge.addressesWithUnspentOutputs
  {
    (set a | a in bridge.allPublicAddresses) + (set a | a in bridge.addressesWithUnspentOutputs)
  }

  /** `order` lists the elements of `s`, each exactly once (a `HashSet`'s iteration order). */
  ghost predicate Enumerates(order: seq<string>, s: set<string>) {
    && (forall a :: a in order <==> a in s)
    && (forall i, j :: 0 <= i < j < |order| ==> order[i] != order[j])
  }

  /** A list without repetitions has as many elements as the set of its elements. */
  lemma {:induction false} EnumerationSize(order: seq<string>, s: set<string>)
    requires Enumerates(order, s)
    ensures |order| == |s|
    decreases |order|
  {
    if order != [] {
      var last := order[|order| - 1];
      var init := order[..|order| - 1];
      assert last !in init by {
        forall i | 0 <= i < |init| ensures init[i] != last {
          assert init[i] == order[i];
        }
      }
      forall a | a in init ensures a in s - {last} {
        var i :| 0 <= i < |init| && init[i] == a;
        assert order[i] == a;
      }
      forall a | a in s - {last} ensures a in init {
        var i :| 0 <= i < |order| && order[i] == a;
        assert init[i] == a;
      }
      EnumerationSize(init, s - {last});
    } else {
      assert s == {};
    }
  }

  // ---------------------------------------------------------------------------
  // Rows
  // ---------------------------------------------------------------------------

  /** The balance string a row shows: the confirmed one when both agree, else the unconfirmed one. */
  function ShownBalance(address: string, bridge: AddressBridge): (shown: string)
    ensures shown == bridge.unconfirmedBalance(address)
  {
    if bridge.balance(address) == bridge.unconfirmedBalance(address) then bridge.balance(address)
    else bridge.unconfirmedBalance(address)
  }

  /**
   * The row for `address`, displayed as `shown`; `None` where `Double.valueOf`
   * throws on the balance string shown.
   */
  function BalanceRow(address: string, shown: string, bridge: AddressBridge, env: Environment): (row: Option<Row>)
    ensures row.Some? <==> env.parseDouble(ShownBalance(address, bridge)).Some?
  {
    var isConfirmed := bridge.balance(address) == bridge.unconfirmedBalance(address);
    match env.parseDouble(ShownBalance(address, bridge))
    case None => None
    case Some(amount) => Some([env.formatAmount(amount), ConfirmationCell(env, isConfirmed), shown])
  }

  /**
   * A row's cells: the balance from the confirmed string when it equals the
   * unconfirmed one and from the unconfirmed string otherwise, "Yes" exactly
   * when the two agree, and the address as displayed.
   */
  lemma BalanceRowCells(address: string, shown: string, bridge: AddressBridge, env: Environment)
    requires BalanceRow(address, shown, bridge, env).Some?
    ensures var row := BalanceRow(address, shown, bridge, env).value;
            && |row| == 3 && row[AddressColumn] == shown
            && |row[ConfirmedColumn]| > 4
            && (row[ConfirmedColumn][..3] == "Yes" <==> bridge.balance(address) == bridge.unconfirmedBalance(address))
            && (bridge.balance(address) == bridge.unconfirmedBalance(address) ==>
                  row[BalanceColumn] == env.formatAmount(env.parseDouble(bridge.balance(address)).value))
            && (bridge.balance(address) != bridge.unconfirmedBalance(address) ==>
                  row[BalanceColumn] == env.formatAmount(env.parseDouble(bridge.unconfirmedBalance(address)).value))
  {
  }

  /** A transparent address as displayed, given its cached validation result. */
  function ShownTAddress(address: string, watchOnlyOrInvalid: bool): (shown: string)
    ensures shown == address || shown == InvalidAddressLabel
  {
    if watchOnlyOrInvalid then InvalidAddressLabel else address
  }

  /** Every balance the table shows parses as a number. */
  ghost predicate BalancesParse(bridge: AddressBridge, env: Environment) {
    && (forall a :: a in TAddresses(bridge) ==> env.parseDouble(ShownBalance(a, bridge)).Some?)
    && (forall a :: a in bridge.zAddresses ==> env.parseDouble(ShownBalance(a, bridge)).Some?)
  }

  /** The rows of the transparent addresses, in `order`, displayed as the cache says. */
  function TRows(order: seq<string>, cache: map<string, bool>, bridge: AddressBridge, env: Environment): (rows: seq<Option<Row>>)
    requires forall a :: a in order ==> a in cache
    ensures |rows| == |order|
    ensures forall i :: 0 <= i < |order| ==>
              rows[i] == BalanceRow(order[i], ShownTAddress(order[i], cache[order[i]]), bridge, env)
  {
    seq(|order|, i requires 0 <= i < |order| => BalanceRow(order[i], ShownTAddress(order[i], cache[order[i]]), bridge, env))
  }

  /** The rows of the Z addresses, in the wallet's order, displayed verbatim. */
  function ZRows(bridge: AddressBridge, env: Environment): (rows: seq<Option<Row>>)
    ensures |rows| == |bridge.zAddresses|
    ensures forall i :: 0 <= i < |rows| ==>
              rows[i] == BalanceRow(bridge.zAddresses[i], bridge.zAddresses[i], bridge, env)
  {
    seq(|bridge.zAddresses|, i requires 0 <= i < |bridge.zAddresses| =>
          BalanceRow(bridge.zAddresses[i], bridge.zAddresses[i], bridge, env))
  }

  /** All rows, or `None` as soon as one of them is missing. */
  function Collect(rows: seq<Option<Row>>): (table: Option<Table>)
    ensures table.Some? <==> forall i :: 0 <= i < |rows| ==> rows[i].Some?
    ensures table.Some? ==> |table.value| == |rows| && forall i :: 0 <= i < |rows| ==> rows[i] == Some(table.value[i])
  {
    if rows == [] then Some([])
    else match (Collect(rows[..|rows| - 1]), rows[|rows| - 1])
      case (Some(init), Some(last)) => Some(init + [last])
      case (None, _) => None
      case (_, None) => None
  }

  /** Collecting rows that are all present gives exactly those rows. */
  lemma {:induction false} CollectAll(rows: seq<Option<Row>>, table: Table)
    requires |table| == |rows| && forall i :: 0 <= i < |rows| ==> rows[i] == Some(table[i])
    ensures Collect(rows) == Some(table)
  {
    if rows != [] {
      CollectAll(rows[..|rows| - 1], table[..|table| - 1]);
      assert table == table[..|table| - 1] + [table[|table| - 1]];
    }
  }

  /**
   * The address table for transparent addresses in `order` and the given
   * cache: their rows, then the Z addresses' rows; `None` if any is missing.
   */
  function AddressTable(order: seq<string>, cache: map<string, bool>, bridge: AddressBridge, env: Environment): (table: Option<Table>)
    requires forall a :: a in order ==> a in cache
    ensures table.Some? ==> |table.value| == |order| + |bridge.zAddresses|
  {
    match (Collect(TRows(order, cache, bridge, env)), Collect(ZRows(bridge, env)))
    case (Some(tTable), Some(zTable)) => Some(tTable + zTable)
    case _ => None
  }

  /** Element `i` of `b` sits at `|a| + i` in `a + b`. */
  lemma AppendedAt<T>(a: seq<T>, b: seq<T>, i: nat)
    requires i < |b|
    ensures (a + b)[|a| + i] == b[i]
  {
  }

  /** A sequence is its first `n` elements followed by the rest. */
  lemma SplitAt<T>(s: seq<T>, n: nat)
    requires n <= |s|
    ensures s == s[..n] + s[n..]
  {
  }

  /** The transparent rows in `order`, then the Z rows, make up the address table. */
  lemma TableFromRows(order: seq<string>, cache: map<string, bool>, bridge: AddressBridge, env: Environment,
                      tRows: Table, zRows: Table)
    requires Enumerates(order, TAddresses(bridge))
    requires forall a :: a in order ==> a in cache
    requires |tRows| == |order| && |zRows| == |bridge.zAddresses|
    requires forall k :: 0 <= k < |order| ==>
               Some(tRows[k]) == BalanceRow(order[k], ShownTAddress(order[k], cache[order[k]]), bridge, env)
    requires forall k :: 0 <= k < |bridge.zAddresses| ==>
               Some(zRows[k]) == BalanceRow(bridge.zAddresses[k], bridge.zAddresses[k], bridge, env)
    ensures BalancesParse(bridge, env)
    ensures AddressTable(order, cache, bridge, env) == Some(tRows + zRows)
  {
    CollectAll(TRows(order, cache, bridge, env), tRows);
    CollectAll(ZRows(bridge, env), zRows);
    AddressTableDefined(order, cache, bridge, env);
  }

  /**
   * The table has one row per distinct transparent address, then one per Z
   * address; transparent rows show the address or the invalid label as the
   * cache says, Z rows show their address verbatim and in the wallet's order.
   */
  lemma AddressTableShape(order: seq<string>, cache: map<string, bool>, bridge: AddressBridge, env: Environment,
                          table: Table)
    requires Enumerates(order, TAddresses(bridge))
    requires forall a :: a in order ==> a in cache
    requires AddressTable(order, cache, bridge, env) == Some(table)
    ensures |table| == |TAddresses(bridge)| + |bridge.zAddresses|
    ensures forall i :: 0 <= i < |table| ==> |table[i]| == 3
    ensures forall i :: 0 <= i < |order| ==>
              table[i][AddressColumn] == if cache[order[i]] then InvalidAddressLabel else order[i]
    ensures forall j :: |order| <= j < |table| ==> table[j][AddressColumn] == bridge.zAddresses[j - |order|]
  {
    EnumerationSize(order, TAddresses(bridge));
    var tTable, zTable := AddressTableSplit(order, cache, bridge, env, table);
    TRowsShape(order, cache, bridge, env, tTable);
    ZRowsShape(bridge, env, zTable);
    forall i | 0 <= i < |table|
      ensures |table[i]| == 3
      ensures i < |order| ==> table[i][AddressColumn] == if cache[order[i]] then InvalidAddressLabel else order[i]
      ensures |order| <= i ==> table[i][AddressColumn] == bridge.zAddresses[i - |order|]
    {
      if i < |order| {
        assert table[i] == tTable[i];
      } else {
        AppendedAt(tTable, zTable, i - |order|);
      }
    }
  }

  /**
   * Row by row, the table is the transparent addresses' rows in the order
   * given, then the Z addresses' rows in the wallet's order.
   */
  lemma AddressTableRows(order: seq<string>, cache: map<string, bool>, bridge: AddressBridge, env: Environment,
                         table: Table)
    requires forall a :: a in order ==> a in cache
    requires AddressTable(order, cache, bridge, env) == Some(table)
    ensures forall i :: 0 <= i < |order| ==>
              Some(table[i]) == BalanceRow(order[i], ShownTAddress(order[i], cache[order[i]]), bridge, env)
    ensures forall j :: |order| <= j < |table| ==>
              Some(table[j]) == BalanceRow(bridge.zAddresses[j - |order|], bridge.zAddresses[j - |order|], bridge, env)
  {
    forall i | 0 <= i < |order|
      ensures Some(table[i]) == BalanceRow(order[i], ShownTAddress(order[i], cache[order[i]]), bridge, env)
    {
      AddressTableTRowAt(order, cache, bridge, env, table, i);
    }
    forall j | |order| <= j < |table|
      ensures Some(table[j]) == BalanceRow(bridge.zAddresses[j - |order|], bridge.zAddresses[j - |order|], bridge, env)
    {
      AddressTableZRowAt(order, cache, bridge, env, table, j);
    }
  }

  /** Row `i` of the table, for a transparent address. */
  lemma AddressTableTRowAt(order: seq<string>, cache: map<string, bool>, bridge: AddressBridge, env: Environment,
                           table: Table, i: nat)
    requires forall a :: a in order ==> a in cache
    requires AddressTable(order, cache, bridge, env) == Some(table)
    requires i < |order|
    ensures Some(table[i]) == BalanceRow(order[i], ShownTAddress(order[i], cache[order[i]]), bridge, env)
  {
    var tTable, zTable := AddressTableSplit(order, cache, bridge, env, table);
    TTableRows(order, cache, bridge, env, tTable);
    assert table[i] == tTable[i];
  }

  /** Row `j` of the table, for a Z address. */
  lemma AddressTableZRowAt(order: seq<string>, cache: map<string, bool>, bridge: AddressBridge, env: Environment,
                           table: Table, j: nat)
    requires forall a :: a in order ==> a in cache
    requires AddressTable(order, cache, bridge, env) == Some(table)
    requires |order| <= j < |table|
    ensures Some(table[j]) == BalanceRow(bridge.zAddresses[j - |order|], bridge.zAddresses[j - |order|], bridge, env)
  {
    var tTable, zTable := AddressTableSplit(order, cache, bridge, env, table);
    ZTableRows(bridge, env, zTable);
    AppendedAt(tTable, zTable, j - |order|);
  }

  /** A table that exists is the transparent part followed by the Z part. */
  lemma AddressTableSplit(order: seq<string>, cache: map<string, bool>, bridge: AddressBridge, env: Environment,
                          table: Table)
    returns (tTable: Table, zTable: Table)
    requires forall a :: a in order ==> a in cache
    requires AddressTable(order, cache, bridge, env) == Some(table)
    ensures Collect(TRows(order, cache, bridge, env)) == Some(tTable)
    ensures Collect(ZRows(bridge, env)) == Some(zTable)
    ensures table == tTable + zTable
  {
    tTable := Collect(TRows(order, cache, bridge, env)).value;
    zTable := Collect(ZRows(bridge, env)).value;
  }

  lemma TTableRows(order: seq<string>, cache: map<string, bool>, bridge: AddressBridge, env: Environment, tTable: Table)
    requires forall a :: a in order ==> a in cache
    requires Collect(TRows(order, cache, bridge, env)) == Some(tTable)
    ensures |tTable| == |order|
    ensures forall i :: 0 <= i < |order| ==>
              Some(tTable[i]) == BalanceRow(order[i], ShownTAddress(order[i], cache[order[i]]), bridge, env)
  {
  }

  lemma ZTableRows(bridge: AddressBridge, env: Environment, zTable: Table)
    requires Collect(ZRows(bridge, env)) == Some(zTable)
    ensures |zTable| == |bridge.zAddresses|
    ensures forall i :: 0 <= i < |zTable| ==>
              Some(zTable[i]) == BalanceRow(bridge.zAddresses[i], bridge.zAddresses[i], bridge, env)
  {
  }

  /** The rows for the transparent addresses show each address as the cache says. */
  lemma TRowsShape(order: seq<string>, cache: map<string, bool>, bridge: AddressBridge, env: Environment, tTable: Table)
    requires forall a :: a in order ==> a in cache
    requires Collect(TRows(order, cache, bridge, env)) == Some(tTable)
    ensures |tTable| == |order|
    ensures forall i :: 0 <= i < |order| ==>
              |tTable[i]| == 3 && tTable[i][AddressColumn] == if cache[order[i]] then InvalidAddressLabel else order[i]
  {
    forall i | 0 <= i < |order|
      ensures |tTable[i]| == 3 && tTable[i][AddressColumn] == if cache[order[i]] then InvalidAddressLabel else order[i]
    {
      BalanceRowCells(order[i], ShownTAddress(order[i], cache[order[i]]), bridge, env);
    }
  }

  /** The rows for the Z addresses show each address verbatim, in the wallet's order. */
  lemma ZRowsShape(bridge: AddressBridge, env: Environment, zTable: Table)
    requires Collect(ZRows(bridge, env)) == Some(zTable)
    ensures |zTable| == |bridge.zAddresses|
    ensures forall i :: 0 <= i < |zTable| ==> |zTable[i]| == 3 && zTable[i][AddressColumn] == bridge.zAddresses[i]
  {
    forall i | 0 <= i < |zTable|
      ensures |zTable[i]| == 3 && zTable[i][AddressColumn] == bridge.zAddresses[i]
    {
      BalanceRowCells(bridge.zAddresses[i], bridge.zAddresses[i], bridge, env);
    }
  }

  /** The table is there exactly when every balance it shows parses, whatever the iteration order. */
  lemma AddressTableDefined(order: seq<string>, cache: map<string, bool>, bridge: AddressBridge, env: Environment)
    requires Enumerates(order, TAddresses(bridge))
    requires forall a :: a in order ==> a in cache
    ensures AddressTable(order, cache, bridge, env).Some? <==> BalancesParse(bridge, env)
  {
    TRowsDefined(order, cache, bridge, env);
    ZRowsDefined(bridge, env);
    var tParse := forall a :: a in TAddresses(bridge) ==> env.parseDouble(ShownBalance(a, bridge)).Some?;
    if tParse {
      forall k | 0 <= k < |order| ensures env.parseDouble(ShownBalance(order[k], bridge)).Some? {
        assert order[k] in TAddresses(bridge);
      }
      assert Collect(TRows(order, cache, bridge, env)).Some?;
    } else {
      var a :| a in TAddresses(bridge) && env.parseDouble(ShownBalance(a, bridge)).None?;
      var k :| 0 <= k < |order| && order[k] == a;
      assert Collect(TRows(order, cache, bridge, env)).None?;
    }
  }

  /** The transparent rows are all there exactly when each of their balances parses. */
  lemma TRowsDefined(order: seq<string>, cache: map<string, bool>, bridge: AddressBridge, env: Environment)
    requires forall a :: a in order ==> a in cache
    ensures Collect(TRows(order, cache, bridge, env)).Some? <==>
              forall k :: 0 <= k < |order| ==> env.parseDouble(ShownBalance(order[k], bridge)).Some?
  {
    var tRows := TRows(order, cache, bridge, env);
    assert forall k :: 0 <= k < |order| ==> (tRows[k].Some? <==> env.parseDouble(ShownBalance(order[k], bridge)).Some?);
  }

  /** The Z rows are all there exactly when each of their balances parses. */
  lemma ZRowsDefined(bridge: AddressBridge, env: Environment)
    ensures Collect(ZRows(bridge, env)).Some? <==>
              forall a :: a in bridge.zAddresses ==> env.parseDouble(ShownBalance(a, bridge)).Some?
  {
    var zRows := ZRows(bridge, env);
    if forall a :: a in bridge.zAddresses ==> env.parseDouble(ShownBalance(a, bridge)).Some? {
      forall k | 0 <= k < |zRows| ensures zRows[k].Some? {
        assert bridge.zAddresses[k] in bridge.zAddresses;
      }
    } else {
      var a :| a in bridge.zAddresses && env.parseDouble(ShownBalance(a, bridge)).None?;
      var k :| 0 <= k < |bridge.zAddresses| && bridge.zAddresses[k] == a;
      assert zRows[k].None?;
    }
  }

  // ---------------------------------------------------------------------------
  // Refresh state
  // ---------------------------------------------------------------------------

  /** When the last interactive refresh happened, and the table's state. */
  datatype PanelState = PanelState(lastInteractiveRefresh: int, table: TableState)

  /** The refresh button: remember the time, then take in whatever the gathering produced. */
  function Interactive(s: PanelState, nowMillis: int, gathered: Option<Table>): (t: PanelState)
    ensures t.lastInteractiveRefresh == nowMillis
    ensures t.table == ShowIfChanged(s.table, gathered)
  {
    PanelState(nowMillis, ShowIfChanged(s.table, gathered))
  }

  /** The timer: nothing within a minute of the last interactive refresh. */
  function Automated(s: PanelState, nowMillis: int, gathered: Option<Table>): (t: PanelState)
    ensures nowMillis - s.lastInteractiveRefresh < ThrottleMillis ==> t == s
    ensures t.lastInteractiveRefresh == s.lastInteractiveRefresh
    ensures nowMillis - s.lastInteractiveRefresh >= ThrottleMillis ==> t.table == ShowIfChanged(s.table, gathered)
  {
    if nowMillis - s.lastInteractiveRefresh < ThrottleMillis then s
    else PanelState(s.lastInteractiveRefresh, ShowIfChanged(s.table, gathered))
  }

  datatype Refresh =
    | InteractiveAt(nowMillis: int, gathered: Option<Table>)
    | AutomatedAt(nowMillis: int, gathered: Option<Table>)

  function Step(s: PanelState, r: Refresh): PanelState {
    match r
    case InteractiveAt(now, gathered) => Interactive(s, now, gathered)
    case AutomatedAt(now, gathered) => Automated(s, now, gathered)
  }

  function Run(s: PanelState, refreshes: seq<Refresh>): PanelState {
    if refreshes == [] then s else Step(Run(s, refreshes[..|refreshes| - 1]), refreshes[|refreshes| - 1])
  }

  /**
   * Automated refreshes within a minute of an interactive one leave the panel
   * exactly as the interactive refresh left it.
   */
  lemma {:induction false} AutomatedHeldBack(s: PanelState, refreshes: seq<Refresh>)
    requires forall i :: 0 <= i < |refreshes| ==>
               refreshes[i].AutomatedAt? && refreshes[i].nowMillis - s.lastInteractiveRefresh < ThrottleMillis
    ensures Run(s, refreshes) == s
  {
    if refreshes != [] {
      AutomatedHeldBack(s, refreshes[..|refreshes| - 1]);
    }
  }

  /** The panel's last interactive refresh time is that of its latest interactive refresh. */
  function LastInteractive(s: PanelState, refreshes: seq<Refresh>): int {
    if refreshes == [] then s.lastInteractiveRefresh
    else match refreshes[|refreshes| - 1]
      case InteractiveAt(now, _) => now
      case AutomatedAt(_, _) => LastInteractive(s, refreshes[..|refreshes| - 1])
  }

  /** Only the refresh button moves the throttle's reference time. */
  lemma {:induction false} RunRemembersLastInteractive(s: PanelState, refreshes: seq<Refresh>)
    ensures Run(s, refreshes).lastInteractiveRefresh == LastInteractive(s, refreshes)
  {
    if refreshes != [] {
      RunRemembersLastInteractive(s, refreshes[..|refreshes| - 1]);
    }
  }

  // ---------------------------------------------------------------------------
  // The panel
  // ---------------------------------------------------------------------------

  /** The cache grew from `before` to `after` only by oracle answers for transparent addresses. */
  ghost predicate CacheExtends(before: map<string, bool>, after: map<string, bool>, bridge: AddressBridge) {
    CacheExtendsWithin(before, after, TAddresses(bridge), bridge.isWatchOnlyOrInvalid)
  }

  /** The cache grew from `before` to `after` only by `oracle`'s answers for addresses in `domain`. */
  ghost predicate CacheExtendsWithin(before: map<string, bool>, after: map<string, bool>,
                                     domain: set<string>, oracle: string -> bool) {
    && (forall a :: a in before ==> a in after && after[a] == before[a])
    && (forall a :: a in after && a !in before ==> a in domain && after[a] == oracle(a))
  }

  /** What one gathering of the table produced, for some iteration order of the transparent addresses. */
  ghost predicate Gathered(gathered: Option<Table>, order: seq<string>, cache: map<string, bool>,
                           bridge: AddressBridge, env: Environment)
  {
    && (gathered.Some? <==> BalancesParse(bridge, env))
    && (gathered.Some? ==>
          && Enumerates(order, TAddresses(bridge))
          && (forall a :: a in order ==> a in cache)
          && gathered == AddressTable(order, cache, bridge, env))
  }

  /**
   * The panel's `validationMap`, a `HashMap` created with the panel and updated
   * in place: address to "invalid or watch-only" for every transparent address
   * validated so far, with the log of the questions put to the oracle.
   */
  class ValidationCache {
    var entries: map<string, bool>
    /** The addresses handed to the validity oracle, in the order it was asked. */
    ghost var validations: seq<string>

    /** The oracle was asked about each cached address exactly once and about nothing else. */
    ghost predicate Valid()
      reads this
    {
      && (forall i, j :: 0 <= i < j < |validations| ==> validations[i] != validations[j])
      && (forall a :: a in entries <==> a in validations)
    }

    constructor ()
      ensures Valid() && entries == map[] && validations == []
    {
      entries := map[];
      validations := [];
    }

    /**
     * The validity of `address` as the cache has it, asking `oracle` (and
     * remembering the answer) only the first time.
     */
    method Lookup(address: string, oracle: string -> bool) returns (watchOnlyOrInvalid: bool)
      requires Valid()
      modifies this
      ensures Valid()
      ensures address in entries && watchOnlyOrInvalid == entries[address]
      ensures old(address in entries) ==> entries == old(entries) && validations == old(validations)
      ensures old(address !in entries) ==>
                && entries == old(entries)[address := oracle(address)]
                && validations == old(validations) + [address]
    {
      if address !in entries {
        var validationResult := oracle(address);
        entries := entries[address := validationResult];
        validations := validations + [address];
      }
      watchOnlyOrInvalid := entries[address];
    }
  }

  class AddressesPanel {
    const validationMap: ValidationCache
    /** The table data last taken in. */
    var lastAddressBalanceData: Table
    /** The rows the Swing table on screen was built from. */
    var shownAddressBalances: Table
    var lastInteractiveRefresh: int
    ghost var tableRebuilds: nat

    /** The table on screen shows the last data, and the cache is consistent. */
    ghost predicate Valid()
      reads this, validationMap
    {
      shownAddressBalances == lastAddressBalanceData && validationMap.Valid()
    }

    ghost function State(): PanelState
      reads this
    {
      PanelState(lastInteractiveRefresh, TableState(lastAddressBalanceData, tableRebuilds))
    }

    /** A panel with an empty cache, showing `initialData`. */
    constructor (nowMillis: int, initialData: Table)
      ensures Valid() && fresh(validationMap)
      ensures State() == PanelState(nowMillis, TableState(initialData, 0))
      ensures validationMap.entries == map[] && validationMap.validations == []
    {
      validationMap := new ValidationCache();
      lastAddressBalanceData := initialData;
      shownAddressBalances := initialData;
      lastInteractiveRefresh := nowMillis;
      tableRebuilds := 0;
    }

    /**
     * Opening the panel: it records the time, gathers the table with an empty
     * cache, and is not created where the gathering throws.
     */
    static method Open(nowMillis: int, bridge: AddressBridge, env: Environment)
      returns (panel: AddressesPanel?, ghost order: seq<string>)
      ensures panel == null <==> !BalancesParse(bridge, env)
      ensures panel != null ==>
                && fresh(panel) && panel.Valid()
                && panel.lastInteractiveRefresh == nowMillis && panel.tableRebuilds == 0
                && CacheExtends(map[], panel.validationMap.entries, bridge)
                && Gathered(Some(panel.lastAddressBalanceData), order, panel.validationMap.entries, bridge, env)
    {
      panel := new AddressesPanel(nowMillis, []);
      var data;
      data, order := panel.AddressBalanceDataFromWallet(bridge, env);
      if data.None? {
        return null, order;
      }
      panel.lastAddressBalanceData := data.value;
      panel.shownAddressBalances := data.value;
    }

    /**
     * Builds the table: one row per distinct transparent address, validated
     * through the cache, then one per Z address. `None` where a balance does
     * not parse; the cache keeps what was added before that.
     */
    method AddressBalanceDataFromWallet(bridge: AddressBridge, env: Environment)
      returns (result: Option<Table>, ghost order: seq<string>)
      requires validationMap.Valid()
      modifies validationMap
      ensures validationMap.Valid()
      ensures CacheExtends(old(validationMap.entries), validationMap.entries, bridge)
      ensures old(validationMap.validations) <= validationMap.validations
      ensures Gathered(result, order, validationMap.entries, bridge, env)
    {
      var tAddressesCombined := TAddresses(bridge);
      var addressBalances := new Row[|tAddressesCombined| + |bridge.zAddresses|];

      var iteration := Enumerate(tAddressesCombined);
      order := iteration;
      EnumerationSize(order, tAddressesCombined);
      var ok := AddTRows(validationMap, addressBalances, iteration, tAddressesCombined, bridge, env);
      if !ok {
        return None, order;
      }
      ghost var tRows := addressBalances[..|tAddressesCombined|];
      ok := AddZRows(addressBalances, |tAddressesCombined|, bridge, env);
      if !ok {
        return None, order;
      }
      var table := addressBalances[..];
      ghost var zRows := table[|tAddressesCombined|..];
      SplitAt(table, |tAddressesCombined|);
      TableFromRows(order, validationMap.entries, bridge, env, tRows, zRows);
      result := Some(table);
    }

    /** The iteration order of a `HashSet`: each element once, in an order of its own. */
    static method Enumerate(s: set<string>) returns (order: seq<string>)
      ensures Enumerates(order, s)
    {
      order := [];
      var remaining := s;
      while remaining != {}
        invariant forall a :: a in order <==> a in s && a !in remaining
        invariant remaining <= s
        invariant forall k, l :: 0 <= k < l < |order| ==> order[k] != order[l]
        decreases remaining
      {
        var a :| a in remaining;
        order := order + [a];
        remaining := remaining - {a};
      }
    }

    /**
     * The loop over the combined transparent addresses, in iteration order:
     * each address is validated through the cache and its row goes into the
     * slot of the same index. `false` at the first balance that does not parse.
     */
    static method AddTRows(cache: ValidationCache, addressBalances: array<Row>, order: seq<string>,
                           ghost tAddressesCombined: set<string>, bridge: AddressBridge, env: Environment)
      returns (ok: bool)
      requires cache.Valid()
      requires forall a :: a in order ==> a in tAddressesCombined
      requires |order| <= addressBalances.Length
      modifies cache, addressBalances
      ensures cache.Valid() && old(cache.validations) <= cache.validations
      ensures CacheExtendsWithin(old(cache.entries), cache.entries, tAddressesCombined, bridge.isWatchOnlyOrInvalid)
      ensures ok <==> forall k :: 0 <= k < |order| ==> env.parseDouble(ShownBalance(order[k], bridge)).Some?
      ensures ok ==> forall a :: a in order ==> a in cache.entries
      ensures ok ==> forall k :: 0 <= k < |order| ==>
                Some(addressBalances[k]) == BalanceRow(order[k], ShownTAddress(order[k], cache.entries[order[k]]), bridge, env)
    {
      for i := 0 to |order|
        invariant cache.Valid() && old(cache.validations) <= cache.validations
        invariant CacheExtendsWithin(old(cache.entries), cache.entries, tAddressesCombined, bridge.isWatchOnlyOrInvalid)
        invariant forall k :: 0 <= k < i ==> order[k] in cache.entries
        invariant forall k :: 0 <= k < i ==>
                    Some(addressBalances[k]) == BalanceRow(order[k], ShownTAddress(order[k], cache.entries[order[k]]), bridge, env)
      {
        var added := AddTRow(cache, addressBalances, i, order[i], bridge, env);
        if !added {
          return false;
        }
      }
      ok := true;
    }

    /**
     * One pass of the loop over the transparent addresses: validate `address`
     * through the cache and put its row into slot `i`; `false` where its
     * balance does not parse.
     */
    static method AddTRow(cache: ValidationCache, addressBalances: array<Row>, i: nat, address: string,
                          bridge: AddressBridge, env: Environment)
      returns (added: bool)
      requires cache.Valid() && i < addressBalances.Length
      modifies cache, addressBalances
      ensures cache.Valid() && old(cache.validations) <= cache.validations
      ensures CacheExtendsWithin(old(cache.entries), cache.entries, {address}, bridge.isWatchOnlyOrInvalid)
      ensures address in cache.entries
      ensures added <==> env.parseDouble(ShownBalance(address, bridge)).Some?
      ensures added ==>
                Some(addressBalances[i]) == BalanceRow(address, ShownTAddress(address, cache.entries[address]), bridge, env)
      ensures forall k :: 0 <= k < addressBalances.Length && k != i ==> addressBalances[k] == old(addressBalances[k])
    {
      var watchOnlyOrInvalid := cache.Lookup(address, bridge.isWatchOnlyOrInvalid);
      var row := BalanceRow(address, ShownTAddress(address, watchOnlyOrInvalid), bridge, env);
      if row.None? {
        // NumberFormatException from Double.valueOf
        return false;
      }
      addressBalances[i] := row.value;
      added := true;
    }

    /**
     * The loop over the Z addresses, filling the slots from `start` on in the
     * wallet's order. `false` at the first balance that does not parse.
     */
    static method AddZRows(addressBalances: array<Row>, start: nat, bridge: AddressBridge, env: Environment)
      returns (ok: bool)
      requires start + |bridge.zAddresses| == addressBalances.Length
      modifies addressBalances
      ensures addressBalances[..start] == old(addressBalances[..start])
      ensures ok <==> forall a :: a in bridge.zAddresses ==> env.parseDouble(ShownBalance(a, bridge)).Some?
      ensures ok ==> forall k :: 0 <= k < |bridge.zAddresses| ==>
                Some(addressBalances[start..][k]) == BalanceRow(bridge.zAddresses[k], bridge.zAddresses[k], bridge, env)
    {
      var i := start;
      for k := 0 to |bridge.zAddresses|
        invariant i == start + k
        invariant forall j :: 0 <= j < start ==> addressBalances[j] == old(addressBalances[j])
        invariant forall j :: 0 <= j < k ==> env.parseDouble(ShownBalance(bridge.zAddresses[j], bridge)).Some?
        invariant forall j :: 0 <= j < k ==>
                    Some(addressBalances[start + j]) == BalanceRow(bridge.zAddresses[j], bridge.zAddresses[j], bridge, env)
      {
        var address := bridge.zAddresses[k];
        var row := BalanceRow(address, address, bridge, env);
        if row.None? {
          // NumberFormatException from Double.valueOf
          return false;
        }
        addressBalances[i] := row.value;
        i := i + 1;
      }
      ok := true;
    }

    /**
     * The refresh button: note the time, gather the table, and take it in if
     * it changed; where the gathering throws only the time and the cache change.
     */
    method UpdateInteractive(nowMillis: int, bridge: AddressBridge, env: Environment)
      returns (ghost gathered: Option<Table>, ghost order: seq<string>)
      requires Valid()
      modifies this, validationMap
      ensures Valid()
      ensures CacheExtends(old(validationMap.entries), validationMap.entries, bridge)
      ensures old(validationMap.validations) <= validationMap.validations
      ensures Gathered(gathered, order, validationMap.entries, bridge, env)
      ensures State() == Interactive(old(State()), nowMillis, gathered)
    {
      lastInteractiveRefresh := nowMillis;

      var newAddressBalanceData;
      newAddressBalanceData, order := AddressBalanceDataFromWallet(bridge, env);
      gathered := newAddressBalanceData;
      if newAddressBalanceData.None? {
        return;
      }
      if lastAddressBalanceData != newAddressBalanceData.value {
        shownAddressBalances := newAddressBalanceData.value;
        lastAddressBalanceData := newAddressBalanceData.value;
        tableRebuilds := tableRebuilds + 1;
      }
    }

    /**
     * The timer's refresh with the balance thread's last data (`None` for
     * `null`), held back within a minute of the last interactive refresh.
     */
    method UpdateAutomated(nowMillis: int, newAddressBalanceData: Option<Table>)
      requires Valid()
      modifies this
      ensures Valid()
      ensures State() == Automated(old(State()), nowMillis, newAddressBalanceData)
    {
      if nowMillis - lastInteractiveRefresh < ThrottleMillis {
        return;
      }
      if newAddressBalanceData.Some? && lastAddressBalanceData != newAddressBalanceData.value {
        shownAddressBalances := newAddressBalanceData.value;
        lastAddressBalanceData := newAddressBalanceData.value;
        tableRebuilds := tableRebuilds + 1;
      }
    }
  }
}
