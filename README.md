# Hush Swing wallet: dashboard and address tables

A Dafny model of the two table-building panels of the Hush Swing wallet UI
(`org.myhush.gui`), and of the status label the dashboard computes.

- **Dashboard transactions** (`DashboardPanel.getTransactionsDataFromWallet`).
  The public and the Z-received transaction rows the wallet reports are copied
  into one array. They are sorted newest first by their Unix-seconds date cell,
  using a stable sort whose key is `Long.valueOf(seconds) * 1000` in `long`
  arithmetic, with "N/A" counting as the epoch. Each row is then relabelled in
  place:
  - the direction gets arrows and words;
  - the date becomes a locale string;
  - a negative amount is negated and the amount is reformatted;
  - the confirmation count becomes "Yes"/"No" with a platform glyph.
- **Dashboard refresh** (`updateWalletTransactionsTable`). Data that was never
  gathered changes nothing. Otherwise the table is rebuilt only when the data
  differs cell by cell from the last data, and the new data is kept.
- **Network and blockchain label** (`updateNetworkAndBlockchainLabel`):
  - the synchronisation percentage, reported as 100 while the last block is at
    most 20 minutes old, else `100 - remaining/full*100` clamped to [0, 100]
    and truncated to an `int`;
  - the "up to" date, clamped so that it is never before the chain's start
    (18 Nov 2016 01:53:31 GMT), with the clamped date written back;
  - the tick and the connection colour.
- **Address balances** (`AddressesPanel.getAddressBalanceDataFromWallet`).
  There is one row per distinct transparent address (the union of all public
  addresses and those with unspent outputs, in the `HashSet`'s iteration
  order), then one per Z address. Transparent addresses are validated through
  the panel's cache, which asks the wallet about an address only the first
  time. Invalid or watch-only addresses are shown as
  "<INVALID OR WATCH-ONLY ADDRESS> !!!". A balance that `Double.valueOf`
  rejects aborts the table, but the cache keeps what it learnt.
- **Address refreshes**. The refresh button records the time and then gathers
  the table. The timer's automated refresh does nothing within a minute of the
  last interactive refresh.

Modules:
- `JavaLang`: `long` wrap-around, `Long.valueOf`, `String.trim`.
- `Presentation`: rows, tables, and the environment of locale, platform and
  number formatting.
- `DescendingSort`: the stable newest-first sort, specified functionally, and
  its in-place array form.
- `Transactions`: the transaction table.
- `TableRefresh`: the rebuild-only-if-changed rule both panels share.
- `Dashboard`: the dashboard panel and its label.
- `Addresses`: the address panel, its cache and its throttle.

Java operations that are outside the model are passed in as values:
- the wallet's answers (an `AddressBridge` value, or the two transaction
  tables);
- `Double.valueOf`, the two `DecimalFormat`s and `Date.toLocaleString`, which
  are fields of `Environment`;
- the operating system, also a field of `Environment`;
- the current time, given as milliseconds.

An exception that aborts a gathering is modelled as `None`.

## Model

Paths are relative to the repository root; `DashboardPanel.java` and
`AddressesPanel.java` live in `src/java/org/myhush/gui/`.

| member | source | states |
|---|---|---|
| JavaLang.ToLong | src/java/org/myhush/gui/DashboardPanel.java:482 | the `long` a product wraps to: in range, congruent modulo 2^64, and the identity on values already in range |
| JavaLang.ParseLong | src/java/org/myhush/gui/DashboardPanel.java:482 | `Long.valueOf`: a result is a `long`, comes from a string that starts with a digit or a sign followed by more characters, and is negative only after a minus sign |
| JavaLang.ParseShowLong | src/java/org/myhush/gui/DashboardPanel.java:482 | reading back any `long` written in decimal gives the same value |
| JavaLang.Trim | src/java/org/myhush/gui/DashboardPanel.java:549 | `String.trim`: a slice of the input with only blanks (code at most U+0020) removed at both ends, starting and ending with a non-blank |
| JavaLang.TrimUnique | src/java/org/myhush/gui/DashboardPanel.java:549 | the trimmed string is the only blank-padded slice that starts and ends with a non-blank |
| JavaLang.TrimIgnoresPadding | src/java/org/myhush/gui/DashboardPanel.java:549 | blanks added at either end do not change the trimmed string |
| Presentation.ConfirmedSymbol | src/java/org/myhush/gui/DashboardPanel.java:498-508 | the confirmed glyph is a single glyph, preceded by a space on Windows only, and does not end in a space |
| Presentation.NotConfirmedSymbol | src/java/org/myhush/gui/DashboardPanel.java:498-508 | the unconfirmed glyph has the same width as the confirmed one and differs from it |
| Presentation.ConfirmationCell | src/java/org/myhush/gui/DashboardPanel.java:498-551 | the "Confirmed?" cell starts with "Yes" exactly when the value is confirmed, on every platform |
| DescendingSort.Insert | src/java/org/myhush/gui/DashboardPanel.java:479-495 | one insertion step of the sort adds exactly one element (order and stability are the lemmas below) |
| DescendingSort.SortNewestFirst | src/java/org/myhush/gui/DashboardPanel.java:479-495 | the reference for `Arrays.sort` with the date comparator keeps the length (permutation, order, stability and uniqueness are the lemmas below) |
| DescendingSort.InsertPermutes | src/java/org/myhush/gui/DashboardPanel.java:479-495 | inserting one element adds exactly that element to the multiset |
| DescendingSort.SortPermutes | src/java/org/myhush/gui/DashboardPanel.java:479-495 | the sorted sequence is a permutation of the input |
| DescendingSort.SortedMembers | src/java/org/myhush/gui/DashboardPanel.java:479-495 | the sorted sequence has exactly the input's elements |
| DescendingSort.InsertKeepsNewestFirst | src/java/org/myhush/gui/DashboardPanel.java:479-495 | inserting into a newest-first sequence keeps it newest first |
| DescendingSort.SortIsNewestFirst | src/java/org/myhush/gui/DashboardPanel.java:479-495 | the sort orders by non-increasing key, which is the comparator's `d2.compareTo(d1)` |
| DescendingSort.InsertStable | src/java/org/myhush/gui/DashboardPanel.java:479-495 | insertion puts the new element after the existing elements of equal key |
| DescendingSort.SortIsStable | src/java/org/myhush/gui/DashboardPanel.java:479-495 | elements of equal key keep their input order, as `Arrays.sort` on objects promises |
| DescendingSort.StableSortIsUnique | src/java/org/myhush/gui/DashboardPanel.java:479-495 | every stable newest-first arrangement of the input equals the modelled sort, so any stable sort (`Arrays.sort`'s merge sort included) gives the same table |
| DescendingSort.InsertLast | src/java/org/myhush/gui/DashboardPanel.java:479-495 | one in-place insertion pass on an array: the prefix becomes the functional insertion and the rest of the array is untouched |
| DescendingSort.SortInPlace | src/java/org/myhush/gui/DashboardPanel.java:479 | the array ends up as the functional newest-first sort of its old contents |
| Transactions.Millis | src/java/org/myhush/gui/DashboardPanel.java:480-488 | the comparator's key is a `long`, and is the epoch (0) for an "N/A" date |
| Transactions.MillisOfSeconds | src/java/org/myhush/gui/DashboardPanel.java:480-488 | the comparator's key is a `long`, and is exactly the seconds times 1000 for dates that do not overflow |
| Transactions.MillisOrderIsSecondsOrder | src/java/org/myhush/gui/DashboardPanel.java:479-495 | within the non-overflowing range, ordering by the key is ordering by the seconds |
| Transactions.Merge | src/java/org/myhush/gui/DashboardPanel.java:466-476 | a new array holding the public rows, then the Z-received rows, each in wallet order |
| Transactions.SortedByDate | src/java/org/myhush/gui/DashboardPanel.java:479-495 | the sorted transactions are a permutation of the merged ones, and are all well formed exactly when the input rows are |
| Transactions.SortedByDateIsNewestFirst | src/java/org/myhush/gui/DashboardPanel.java:479-495 | the transaction table is sorted newest first |
| Transactions.TiesKeepPublicFirst | src/java/org/myhush/gui/DashboardPanel.java:466-495 | among transactions of one date, the public rows come before the Z-received rows, each group in the wallet's order |
| Transactions.DirectionLabel | src/java/org/myhush/gui/DashboardPanel.java:515-528 | the direction changes exactly for the four wallet categories |
| Transactions.Magnitude | src/java/org/myhush/gui/DashboardPanel.java:537-540 | the amount negated when below zero: non-negative and equal to the amount or its negation |
| Transactions.AmountCell | src/java/org/myhush/gui/DashboardPanel.java:536-545 | an amount that does not parse is left as it is (the exception is caught) |
| Transactions.AmountSignDropped | src/java/org/myhush/gui/DashboardPanel.java:536-545 | amounts that differ only in sign are displayed alike (over reals; negative zero is under "## Left out") |
| Transactions.RelabelRow | src/java/org/myhush/gui/DashboardPanel.java:513-556 | a relabelled row has the same length and the same type and address cells. Its direction is the label; a numeric date becomes the locale text of its wrapped millis and "N/A" stays; the amount becomes `AmountCell` (the formatted magnitude, or the text unchanged when it does not parse); the confirmation cell is `ConfirmationCell` of the trimmed count not being "0", so it starts with "Yes" exactly then |
| Transactions.Relabel | src/java/org/myhush/gui/DashboardPanel.java:513-533 | the relabelling of a row succeeds exactly when the row has a date cell that is "N/A" or a `long` |
| Transactions.Relabelled | src/java/org/myhush/gui/DashboardPanel.java:513-556 | the relabelling loop keeps the number of rows and turns row i into `RelabelRow` of row i |
| Transactions.IsConfirmed | src/java/org/myhush/gui/DashboardPanel.java:549 | a count of "0" is not confirmed, and a count that is not confirmed contains a "0" |
| Transactions.UnconfirmedIffPaddedZero | src/java/org/myhush/gui/DashboardPanel.java:549 | a count is unconfirmed exactly when it is "0" with only blanks (characters up to U+0020) before and after it |
| Transactions.RelabelEachRow | src/java/org/myhush/gui/DashboardPanel.java:513-556 | rows relabelled one by one without failure form the relabelled table |
| Transactions.UpdateEach | src/java/org/myhush/gui/DashboardPanel.java:513-556 | the in-place loop succeeds exactly when every element can be relabelled, and then holds each element's relabelling |
| Transactions.TransactionsFromWallet | src/java/org/myhush/gui/DashboardPanel.java:460-559 | the table is produced exactly when all rows are well formed, and is then the relabelling of the merged rows sorted newest first |
| TableRefresh.ShowIfChanged | src/java/org/myhush/gui/DashboardPanel.java:423-441 | no data leaves the state alone; data becomes the last data; the table is rebuilt (at most once) exactly when the data differs from the last data |
| TableRefresh.ShowIfChangedIdempotent | src/java/org/myhush/gui/DashboardPanel.java:423-441 | refreshing twice with the same data is refreshing once |
| TableRefresh.ReplayHoldsLatest | src/java/org/myhush/gui/DashboardPanel.java:423-441 | after any run of refreshes the panel holds the most recently gathered data |
| TableRefresh.ReplayRebuildsAtMostGathered | src/java/org/myhush/gui/DashboardPanel.java:423-441 | the table is rebuilt at most once per refresh that brought data |
| TableRefresh.ReplayUnchangedData | src/java/org/myhush/gui/DashboardPanel.java:423-441 | refreshes that bring only the data already shown never rebuild the table |
| Dashboard.ConnectionColor | src/java/org/myhush/gui/DashboardPanel.java:344-355 | red for no connections, #cc3300 for 1-2, black for 3-6, green for 7 or more |
| Dashboard.Clamp | src/java/org/myhush/gui/DashboardPanel.java:308-312 | the clamped percentage is in [0, 100] and unchanged when already there |
| Dashboard.LagPercentage | src/java/org/myhush/gui/DashboardPanel.java:307-312 | the lag percentage is in [0, 100]. It is `100 - remaining/full*100` when `full >= remaining`, 0 when `0 < full < remaining` or `full == 0` (the double quotient is infinite), and 100 when `full < 0` |
| Dashboard.SyncOf | src/java/org/myhush/gui/DashboardPanel.java:301-321 | "100" and 100 while the last block is at most 20 minutes old; the reported integer is always in [0, 100] |
| Dashboard.SyncMonotone | src/java/org/myhush/gui/DashboardPanel.java:301-321 | a more recent last block never lowers the reported percentage |
| Dashboard.ReportsHundredIffRecent | src/java/org/myhush/gui/DashboardPanel.java:304-321 | after the chain's start, 100 is reported exactly while the last block is at most 20 minutes old |
| Dashboard.ClampToStart | src/java/org/myhush/gui/DashboardPanel.java:323-327 | the shown date is never before the start and is the reported date whenever that is not before the start |
| Dashboard.ClampToStartIdempotent | src/java/org/myhush/gui/DashboardPanel.java:323-327 | clamping twice is clamping once |
| Dashboard.TickSymbol | src/java/org/myhush/gui/DashboardPanel.java:329-337 | the tick is one glyph set off by a space |
| Dashboard.ConnectionsSymbol | src/java/org/myhush/gui/DashboardPanel.java:329-337 | the connections glyph is one glyph set off by a space, and differs from the tick |
| Dashboard.NetworkLabelOf | src/java/org/myhush/gui/DashboardPanel.java:329-365 | the percentage comes from the unclamped date; the tick appears exactly when the percentage reads "100"; the date shown is the clamped one; the colour follows the connection count |
| Dashboard.DashboardPanel.Open | src/java/org/myhush/gui/DashboardPanel.java:91-92 | the panel exists exactly when the first gathering succeeds, and then holds the sorted, relabelled table; no blockchain percentage or network label is known yet |
| Dashboard.DashboardPanel.UpdateWalletTransactionsTable | src/java/org/myhush/gui/DashboardPanel.java:423-441 | the panel's table state moves as `ShowIfChanged` says, and the label state is untouched |
| Dashboard.DashboardPanel.UpdateNetworkAndBlockchainLabel | src/java/org/myhush/gui/DashboardPanel.java:290-366 | no figures change nothing. Otherwise the percentage comes from the reported date, the date is clamped in the info object, and the label is the one `NetworkLabelOf` describes |
| Addresses.TAddresses | src/java/org/myhush/gui/AddressesPanel.java:237-250 | the combined transparent addresses are exactly those in either wallet list |
| Addresses.EnumerationSize | src/java/org/myhush/gui/AddressesPanel.java:252 | an iteration over a set visits as many addresses as the set has, so the array has room for each |
| Addresses.ShownBalance | src/java/org/myhush/gui/AddressesPanel.java:297-301 | the balance shown is always the unconfirmed one: the confirmed one is chosen only when the two are equal |
| Addresses.BalanceRow | src/java/org/myhush/gui/AddressesPanel.java:297-307 | a row exists exactly when the balance string shown parses as a double |
| Addresses.BalanceRowCells | src/java/org/myhush/gui/AddressesPanel.java:297-307 | a row has three cells. It shows the confirmed balance when it equals the unconfirmed one and the unconfirmed balance otherwise, "Yes" exactly when the two agree, and the address as displayed |
| Addresses.ShownTAddress | src/java/org/myhush/gui/AddressesPanel.java:290-294 | a transparent address is shown as itself or as the invalid-address label |
| Addresses.AddressTable | src/java/org/myhush/gui/AddressesPanel.java:252-324 | a table, when there is one, has one row per enumerated transparent address plus one per Z address |
| Addresses.TableFromRows | src/java/org/myhush/gui/AddressesPanel.java:268-324 | rows filled slot by slot, transparent ones first, form the address table, and then every balance parses |
| Addresses.AddressTableShape | src/java/org/myhush/gui/AddressesPanel.java:252-324 | one three-cell row per distinct transparent address and then one per Z address. Transparent rows show the address, or the invalid label where the cache says so; Z rows show their address in the wallet's order |
| Addresses.AddressTableRows | src/java/org/myhush/gui/AddressesPanel.java:268-324 | row i of the table is the balance row of the i-th enumerated transparent address, shown as the cache says; the rows after them are the Z addresses' balance rows in the wallet's order. So each row holds the shown balance and "Yes" exactly when the confirmed and unconfirmed balances agree |
| Addresses.AddressTableDefined | src/java/org/myhush/gui/AddressesPanel.java:300-315 | the table exists exactly when every balance it shows parses, whatever the iteration order |
| Addresses.Interactive | src/java/org/myhush/gui/AddressesPanel.java:178-195 | an interactive refresh always moves the throttle's reference time to now, and the table moves as `ShowIfChanged` with the gathered data: unchanged for null or equal data, rebuilt for different data |
| Addresses.Automated | src/java/org/myhush/gui/AddressesPanel.java:199-217 | an automated refresh within a minute of the last interactive one changes nothing, and never moves the reference time; past the minute the table moves as `ShowIfChanged` with the thread's data |
| Addresses.AutomatedHeldBack | src/java/org/myhush/gui/AddressesPanel.java:199-203 | any run of automated refreshes within the minute leaves the panel exactly as it was |
| Addresses.RunRemembersLastInteractive | src/java/org/myhush/gui/AddressesPanel.java:178-180 | the reference time is always that of the latest interactive refresh |
| Addresses.ValidationCache.Lookup | src/java/org/myhush/gui/AddressesPanel.java:273-290 | the oracle is asked only about an address not yet cached, and its answer is remembered; a cached answer is returned unchanged |
| Addresses.AddressesPanel.Open | src/java/org/myhush/gui/AddressesPanel.java:35-67 | the panel exists exactly when every balance parses, and then holds the gathered table with the throttle time set to the opening time |
| Addresses.AddressesPanel.AddressBalanceDataFromWallet | src/java/org/myhush/gui/AddressesPanel.java:232-325 | the table is produced exactly when every balance parses, and is then the address table for some iteration order. Either way the cache only grew, by the oracle's answers for transparent addresses, each asked once |
| Addresses.AddressesPanel.Enumerate | src/java/org/myhush/gui/AddressesPanel.java:270 | the iteration visits every combined address exactly once |
| Addresses.AddressesPanel.AddTRows | src/java/org/myhush/gui/AddressesPanel.java:268-308 | the transparent loop succeeds exactly when every balance parses. It fills slot k with the row of the k-th address, and the cache grows only by oracle answers |
| Addresses.AddressesPanel.AddTRow | src/java/org/myhush/gui/AddressesPanel.java:270-307 | one pass validates the address through the cache and writes its row into slot i, touching no other slot |
| Addresses.AddressesPanel.AddZRows | src/java/org/myhush/gui/AddressesPanel.java:310-322 | the Z loop succeeds exactly when every Z balance parses. It fills the slots after the transparent rows in the wallet's order and leaves the transparent rows alone |
| Addresses.AddressesPanel.UpdateInteractive | src/java/org/myhush/gui/AddressesPanel.java:178-195 | the time is recorded even when the gathering fails. The panel state moves as `Interactive` says with what was gathered, and the cache only grows |
| Addresses.AddressesPanel.UpdateAutomated | src/java/org/myhush/gui/AddressesPanel.java:199-217 | the panel state moves as `Automated` says, so the refresh is held back within a minute of the last interactive refresh |

## Left out

- Swing itself is not modelled. That covers building `JTable`s, `validate`/`repaint`, the HTML markup around the label text, dialogs (such as the invalid-address warning) and console output. The model keeps what the components show.
- Threads and timers are not modelled, including `DataGatheringThread` and the `synchronized` methods. The data a gathering thread last produced is passed in, and refreshes are modelled as a sequence. The gathering thread's own concurrent use of the validation cache is not modelled.
- Wallet calls (`HushCommandLineBridge`) are inputs: `AddressBridge` and the transaction tables. Their `IOException`, `InterruptedException` and `WalletCallException` are not modelled. The bridge is assumed to answer the same question alike within one gathering.
- Floating point is modelled with reals. There is no NaN, no rounding, no negative zero, and `Double.valueOf` is an input function. `DecimalFormat` and `Date.toLocaleString` are also input functions, so the exact digits and date text are not modelled.
- Transactions.AmountSignDropped: holds over reals only. Java parses "-0" to -0.0, does not negate it because it is not below zero, and `DecimalFormat` shows it as "-0.00" against "0.00" for "0".
- JavaLang.ParseLong: does not accept the non-ASCII Unicode digits that `Long.valueOf` also accepts, since wallet dates are ASCII.
- Transactions.TransactionsFromWallet: the Java code relabels the bridge's row arrays in place, so the arrays the wallet handed over are changed too. The model treats rows as values and returns new rows; that aliasing is not captured.
- DescendingSort.SortInPlace: `Arrays.sort` uses a merge sort (TimSort) and may call the comparator in a different order. The model uses a stable insertion sort instead. `StableSortIsUnique` shows that every stable newest-first arrangement is the same, so the result is the same. Where a malformed row makes the comparator throw, the model reports failure through the relabelling step instead, and any such row aborts the table either way.
- Dashboard.SyncOf: the `long` subtractions `now - start` and `now - lastBlock` are taken as exact, since they cannot overflow for real clock values.
- `getBlockchainPercentage`'s `null` before the first update is `None`. `updateDaemonStatusLabel` and `updateWalletStatusLabel` are not part of this model: they only format figures from other threads. Neither is the rest of `DashboardPanel`'s constructor.
- `createNewAddress`, `getSelectedAddress` and the button handlers of `AddressesPanel` are not part of this model. Only the interactive refresh they end in is modelled.
- `HushWalletFrame.java` is not part of this model; it only creates the panels.
- `OSUtil.OS_TYPE` is reduced to Windows, macOS and any other system, the only distinction the panels make.
