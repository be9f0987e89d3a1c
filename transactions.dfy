/**
 * Assembly of the dashboard's transaction table: the public and the
 * Z-received transaction rows reported by the wallet are merged, sorted newest
 * first by their Unix-seconds date cell, and relabelled for display.
 *
 * Row layout (as the wallet bridge reports it):
 *   0 type, 1 direction, 2 confirmations, 3 amount, 4 date (Unix seconds or
 *   "N/A"), 5 destination address.
 */
module Transactions {
  import opened JavaLang
  import opened Presentation
  import opened DescendingSort

  const NotAvailable: string := "N/A"

  const DirectionColumn: nat := 1
  const ConfirmedColumn: nat := 2
  const AmountColumn: nat := 3
  const DateColumn: nat := 4

  /** The largest number of seconds whose milliseconds still fit in a `long`. */
  const MaxExactSeconds: int := LongMax / 1000

  // ---------------------------------------------------------------------------
  // The comparator's key
  // ---------------------------------------------------------------------------

  /**
   * A row that the sort and the relabelling get through without an exception:
   * it has a date cell, and that cell is "N/A" or a Java `long`.
   */
  predicate WellFormed(row: Row) {
    |row| > DateColumn && (row[DateColumn] == NotAvailable || ParseLong(row[DateColumn]).Some?)
  }

  /** Every row of the table is well formed. */
  predicate AllWellFormed(rows: Table) {
    forall i :: 0 <= i < |rows| ==> WellFormed(rows[i])
  }

  /** The Unix seconds of a well-formed row, "N/A" counting as 0. */
  function Seconds(row: Row): int
    requires WellFormed(row)
  {
    if row[DateColumn] == NotAvailable then 0 else ParseLong(row[DateColumn]).value
  }

  /**
   * The time of the `Date` the comparator builds from a row: the seconds times
   * 1000 in `long` arithmetic, the epoch for "N/A". Rows that are not well
   * formed never get past the relabelling, so their key is immaterial.
   */
  function Millis(row: Row): (m: int)
    ensures InLongRange(m)
    ensures |row| <= DateColumn || row[DateColumn] == NotAvailable ==> m == 0
  {
    if |row| <= DateColumn || row[DateColumn] == NotAvailable then 0
    else match ParseLong(row[DateColumn])
      case None => 0
      case Some(seconds) => ToLong(seconds * 1000)
  }

  /**
   * For dates of sensible size the comparator's key is exact: the seconds
   * times 1000, so rows are ordered by their seconds. Beyond that the `long`
   * multiplication wraps around.
   */
  lemma MillisOfSeconds(row: Row)
    requires WellFormed(row)
    ensures InLongRange(Millis(row))
    ensures -MaxExactSeconds <= Seconds(row) <= MaxExactSeconds ==> Millis(row) == 1000 * Seconds(row)
  {
  }

  lemma MillisOrderIsSecondsOrder(r1: Row, r2: Row)
    requires WellFormed(r1) && WellFormed(r2)
    requires -MaxExactSeconds <= Seconds(r1) <= MaxExactSeconds
    requires -MaxExactSeconds <= Seconds(r2) <= MaxExactSeconds
    ensures Millis(r1) >= Millis(r2) <==> Seconds(r1) >= Seconds(r2)
    ensures Millis(r1) == Millis(r2) <==> Seconds(r1) == Seconds(r2)
  {
    MillisOfSeconds(r1);
    MillisOfSeconds(r2);
  }

  // ---------------------------------------------------------------------------
  // The sort: newest first, stable
  // ---------------------------------------------------------------------------

  /** The transactions sorted as the dashboard shows them, before relabelling. */
  function SortedByDate(rows: Table): (r: Table)
    ensures |r| == |rows| && multiset(r) == multiset(rows)
    ensures AllWellFormed(r) <==> AllWellFormed(rows)
  {
    var r := SortNewestFirst(rows, Millis);
    SortPermutes(rows, Millis);
    SortedMembers(rows, Millis);
    assert forall i :: 0 <= i < |r| ==> r[i] in rows;
    assert forall i :: 0 <= i < |rows| ==> rows[i] in r;
    r
  }

  /** The sorted table has the newest transactions first. */
  lemma SortedByDateIsNewestFirst(rows: Table)
    ensures forall i, j :: 0 <= i < j < |rows| ==> Millis(SortedByDate(rows)[i]) >= Millis(SortedByDate(rows)[j])
  {
    SortIsNewestFirst(rows, Millis);
  }

  /**
   * Among transactions of the same date, the public ones come before the
   * Z-received ones, each group in the order the wallet reported it.
   */
  lemma TiesKeepPublicFirst(publicTransactions: Table, zReceivedTransactions: Table, t: int)
    ensures WithKey(SortedByDate(publicTransactions + zReceivedTransactions), t, Millis)
         == WithKey(publicTransactions, t, Millis) + WithKey(zReceivedTransactions, t, Millis)
  {
    SortIsStable(publicTransactions + zReceivedTransactions, t, Millis);
    WithKeyAppend(publicTransactions, zReceivedTransactions, t, Millis);
  }

  // ---------------------------------------------------------------------------
  // Relabelling for display
  // ---------------------------------------------------------------------------

  /** The direction cell: the four wallet categories get arrows and words. */
  function DirectionLabel(direction: string): (shown: string)
    ensures shown != direction <==> direction in {"receive", "send", "generate", "immature"}
  {
    match direction
    case "receive" => "\U{21E8} IN"
    case "send" => "\U{21E6} OUT"
    case "generate" => "\U{2692}\U{2699} MINED"
    case "immature" => "\U{2696} Immature"
    case _ => direction
  }

  /**
   * The parsed amount, negated when it is below zero: the table shows amounts
   * without sign (over reals there is no negative zero to keep its sign).
   */
  function Magnitude(x: real): (m: real)
    ensures m >= 0.0 && (m == x || m == -x)
  {
    if x < 0.0 then -x else x
  }

  /** The amount cell: the unsigned amount reformatted, or left as is if it is no number. */
  function AmountCell(amount: string, env: Environment): (cell: string)
    ensures env.parseDouble(amount).None? ==> cell == amount
  {
    match env.parseDouble(amount)
    case None => amount
    case Some(a) => env.formatAmount(Magnitude(a))
  }

  /** Amounts that differ only in sign are displayed alike. */
  lemma AmountSignDropped(s1: string, s2: string, a: real, env: Environment)
    requires env.parseDouble(s1) == Some(a) && env.parseDouble(s2) == Some(-a)
    ensures AmountCell(s1, env) == AmountCell(s2, env)
  {
  }

  /** A confirmation count counts as confirmed unless it is "0" once trimmed. */
  predicate IsConfirmed(confirmations: string): (confirmed: bool)
    ensures confirmations == "0" ==> !confirmed
    ensures !confirmed ==> '0' in confirmations
  {
    Trim(confirmations) != "0"
  }

  /** A count is unconfirmed exactly when it is "0" with blank padding on either side. */
  lemma UnconfirmedIffPaddedZero(confirmations: string)
    ensures !IsConfirmed(confirmations) <==>
              exists before, after :: AllBlank(before) && AllBlank(after) && confirmations == before + "0" + after
  {
    if !IsConfirmed(confirmations) {
      var a :| BlankPadded(confirmations, a, "0");
      PaddingSplits(confirmations, a, "0");
      var before, after := confirmations[..a], confirmations[a + 1..];
      assert AllBlank(before) && AllBlank(after) && confirmations == before + "0" + after;
    } else {
      forall before, after | AllBlank(before) && AllBlank(after)
        ensures confirmations != before + "0" + after
      {
        PaddedZeroUnconfirmed(before, after);
      }
    }
  }

  lemma PaddedZeroUnconfirmed(before: string, after: string)
    requires AllBlank(before) && AllBlank(after)
    ensures !IsConfirmed(before + "0" + after)
  {
    TrimUnique("0", 0, "0");
    TrimIgnoresPadding("0", before, after);
  }

  /** The displayed row: columns 1 to 4 rewritten, every other column untouched. */
  function RelabelRow(row: Row, env: Environment): (r: Row)
    requires WellFormed(row)
    ensures |r| == |row|
    ensures forall c :: 0 <= c < |row| && !(DirectionColumn <= c <= DateColumn) ==> r[c] == row[c]
    ensures r[DirectionColumn] == DirectionLabel(row[DirectionColumn])
    ensures |r[ConfirmedColumn]| > 4 && (r[ConfirmedColumn][..3] == "Yes" <==> IsConfirmed(row[ConfirmedColumn]))
    ensures env.parseDouble(row[AmountColumn]).None? ==> r[AmountColumn] == row[AmountColumn]
    ensures row[DateColumn] == NotAvailable ==> r[DateColumn] == NotAvailable
    ensures row[DateColumn] != NotAvailable ==> r[DateColumn] == env.localeDate(Millis(row))
    ensures r[AmountColumn] == AmountCell(row[AmountColumn], env)
    ensures r[ConfirmedColumn] == ConfirmationCell(env, IsConfirmed(row[ConfirmedColumn]))
  {
    var withDirection := row[DirectionColumn := DirectionLabel(row[DirectionColumn])];
    var withDate :=
      if row[DateColumn] == NotAvailable then withDirection
      else withDirection[DateColumn := env.localeDate(Millis(row))];
    var withAmount := withDate[AmountColumn := AmountCell(row[AmountColumn], env)];
    withAmount[ConfirmedColumn := ConfirmationCell(env, IsConfirmed(row[ConfirmedColumn]))]
  }

  function Relabelled(rows: seq<Row>, env: Environment): (r: seq<Row>)
    requires AllWellFormed(rows)
    ensures |r| == |rows|
    ensures forall i :: 0 <= i < |rows| ==> r[i] == RelabelRow(rows[i], env)
  {
    seq(|rows|, i requires 0 <= i < |rows| => RelabelRow(rows[i], env))
  }

  /** One pass of the relabelling loop: `None` where it throws. */
  function Relabel(row: Row, env: Environment): (shown: Option<Row>)
    ensures shown.Some? <==> WellFormed(row)
  {
    if WellFormed(row) then Some(RelabelRow(row, env)) else None
  }

  /** Relabelling every row one by one gives the relabelled table. */
  lemma RelabelEachRow(rows: Table, shown: Table, env: Environment)
    requires |shown| == |rows|
    requires forall i :: 0 <= i < |rows| ==> Relabel(rows[i], env) == Some(shown[i])
    ensures AllWellFormed(rows) && shown == Relabelled(rows, env)
  {
  }

  /**
   * The relabelling loop over the sorted array: each element is replaced by
   * `step` of it, in place, stopping at the first one `step` rejects (where
   * the Java loop throws and the table is abandoned).
   */
  method UpdateEach<T>(a: array<T>, step: T -> Option<T>) returns (ok: bool)
    modifies a
    ensures ok <==> forall i :: 0 <= i < a.Length ==> step(old(a[i])).Some?
    ensures ok ==> forall i :: 0 <= i < a.Length ==> step(old(a[i])) == Some(a[i])
  {
    for k := 0 to a.Length
      invariant forall j :: k <= j < a.Length ==> a[j] == old(a[j])
      invariant forall j :: 0 <= j < k ==> step(old(a[j])) == Some(a[j])
    {
      var shown := step(a[k]);
      if shown.None? {
        return false;
      }
      a[k] := shown.value;
    }
    ok := true;
  }

  /** The table the sort works on: the public rows, then the Z-received rows. */
  method Merge(publicTransactions: Table, zReceivedTransactions: Table) returns (allTransactions: array<Row>)
    ensures fresh(allTransactions)
    ensures allTransactions[..] == publicTransactions + zReceivedTransactions
  {
    allTransactions := new Row[|publicTransactions| + |zReceivedTransactions|];
    ghost var merged := publicTransactions + zReceivedTransactions;
    var i := 0;
    for k := 0 to |publicTransactions|
      invariant i == k
      invariant forall j :: 0 <= j < i ==> allTransactions[j] == merged[j]
    {
      allTransactions[i] := publicTransactions[k];
      i := i + 1;
    }
    for k := 0 to |zReceivedTransactions|
      invariant i == |publicTransactions| + k
      invariant forall j :: 0 <= j < i ==> allTransactions[j] == merged[j]
    {
      allTransactions[i] := zReceivedTransactions[k];
      i := i + 1;
    }
  }

  /**
   * The transaction table shown on the dashboard: the public rows, then the
   * Z-received rows, sorted newest first and relabelled. `None` where the
   * Java code throws.
   */
  method TransactionsFromWallet(publicTransactions: Table, zReceivedTransactions: Table, env: Environment)
    returns (result: Option<Table>)
    ensures result.Some? <==> AllWellFormed(publicTransactions + zReceivedTransactions)
    ensures result.Some? ==>
              result.value == Relabelled(SortedByDate(publicTransactions + zReceivedTransactions), env)
  {
    var allTransactions := Merge(publicTransactions, zReceivedTransactions);
    ghost var merged := allTransactions[..];

    SortInPlace(allTransactions, Millis);
    ghost var sorted := allTransactions[..];
    assert sorted == SortedByDate(merged);
    var ok := UpdateEach(allTransactions, row => Relabel(row, env));
    if ok {
      RelabelEachRow(sorted, allTransactions[..], env);
      result := Some(allTransactions[..]);
    } else {
      result := None;
    }
  }
}
