/**
 * The rule both panels follow when fresh table data arrives: data that was
 * never gathered (`null`) changes nothing; otherwise the Swing table is
 * rebuilt only when the data differs cell by cell (`Arrays.deepEquals`) from
 * the data last shown, and the new data becomes the last data.
 */
module TableRefresh {
  import opened JavaLang
  import opened Presentation

  /** The data a table panel last took in, and how often it rebuilt its table. */
  datatype TableState = TableState(lastData: Table, rebuilds: nat)

  /** One refresh with the data a gathering produced, `None` for `null`. */
  function ShowIfChanged(s: TableState, gathered: Option<Table>): (t: TableState)
    ensures gathered.None? ==> t == s
    ensures gathered.Some? ==> t.lastData == gathered.value
    ensures t.rebuilds == s.rebuilds + 1 <==> gathered.Some? && gathered.value != s.lastData
    ensures t.rebuilds == s.rebuilds || t.rebuilds == s.rebuilds + 1
  {
    match gathered
    case None => s
    case Some(data) =>
      if data != s.lastData then TableState(data, s.rebuilds + 1) else s
  }

  /** Refreshing twice with the same data is the same as refreshing once. */
  lemma ShowIfChangedIdempotent(s: TableState, gathered: Option<Table>)
    ensures ShowIfChanged(ShowIfChanged(s, gathered), gathered) == ShowIfChanged(s, gathered)
  {
  }

  /** A sequence of refreshes, oldest first. */
  function Replay(s: TableState, gathered: seq<Option<Table>>): TableState {
    if gathered == [] then s
    else ShowIfChanged(Replay(s, gathered[..|gathered| - 1]), gathered[|gathered| - 1])
  }

  /** The most recent data that was actually gathered, `default` if none was. */
  function Latest(gathered: seq<Option<Table>>, default: Table): Table {
    if gathered == [] then default
    else match gathered[|gathered| - 1]
      case Some(data) => data
      case None => Latest(gathered[..|gathered| - 1], default)
  }

  /** How many refreshes brought data at all. */
  function CountGathered(gathered: seq<Option<Table>>): (n: nat)
    ensures n <= |gathered|
  {
    if gathered == [] then 0
    else CountGathered(gathered[..|gathered| - 1]) + (if gathered[|gathered| - 1].Some? then 1 else 0)
  }

  /** After any run of refreshes the panel holds the most recently gathered data. */
  lemma {:induction false} ReplayHoldsLatest(s: TableState, gathered: seq<Option<Table>>)
    ensures Replay(s, gathered).lastData == Latest(gathered, s.lastData)
  {
    if gathered != [] {
      ReplayHoldsLatest(s, gathered[..|gathered| - 1]);
    }
  }

  /** The table is never rebuilt by a refresh that brought no data. */
  lemma {:induction false} ReplayRebuildsAtMostGathered(s: TableState, gathered: seq<Option<Table>>)
    ensures s.rebuilds <= Replay(s, gathered).rebuilds <= s.rebuilds + CountGathered(gathered)
  {
    if gathered != [] {
      ReplayRebuildsAtMostGathered(s, gathered[..|gathered| - 1]);
    }
  }

  /** Refreshes that keep bringing the data already shown never rebuild the table. */
  lemma {:induction false} ReplayUnchangedData(s: TableState, gathered: seq<Option<Table>>)
    requires forall i :: 0 <= i < |gathered| ==> gathered[i].None? || gathered[i].value == s.lastData
    ensures Replay(s, gathered) == s
  {
    if gathered != [] {
      ReplayUnchangedData(s, gathered[..|gathered| - 1]);
    }
  }
}
