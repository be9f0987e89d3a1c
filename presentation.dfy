/**
 * What the wallet's table builders share: rows of strings, and the parts of
 * the rendering that depend on the JVM's floating point, the locale or the
 * platform, taken as given functions.
 */
module Presentation {
  import opened JavaLang

  /** One table row, cell by cell (a Java `String[]`). */
  type Row = seq<string>
  /** A table (a Java `String[][]`). */
  type Table = seq<Row>

  /** `OSUtil.OS_TYPE`, as far as the panels tell the systems apart. */
  datatype OsType = Windows | MacOs | OtherOs

  /**
   * The environment the panels render in.
   * - `os`: the operating system the JVM reports (Windows has no flag glyphs);
   * - `parseDouble`: `Double.valueOf`, `None` where it throws
   *   `NumberFormatException`;
   * - `formatAmount`: `new DecimalFormat("########0.00######").format`;
   * - `localeDate`: `new Date(millis).toLocaleString()`;
   * - `formatPercentage`: `new DecimalFormat("##0.##").format`.
   */
  datatype Environment = Environment(
    os: OsType,
    parseDouble: string -> Option<real>,
    formatAmount: real -> string,
    localeDate: int -> string,
    formatPercentage: real -> string)

  /** The glyph shown after "Yes": a white flag, or a white triangle on Windows. */
  function ConfirmedSymbol(env: Environment): (symbol: string)
    ensures |symbol| == if env.os == Windows then 2 else 1
    ensures env.os == Windows ==> symbol[0] == ' '
    ensures symbol[|symbol| - 1] != ' '
  {
    if env.os == Windows then " \U{25B7}" else "\U{2690}"
  }

  /** The glyph shown after "No": a black flag, or a black triangle on Windows. */
  function NotConfirmedSymbol(env: Environment): (symbol: string)
    ensures |symbol| == if env.os == Windows then 2 else 1
    ensures symbol != ConfirmedSymbol(env)
  {
    if env.os == Windows then " \U{25B6}" else "\U{2691}"
  }

  /**
   * The "Confirmed?" cell of both tables. Its first three characters tell the
   * flag back, so the cell never hides whether the value was confirmed.
   */
  function ConfirmationCell(env: Environment, confirmed: bool): (cell: string)
    ensures |cell| > 4
    ensures cell[..3] == "Yes" <==> confirmed
  {
    var cell := if confirmed then "Yes " + ConfirmedSymbol(env) else "No  " + NotConfirmedSymbol(env);
    assert cell[..3] == (if confirmed then "Yes" else "No ");
    cell
  }
}
