/** The tabular values the pipeline passes between its stages: a cell of a
    pandas data frame, rows keyed by column name, and the run configuration. */
module Frames {
  import opened Wrappers

  /** One cell: pandas' missing marker (NaN), a number, or a text value. */
  datatype Cell = Missing | Num(n: real) | Text(t: string)

  /** A row keyed by column name. */
  type Row = map<string, Cell>

  /** A data frame whose columns are addressed by name. Column order is not
      modelled. */
  datatype Frame = Frame(columns: set<string>, rows: seq<Row>)

  /** Every row holds exactly the frame's columns. */
  predicate WellFormed(f: Frame) {
    forall i | 0 <= i < |f.rows| :: f.rows[i].Keys == f.columns
  }

  /** A frame as read from CSV, before its header is normalised: cells are
      positional and the header may repeat a name. */
  datatype RawFrame = RawFrame(header: seq<string>, rows: seq<seq<Cell>>)

  predicate Rectangular(f: RawFrame) {
    forall i | 0 <= i < |f.rows| :: |f.rows[i]| == |f.header|
  }

  /** The ways a run stops: a column the code indexes is absent (`KeyError`),
      two columns end up with one name, or a text value is ordered against
      a number (`TypeError`). */
  datatype Error =
    | MissingColumn(name: string)
    | DuplicateColumn(name: string)
    | NotComparable(name: string)

  /** The environment of a run. The functions stand for library code:
      `numText` is Python's `str` of a number, `parseNum` is `pd.to_numeric`
      on text (`None` for unparsable text), `stripAccents` is the NFKD-based
      accent removal; `currentYear` is the clock's year. */
  datatype Config = Config(
    currentYear: int,
    numText: real -> string,
    parseNum: string -> Option<real>,
    stripAccents: string -> string)

  /** `astype(str)` of one cell: a missing value becomes the text "nan". */
  function AsText(c: Cell, numText: real -> string): string {
    match c
    case Missing => "nan"
    case Num(x) => numText(x)
    case Text(s) => s
  }

  /** `pd.to_numeric(..., errors="coerce")` of one cell. */
  function ToNumeric(c: Cell, parseNum: string -> Option<real>): Cell {
    match c
    case Missing => Missing
    case Num(x) => Num(x)
    case Text(s) => if parseNum(s).Some? then Num(parseNum(s).value) else Missing
  }

  /** A row's cell, or `Missing` for a column it does not have. */
  function Get(r: Row, k: string): Cell {
    if k in r then r[k] else Missing
  }

  /** Numeric equality as pandas evaluates `column == x`: only a number can
      equal a number. */
  predicate NumEquals(c: Cell, x: real) {
    c.Num? && c.n == x
  }
}
