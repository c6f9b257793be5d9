/** pandas' `merge(..., on="id_discente", how="left")` and the one-row-per-
    student tables that `groupby` and `pivot_table` produce. */
module Joins {
  import opened Wrappers
  import opened Seqs
  import opened Frames
  import Loading

  /** The join key. */
  const KeyColumn := Loading.IdColumn

  /** The cells of columns that found no match (NaN). */
  function MissingCells(cols: set<string>): (m: map<string, Cell>)
    ensures m.Keys == cols
    ensures forall k | k in cols :: m[k] == Missing
  {
    map k | k in cols :: Missing
  }

  /** The rows whose key equals `key`, in order. */
  function Matches(rows: seq<Row>, key: Cell): (r: seq<Row>)
    ensures |r| <= |rows|
  {
    if |rows| == 0 then []
    else (if Get(rows[0], KeyColumn) == key then [rows[0]] else []) + Matches(rows[1..], key)
  }

  /** The output rows of one left row: one per matching right row, or one
      padded with missing cells when nothing matches. */
  function JoinRow(l: Row, right: Frame): seq<Row> {
    var ms := Matches(right.rows, Get(l, KeyColumn));
    if |ms| == 0 then [l + MissingCells(right.columns - {KeyColumn})]
    else seq(|ms|, j requires 0 <= j < |ms| => l + (ms[j] - {KeyColumn}))
  }

  /** A left join: every left row, in order, extended by the right columns
      of each of its matches. */
  function LeftJoin(left: seq<Row>, right: Frame): seq<Row> {
    if |left| == 0 then [] else JoinRow(left[0], right) + LeftJoin(left[1..], right)
  }

  /** No two right rows share a key. */
  predicate UniqueKeys(right: Frame) {
    forall i, j | 0 <= i < j < |right.rows| ::
      Get(right.rows[i], KeyColumn) != Get(right.rows[j], KeyColumn)
  }

  /** The single match of a key, if any. */
  function MatchOf(l: Row, right: Frame): Row {
    var ms := Matches(right.rows, Get(l, KeyColumn));
    if |ms| == 0 then MissingCells(right.columns - {KeyColumn}) else ms[0] - {KeyColumn}
  }

  lemma {:induction false} MatchesUnique(rows: seq<Row>, key: Cell)
    requires forall i, j | 0 <= i < j < |rows| :: Get(rows[i], KeyColumn) != Get(rows[j], KeyColumn)
    ensures |Matches(rows, key)| <= 1
    ensures |Matches(rows, key)| == 1 ==> Matches(rows, key)[0] in rows
  {
    if |rows| > 0 {
      MatchesUnique(rows[1..], key);
      if Get(rows[0], KeyColumn) == key {
        MatchesNone(rows[1..], key);
      }
    }
  }

  lemma {:induction false} MatchesNone(rows: seq<Row>, key: Cell)
    requires forall i | 0 <= i < |rows| :: Get(rows[i], KeyColumn) != key
    ensures Matches(rows, key) == []
  {
    if |rows| > 0 {
      MatchesNone(rows[1..], key);
    }
  }

  lemma JoinRowOneToOne(l: Row, right: Frame)
    requires UniqueKeys(right)
    ensures JoinRow(l, right) == [l + MatchOf(l, right)]
  {
    var ms := Matches(right.rows, Get(l, KeyColumn));
    MatchesUnique(right.rows, Get(l, KeyColumn));
    if |ms| == 1 {
      var js := seq(|ms|, j requires 0 <= j < |ms| => l + (ms[j] - {KeyColumn}));
      assert js[0] == l + (ms[0] - {KeyColumn});
      assert js == [l + (ms[0] - {KeyColumn})];
    }
  }

  /** When the right side has at most one row per key, a left join keeps
      exactly one row per left row, in order: the left row extended by its
      match or by missing cells. */
  lemma {:induction false} LeftJoinOneToOne(left: seq<Row>, right: Frame)
    requires UniqueKeys(right)
    ensures |LeftJoin(left, right)| == |left|
    ensures forall i | 0 <= i < |left| :: LeftJoin(left, right)[i] == left[i] + MatchOf(left[i], right)
  {
    if |left| > 0 {
      JoinRowOneToOne(left[0], right);
      LeftJoinOneToOne(left[1..], right);
      var rest := LeftJoin(left[1..], right);
      var out := LeftJoin(left, right);
      assert out == [left[0] + MatchOf(left[0], right)] + rest;
      forall i | 0 <= i < |left|
        ensures out[i] == left[i] + MatchOf(left[i], right)
      {
        if i > 0 {
          assert out[i] == rest[i - 1];
          assert left[1..][i - 1] == left[i];
        }
      }
    }
  }

  /** A table with one row per key: the row of key `s` holds `cells(s)`
      (the result of `groupby(...).agg(...).reset_index()`). */
  function Grouped(keys: seq<string>, cols: set<string>, cells: string -> map<string, Cell>): Frame {
    Frame(cols + {KeyColumn},
      seq(|keys|, i requires 0 <= i < |keys| => cells(keys[i])[KeyColumn := Text(keys[i])]))
  }

  lemma GroupedUniqueKeys(keys: seq<string>, cols: set<string>, cells: string -> map<string, Cell>)
    requires NoDup(keys)
    ensures UniqueKeys(Grouped(keys, cols, cells))
  {
    var g := Grouped(keys, cols, cells);
    forall i, j | 0 <= i < j < |g.rows|
      ensures Get(g.rows[i], KeyColumn) != Get(g.rows[j], KeyColumn)
    {
      assert Get(g.rows[i], KeyColumn) == Text(keys[i]);
      assert Get(g.rows[j], KeyColumn) == Text(keys[j]);
    }
  }

  /** The right-hand cells a left row with key `Text(s)` receives from a
      grouped table. */
  function GroupCells(s: string, keys: seq<string>, cols: set<string>, cells: string -> map<string, Cell>): map<string, Cell> {
    if s in keys then cells(s) else MissingCells(cols)
  }

  lemma {:induction false} MatchesAt(rows: seq<Row>, key: Cell, k: nat)
    requires k < |rows| && Get(rows[k], KeyColumn) == key
    requires forall j | 0 <= j < |rows| && j != k :: Get(rows[j], KeyColumn) != key
    ensures Matches(rows, key) == [rows[k]]
  {
    if k == 0 {
      MatchesNone(rows[1..], key);
    } else {
      MatchesAt(rows[1..], key, k - 1);
    }
  }

  /** Joining a grouped table: a left row keyed `s` gains `cells(s)` when `s`
      is one of the table's keys and missing cells otherwise. */
  lemma JoinGrouped(left: seq<Row>, keys: seq<string>, cols: set<string>, cells: string -> map<string, Cell>)
    requires NoDup(keys) && KeyColumn !in cols
    requires forall i | 0 <= i < |keys| :: cells(keys[i]).Keys == cols
    requires forall i | 0 <= i < |left| :: Get(left[i], KeyColumn).Text?
    ensures |LeftJoin(left, Grouped(keys, cols, cells))| == |left|
    ensures forall i | 0 <= i < |left| ::
      (LeftJoin(left, Grouped(keys, cols, cells))[i] ==
       left[i] + GroupCells(Get(left[i], KeyColumn).t, keys, cols, cells))
  {
    var g := Grouped(keys, cols, cells);
    GroupedUniqueKeys(keys, cols, cells);
    LeftJoinOneToOne(left, g);
    forall i | 0 <= i < |left|
      ensures MatchOf(left[i], g) == GroupCells(Get(left[i], KeyColumn).t, keys, cols, cells)
    {
      GroupedMatch(Get(left[i], KeyColumn).t, left[i], keys, cols, cells);
    }
  }

  /** The match a row keyed `s` finds in a grouped table. */
  lemma GroupedMatch(s: string, l: Row, keys: seq<string>, cols: set<string>, cells: string -> map<string, Cell>)
    requires NoDup(keys) && KeyColumn !in cols
    requires forall i | 0 <= i < |keys| :: cells(keys[i]).Keys == cols
    requires Get(l, KeyColumn) == Text(s)
    ensures MatchOf(l, Grouped(keys, cols, cells)) == GroupCells(s, keys, cols, cells)
  {
    var g := Grouped(keys, cols, cells);
    if s in keys {
      var k := IndexOf(keys, s);
      forall j | 0 <= j < |g.rows| && j != k
        ensures Get(g.rows[j], KeyColumn) != Text(s)
      {
        assert Get(g.rows[j], KeyColumn) == Text(keys[j]);
      }
      MatchesAt(g.rows, Text(s), k);
      assert cells(s)[KeyColumn := Text(s)] - {KeyColumn} == cells(s);
    } else {
      forall j | 0 <= j < |g.rows|
        ensures Get(g.rows[j], KeyColumn) != Text(s)
      {
        assert Get(g.rows[j], KeyColumn) == Text(keys[j]);
      }
      MatchesNone(g.rows, Text(s));
    }
  }

  // ---------------------------------------------------- a chain of joins

  /** A one-row-per-key table given by its keys, its non-key columns and the
      cells of each key. */
  datatype Table = Table(keys: seq<string>, cols: set<string>, cells: string -> map<string, Cell>)

  predicate ValidTable(t: Table) {
    NoDup(t.keys) && KeyColumn !in t.cols
    && forall i | 0 <= i < |t.keys| :: t.cells(t.keys[i]).Keys == t.cols
  }

  predicate ValidTables(ts: seq<Table>) {
    forall k | 0 <= k < |ts| :: ValidTable(ts[k])
  }

  /** A table of one column beside the key. */
  function Column(keys: seq<string>, col: string, value: string -> Cell): (t: Table)
    requires NoDup(keys) && col != KeyColumn
    ensures ValidTable(t) && t.keys == keys && t.cols == {col}
    ensures forall s :: t.cells(s) == map[col := value(s)]
  {
    Table(keys, {col}, s => map[col := value(s)])
  }

  function TableFrame(t: Table): Frame {
    Grouped(t.keys, t.cols, t.cells)
  }

  /** Left-joining the tables one after the other, in order. */
  function JoinAll(rows: seq<Row>, ts: seq<Table>): seq<Row> {
    if |ts| == 0 then rows
    else LeftJoin(JoinAll(rows, ts[..|ts| - 1]), TableFrame(ts[|ts| - 1]))
  }

  /** The cells table `t` gives a row keyed `s`. */
  function TableCells(s: string, t: Table): Row {
    GroupCells(s, t.keys, t.cols, t.cells)
  }

  lemma TableCellsAvoidKey(s: string, t: Table)
    requires ValidTable(t)
    ensures KeyColumn !in TableCells(s, t)
  {
    if s in t.keys {
      var i := IndexOf(t.keys, s);
      assert t.cells(t.keys[i]).Keys == t.cols;
    }
  }

  /** The cells the tables give, one after the other, to a row keyed `s`. */
  function CellsOf(s: string, ts: seq<Table>): Row {
    if |ts| == 0 then map[]
    else CellsOf(s, ts[..|ts| - 1]) + TableCells(s, ts[|ts| - 1])
  }

  /** Joining two lists of tables one after the other gives a row the cells
      of the first list, then those of the second. */
  lemma {:induction false} CellsOfConcat(s: string, a: seq<Table>, b: seq<Table>)
    ensures CellsOf(s, a + b) == CellsOf(s, a) + CellsOf(s, b)
  {
    if |b| == 0 {
      assert a + b == a;
    } else {
      var init := b[..|b| - 1];
      CellsOfConcat(s, a, init);
      assert (a + b)[..|a + b| - 1] == a + init;
      UnionAssoc(CellsOf(s, a), CellsOf(s, init), TableCells(s, b[|b| - 1]));
    }
  }

  lemma CellsOfSnoc(s: string, ts: seq<Table>, t: Table)
    ensures CellsOf(s, ts + [t]) == CellsOf(s, ts) + TableCells(s, t)
  {
    assert (ts + [t])[..|ts|] == ts;
  }

  lemma CellsOfOne(s: string, a: Table)
    ensures CellsOf(s, [a]) == TableCells(s, a)
  {
    CellsOfSnoc(s, [], a);
    assert [] + [a] == [a];
    var t := TableCells(s, a);
    assert map[] + t == t;
  }

  lemma CellsOfTwo(s: string, a: Table, b: Table)
    ensures CellsOf(s, [a, b]) == TableCells(s, a) + TableCells(s, b)
  {
    CellsOfOne(s, a);
    CellsOfSnoc(s, [a], b);
    assert [a] + [b] == [a, b];
  }

  lemma CellsOfFive(s: string, a: Table, b: Table, c: Table, d: Table, e: Table)
    ensures CellsOf(s, [a, b, c, d, e])
      == TableCells(s, a) + TableCells(s, b) + TableCells(s, c) + TableCells(s, d) + TableCells(s, e)
  {
    CellsOfTwo(s, a, b);
    CellsOfSnoc(s, [a, b], c);
    assert [a, b] + [c] == [a, b, c];
    CellsOfSnoc(s, [a, b, c], d);
    assert [a, b, c] + [d] == [a, b, c, d];
    CellsOfSnoc(s, [a, b, c, d], e);
    assert [a, b, c, d] + [e] == [a, b, c, d, e];
  }

  /** The identifier of a row whose identifier is text. */
  function KeyOf(r: Row): string
    requires Get(r, KeyColumn).Text?
  {
    Get(r, KeyColumn).t
  }

  predicate Keyed(rows: seq<Row>) {
    forall i | 0 <= i < |rows| :: Get(rows[i], KeyColumn).Text?
  }

  lemma UnionAssoc(a: Row, b: Row, c: Row)
    ensures a + b + c == a + (b + c)
  {
    var l := a + b + c;
    var r := a + (b + c);
    assert l.Keys == r.Keys;
    forall k | k in l
      ensures l[k] == r[k]
    {
    }
  }

  lemma AddCells(r: Row, acc: Row, g: Row, prev: Row, out: Row)
    requires prev == r + acc && Get(prev, KeyColumn) == Get(r, KeyColumn)
    requires KeyColumn !in g && out == prev + g
    ensures out == r + (acc + g) && Get(out, KeyColumn) == Get(r, KeyColumn)
  {
    UnionAssoc(r, acc, g);
  }

  /** A chain of joins with one-row-per-key tables keeps one row per input
      row, in order, keeps its key, and adds the cells of every table. */
  lemma {:induction false} JoinAllRows(rows: seq<Row>, ts: seq<Table>)
    requires Keyed(rows)
    requires ValidTables(ts)
    ensures |JoinAll(rows, ts)| == |rows|
    ensures forall i | 0 <= i < |rows| ::
      (Get(JoinAll(rows, ts)[i], KeyColumn) == Get(rows[i], KeyColumn)
       && JoinAll(rows, ts)[i] == rows[i] + CellsOf(KeyOf(rows[i]), ts))
  {
    if |ts| > 0 {
      var init := ts[..|ts| - 1];
      var t := ts[|ts| - 1];
      JoinAllRows(rows, init);
      var prev := JoinAll(rows, init);
      assert Keyed(prev);
      var out := LeftJoin(prev, TableFrame(t));
      assert JoinAll(rows, ts) == out;
      JoinGrouped(prev, t.keys, t.cols, t.cells);
      forall i | 0 <= i < |rows|
        ensures out[i] == rows[i] + CellsOf(KeyOf(rows[i]), ts)
        ensures Get(out[i], KeyColumn) == Get(rows[i], KeyColumn)
      {
        var s := KeyOf(rows[i]);
        assert CellsOf(s, ts) == CellsOf(s, init) + TableCells(s, t);
        TableCellsAvoidKey(s, t);
        AddCells(rows[i], CellsOf(s, init), TableCells(s, t), prev[i], out[i]);
      }
    }
  }
}
