/** The pure logic of the three loaders: header and identifier
    normalisation, the undergraduate population filter, the makeup-flag
    coercion and the removal of rows whose student has no personal record. */
module Loading {
  import opened Wrappers
  import opened Seqs
  import opened Text
  import opened Frames
  import opened Records

  const IdColumn := "id_discente"
  const LevelColumn := "nivel_ensino"
  const Undergraduate := "GRADUAÇÃO"

  // ---------------------------------------------------------------- headers

  /** `rename(columns=str.strip).rename(columns=str.lower)`. */
  function StandardizeHeader(h: seq<string>): (r: seq<string>)
    ensures |r| == |h|
  {
    seq(|h|, i requires 0 <= i < |h| => Standardize(h[i]))
  }

  /** Normalising an already normalised header changes nothing. */
  lemma StandardizeHeaderIdempotent(h: seq<string>)
    ensures StandardizeHeader(StandardizeHeader(h)) == StandardizeHeader(h)
  {
    forall i | 0 <= i < |h|
      ensures StandardizeHeader(StandardizeHeader(h))[i] == StandardizeHeader(h)[i]
    {
      StandardizeIdempotent(h[i]);
    }
  }

  /** `rename(columns={from: to})`: renames exactly-matching names only. */
  function RenameColumn(h: seq<string>, from: string, to: string): (r: seq<string>)
    ensures |r| == |h|
    ensures forall i | 0 <= i < |h| :: r[i] == (if h[i] == from then to else h[i])
  {
    if |h| == 0 then []
    else [if h[0] == from then to else h[0]] + RenameColumn(h[1..], from, to)
  }

  /** Position `j` holds the first occurrence of its name. */
  predicate IsFirstOccurrence(h: seq<string>, j: nat)
    requires j < |h|
  {
    forall i | 0 <= i < j :: h[i] != h[j]
  }

  /** `df.loc[:, ~df.columns.duplicated()]`: the positions of the first
      occurrence of each name, in increasing order. */
  function KeepFirstColumns(h: seq<string>): (r: seq<nat>)
    ensures forall k | 0 <= k < |r| :: r[k] < |h| && IsFirstOccurrence(h, r[k])
    ensures forall j | 0 <= j < |h| :: IsFirstOccurrence(h, j) ==> j in r
    ensures forall k, l | 0 <= k < l < |r| :: r[k] < r[l]
  {
    if |h| == 0 then []
    else
      var last := |h| - 1;
      var init := h[..last];
      var r := KeepFirstColumns(init);
      assert forall j | 0 <= j < last :: IsFirstOccurrence(init, j) == IsFirstOccurrence(h, j);
      if IsFirstOccurrence(h, last) then r + [last] else r
  }

  /** The names of the columns kept by `KeepFirstColumns`. */
  function Project(h: seq<string>, idx: seq<nat>): (r: seq<string>)
    requires forall k | 0 <= k < |idx| :: idx[k] < |h|
    ensures |r| == |idx|
  {
    seq(|idx|, k requires 0 <= k < |idx| => h[idx[k]])
  }

  /** The enrollment header once `carregar_matriculas` has renamed the
      exact name `discente` and `padronizar_colunas` has normalised it. */
  function RenamedEnrollmentHeader(raw: seq<string>): seq<string> {
    StandardizeHeader(RenameColumn(raw, "discente", IdColumn))
  }

  /** The enrollment header after `carregar_matriculas` has renamed
      `discente`, normalised the names and dropped repeated columns: every
      name of the normalised header, each once, in order of first
      occurrence. `padronizar_colunas` reads `id_discente` before the
      repeats are dropped: without it that is a `KeyError`, and with it
      twice (a `discente` next to an `id_discente`, say) the lookup yields
      two columns and the `.str` accessor fails. */
  function EnrollmentHeader(raw: seq<string>): (r: Result<seq<string>, Error>)
    ensures r == Err(MissingColumn(IdColumn)) <==> IdColumn !in RenamedEnrollmentHeader(raw)
    ensures r == Err(DuplicateColumn(IdColumn)) <==>
      multiset(RenamedEnrollmentHeader(raw))[IdColumn] > 1
    ensures r.Ok? <==> multiset(RenamedEnrollmentHeader(raw))[IdColumn] == 1
    ensures r.Ok? ==> NoDup(r.value) && IdColumn in r.value
    ensures r.Ok? ==> forall x :: x in r.value <==> x in RenamedEnrollmentHeader(raw)
  {
    var h := RenamedEnrollmentHeader(raw);
    if IdColumn !in h then Err(MissingColumn(IdColumn))
    else if multiset(h)[IdColumn] > 1 then Err(DuplicateColumn(IdColumn))
    else
      var idx := KeepFirstColumns(h);
      ProjectFirstColumns(h);
      Ok(Project(h, idx))
  }

  lemma StandardIdColumn()
    ensures Standardize(IdColumn) == IdColumn
  {
    StripFixed(IdColumn);
    LowerKeepsLower(IdColumn);
  }

  /** A `discente` or `id_discente` name becomes the identifier. */
  lemma RenamedIdAt(raw: seq<string>, i: nat)
    requires i < |raw| && (raw[i] == "discente" || raw[i] == IdColumn)
    ensures RenamedEnrollmentHeader(raw)[i] == IdColumn
  {
    assert RenameColumn(raw, "discente", IdColumn)[i] == IdColumn;
    StandardIdColumn();
  }

  /** A name shorter than `id_discente`, other than `discente`, does not
      become the identifier. */
  lemma ShortNameAt(raw: seq<string>, i: nat)
    requires i < |raw| && raw[i] != "discente" && |raw[i]| < |IdColumn|
    ensures RenamedEnrollmentHeader(raw)[i] != IdColumn
  {
    assert |RenamedEnrollmentHeader(raw)[i]| <= |raw[i]|;
  }

  /** Two names that both become the identifier are refused. */
  lemma IdTwiceRefused(raw: seq<string>, i: nat, j: nat)
    requires i < j < |raw|
    requires raw[i] == "discente" || raw[i] == IdColumn
    requires raw[j] == "discente" || raw[j] == IdColumn
    ensures EnrollmentHeader(raw) == Err(DuplicateColumn(IdColumn))
  {
    var h := RenamedEnrollmentHeader(raw);
    RenamedIdAt(raw, i);
    RenamedIdAt(raw, j);
    TwoPositions(h, i, j);
  }

  /** A header whose names are all shorter than `id_discente` and none of
      them `discente` lacks the identifier. */
  lemma ShortNamesLackId(raw: seq<string>)
    requires forall i | 0 <= i < |raw| :: raw[i] != "discente" && |raw[i]| < |IdColumn|
    ensures EnrollmentHeader(raw) == Err(MissingColumn(IdColumn))
  {
    var h := RenamedEnrollmentHeader(raw);
    forall i | 0 <= i < |h|
      ensures h[i] != IdColumn
    {
      ShortNameAt(raw, i);
    }
  }

  /** A leading `discente` followed by short names only is accepted, however
      often those names repeat. */
  lemma LeadingIdAccepted(raw: seq<string>)
    requires |raw| > 0 && raw[0] == "discente"
    requires forall i | 1 <= i < |raw| :: raw[i] != "discente" && |raw[i]| < |IdColumn|
    ensures EnrollmentHeader(raw).Ok?
  {
    var h := RenamedEnrollmentHeader(raw);
    RenamedIdAt(raw, 0);
    assert IdColumn !in h[1..] by {
      forall k | 0 <= k < |h| - 1
        ensures h[1..][k] != IdColumn
      {
        ShortNameAt(raw, k + 1);
      }
    }
    assert h == [h[0]] + h[1..];
  }

  /** A `discente` column beside an `id_discente` one repeats the
      identifier. */
  lemma RenameRepeatsId()
    ensures EnrollmentHeader(["discente", "id_discente", "id_turma"]) == Err(DuplicateColumn(IdColumn))
  {
    IdTwiceRefused(["discente", "id_discente", "id_turma"], 0, 1);
  }

  /** A padded `Discente ` is not renamed, so the identifier is missing. */
  lemma PaddedNameNotRenamed()
    ensures EnrollmentHeader(["Discente ", "id_turma"]) == Err(MissingColumn(IdColumn))
  {
    ShortNamesLackId(["Discente ", "id_turma"]);
  }

  /** A repeated column other than the identifier is dropped. */
  lemma RepeatedColumnDropped()
    ensures EnrollmentHeader(["discente", "id_turma", "id_turma"]).Ok?
  {
    LeadingIdAccepted(["discente", "id_turma", "id_turma"]);
  }

  /** Projecting onto the first occurrences keeps every name exactly once. */
  lemma ProjectFirstColumns(h: seq<string>)
    ensures NoDup(Project(h, KeepFirstColumns(h)))
    ensures forall x :: x in Project(h, KeepFirstColumns(h)) <==> x in h
  {
    var idx := KeepFirstColumns(h);
    var r := Project(h, idx);
    forall k, l | 0 <= k < l < |r|
      ensures r[k] != r[l]
    {
      assert idx[k] < idx[l];
      assert IsFirstOccurrence(h, idx[l]);
    }
    forall x | x in h
      ensures x in r
    {
      var j := IndexOf(h, x);
      assert IsFirstOccurrence(h, j) by {
        forall i | 0 <= i < j
          ensures h[i] != h[j]
        {
          assert h[i] == h[..j][i];
        }
      }
      assert j in idx;
      var k :| 0 <= k < |idx| && idx[k] == j;
      assert r[k] == x;
    }
  }

  // ----------------------------------------------------- personal records

  /** A row of a header without repeated names, keyed by name. */
  function RowOf(h: seq<string>, cells: seq<Cell>): (r: Row)
    requires NoDup(h) && |cells| == |h|
    ensures r.Keys == set x | x in h
    ensures forall j | 0 <= j < |h| :: r[h[j]] == cells[j]
  {
    var r := map x | x in h :: cells[IndexOf(h, x)];
    assert forall j | 0 <= j < |h| :: IndexOf(h, h[j]) == j;
    r
  }

  /** Some name that the header repeats. */
  function Repeated(h: seq<string>): string
    requires !NoDup(h)
  {
    if h[0] in h[1..] then h[0]
    else
      assert !NoDup(h[1..]) by {
        var i, j :| 0 <= i < j < |h| && h[i] == h[j];
        assert i != 0;
        assert h[1..][i - 1] == h[1..][j - 1];
      }
      Repeated(h[1..])
  }

  /** The normalised form of a student identifier cell: `astype(str)`, then
      strip and lower-case. */
  function NormalizeId(c: Cell, numText: real -> string): string {
    Standardize(AsText(c, numText))
  }

  /** A normalised identifier is its own normalisation. */
  lemma NormalizeIdIdempotent(c: Cell, numText: real -> string)
    ensures NormalizeId(Text(NormalizeId(c, numText)), numText) == NormalizeId(c, numText)
  {
    StandardizeIdempotent(AsText(c, numText));
  }

  /** Every row's identifier is a normalised text value. */
  predicate IdsNormalized(f: Frame) {
    forall i | 0 <= i < |f.rows| ::
      IdColumn in f.rows[i] && f.rows[i][IdColumn].Text?
      && Standardize(f.rows[i][IdColumn].t) == f.rows[i][IdColumn].t
  }

  /** One personal row keyed by the normalised header, its identifier
      normalised. */
  function NormalizedRow(h: seq<string>, cells: seq<Cell>, numText: real -> string): (r: Row)
    requires NoDup(h) && |cells| == |h| && IdColumn in h
    ensures r.Keys == set x | x in h
    ensures r[IdColumn] == Text(NormalizeId(cells[IndexOf(h, IdColumn)], numText))
    ensures forall j | 0 <= j < |h| && h[j] != IdColumn :: r[h[j]] == cells[j]
  {
    var row := RowOf(h, cells);
    var r := row[IdColumn := Text(NormalizeId(row[IdColumn], numText))];
    assert r.Keys == row.Keys;
    assert forall j | 0 <= j < |h| && h[j] != IdColumn :: r[h[j]] == row[h[j]];
    r
  }

  /** The personal rows keyed by a normalised header. */
  function NormalizedRows(h: seq<string>, rows: seq<seq<Cell>>, numText: real -> string): (r: seq<Row>)
    requires NoDup(h) && IdColumn in h
    requires forall i | 0 <= i < |rows| :: |rows[i]| == |h|
    ensures |r| == |rows|
    ensures forall i | 0 <= i < |r| :: r[i] == NormalizedRow(h, rows[i], numText)
  {
    seq(|rows|, i requires 0 <= i < |rows| => NormalizedRow(h, rows[i], numText))
  }

  /** The rows built by `NormalizedRows` form a frame with normalised
      identifiers. */
  lemma NormalizedRowsShape(h: seq<string>, rows: seq<seq<Cell>>, numText: real -> string)
    requires NoDup(h) && IdColumn in h
    requires forall i | 0 <= i < |rows| :: |rows[i]| == |h|
    ensures var f := Frame((set x | x in h), NormalizedRows(h, rows, numText));
      WellFormed(f) && IdsNormalized(f)
  {
    var r := NormalizedRows(h, rows, numText);
    forall i | 0 <= i < |r|
      ensures r[i].Keys == (set x | x in h)
      ensures IdColumn in r[i] && r[i][IdColumn].Text?
      ensures Standardize(r[i][IdColumn].t) == r[i][IdColumn].t
    {
      NormalizeIdIdempotent(rows[i][IndexOf(h, IdColumn)], numText);
    }
  }

  /** Row `i` of the personal records after `padronizar_colunas`. */
  function PersonalRow(raw: RawFrame, i: nat, numText: real -> string): Row
    requires Rectangular(raw) && i < |raw.rows|
    requires NoDup(StandardizeHeader(raw.header)) && IdColumn in StandardizeHeader(raw.header)
  {
    NormalizedRow(StandardizeHeader(raw.header), raw.rows[i], numText)
  }

  /** `padronizar_colunas` on the personal records: normalises the header
      and the identifier column. A normalised header naming one column twice
      is refused, and a header without `id_discente` raises `KeyError`. */
  function StandardizePersonal(raw: RawFrame, numText: real -> string): (r: Result<Frame, Error>)
    requires Rectangular(raw)
    ensures r.Ok? ==> WellFormed(r.value) && IdsNormalized(r.value)
    ensures r.Ok? ==> r.value.columns == set x | x in StandardizeHeader(raw.header)
    ensures r.Ok? ==> |r.value.rows| == |raw.rows|
    ensures r.Err? <==> !NoDup(StandardizeHeader(raw.header)) || IdColumn !in StandardizeHeader(raw.header)
    ensures r.Ok? ==> forall i | 0 <= i < |raw.rows| :: r.value.rows[i] == PersonalRow(raw, i, numText)
  {
    var h := StandardizeHeader(raw.header);
    if !NoDup(h) then Err(DuplicateColumn(Repeated(h)))
    else if IdColumn !in h then Err(MissingColumn(IdColumn))
    else
      NormalizedRowsShape(h, raw.rows, numText);
      Ok(Frame((set x | x in h), NormalizedRows(h, raw.rows, numText)))
  }

  /** The population of interest: the education level, upper-cased and
      trimmed, is exactly "GRADUAÇÃO". Only a text value can match. */
  predicate IsUndergraduate(level: Cell) {
    level.Text? && Strip(Upper(level.t)) == Undergraduate
  }

  /** The undergraduate rows, in order, with their repeats. */
  function Undergraduates(rows: seq<Row>): seq<Row> {
    Filter(rows, (row: Row) => IsUndergraduate(Get(row, LevelColumn)))
  }

  /** The undergraduate filter of `carregar_dados_pessoais`; the code raises
      `KeyError` when the level column is absent. Exactly the undergraduate
      rows are kept, in order, with their columns untouched. */
  function FilterUndergraduate(f: Frame): (r: Result<Frame, Error>)
    ensures r.Err? <==> LevelColumn !in f.columns
    ensures r.Ok? ==> r.value.columns == f.columns
    ensures r.Ok? ==> r.value.rows == Undergraduates(f.rows)
    ensures r.Ok? ==> forall i | 0 <= i < |r.value.rows| ::
      r.value.rows[i] in f.rows && IsUndergraduate(r.value.rows[i][LevelColumn])
    ensures r.Ok? ==> forall i | 0 <= i < |f.rows| ::
      IsUndergraduate(Get(f.rows[i], LevelColumn)) ==> f.rows[i] in r.value.rows
  {
    if LevelColumn !in f.columns then Err(MissingColumn(LevelColumn))
    else Ok(Frame(f.columns, Undergraduates(f.rows)))
  }

  /** One row under `rename(columns={"status": "status_do_discente"})`. */
  function RenameStatusRow(row: Row): Row {
    if "status" in row then (row - {"status"})["status_do_discente" := row["status"]] else row
  }

  /** Every row under the `status` rename, in order. */
  function RenameStatusRows(rows: seq<Row>): (r: seq<Row>)
    ensures |r| == |rows|
    ensures forall i | 0 <= i < |rows| :: r[i] == RenameStatusRow(rows[i])
  {
    seq(|rows|, i requires 0 <= i < |rows| => RenameStatusRow(rows[i]))
  }

  /** The column names after the `status` rename. */
  function RenamedColumns(columns: set<string>): set<string> {
    if "status" in columns then columns - {"status"} + {"status_do_discente"} else columns
  }

  /** `rename(columns={"status": "status_do_discente"})`. Renaming onto a name
      the frame already has would give two columns of one name, which is
      refused. */
  function RenameStatus(f: Frame): (r: Result<Frame, Error>)
    requires WellFormed(f)
    ensures r.Ok? ==> WellFormed(r.value) && |r.value.rows| == |f.rows|
    ensures r.Ok? ==> "status" !in r.value.columns
    ensures r.Ok? ==> (r.value.columns ==
      if "status" in f.columns then f.columns - {"status"} + {"status_do_discente"} else f.columns)
    ensures r.Ok? ==> forall i, k | 0 <= i < |f.rows| && k in f.rows[i] && k != "status" ::
      r.value.rows[i][k] == f.rows[i][k]
    ensures r.Ok? && "status" in f.columns ==> forall i | 0 <= i < |f.rows| ::
      r.value.rows[i]["status_do_discente"] == f.rows[i]["status"]
    ensures r.Err? <==> "status" in f.columns && "status_do_discente" in f.columns
    ensures r.Ok? ==> forall i | 0 <= i < |f.rows| :: r.value.rows[i] == RenameStatusRow(f.rows[i])
  {
    if "status" !in f.columns then Ok(f)
    else if "status_do_discente" in f.columns then Err(DuplicateColumn("status_do_discente"))
    else Ok(Frame(f.columns - {"status"} + {"status_do_discente"},
      seq(|f.rows|, i requires 0 <= i < |f.rows| => RenameStatusRow(f.rows[i]))))
  }

  /** The undergraduate filter and the `status` rename of
      `carregar_dados_pessoais`, on the standardised records: every
      undergraduate row, renamed, and nothing else. */
  function SelectPersonal(s: Frame): (r: Result<Frame, Error>)
    requires WellFormed(s) && IdsNormalized(s)
    ensures r.Ok? ==> WellFormed(r.value) && IdsNormalized(r.value)
    ensures r.Ok? ==> |r.value.rows| <= |s.rows|
    ensures r.Ok? ==> forall i | 0 <= i < |r.value.rows| ::
      IsUndergraduate(Get(r.value.rows[i], LevelColumn))
    ensures r.Ok? ==> r.value.columns <= s.columns + {"status_do_discente"} && "status" !in r.value.columns
    ensures r.Ok? ==> forall i | 0 <= i < |s.rows| ::
      IsUndergraduate(Get(s.rows[i], LevelColumn)) ==> RenameStatusRow(s.rows[i]) in r.value.rows
    ensures r.Ok? ==> forall k | 0 <= k < |r.value.rows| :: exists i | 0 <= i < |s.rows| ::
      r.value.rows[k] == RenameStatusRow(s.rows[i])
    ensures r.Ok? ==> r.value.rows == RenameStatusRows(Undergraduates(s.rows))
    ensures r.Err? <==> LevelColumn !in s.columns || ("status" in s.columns && "status_do_discente" in s.columns)
    ensures r.Ok? ==> r.value.columns == RenamedColumns(s.columns)
  {
    var u :- FilterUndergraduate(s);
    FilteredRowsKeepShape(s, u);
    var p :- RenameStatus(u);
    RenamedRowsKeepShape(u, p);
    SelectedRowsRenamed(s, u, p);
    assert p.rows == RenameStatusRows(u.rows);
    Ok(p)
  }

  /** `carregar_dados_pessoais` after the files are read. */
  function LoadPersonal(raw: RawFrame, numText: real -> string): (r: Result<Frame, Error>)
    requires Rectangular(raw)
    ensures r.Ok? ==> WellFormed(r.value) && IdsNormalized(r.value)
    ensures r.Ok? ==> |r.value.rows| <= |raw.rows|
    ensures r.Ok? ==> forall i | 0 <= i < |r.value.rows| ::
      IsUndergraduate(Get(r.value.rows[i], LevelColumn))
    ensures r.Ok? ==> (r.value.columns <=
      (set x | x in StandardizeHeader(raw.header)) + {"status_do_discente"})
    ensures r.Ok? ==> "status" !in r.value.columns
    ensures r.Ok? ==> NoDup(StandardizeHeader(raw.header)) && IdColumn in StandardizeHeader(raw.header)
    ensures r.Ok? ==>
      r.value.rows == RenameStatusRows(Undergraduates(NormalizedRows(StandardizeHeader(raw.header), raw.rows, numText)))
    ensures r.Err? <==>
      || !NoDup(StandardizeHeader(raw.header))
      || IdColumn !in StandardizeHeader(raw.header)
      || LevelColumn !in StandardizeHeader(raw.header)
      || ("status" in StandardizeHeader(raw.header) && "status_do_discente" in StandardizeHeader(raw.header))
    ensures r.Ok? ==> r.value.columns == RenamedColumns(set x | x in StandardizeHeader(raw.header))
  {
    var h := StandardizeHeader(raw.header);
    var standardized := StandardizePersonal(raw, numText);
    if standardized.Err? then
      assert !NoDup(h) || IdColumn !in h;
      Err(standardized.error)
    else
      var s := standardized.value;
      assert NoDup(h) && IdColumn in h;
      SameMembers(h, s.columns, LevelColumn);
      SameMembers(h, s.columns, "status");
      SameMembers(h, s.columns, "status_do_discente");
      var r := SelectPersonal(s);
      if r.Err? then
        assert LevelColumn !in h || ("status" in h && "status_do_discente" in h);
        r
      else
        assert LevelColumn in h && !("status" in h && "status_do_discente" in h);
        r
  }

  /** A name is a column of the frame built from a header exactly when the
      header lists it. */
  lemma SameMembers(h: seq<string>, columns: set<string>, name: string)
    requires columns == set x | x in h
    ensures name in columns <==> name in h
  {
  }

  /** Every undergraduate input row is loaded, with `status` renamed, and
      every loaded row is such a row. */
  lemma LoadedPersonalRows(raw: RawFrame, numText: real -> string, p: Frame)
    requires Rectangular(raw)
    requires LoadPersonal(raw, numText) == Ok(p)
    ensures NoDup(StandardizeHeader(raw.header)) && IdColumn in StandardizeHeader(raw.header)
    ensures forall i | 0 <= i < |raw.rows| ::
      IsUndergraduate(Get(PersonalRow(raw, i, numText), LevelColumn)) ==>
      RenameStatusRow(PersonalRow(raw, i, numText)) in p.rows
    ensures forall k | 0 <= k < |p.rows| :: exists i | 0 <= i < |raw.rows| ::
      p.rows[k] == RenameStatusRow(PersonalRow(raw, i, numText))
  {
    var h := StandardizeHeader(raw.header);
    var ns := NormalizedRows(h, raw.rows, numText);
    var u := Undergraduates(ns);
    assert p.rows == RenameStatusRows(u);
    forall i | 0 <= i < |raw.rows| && IsUndergraduate(Get(PersonalRow(raw, i, numText), LevelColumn))
      ensures RenameStatusRow(PersonalRow(raw, i, numText)) in p.rows
    {
      assert ns[i] == PersonalRow(raw, i, numText);
      assert ns[i] in u;
      var j :| 0 <= j < |u| && u[j] == ns[i];
      assert p.rows[j] == RenameStatusRow(u[j]);
    }
    forall k | 0 <= k < |p.rows|
      ensures exists i | 0 <= i < |raw.rows| :: p.rows[k] == RenameStatusRow(PersonalRow(raw, i, numText))
    {
      assert p.rows[k] == RenameStatusRow(u[k]);
      assert u[k] in ns;
      var i :| 0 <= i < |ns| && ns[i] == u[k];
      assert ns[i] == PersonalRow(raw, i, numText);
    }
  }


  /** The renamed undergraduate rows are all there, and nothing else is. */
  lemma SelectedRowsRenamed(s: Frame, u: Frame, p: Frame)
    requires forall k | 0 <= k < |u.rows| :: u.rows[k] in s.rows
    requires forall i | 0 <= i < |s.rows| :: IsUndergraduate(Get(s.rows[i], LevelColumn)) ==> s.rows[i] in u.rows
    requires |p.rows| == |u.rows| && forall j | 0 <= j < |u.rows| :: p.rows[j] == RenameStatusRow(u.rows[j])
    ensures forall i | 0 <= i < |s.rows| ::
      IsUndergraduate(Get(s.rows[i], LevelColumn)) ==> RenameStatusRow(s.rows[i]) in p.rows
    ensures forall k | 0 <= k < |p.rows| :: exists i | 0 <= i < |s.rows| ::
      p.rows[k] == RenameStatusRow(s.rows[i])
  {
    forall i | 0 <= i < |s.rows| && IsUndergraduate(Get(s.rows[i], LevelColumn))
      ensures RenameStatusRow(s.rows[i]) in p.rows
    {
      var j :| 0 <= j < |u.rows| && u.rows[j] == s.rows[i];
      assert p.rows[j] == RenameStatusRow(u.rows[j]);
    }
    forall k | 0 <= k < |p.rows|
      ensures exists i | 0 <= i < |s.rows| :: p.rows[k] == RenameStatusRow(s.rows[i])
    {
      assert u.rows[k] in s.rows;
      var i :| 0 <= i < |s.rows| && s.rows[i] == u.rows[k];
      assert p.rows[k] == RenameStatusRow(s.rows[i]);
    }
  }

  /** Keeping a selection of a frame's rows keeps its shape and its
      normalised identifiers. */
  lemma FilteredRowsKeepShape(s: Frame, u: Frame)
    requires WellFormed(s) && IdsNormalized(s)
    requires u.columns == s.columns && forall i | 0 <= i < |u.rows| :: u.rows[i] in s.rows
    ensures WellFormed(u) && IdsNormalized(u)
  {
    forall i | 0 <= i < |u.rows|
      ensures u.rows[i].Keys == u.columns
      ensures IdColumn in u.rows[i] && u.rows[i][IdColumn].Text?
      ensures Standardize(u.rows[i][IdColumn].t) == u.rows[i][IdColumn].t
    {
      assert u.rows[i] in s.rows;
      var j :| 0 <= j < |s.rows| && s.rows[j] == u.rows[i];
    }
  }

  /** The status rename touches neither the identifier nor the level. */
  lemma RenamedRowsKeepShape(u: Frame, p: Frame)
    requires WellFormed(u) && IdsNormalized(u) && LevelColumn in u.columns
    requires forall i | 0 <= i < |u.rows| :: IsUndergraduate(u.rows[i][LevelColumn])
    requires RenameStatus(u) == Ok(p)
    ensures WellFormed(p) && IdsNormalized(p)
    ensures forall i | 0 <= i < |p.rows| :: IsUndergraduate(Get(p.rows[i], LevelColumn))
  {
    forall i | 0 <= i < |p.rows|
      ensures IdColumn in p.rows[i] && p.rows[i][IdColumn] == u.rows[i][IdColumn]
      ensures LevelColumn in p.rows[i] && p.rows[i][LevelColumn] == u.rows[i][LevelColumn]
    {
      assert IdColumn in u.rows[i] && LevelColumn in u.rows[i];
    }
  }

  /** The identifiers present in the personal records. */
  function PersonalIds(f: Frame): set<string> {
    set i | 0 <= i < |f.rows| && IdColumn in f.rows[i] && f.rows[i][IdColumn].Text? :: f.rows[i][IdColumn].t
  }

  // ------------------------------------------------------------ enrollments

  /** `reposicao` mapped through {"True": 1, "False": 0}, anything else
      (another token or a missing value) becoming 0 through `fillna(0)`. */
  function MakeupFlag(m: Option<string>): (r: Flag)
    ensures r == 1 <==> m == Some("True")
  {
    match m
    case Some(t) => if t == "True" then 1 else if t == "False" then 0 else 0
    case None => 0
  }

  function CleanEnrollment(e: EnrollmentIn, numText: real -> string): Enrollment {
    Enrollment(NormalizeId(e.student, numText), e.offering, e.grade, e.absences,
      MakeupFlag(e.makeup), e.description)
  }

  function CleanEnrollments(raw: seq<EnrollmentIn>, numText: real -> string): (r: seq<Enrollment>)
    ensures |r| == |raw|
    ensures forall j | 0 <= j < |raw| :: r[j] == CleanEnrollment(raw[j], numText)
  {
    seq(|raw|, j requires 0 <= j < |raw| => CleanEnrollment(raw[j], numText))
  }

  /** `carregar_matriculas` after the files are read: normalises every row
      and keeps exactly the rows whose student has a personal record. */
  function LoadEnrollments(raw: seq<EnrollmentIn>, ids: set<string>, numText: real -> string): (r: seq<Enrollment>)
    ensures |r| <= |raw|
    ensures forall i | 0 <= i < |r| :: r[i].student in ids && r[i] in CleanEnrollments(raw, numText)
    ensures forall j | 0 <= j < |raw| ::
      CleanEnrollment(raw[j], numText).student in ids ==> CleanEnrollment(raw[j], numText) in r
    ensures forall e ::
      multiset(r)[e] == if e.student in ids then multiset(CleanEnrollments(raw, numText))[e] else 0
  {
    var cleaned := CleanEnrollments(raw, numText);
    FilterCounts(cleaned, (e: Enrollment) => e.student in ids);
    Filter(cleaned, (e: Enrollment) => e.student in ids)
  }

  // ----------------------------------------------------------------- status

  /** `situacao` upper-cased, trimmed and stripped of accents. */
  function CleanSituation(s: Option<string>, stripAccents: string -> string): Option<string> {
    match s
    case Some(t) => Some(stripAccents(Strip(Upper(t))))
    case None => None
  }

  /** Cleaning a cleaned situation again changes nothing, for an accent
      stripper that is idempotent and keeps upper-cased, trimmed text so.
      The NFKD-based `remover_acentos` does not always meet that hypothesis:
      a compatibility character such as the acute accent U+00B4 decomposes
      to a space plus a combining mark, so "A\u00B4" becomes "A ", which is
      no longer trimmed. For such input the source's cleaning is not
      idempotent either. */
  lemma CleanSituationIdempotent(s: Option<string>, stripAccents: string -> string)
    requires forall t | Strip(Upper(t)) == t ::
      Strip(Upper(stripAccents(t))) == stripAccents(t) && stripAccents(stripAccents(t)) == stripAccents(t)
    ensures CleanSituation(CleanSituation(s, stripAccents), stripAccents) == CleanSituation(s, stripAccents)
  {
    if s.Some? {
      var u := Strip(Upper(s.value));
      assert Strip(Upper(u)) == u by {
        StripUpper(Upper(s.value));
        UpperOfUpper(s.value);
        StripIdempotent(Upper(s.value));
      }
    }
  }

  function CleanStatus(e: StatusIn, cfg: Config): StatusEvent {
    StatusEvent(NormalizeId(e.student, cfg.numText), e.date, e.year, e.period,
      CleanSituation(e.situation, cfg.stripAccents))
  }

  function CleanStatuses(raw: seq<StatusIn>, cfg: Config): (r: seq<StatusEvent>)
    ensures |r| == |raw|
    ensures forall j | 0 <= j < |raw| :: r[j] == CleanStatus(raw[j], cfg)
  {
    seq(|raw|, j requires 0 <= j < |raw| => CleanStatus(raw[j], cfg))
  }

  /** `carregar_situacoes` after the files are read: normalises every row
      and keeps exactly the rows whose student has a personal record. */
  function LoadStatus(raw: seq<StatusIn>, ids: set<string>, cfg: Config): (r: seq<StatusEvent>)
    ensures |r| <= |raw|
    ensures forall i | 0 <= i < |r| :: r[i].student in ids && r[i] in CleanStatuses(raw, cfg)
    ensures forall j | 0 <= j < |raw| ::
      CleanStatus(raw[j], cfg).student in ids ==> CleanStatus(raw[j], cfg) in r
    ensures forall e ::
      multiset(r)[e] == if e.student in ids then multiset(CleanStatuses(raw, cfg))[e] else 0
  {
    var cleaned := CleanStatuses(raw, cfg);
    FilterCounts(cleaned, (e: StatusEvent) => e.student in ids);
    Filter(cleaned, (e: StatusEvent) => e.student in ids)
  }
}
