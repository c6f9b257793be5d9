/** The last two stages of the pipeline: dropping the columns that do not
    feed the model and recoding `cotista` (`limpar_colunas_irrelevantes`),
    then removing the rows of students with no recorded activity and the
    rows outside the period and sex values of interest
    (`remover_registros_ruidosos`). */
module Postprocess {
  import opened Wrappers
  import opened Seqs
  import opened Text
  import opened Frames
  import opened Outcome
  import Loading
  import Target
  import opened Features

  // ------------------------------------------------------- column pruning

  const CotistaColumn := "cotista"

  /** The columns `limpar_colunas_irrelevantes` removes when present. */
  const DroppedColumns: set<string> := {
    "estado_origem", "cidade_origem", "estado", "municipio", "bairro",
    Loading.LevelColumn, "curso", "forma_ingresso", "tipo_cota",
    "descricao_tipo_cota", Target.StatusColumn, SituationColumn}

  /** The quota flag as a number: the text "t" after stripping and
      lower-casing is 1; "f" and anything else (`fillna(0)` of the unmapped
      values) is 0. A missing cell is the text "nan", hence 0. */
  function CotistaCode(c: Cell, numText: real -> string): (r: Cell)
    ensures r == Num(0.0) || r == Num(1.0)
    ensures r == Num(1.0) <==> Standardize(AsText(c, numText)) == "t"
  {
    var key := Standardize(AsText(c, numText));
    if key == "t" then Num(1.0) else Num(0.0)
  }

  /** One pruned row: the dropped columns removed, `cotista` recoded. */
  function PruneRow(r: Row, numText: real -> string): (p: Row)
    ensures p.Keys == r.Keys - DroppedColumns
    ensures forall k | k in p && k != CotistaColumn :: p[k] == r[k]
    ensures CotistaColumn in r ==> p[CotistaColumn] == CotistaCode(r[CotistaColumn], numText)
  {
    var kept := r - DroppedColumns;
    CotistaIsKept();
    if CotistaColumn in kept then kept[CotistaColumn := CotistaCode(kept[CotistaColumn], numText)] else kept
  }

  lemma CotistaIsKept()
    ensures CotistaColumn !in DroppedColumns
  {
  }

  /** The label and the age survive the pruning. */
  lemma LabelAndAgeAreKept()
    ensures Target.TargetColumn !in DroppedColumns && AgeColumn !in DroppedColumns
    ensures Target.TargetColumn != CotistaColumn
  {
  }

  /** `limpar_colunas_irrelevantes`: the listed columns are gone, `cotista`
      (when present) is recoded to 0/1, and every other cell of every row
      is untouched. */
  function Prune(f: Frame, numText: real -> string): (r: Frame)
    requires WellFormed(f)
    ensures WellFormed(r)
    ensures r.columns == f.columns - DroppedColumns
    ensures |r.rows| == |f.rows|
    ensures forall i, k | 0 <= i < |f.rows| && k in f.rows[i] && k !in DroppedColumns && k != CotistaColumn ::
      r.rows[i][k] == f.rows[i][k]
    ensures CotistaColumn in f.columns ==> forall i | 0 <= i < |f.rows| ::
      r.rows[i][CotistaColumn] == CotistaCode(f.rows[i][CotistaColumn], numText)
    ensures forall i | 0 <= i < |f.rows| :: r.rows[i] == PruneRow(f.rows[i], numText)
  {
    var rows := seq(|f.rows|, i requires 0 <= i < |f.rows| => PruneRow(f.rows[i], numText));
    assert forall i | 0 <= i < |f.rows| :: rows[i] == PruneRow(f.rows[i], numText);
    Frame(f.columns - DroppedColumns, rows)
  }

  /** A frame with none of the listed columns and no `cotista` is left as it
      is. */
  lemma PruneLeavesOthers(f: Frame, numText: real -> string)
    requires WellFormed(f)
    requires f.columns !! DroppedColumns && CotistaColumn !in f.columns
    ensures Prune(f, numText) == f
  {
    var r := Prune(f, numText);
    forall i | 0 <= i < |f.rows|
      ensures r.rows[i] == f.rows[i]
    {
      assert f.rows[i] - DroppedColumns == f.rows[i];
    }
  }

  /** The recoding ignores surrounding white space and case. */
  lemma CotistaCodeNormalizes(s: string, numText: real -> string)
    ensures CotistaCode(Text(s), numText) == CotistaCode(Text(Standardize(s)), numText)
  {
    StandardizeIdempotent(s);
  }

  /** " T " reads as a quota student. */
  lemma CotistaCodeTrue(numText: real -> string)
    ensures CotistaCode(Text(" T "), numText) == Num(1.0)
  {
    assert TrimLeft(" T ") == "T " by {
      assert IsSpace(' ') && " T "[1..] == "T " && !IsSpace('T');
    }
    assert TrimRight("T ") == "T" by {
      assert "T "[..1] == "T" && !IsSpace('T');
    }
    assert Lower("T") == "t" by {
      assert |Lower("T")| == 1 && Lower("T")[0] == LowerChar('T') == 't';
    }
  }

  /** "f", any other word, and a missing cell (the text "nan") read as 0. */
  lemma CotistaCodeFalse(numText: real -> string)
    ensures CotistaCode(Text("f"), numText) == Num(0.0)
    ensures CotistaCode(Text("sim"), numText) == Num(0.0)
    ensures CotistaCode(Missing, numText) == Num(0.0)
  {
    LowerWord("f");
    LowerWord("sim");
    LowerWord("nan");
  }

  /** A word of lower-case ASCII letters is its own standard form. */
  lemma LowerWord(w: string)
    requires |w| > 0 && forall i | 0 <= i < |w| :: 'a' <= w[i] <= 'z'
    ensures Standardize(w) == w
  {
    StripFixed(w);
    LowerKeepsLower(w);
  }

  // --------------------------------------------------------- noise filter

  const EntryPeriodColumn := "periodo_ingresso"
  const EntryYearColumn := "ano_ingresso"
  const SexColumn := "sexo"

  /** The columns the noise condition reads, in the order the expression
      evaluates them; the first absent one is the `KeyError`. */
  const NoiseColumns: seq<string> := [
    EntryPeriodColumn, CotistaColumn, AgeColumn, DisciplinesColumn,
    CategoryColumn(Aprovada), CategoryColumn(Indeferido), CategoryColumn(Outros),
    CategoryColumn(Reprovada), CategoryColumn(Trancada),
    MeanColumn, AbsencesColumn, MakeupsColumn, TermsColumn]

  /** The first of `cols` that is not in `have`. */
  function FirstAbsent(cols: seq<string>, have: set<string>): (r: Option<string>)
    ensures r.None? <==> forall i | 0 <= i < |cols| :: cols[i] in have
    ensures r.Some? ==> r.value in cols && r.value !in have
  {
    if |cols| == 0 then None
    else if cols[0] !in have then Some(cols[0])
    else FirstAbsent(cols[1..], have)
  }

  /** The row of a student with no recorded activity: entry period 1 or 2,
      not a quota student, no age, no enrollment, no category cell, and
      zero mean, absences, makeups and terms. Comparisons are pandas': a
      missing or text value equals no number. */
  predicate IsNoise(r: Row) {
    && (NumEquals(Get(r, EntryPeriodColumn), 1.0) || NumEquals(Get(r, EntryPeriodColumn), 2.0))
    && NumEquals(Get(r, CotistaColumn), 0.0)
    && Get(r, AgeColumn).Missing?
    && NumEquals(Get(r, DisciplinesColumn), 0.0)
    && Get(r, CategoryColumn(Aprovada)).Missing?
    && Get(r, CategoryColumn(Indeferido)).Missing?
    && Get(r, CategoryColumn(Outros)).Missing?
    && Get(r, CategoryColumn(Reprovada)).Missing?
    && Get(r, CategoryColumn(Trancada)).Missing?
    && NumEquals(Get(r, MeanColumn), 0.0)
    && NumEquals(Get(r, AbsencesColumn), 0.0)
    && NumEquals(Get(r, MakeupsColumn), 0.0)
    && NumEquals(Get(r, TermsColumn), 0.0)
  }

  /** `ano_ingresso >= 2010`: a missing year fails the comparison. */
  predicate Recent(r: Row) {
    Get(r, EntryYearColumn).Num? && Get(r, EntryYearColumn).n >= 2010.0
  }

  /** `sexo.isin(["M", "F"])`. */
  predicate KnownSex(r: Row) {
    Get(r, SexColumn) == Text("M") || Get(r, SexColumn) == Text("F")
  }

  /** What a row must satisfy to be kept by the filters whose column the
      frame has. */
  predicate Kept(r: Row, columns: set<string>) {
    && !IsNoise(r)
    && (EntryYearColumn in columns ==> Recent(r))
    && (SexColumn in columns ==> KnownSex(r))
  }

  /** Ordering a text year against 2010 raises `TypeError`; it only matters
      for the rows the noise filter kept. */
  predicate HasTextYear(rows: seq<Row>) {
    exists i | 0 <= i < |rows| :: !IsNoise(rows[i]) && Get(rows[i], EntryYearColumn).Text?
  }

  /** `remover_registros_ruidosos`. */
  function RemoveNoise(f: Frame): (r: Result<Frame, Error>)
    ensures r.Err? <==>
      (exists i | 0 <= i < |NoiseColumns| :: NoiseColumns[i] !in f.columns)
      || (EntryYearColumn in f.columns && HasTextYear(f.rows))
    ensures r.Err? && FirstAbsent(NoiseColumns, f.columns).Some? ==>
      r.error == MissingColumn(FirstAbsent(NoiseColumns, f.columns).value)
    ensures r.Err? && FirstAbsent(NoiseColumns, f.columns).None? ==> r.error == NotComparable(EntryYearColumn)
    ensures r.Ok? ==> r.value.columns == f.columns && |r.value.rows| <= |f.rows|
    ensures r.Ok? && WellFormed(f) ==> WellFormed(r.value)
    ensures r.Ok? ==> forall i | 0 <= i < |r.value.rows| ::
      r.value.rows[i] in f.rows && Kept(r.value.rows[i], f.columns)
    ensures r.Ok? ==> forall i | 0 <= i < |f.rows| ::
      Kept(f.rows[i], f.columns) ==> f.rows[i] in r.value.rows
    ensures r.Ok? ==> r.value.rows == Survivors(f.rows, f.columns)
  {
    var missing := FirstAbsent(NoiseColumns, f.columns);
    if missing.Some? then Err(MissingColumn(missing.value))
    else
      var quiet := Filter(f.rows, (row: Row) => !IsNoise(row));
      NoTextYearInQuiet(f.rows, quiet);
      if EntryYearColumn in f.columns && exists i | 0 <= i < |quiet| :: Get(quiet[i], EntryYearColumn).Text? then
        Err(NotComparable(EntryYearColumn))
      else
        var rows := Survivors(f.rows, f.columns);
        assert WellFormed(f) ==> WellFormed(Frame(f.columns, rows)) by {
          if WellFormed(f) {
            forall i | 0 <= i < |rows|
              ensures rows[i].Keys == f.columns
            {
              var j :| 0 <= j < |f.rows| && f.rows[j] == rows[i];
            }
          }
        }
        Ok(Frame(f.columns, rows))
  }

  /** The rows that pass every filter, in their order and with their
      repeats: one pass with the conjunction of the tests (see
      `StepwiseIsSurvivors`). */
  function Survivors(rows: seq<Row>, columns: set<string>): (r: seq<Row>)
    ensures |r| <= |rows|
    ensures forall i | 0 <= i < |r| :: r[i] in rows && Kept(r[i], columns)
    ensures forall i | 0 <= i < |rows| :: Kept(rows[i], columns) ==> rows[i] in r
  {
    Filter(rows, (row: Row) => Kept(row, columns))
  }

  /** The three row filters one after the other, as the source applies
      them: the noise rows go, then, when the frame has the column, the rows
      entered before 2010, then, when it has the column, the rows whose sex
      is neither "M" nor "F". */
  function Stepwise(rows: seq<Row>, columns: set<string>): seq<Row> {
    var quiet := Filter(rows, (row: Row) => !IsNoise(row));
    var recent := if EntryYearColumn in columns then Filter(quiet, (row: Row) => Recent(row)) else quiet;
    if SexColumn in columns then Filter(recent, (row: Row) => KnownSex(row)) else recent
  }

  /** The filters applied one after the other keep exactly the rows of the
      single pass, in the same order and with the same repeats. */
  lemma StepwiseIsSurvivors(rows: seq<Row>, columns: set<string>)
    ensures Stepwise(rows, columns) == Survivors(rows, columns)
  {
    var quiet := (row: Row) => !IsNoise(row);
    var kept := (row: Row) => Kept(row, columns);
    if EntryYearColumn in columns && SexColumn in columns {
      var quietRecent := (row: Row) => !IsNoise(row) && Recent(row);
      FilterTwice(rows, quiet, (row: Row) => Recent(row), quietRecent);
      FilterTwice(rows, quietRecent, (row: Row) => KnownSex(row), kept);
    } else if EntryYearColumn in columns {
      FilterTwice(rows, quiet, (row: Row) => Recent(row), kept);
    } else if SexColumn in columns {
      FilterTwice(rows, quiet, (row: Row) => KnownSex(row), kept);
    } else {
      FilterTwice(rows, quiet, (row: Row) => true, kept);
      FilterKeepsAll(Filter(rows, quiet), (row: Row) => true);
    }
  }

  /** A passing row survives as often as it occurs; no other row does. */
  lemma SurvivorsCounts(rows: seq<Row>, columns: set<string>)
    ensures forall x ::
      multiset(Survivors(rows, columns))[x] == if Kept(x, columns) then multiset(rows)[x] else 0
  {
    FilterCounts(rows, (row: Row) => Kept(row, columns));
  }

  lemma NoTextYearInQuiet(rows: seq<Row>, quiet: seq<Row>)
    requires quiet == Filter(rows, (row: Row) => !IsNoise(row))
    ensures HasTextYear(rows) <==> exists i | 0 <= i < |quiet| :: Get(quiet[i], EntryYearColumn).Text?
  {
    if HasTextYear(rows) {
      var i :| 0 <= i < |rows| && !IsNoise(rows[i]) && Get(rows[i], EntryYearColumn).Text?;
      var j := IndexOf(quiet, rows[i]);
    }
    if exists i | 0 <= i < |quiet| :: Get(quiet[i], EntryYearColumn).Text? {
      var i :| 0 <= i < |quiet| && Get(quiet[i], EntryYearColumn).Text?;
      var j := IndexOf(rows, quiet[i]);
    }
  }

  /** Filtering twice changes nothing: the output of a successful run passes
      every filter and is its own result. */
  lemma RemoveNoiseIdempotent(f: Frame)
    requires RemoveNoise(f).Ok?
    ensures RemoveNoise(RemoveNoise(f).value) == RemoveNoise(f)
  {
    var g := RemoveNoise(f).value;
    var quiet := Filter(g.rows, (row: Row) => !IsNoise(row));
    FilterKeepsAll(g.rows, (row: Row) => !IsNoise(row));
    assert quiet == g.rows;
    FilterKeepsAll(g.rows, (row: Row) => Kept(row, g.columns));
    assert Survivors(g.rows, g.columns) == g.rows;
  }
}
