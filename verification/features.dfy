/** `construir_features`: the personal table, a computed age, and seven
    one-row-per-student tables left-joined on the student identifier, with
    the five count columns zero-filled. */
module Features {
  import opened Wrappers
  import opened Seqs
  import opened Frames
  import opened Records
  import opened Outcome
  import opened Loading
  import opened Aggregates
  import opened StatusResolver
  import opened Joins

  const BirthColumn := "ano_nascimento"
  const AgeColumn := "idade"
  const DisciplinesColumn := "disciplinas_cursadas"
  const MeanColumn := "media_final_geral"
  const AbsencesColumn := "total_faltas"
  const MakeupsColumn := "total_reposicoes"
  const TermsColumn := "semestres_cursados"
  const SituationColumn := "situacao"

  /** The columns `fillna(0)` is applied to. */
  const ZeroFilledColumns: set<string> :=
    {DisciplinesColumn, MeanColumn, AbsencesColumn, MakeupsColumn, TermsColumn}

  const AllCategories: set<Category> := {Aprovada, Reprovada, Trancada, Indeferido, Outros}

  // --------------------------------------------------------------- columns

  /** The pivot column of one outcome category. */
  function CategoryColumn(c: Category): string {
    "disciplina_" + Name(c)
  }

  lemma CategoryColumnInjective(a: Category, b: Category)
    ensures CategoryColumn(a) == CategoryColumn(b) ==> a == b
  {
    if CategoryColumn(a) == CategoryColumn(b) {
      assert Name(a) == CategoryColumn(a)[11..];
      assert Name(b) == CategoryColumn(b)[11..];
      NameInjective(a, b);
    }
  }

  /** The categories that occur among the enrollment rows: `pivot_table`
      creates a column for these only. */
  function ObservedCategories(es: seq<Enrollment>): set<Category> {
    set e | e in es :: Categorize(e.description)
  }

  function PivotColumns(cats: set<Category>): set<string> {
    set c | c in cats :: CategoryColumn(c)
  }

  /** The columns the enrollment-side tables add. */
  function EnrollmentColumns(cats: set<Category>): set<string> {
    {DisciplinesColumn, MeanColumn, AbsencesColumn, MakeupsColumn} + PivotColumns(cats)
  }

  /** The columns the status-side tables add. */
  const StatusColumns: set<string> := {TermsColumn, SituationColumn}

  function MergedColumns(cats: set<Category>): set<string> {
    EnrollmentColumns(cats) + StatusColumns
  }

  lemma MergedColumnsAvoidKeyAndAge(cats: set<Category>)
    ensures KeyColumn !in MergedColumns(cats)
    ensures BirthColumn !in MergedColumns(cats) && AgeColumn !in MergedColumns(cats)
    ensures MergedColumns(cats) <= MergedColumns(AllCategories)
  {
    forall c | c in cats
      ensures CategoryColumn(c) != KeyColumn && CategoryColumn(c) != BirthColumn
      ensures CategoryColumn(c) != AgeColumn
    {
      assert CategoryColumn(c)[0] == 'd' && CategoryColumn(c)[10] == '_';
    }
  }

  // ------------------------------------------------------ per-student cells

  /** A missing value where pandas would hold NaN. */
  function OptionCell(o: Option<real>): Cell {
    if o.Some? then Num(o.value) else Missing
  }

  /** The category counts of one student's rows. */
  function PivotCells(xs: seq<Enrollment>, cats: set<Category>): (m: map<string, Cell>)
    ensures m.Keys == PivotColumns(cats)
  {
    forall a, b | a in cats && b in cats && CategoryColumn(a) == CategoryColumn(b)
      ensures a == b
    {
      CategoryColumnInjective(a, b);
    }
    map c | c in cats :: CategoryColumn(c) := Num(|OfferingsIn(xs, c)| as real)
  }

  /** The pivot cell of a category counts the distinct offerings with a row
      of that category. */
  lemma PivotCellsCount(xs: seq<Enrollment>, cats: set<Category>, c: Category)
    requires c in cats
    ensures CategoryColumn(c) in PivotCells(xs, cats)
    ensures PivotCells(xs, cats)[CategoryColumn(c)] == Num(|OfferingsIn(xs, c)| as real)
  {
    var m := PivotCells(xs, cats);
    assert CategoryColumn(c) in PivotColumns(cats);
    var c' :| c' in cats && CategoryColumn(c') == CategoryColumn(c) && m[CategoryColumn(c)] == Num(|OfferingsIn(xs, c')| as real);
    CategoryColumnInjective(c, c');
  }

  /** `situacao` of the event `tail(1)` keeps. */
  function LastSituation(ys: seq<StatusEvent>): Cell {
    match Latest(ys)
    case None => Missing
    case Some(e) => if e.situation.Some? then Text(e.situation.value) else Missing
  }

  /** What the enrollment side contributes to the row of a student whose
      enrollment rows are `xs`: nothing (missing) when there are none. */
  function EnrollmentCells(xs: seq<Enrollment>, cats: set<Category>): (m: map<string, Cell>)
    ensures m.Keys == EnrollmentColumns(cats)
  {
    if |xs| == 0 then MissingCells(EnrollmentColumns(cats))
    else
      map[DisciplinesColumn := Num(|Offerings(xs)| as real),
          MeanColumn := OptionCell(MeanGrade(xs)),
          AbsencesColumn := Num(TotalAbsences(xs)),
          MakeupsColumn := Num(TotalMakeups(xs) as real)]
      + PivotCells(xs, cats)
  }

  /** What the status side contributes to the row of a student whose status
      events are `ys`. */
  function StatusCells(ys: seq<StatusEvent>, numText: real -> string): (m: map<string, Cell>)
    ensures m.Keys == StatusColumns
  {
    if |ys| == 0 then MissingCells(StatusColumns)
    else map[TermsColumn := Num(|Terms(ys, numText)| as real), SituationColumn := LastSituation(ys)]
  }

  /** `fillna(0)` on the count columns. */
  function ZeroFill(r: Row): (z: Row)
    ensures z.Keys == r.Keys
    ensures forall k | k in r && k !in ZeroFilledColumns :: z[k] == r[k]
    ensures forall k | k in r && k in ZeroFilledColumns :: z[k] == (if r[k].Missing? then Num(0.0) else r[k])
  {
    map k | k in r :: if k in ZeroFilledColumns && r[k].Missing? then Num(0.0) else r[k]
  }

  /** The birth year coerced to a number and the age derived from it. */
  function WithAge(p: Row, cfg: Config): (r: Row)
    ensures r.Keys == p.Keys + {BirthColumn, AgeColumn}
  {
    var birth := ToNumeric(Get(p, BirthColumn), cfg.parseNum);
    p[BirthColumn := birth][AgeColumn := if birth.Num? then Num(cfg.currentYear as real - birth.n) else Missing]
  }

  /** The feature row of one personal row, student by student: its own cells,
      then the aggregates of that student's enrollment rows and status
      events. */
  function FeatureRow(p: Row, es: seq<Enrollment>, evs: seq<StatusEvent>, cats: set<Category>, cfg: Config): Row {
    var s := AsText(Get(p, KeyColumn), cfg.numText);
    ZeroFill(WithAge(p, cfg) + EnrollmentCells(RowsOf(es, s), cats) + StatusCells(EventsOf(evs, s), cfg.numText))
  }

  // ------------------------------------------------------ the joined tables

  /** The students with at least one enrollment row: the groups of
      `groupby("id_discente")`. */
  function Students(es: seq<Enrollment>): seq<string> {
    Distinct(seq(|es|, i requires 0 <= i < |es| => es[i].student))
  }

  function EventStudents(evs: seq<StatusEvent>): seq<string> {
    Distinct(seq(|evs|, i requires 0 <= i < |evs| => evs[i].student))
  }

  lemma StudentsAreThoseWithRows(es: seq<Enrollment>, s: string)
    ensures s in Students(es) <==> |RowsOf(es, s)| > 0
  {
    var ids := seq(|es|, i requires 0 <= i < |es| => es[i].student);
    if s in Students(es) {
      var k :| 0 <= k < |Students(es)| && Students(es)[k] == s;
      var j :| 0 <= j < |ids| && ids[j] == s;
      assert es[j] in RowsOf(es, s);
    }
    if |RowsOf(es, s)| > 0 {
      var r := RowsOf(es, s)[0];
      var j :| 0 <= j < |es| && es[j] == r;
      assert ids[j] == s;
    }
  }

  lemma EventStudentsAreThoseWithEvents(evs: seq<StatusEvent>, s: string)
    ensures s in EventStudents(evs) <==> |EventsOf(evs, s)| > 0
  {
    var ids := seq(|evs|, i requires 0 <= i < |evs| => evs[i].student);
    if s in EventStudents(evs) {
      var j :| 0 <= j < |ids| && ids[j] == s;
      assert evs[j] in EventsOf(evs, s);
    }
    if |EventsOf(evs, s)| > 0 {
      var r := EventsOf(evs, s)[0];
      var j :| 0 <= j < |evs| && evs[j] == r;
      assert ids[j] == s;
    }
  }

  /** The seven grouped tables the source joins onto the personal rows:
      one row per student with enrollment rows for `disciplinas_cursadas`,
      the category pivot, `media_final_geral`, `total_faltas` and
      `total_reposicoes`; one row per student with status events for
      `semestres_cursados` and the last `situacao`. */
  function DisciplinesTable(es: seq<Enrollment>): (t: Table)
    ensures ValidTable(t)
  {
    Column(Students(es), DisciplinesColumn, s => Num(|Offerings(RowsOf(es, s))| as real))
  }

  function CategoriesTable(es: seq<Enrollment>, cats: set<Category>): (t: Table)
    ensures ValidTable(t)
  {
    KeyNotPivot(cats);
    Table(Students(es), PivotColumns(cats), s => PivotRow(es, cats, s))
  }

  /** The pivot row of student `s`. */
  function PivotRow(es: seq<Enrollment>, cats: set<Category>, s: string): (m: map<string, Cell>)
    ensures m.Keys == PivotColumns(cats)
  {
    PivotCells(RowsOf(es, s), cats)
  }

  /** No pivot column is the key. */
  lemma KeyNotPivot(cats: set<Category>)
    ensures KeyColumn !in PivotColumns(cats)
  {
    forall c | c in cats
      ensures CategoryColumn(c) != KeyColumn
    {
      assert CategoryColumn(c)[0] == 'd';
    }
  }

  function MeanTable(es: seq<Enrollment>): (t: Table)
    ensures ValidTable(t)
  {
    Column(Students(es), MeanColumn, s => OptionCell(MeanGrade(RowsOf(es, s))))
  }

  function AbsencesTable(es: seq<Enrollment>): (t: Table)
    ensures ValidTable(t)
  {
    Column(Students(es), AbsencesColumn, s => Num(TotalAbsences(RowsOf(es, s))))
  }

  function MakeupsTable(es: seq<Enrollment>): (t: Table)
    ensures ValidTable(t)
  {
    Column(Students(es), MakeupsColumn, s => Num(TotalMakeups(RowsOf(es, s)) as real))
  }

  function TermsTable(evs: seq<StatusEvent>, numText: real -> string): (t: Table)
    ensures ValidTable(t)
  {
    Column(EventStudents(evs), TermsColumn, s => Num(|Terms(EventsOf(evs, s), numText)| as real))
  }

  function SituationTable(evs: seq<StatusEvent>): (t: Table)
    ensures ValidTable(t)
  {
    Column(EventStudents(evs), SituationColumn, s => LastSituation(EventsOf(evs, s)))
  }

  /** The tables in the order the source merges them. */
  function EnrollmentTables(es: seq<Enrollment>, cats: set<Category>): seq<Table> {
    [DisciplinesTable(es), CategoriesTable(es, cats), MeanTable(es), AbsencesTable(es), MakeupsTable(es)]
  }

  function StatusTables(evs: seq<StatusEvent>, numText: real -> string): seq<Table> {
    [TermsTable(evs, numText), SituationTable(evs)]
  }

  function AllTables(es: seq<Enrollment>, evs: seq<StatusEvent>, numText: real -> string): seq<Table> {
    EnrollmentTables(es, ObservedCategories(es)) + StatusTables(evs, numText)
  }

  /** The pivot columns are new names: none is the key, the birth year, the
      age or another merged column. */
  lemma PivotColumnsAreNew(cats: set<Category>)
    ensures forall k | k in PivotColumns(cats) ::
      k !in {KeyColumn, BirthColumn, AgeColumn, DisciplinesColumn, MeanColumn,
             AbsencesColumn, MakeupsColumn, TermsColumn, SituationColumn}
  {
    forall c | c in cats
      ensures CategoryColumn(c) !in {KeyColumn, BirthColumn, AgeColumn, DisciplinesColumn, MeanColumn,
                                     AbsencesColumn, MakeupsColumn, TermsColumn, SituationColumn}
    {
      assert CategoryColumn(c)[0] == 'd' && CategoryColumn(c)[10] == '_';
    }
  }

  lemma AllTablesValid(es: seq<Enrollment>, evs: seq<StatusEvent>, numText: real -> string)
    ensures ValidTables(AllTables(es, evs, numText))
  {
  }

  /** The cells the five enrollment-side tables give student `s`, one after
      the other. */
  function FiveGroups(es: seq<Enrollment>, cats: set<Category>, s: string): Row {
    TableCells(s, DisciplinesTable(es)) + TableCells(s, CategoriesTable(es, cats)) + TableCells(s, MeanTable(es))
    + TableCells(s, AbsencesTable(es)) + TableCells(s, MakeupsTable(es))
  }

  lemma EnrollmentTablesCells(es: seq<Enrollment>, cats: set<Category>, s: string)
    ensures CellsOf(s, EnrollmentTables(es, cats)) == EnrollmentCells(RowsOf(es, s), cats)
  {
    CellsOfFive(s, DisciplinesTable(es), CategoriesTable(es, cats), MeanTable(es), AbsencesTable(es), MakeupsTable(es));
    EnrollmentSide(es, s, cats);
  }

  lemma StatusTablesCells(evs: seq<StatusEvent>, numText: real -> string, s: string)
    ensures CellsOf(s, StatusTables(evs, numText)) == StatusCells(EventsOf(evs, s), numText)
  {
    var ys := EventsOf(evs, s);
    var tt, st := TermsTable(evs, numText), SituationTable(evs);
    CellsOfTwo(s, tt, st);
    EventStudentsAreThoseWithEvents(evs, s);
    StatusColumnsCells(s, tt, st, ys, numText);
  }

  /** The two status-side columns of a student, found or not. */
  lemma StatusColumnsCells(s: string, tt: Table, st: Table, ys: seq<StatusEvent>, numText: real -> string)
    requires (s in tt.keys <==> |ys| > 0) && (s in st.keys <==> |ys| > 0)
    requires tt.cols == {TermsColumn} && st.cols == {SituationColumn}
    requires tt.cells(s) == map[TermsColumn := Num(|Terms(ys, numText)| as real)]
    requires st.cells(s) == map[SituationColumn := LastSituation(ys)]
    ensures TableCells(s, tt) + TableCells(s, st) == StatusCells(ys, numText)
  {
    if |ys| == 0 {
      assert MissingCells({TermsColumn}) + MissingCells({SituationColumn}) == MissingCells(StatusColumns);
    }
  }

  /** All seven tables give a student the enrollment cells, then the status
      cells. */
  lemma AllTablesCells(es: seq<Enrollment>, evs: seq<StatusEvent>, numText: real -> string, s: string)
    ensures CellsOf(s, AllTables(es, evs, numText))
      == EnrollmentCells(RowsOf(es, s), ObservedCategories(es)) + StatusCells(EventsOf(evs, s), numText)
  {
    var cats := ObservedCategories(es);
    CellsOfConcat(s, EnrollmentTables(es, cats), StatusTables(evs, numText));
    EnrollmentTablesCells(es, cats, s);
    StatusTablesCells(evs, numText, s);
  }

  /** The five enrollment-side groups together are the student's
      enrollment cells. */
  lemma EnrollmentSide(es: seq<Enrollment>, s: string, cats: set<Category>)
    ensures FiveGroups(es, cats, s) == EnrollmentCells(RowsOf(es, s), cats)
  {
    StudentsAreThoseWithRows(es, s);
    if s in Students(es) {
      EnrollmentSideGrouped(RowsOf(es, s), cats);
    } else {
      EnrollmentSideMissing(cats);
    }
  }

  lemma EnrollmentSideGrouped(xs: seq<Enrollment>, cats: set<Category>)
    requires |xs| > 0
    ensures map[DisciplinesColumn := Num(|Offerings(xs)| as real)] + PivotCells(xs, cats)
      + map[MeanColumn := OptionCell(MeanGrade(xs))]
      + map[AbsencesColumn := Num(TotalAbsences(xs))]
      + map[MakeupsColumn := Num(TotalMakeups(xs) as real)]
      == EnrollmentCells(xs, cats)
  {
    PivotColumnsAreNew(cats);
    var g := PivotCells(xs, cats);
    assert DisciplinesColumn !in g && MeanColumn !in g && AbsencesColumn !in g && MakeupsColumn !in g;
    var d, m, a, k := Num(|Offerings(xs)| as real), OptionCell(MeanGrade(xs)), Num(TotalAbsences(xs)),
      Num(TotalMakeups(xs) as real);
    Interleave(d, m, a, k, g);
    var u := map[DisciplinesColumn := d] + g + map[MeanColumn := m] + map[AbsencesColumn := a] + map[MakeupsColumn := k];
    var e := EnrollmentCells(xs, cats);
    assert e == map[DisciplinesColumn := d, MeanColumn := m, AbsencesColumn := a, MakeupsColumn := k] + g;
    assert u == e;
  }

  /** The pivot cells may sit between the fixed columns or after them. */
  lemma Interleave(d: Cell, m: Cell, a: Cell, k: Cell, g: Row)
    requires DisciplinesColumn !in g && MeanColumn !in g && AbsencesColumn !in g && MakeupsColumn !in g
    ensures map[DisciplinesColumn := d] + g + map[MeanColumn := m] + map[AbsencesColumn := a] + map[MakeupsColumn := k]
      == map[DisciplinesColumn := d, MeanColumn := m, AbsencesColumn := a, MakeupsColumn := k] + g
  {
    var u := map[DisciplinesColumn := d] + g + map[MeanColumn := m] + map[AbsencesColumn := a] + map[MakeupsColumn := k];
    var e := map[DisciplinesColumn := d, MeanColumn := m, AbsencesColumn := a, MakeupsColumn := k] + g;
    assert u.Keys == e.Keys;
    forall c | c in u
      ensures u[c] == e[c]
    {
    }
  }

  lemma EnrollmentSideMissing(cats: set<Category>)
    ensures MissingCells({DisciplinesColumn}) + MissingCells(PivotColumns(cats))
      + MissingCells({MeanColumn}) + MissingCells({AbsencesColumn}) + MissingCells({MakeupsColumn})
      == MissingCells(EnrollmentColumns(cats))
  {
    var u := MissingCells({DisciplinesColumn}) + MissingCells(PivotColumns(cats))
      + MissingCells({MeanColumn}) + MissingCells({AbsencesColumn}) + MissingCells({MakeupsColumn});
    var e := MissingCells(EnrollmentColumns(cats));
    assert u.Keys == e.Keys;
    forall k | k in u
      ensures u[k] == e[k]
    {
    }
  }

  // -------------------------------------------------------- the assembler

  /** The personal rows with the age computed. */
  function AgedRows(p: Frame, cfg: Config): (rows: seq<Row>)
    ensures |rows| == |p.rows|
    ensures forall i | 0 <= i < |p.rows| :: rows[i] == WithAge(p.rows[i], cfg)
  {
    seq(|p.rows|, i requires 0 <= i < |p.rows| => WithAge(p.rows[i], cfg))
  }

  /** The rows after the seven joins and the zero fill. */
  function AssembledRows(p: Frame, es: seq<Enrollment>, evs: seq<StatusEvent>, cfg: Config): seq<Row> {
    ZeroFillRows(JoinAll(AgedRows(p, cfg), AllTables(es, evs, cfg.numText)))
  }

  /** `fillna(0)` on every row. */
  function ZeroFillRows(rows: seq<Row>): (r: seq<Row>)
    ensures |r| == |rows|
    ensures forall i | 0 <= i < |rows| :: r[i] == ZeroFill(rows[i])
  {
    seq(|rows|, i requires 0 <= i < |rows| => ZeroFill(rows[i]))
  }

  /** The joins compute, row by row, the per-student feature row. */
  lemma {:induction false} AssembledRowsPerStudent(p: Frame, es: seq<Enrollment>, evs: seq<StatusEvent>, cfg: Config)
    requires IdsNormalized(p)
    ensures |AssembledRows(p, es, evs, cfg)| == |p.rows|
    ensures forall i | 0 <= i < |p.rows| ::
      AssembledRows(p, es, evs, cfg)[i] == FeatureRow(p.rows[i], es, evs, ObservedCategories(es), cfg)
  {
    var cats := ObservedCategories(es);
    var aged := AgedRows(p, cfg);
    var ts := AllTables(es, evs, cfg.numText);
    AgedRowsKeyed(p, cfg);
    AllTablesValid(es, evs, cfg.numText);
    JoinAllRows(aged, ts);
    var joined := JoinAll(aged, ts);
    forall i | 0 <= i < |p.rows|
      ensures ZeroFill(joined[i]) == FeatureRow(p.rows[i], es, evs, cats, cfg)
    {
      AssembledRow(p.rows[i], joined[i], es, evs, cfg);
    }
  }

  lemma AgedRowsKeyed(p: Frame, cfg: Config)
    requires IdsNormalized(p)
    ensures Keyed(AgedRows(p, cfg))
    ensures forall i | 0 <= i < |p.rows| ::
      AgedRows(p, cfg)[i] == WithAge(p.rows[i], cfg)
      && KeyOf(AgedRows(p, cfg)[i]) == AsText(Get(p.rows[i], KeyColumn), cfg.numText)
  {
    var aged := AgedRows(p, cfg);
    forall i | 0 <= i < |aged|
      ensures Get(aged[i], KeyColumn) == p.rows[i][KeyColumn] == Get(p.rows[i], KeyColumn)
    {
    }
  }

  /** One row of the chain of joins, filled, is the feature row. */
  lemma AssembledRow(p: Row, joined: Row, es: seq<Enrollment>, evs: seq<StatusEvent>, cfg: Config)
    requires joined == WithAge(p, cfg) + CellsOf(AsText(Get(p, KeyColumn), cfg.numText), AllTables(es, evs, cfg.numText))
    ensures ZeroFill(joined) == FeatureRow(p, es, evs, ObservedCategories(es), cfg)
  {
    var s := AsText(Get(p, KeyColumn), cfg.numText);
    var e := EnrollmentCells(RowsOf(es, s), ObservedCategories(es));
    var st := StatusCells(EventsOf(evs, s), cfg.numText);
    AllTablesCells(es, evs, cfg.numText, s);
    UnionAssoc(WithAge(p, cfg), e, st);
  }

  lemma FeatureRowKeys(p: Row, es: seq<Enrollment>, evs: seq<StatusEvent>, cats: set<Category>, cfg: Config)
    requires BirthColumn in p
    ensures FeatureRow(p, es, evs, cats, cfg).Keys == p.Keys + {AgeColumn} + MergedColumns(cats)
  {
  }

  /** `construir_features`. A missing `ano_nascimento` column is a
      `KeyError` in the source. The personal columns must not already use a
      name the joins add (pandas would rename both with a suffix). */
  function BuildFeatures(p: Frame, es: seq<Enrollment>, evs: seq<StatusEvent>, cfg: Config): (r: Result<Frame, Error>)
    requires WellFormed(p) && IdsNormalized(p)
    requires p.columns !! MergedColumns(ObservedCategories(es))
    ensures r.Err? <==> BirthColumn !in p.columns
    ensures r.Err? ==> r.error == MissingColumn(BirthColumn)
    ensures r.Ok? ==> WellFormed(r.value)
    ensures r.Ok? ==> r.value.columns == p.columns + {AgeColumn} + MergedColumns(ObservedCategories(es))
    ensures r.Ok? ==> |r.value.rows| == |p.rows|
    ensures r.Ok? ==> forall i | 0 <= i < |p.rows| ::
      r.value.rows[i] == FeatureRow(p.rows[i], es, evs, ObservedCategories(es), cfg)
  {
    if BirthColumn !in p.columns then Err(MissingColumn(BirthColumn))
    else
      var cats := ObservedCategories(es);
      var cols := p.columns + {AgeColumn} + MergedColumns(cats);
      var out := AssembledRows(p, es, evs, cfg);
      AssembledRowsPerStudent(p, es, evs, cfg);
      assert forall i | 0 <= i < |out| :: out[i].Keys == cols by {
        forall i | 0 <= i < |out|
          ensures out[i].Keys == cols
        {
          assert p.rows[i].Keys == p.columns;
          FeatureRowKeys(p.rows[i], es, evs, cats, cfg);
        }
      }
      Ok(Frame(cols, out))
  }

  // --------------------------------------------------- per-student results

  /** The value `fillna(0)` leaves in column `k`. */
  function Filled(k: string, c: Cell): Cell {
    if k in ZeroFilledColumns && c.Missing? then Num(0.0) else c
  }

  /** A cell of `ZeroFill(w + ec + sc)`, by the part that supplies it. */
  lemma FilledUnion(w: Row, ec: Row, sc: Row, k: string)
    ensures k in sc ==> ZeroFill(w + ec + sc)[k] == Filled(k, sc[k])
    ensures k !in sc && k in ec ==> ZeroFill(w + ec + sc)[k] == Filled(k, ec[k])
    ensures k !in sc && k !in ec && k in w ==> ZeroFill(w + ec + sc)[k] == Filled(k, w[k])
  {
  }

  /** A merged column of a feature row holds the student's cell from the
      side that produced it, zero-filled. */
  lemma FeatureRowEnrollmentCell(p: Row, es: seq<Enrollment>, evs: seq<StatusEvent>, cats: set<Category>, cfg: Config, k: string)
    requires KeyColumn in p && p[KeyColumn].Text?
    requires k in EnrollmentColumns(cats)
    ensures k in FeatureRow(p, es, evs, cats, cfg)
    ensures FeatureRow(p, es, evs, cats, cfg)[k] == Filled(k, EnrollmentCells(RowsOf(es, p[KeyColumn].t), cats)[k])
  {
    var s := p[KeyColumn].t;
    var w := WithAge(p, cfg);
    var ec := EnrollmentCells(RowsOf(es, s), cats);
    var sc := StatusCells(EventsOf(evs, s), cfg.numText);
    FeatureRowOfKey(p, es, evs, cats, cfg);
    SidesDisjoint(cats);
    FilledUnion(w, ec, sc, k);
  }

  /** No column comes from both sides. */
  lemma SidesDisjoint(cats: set<Category>)
    ensures EnrollmentColumns(cats) !! StatusColumns
  {
    PivotColumnsAreNew(cats);
  }

  lemma FeatureRowStatusCell(p: Row, es: seq<Enrollment>, evs: seq<StatusEvent>, cats: set<Category>, cfg: Config, k: string)
    requires KeyColumn in p && p[KeyColumn].Text?
    requires k in StatusColumns
    ensures k in FeatureRow(p, es, evs, cats, cfg)
    ensures FeatureRow(p, es, evs, cats, cfg)[k] == Filled(k, StatusCells(EventsOf(evs, p[KeyColumn].t), cfg.numText)[k])
  {
    var s := p[KeyColumn].t;
    var w := WithAge(p, cfg);
    var ec := EnrollmentCells(RowsOf(es, s), cats);
    var sc := StatusCells(EventsOf(evs, s), cfg.numText);
    FeatureRowOfKey(p, es, evs, cats, cfg);
    FilledUnion(w, ec, sc, k);
  }

  /** The feature row of a personal row whose identifier is text. */
  lemma FeatureRowOfKey(p: Row, es: seq<Enrollment>, evs: seq<StatusEvent>, cats: set<Category>, cfg: Config)
    requires KeyColumn in p && p[KeyColumn].Text?
    ensures var s := p[KeyColumn].t;
      FeatureRow(p, es, evs, cats, cfg)
      == ZeroFill(WithAge(p, cfg) + EnrollmentCells(RowsOf(es, s), cats) + StatusCells(EventsOf(evs, s), cfg.numText))
  {
    assert AsText(Get(p, KeyColumn), cfg.numText) == p[KeyColumn].t;
  }

  /** The aggregates of a student without rows. */
  lemma NoRowAggregates(xs: seq<Enrollment>)
    requires |xs| == 0
    ensures Offerings(xs) == {}
    ensures MeanGrade(xs) == None
    ensures TotalAbsences(xs) == 0.0
    ensures TotalMakeups(xs) == 0
  {
  }

  /** The zero-filled enrollment cells of a student are the aggregates of
      the student's rows, 0 when there are none. */
  lemma EnrollmentCounts(xs: seq<Enrollment>, cats: set<Category>)
    ensures var ec := EnrollmentCells(xs, cats);
      && Filled(DisciplinesColumn, ec[DisciplinesColumn]) == Num(|Offerings(xs)| as real)
      && Filled(MeanColumn, ec[MeanColumn]) == Num(MeanGrade(xs).GetOr(0.0))
      && Filled(AbsencesColumn, ec[AbsencesColumn]) == Num(TotalAbsences(xs))
      && Filled(MakeupsColumn, ec[MakeupsColumn]) == Num(TotalMakeups(xs) as real)
  {
    if |xs| == 0 {
      NoRowAggregates(xs);
      assert EnrollmentCells(xs, cats) == MissingCells(EnrollmentColumns(cats));
    } else {
      EnrollmentCellsOfRows(xs, cats);
    }
  }

  /** A student with rows gets the four aggregates as they are. */
  lemma EnrollmentCellsOfRows(xs: seq<Enrollment>, cats: set<Category>)
    requires |xs| > 0
    ensures var ec := EnrollmentCells(xs, cats);
      && ec[DisciplinesColumn] == Num(|Offerings(xs)| as real)
      && ec[MeanColumn] == OptionCell(MeanGrade(xs))
      && ec[AbsencesColumn] == Num(TotalAbsences(xs))
      && ec[MakeupsColumn] == Num(TotalMakeups(xs) as real)
  {
    var g := PivotCells(xs, cats);
    assert DisciplinesColumn !in g && MeanColumn !in g && AbsencesColumn !in g && MakeupsColumn !in g by {
      PivotColumnsAreNew(cats);
    }
    FixedUnderPivot(Num(|Offerings(xs)| as real), OptionCell(MeanGrade(xs)), Num(TotalAbsences(xs)),
      Num(TotalMakeups(xs) as real), g);
  }

  lemma FixedUnderPivot(d: Cell, m: Cell, a: Cell, k: Cell, g: Row)
    requires DisciplinesColumn !in g && MeanColumn !in g && AbsencesColumn !in g && MakeupsColumn !in g
    ensures var u := map[DisciplinesColumn := d, MeanColumn := m, AbsencesColumn := a, MakeupsColumn := k] + g;
      u[DisciplinesColumn] == d && u[MeanColumn] == m && u[AbsencesColumn] == a && u[MakeupsColumn] == k
  {
  }

  /** The five count columns hold the student's aggregates, and 0 for a
      student without rows on that side (`fillna(0)`). */
  lemma FeatureRowCounts(p: Row, es: seq<Enrollment>, evs: seq<StatusEvent>, cats: set<Category>, cfg: Config)
    requires KeyColumn in p && p[KeyColumn].Text?
    ensures var s := p[KeyColumn].t;
      var xs := RowsOf(es, s);
      var row := FeatureRow(p, es, evs, cats, cfg);
      && row[DisciplinesColumn] == Num(|Offerings(xs)| as real)
      && row[MeanColumn] == Num(MeanGrade(xs).GetOr(0.0))
      && row[AbsencesColumn] == Num(TotalAbsences(xs))
      && row[MakeupsColumn] == Num(TotalMakeups(xs) as real)
      && row[TermsColumn] == Num(|Terms(EventsOf(evs, s), cfg.numText)| as real)
  {
    var s := p[KeyColumn].t;
    var xs := RowsOf(es, s);
    var ys := EventsOf(evs, s);
    var row := FeatureRow(p, es, evs, cats, cfg);
    EnrollmentCounts(xs, cats);
    assert row[DisciplinesColumn] == Num(|Offerings(xs)| as real) by {
      FeatureRowEnrollmentCell(p, es, evs, cats, cfg, DisciplinesColumn);
    }
    assert row[MeanColumn] == Num(MeanGrade(xs).GetOr(0.0)) by {
      FeatureRowEnrollmentCell(p, es, evs, cats, cfg, MeanColumn);
    }
    assert row[AbsencesColumn] == Num(TotalAbsences(xs)) by {
      FeatureRowEnrollmentCell(p, es, evs, cats, cfg, AbsencesColumn);
    }
    assert row[MakeupsColumn] == Num(TotalMakeups(xs) as real) by {
      FeatureRowEnrollmentCell(p, es, evs, cats, cfg, MakeupsColumn);
    }
    FeatureRowTerms(p, es, evs, cats, cfg);
  }

  /** The term count of a feature row, 0 for a student without events. */
  lemma FeatureRowTerms(p: Row, es: seq<Enrollment>, evs: seq<StatusEvent>, cats: set<Category>, cfg: Config)
    requires KeyColumn in p && p[KeyColumn].Text?
    ensures FeatureRow(p, es, evs, cats, cfg)[TermsColumn] ==
      Num(|Terms(EventsOf(evs, p[KeyColumn].t), cfg.numText)| as real)
  {
    var ys := EventsOf(evs, p[KeyColumn].t);
    FeatureRowStatusCell(p, es, evs, cats, cfg, TermsColumn);
    if |ys| == 0 {
      assert Terms(ys, cfg.numText) == {};
    }
  }

  /** A category column counts that category's distinct offerings (never more
      than the offering count), and is missing for a student without
      enrollment rows: it is not among the zero-filled columns. */
  lemma FeatureRowCategory(p: Row, es: seq<Enrollment>, evs: seq<StatusEvent>, cats: set<Category>, cfg: Config, c: Category)
    requires KeyColumn in p && p[KeyColumn].Text?
    requires c in cats
    ensures var xs := RowsOf(es, p[KeyColumn].t);
      var row := FeatureRow(p, es, evs, cats, cfg);
      && CategoryColumn(c) in row
      && (|xs| == 0 ==> row[CategoryColumn(c)] == Missing)
      && (|xs| > 0 ==> row[CategoryColumn(c)] == Num(|OfferingsIn(xs, c)| as real)
                       && |OfferingsIn(xs, c)| <= |Offerings(xs)|)
  {
    var xs := RowsOf(es, p[KeyColumn].t);
    var k := CategoryColumn(c);
    EnrollmentCategoryCell(xs, cats, c);
    CategoryCountBounded(xs, c);
    FeatureRowEnrollmentCell(p, es, evs, cats, cfg, k);
  }

  /** The enrollment cell of a category column: the category's offering
      count, or missing for a student without rows. */
  lemma EnrollmentCategoryCell(xs: seq<Enrollment>, cats: set<Category>, c: Category)
    requires c in cats
    ensures var k := CategoryColumn(c);
      && k in EnrollmentColumns(cats) && k !in ZeroFilledColumns
      && EnrollmentCells(xs, cats)[k] == (if |xs| == 0 then Missing else Num(|OfferingsIn(xs, c)| as real))
  {
    var k := CategoryColumn(c);
    assert k in PivotColumns(cats);
    CategoryColumnNotFilled(c);
    if |xs| > 0 {
      PivotCellsCount(xs, cats, c);
      PivotOverFixed(Num(|Offerings(xs)| as real), OptionCell(MeanGrade(xs)), Num(TotalAbsences(xs)),
        Num(TotalMakeups(xs) as real), PivotCells(xs, cats), k);
    }
  }

  lemma CategoryColumnNotFilled(c: Category)
    ensures CategoryColumn(c) !in ZeroFilledColumns
  {
    assert CategoryColumn(c)[0] == 'd' && CategoryColumn(c)[10] == '_';
  }

  lemma PivotOverFixed(d: Cell, m: Cell, a: Cell, k: Cell, g: Row, c: string)
    requires c in g
    ensures (map[DisciplinesColumn := d, MeanColumn := m, AbsencesColumn := a, MakeupsColumn := k] + g)[c] == g[c]
  {
  }

  /** `situacao` is that of an event with the greatest date among the
      student's events, and missing for a student without events. */
  lemma FeatureRowSituation(p: Row, es: seq<Enrollment>, evs: seq<StatusEvent>, cats: set<Category>, cfg: Config)
    requires KeyColumn in p && p[KeyColumn].Text?
    ensures var ys := EventsOf(evs, p[KeyColumn].t);
      var row := FeatureRow(p, es, evs, cats, cfg);
      && SituationColumn in row
      && (|ys| == 0 ==> row[SituationColumn] == Missing)
      && (|ys| > 0 ==> exists e | e in ys ::
            (forall j | 0 <= j < |ys| :: DateLe(ys[j].date, e.date))
            && row[SituationColumn] == (if e.situation.Some? then Text(e.situation.value) else Missing))
  {
    var ys := EventsOf(evs, p[KeyColumn].t);
    FeatureRowStatusCell(p, es, evs, cats, cfg, SituationColumn);
    SituationCell(ys, cfg.numText);
  }

  /** The situation cell a student's events contribute, before `fillna`. */
  lemma SituationCell(ys: seq<StatusEvent>, numText: real -> string)
    ensures var c := Filled(SituationColumn, StatusCells(ys, numText)[SituationColumn]);
      && (|ys| == 0 ==> c == Missing)
      && (|ys| > 0 ==> exists e | e in ys ::
            (forall j | 0 <= j < |ys| :: DateLe(ys[j].date, e.date))
            && c == (if e.situation.Some? then Text(e.situation.value) else Missing))
  {
    assert SituationColumn !in ZeroFilledColumns;
    if |ys| > 0 {
      var e := Latest(ys).value;
      assert e in ys;
    }
  }

  /** `ano_nascimento` is coerced to a number and `idade` is the current
      year minus it; every other personal cell passes through unchanged. */
  lemma WithAgeCells(p: Row, cfg: Config, k: string)
    requires k in p || k == BirthColumn || k == AgeColumn
    ensures var w := WithAge(p, cfg);
      var birth := ToNumeric(Get(p, BirthColumn), cfg.parseNum);
      && k in w
      && (k == BirthColumn ==> w[k] == birth)
      && (k == AgeColumn ==> w[k] == (if birth.Num? then Num(cfg.currentYear as real - birth.n) else Missing))
      && (k != BirthColumn && k != AgeColumn ==> w[k] == p[k])
  {
  }

  /** The personal cells of a feature row are those `WithAge` gives. */
  lemma FeatureRowPersonal(p: Row, es: seq<Enrollment>, evs: seq<StatusEvent>, cats: set<Category>, cfg: Config, k: string)
    requires p.Keys !! MergedColumns(cats)
    requires KeyColumn in p && p[KeyColumn].Text?
    requires k in p || k == BirthColumn || k == AgeColumn
    ensures k in FeatureRow(p, es, evs, cats, cfg)
    ensures FeatureRow(p, es, evs, cats, cfg)[k] == WithAge(p, cfg)[k]
  {
    var s := p[KeyColumn].t;
    var w := WithAge(p, cfg);
    var ec := EnrollmentCells(RowsOf(es, s), cats);
    var sc := StatusCells(EventsOf(evs, s), cfg.numText);
    assert k !in ec && k !in sc && k !in ZeroFilledColumns by {
      MergedColumnsAvoidKeyAndAge(cats);
      assert ZeroFilledColumns <= MergedColumns(cats);
      assert ec.Keys + sc.Keys == MergedColumns(cats);
    }
    WithAgeCells(p, cfg, k);
    FilledUnion(w, ec, sc, k);
  }

  /** A student with neither enrollment nor status rows gets 0 in the five
      zero-filled columns but keeps missing category counts and situation. */
  lemma InactiveStudent(p: Row, es: seq<Enrollment>, evs: seq<StatusEvent>, cats: set<Category>, cfg: Config)
    requires KeyColumn in p && p[KeyColumn].Text?
    requires forall i | 0 <= i < |es| :: es[i].student != p[KeyColumn].t
    requires forall i | 0 <= i < |evs| :: evs[i].student != p[KeyColumn].t
    ensures var row := FeatureRow(p, es, evs, cats, cfg);
      && (forall k | k in ZeroFilledColumns :: k in row && row[k] == Num(0.0))
      && (forall c | c in cats :: CategoryColumn(c) in row && row[CategoryColumn(c)] == Missing)
      && SituationColumn in row && row[SituationColumn] == Missing
  {
    var s := p[KeyColumn].t;
    var xs := RowsOf(es, s);
    var ys := EventsOf(evs, s);
    assert |xs| == 0;
    assert |ys| == 0;
    NoRowAggregates(xs);
    FeatureRowCounts(p, es, evs, cats, cfg);
    FeatureRowSituation(p, es, evs, cats, cfg);
    forall c | c in cats
      ensures CategoryColumn(c) in FeatureRow(p, es, evs, cats, cfg)
      ensures FeatureRow(p, es, evs, cats, cfg)[CategoryColumn(c)] == Missing
    {
      FeatureRowCategory(p, es, evs, cats, cfg, c);
    }
    assert Terms(ys, cfg.numText) == {};
  }
}
