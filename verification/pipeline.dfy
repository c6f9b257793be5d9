/** The whole run of `pipeline()` between reading the files and writing the
    result: load and clean the three tables, build the features, add the
    label, prune the columns and drop the noise rows. */
module Pipeline {
  import opened Wrappers
  import opened Frames
  import opened Records
  import opened Outcome
  import opened Loading
  import opened Aggregates
  import opened StatusResolver
  import opened Features
  import opened Target
  import opened Postprocess

  /** Every column the joins can add, whatever categories occur. */
  const MergedNames: seq<string> := [
    DisciplinesColumn, CategoryColumn(Aprovada), CategoryColumn(Reprovada),
    CategoryColumn(Trancada), CategoryColumn(Indeferido), CategoryColumn(Outros),
    MeanColumn, AbsencesColumn, MakeupsColumn, TermsColumn, SituationColumn]

  lemma MergedNamesCover(cats: set<Category>)
    ensures forall k | k in MergedColumns(cats) :: k in MergedNames
  {
    forall k | k in PivotColumns(cats)
      ensures k in MergedNames
    {
      var c :| c in cats && k == CategoryColumn(c);
      match c
      case Aprovada => assert k == MergedNames[1];
      case Reprovada => assert k == MergedNames[2];
      case Trancada => assert k == MergedNames[3];
      case Indeferido => assert k == MergedNames[4];
      case Outros => assert k == MergedNames[5];
    }
  }

  /** The label column is not one the joins add. */
  lemma StatusNotMerged(cats: set<Category>)
    ensures StatusColumn !in MergedColumns(cats)
  {
    forall c | c in cats
      ensures CategoryColumn(c) != StatusColumn
    {
      assert CategoryColumn(c)[0] == 'd';
    }
  }

  /** The clash test over the fixed list of joined names finds a clash
      exactly when the personal columns meet the joined columns. */
  lemma FirstSharedFindsClash(p: set<string>, cats: set<Category>)
    ensures FirstShared(MergedNames, p, MergedColumns(cats)).None? <==> p !! MergedColumns(cats)
  {
    if FirstShared(MergedNames, p, MergedColumns(cats)).None? {
      MergedNamesCover(cats);
      forall k | k in MergedColumns(cats)
        ensures k !in p
      {
        var i :| 0 <= i < |MergedNames| && MergedNames[i] == k;
      }
    }
  }

  /** The first of `names` that is in both sets. */
  function FirstShared(names: seq<string>, a: set<string>, b: set<string>): (r: Option<string>)
    ensures r.None? <==> forall i | 0 <= i < |names| :: !(names[i] in a && names[i] in b)
    ensures r.Some? ==> r.value in a && r.value in b
  {
    if |names| == 0 then None
    else if names[0] in a && names[0] in b then Some(names[0])
    else FirstShared(names[1..], a, b)
  }

  /** What becomes of one personal row: its feature row, labelled, then
      pruned. */
  function FinalRow(q: Row, es: seq<Enrollment>, evs: seq<StatusEvent>, cfg: Config): Row {
    PruneRow(Labelled(FeatureRow(q, es, evs, ObservedCategories(es), cfg)), cfg.numText)
  }

  /** The final rows of the personal rows, in order. */
  function FinalRows(ps: seq<Row>, es: seq<Enrollment>, evs: seq<StatusEvent>, cfg: Config): (r: seq<Row>)
    ensures |r| == |ps|
    ensures forall j | 0 <= j < |ps| :: r[j] == FinalRow(ps[j], es, evs, cfg)
  {
    seq(|ps|, j requires 0 <= j < |ps| => FinalRow(ps[j], es, evs, cfg))
  }

  /** The row carries a 0/1 dropout label. */
  predicate HasLabel(row: Row) {
    TargetColumn in row && (row[TargetColumn] == Num(0.0) || row[TargetColumn] == Num(1.0))
  }

  /** A row with the label of its status. */
  function Labelled(f: Row): Row {
    f[TargetColumn := Num(DropoutLabel(Get(f, StatusColumn)) as real)]
  }

  /** The columns of the result: the personal columns, the age, the joined
      columns and the label, less the dropped ones. */
  function FinalColumns(personal: set<string>, es: seq<Enrollment>): set<string> {
    (personal + {AgeColumn} + MergedColumns(ObservedCategories(es)) + {TargetColumn}) - DroppedColumns
  }

  /** When the stages before the noise filter stop: a personal column named
      like a joined column, or no birth-year or student-status column. */
  predicate AssemblyStops(personal: set<string>, es: seq<Enrollment>) {
    || !(personal !! MergedColumns(ObservedCategories(es)))
    || BirthColumn !in personal
    || StatusColumn !in personal
  }

  /** When the stages after loading stop: the assembly stops, a column of the
      noise test is missing from the final table, or the table has an entry
      year and a final row holds it as text. */
  predicate StopsAfterLoading(t: Tables, cfg: Config) {
    var columns := FinalColumns(t.personal.columns, t.enrollments);
    || AssemblyStops(t.personal.columns, t.enrollments)
    || (exists i | 0 <= i < |NoiseColumns| :: NoiseColumns[i] !in columns)
    || (EntryYearColumn in columns && HasTextYear(FinalRows(t.personal.rows, t.enrollments, t.events, cfg)))
  }

  /** The cleaned personal frame and the cleaned enrollment and status rows
      of a run. */
  datatype Tables = Tables(personal: Frame, enrollments: seq<Enrollment>, events: seq<StatusEvent>)

  function LoadAll(raw: RawFrame, enrollments: seq<EnrollmentIn>, statuses: seq<StatusIn>, cfg: Config): (r: Result<Tables, Error>)
    requires Rectangular(raw)
    ensures r.Ok? ==> WellFormed(r.value.personal) && IdsNormalized(r.value.personal)
    ensures r.Ok? ==> |r.value.personal.rows| <= |raw.rows|
    ensures r.Ok? ==> forall i | 0 <= i < |r.value.enrollments| ::
      r.value.enrollments[i].student in PersonalIds(r.value.personal)
    ensures r.Ok? ==> forall i | 0 <= i < |r.value.events| ::
      r.value.events[i].student in PersonalIds(r.value.personal)
    ensures r.Err? <==> LoadPersonal(raw, cfg.numText).Err?
    ensures r.Ok? ==> r.value.personal == LoadPersonal(raw, cfg.numText).value
    ensures r.Ok? ==> r.value.enrollments == LoadEnrollments(enrollments, PersonalIds(r.value.personal), cfg.numText)
    ensures r.Ok? ==> r.value.events == LoadStatus(statuses, PersonalIds(r.value.personal), cfg)
    ensures r.Ok? ==> forall j | 0 <= j < |enrollments| ::
      CleanEnrollment(enrollments[j], cfg.numText).student in PersonalIds(r.value.personal) ==>
      CleanEnrollment(enrollments[j], cfg.numText) in r.value.enrollments
    ensures r.Ok? ==> forall j | 0 <= j < |statuses| ::
      CleanStatus(statuses[j], cfg).student in PersonalIds(r.value.personal) ==>
      CleanStatus(statuses[j], cfg) in r.value.events
  {
    var p :- LoadPersonal(raw, cfg.numText);
    var ids := PersonalIds(p);
    Ok(Tables(p, LoadEnrollments(enrollments, ids, cfg.numText), LoadStatus(statuses, ids, cfg)))
  }

  /** The stages after loading. A personal column named like a feature
      column stops the run (pandas would keep both under suffixed names). */
  function Transform(t: Tables, cfg: Config): (r: Result<Frame, Error>)
    requires WellFormed(t.personal) && IdsNormalized(t.personal)
    ensures r.Ok? ==> WellFormed(r.value)
    ensures r.Ok? ==> r.value.columns !! DroppedColumns
    ensures r.Ok? ==> TargetColumn in r.value.columns && AgeColumn in r.value.columns
    ensures r.Ok? ==> |r.value.rows| <= |t.personal.rows|
    ensures r.Ok? ==> forall i | 0 <= i < |r.value.rows| ::
      && Kept(r.value.rows[i], r.value.columns)
      && HasLabel(r.value.rows[i])
      && (exists j | 0 <= j < |t.personal.rows| ::
            r.value.rows[i] == FinalRow(t.personal.rows[j], t.enrollments, t.events, cfg))
    ensures r.Ok? ==> forall j | 0 <= j < |t.personal.rows| ::
      Kept(FinalRow(t.personal.rows[j], t.enrollments, t.events, cfg), r.value.columns) ==>
      FinalRow(t.personal.rows[j], t.enrollments, t.events, cfg) in r.value.rows
    ensures r.Ok? ==> r.value.rows == Survivors(FinalRows(t.personal.rows, t.enrollments, t.events, cfg), r.value.columns)
    ensures r.Ok? ==> r.value.columns == FinalColumns(t.personal.columns, t.enrollments)
    ensures r.Err? <==> StopsAfterLoading(t, cfg)
  {
    var h :- Assemble(t, cfg);
    NoiseFilterStops(t, cfg, h);
    var r := RemoveNoise(h);
    if r.Err? then r
    else
      KeptFinalRows(t.personal.rows, r.value, t.enrollments, t.events, cfg);
      r
  }

  /** The stages before the noise filter: one final row per personal row,
      in order. */
  function Assemble(t: Tables, cfg: Config): (r: Result<Frame, Error>)
    requires WellFormed(t.personal) && IdsNormalized(t.personal)
    ensures r.Ok? ==> WellFormed(r.value)
    ensures r.Ok? ==> r.value.columns !! DroppedColumns
    ensures r.Ok? ==> TargetColumn in r.value.columns && AgeColumn in r.value.columns
    ensures r.Ok? ==> |r.value.rows| == |t.personal.rows|
    ensures r.Ok? ==> r.value.rows == FinalRows(t.personal.rows, t.enrollments, t.events, cfg)
    ensures r.Ok? ==> r.value.columns == FinalColumns(t.personal.columns, t.enrollments)
    ensures r.Err? <==> AssemblyStops(t.personal.columns, t.enrollments)
  {
    var p := t.personal;
    var cats := ObservedCategories(t.enrollments);
    var clash := FirstShared(MergedNames, p.columns, MergedColumns(cats));
    FirstSharedFindsClash(p.columns, cats);
    StatusNotMerged(cats);
    if clash.Some? then Err(DuplicateColumn(clash.value))
    else
      MergedNamesCover(cats);
      var f :- BuildFeatures(p, t.enrollments, t.events, cfg);
      var g :- AddTarget(f);
      var h := Prune(g, cfg.numText);
      PrunedRowsAreFinal(p, f, g, h, t.enrollments, t.events, cfg);
      AreFinalRows(h.rows, p.rows, t.enrollments, t.events, cfg);
      LabelAndAgeAreKept();
      Ok(h)
  }

  /** Once the table is assembled, the noise filter stops exactly when the
      run after loading stops. */
  lemma NoiseFilterStops(t: Tables, cfg: Config, h: Frame)
    requires !AssemblyStops(t.personal.columns, t.enrollments)
    requires h.columns == FinalColumns(t.personal.columns, t.enrollments)
    requires h.rows == FinalRows(t.personal.rows, t.enrollments, t.events, cfg)
    ensures RemoveNoise(h).Err? <==> StopsAfterLoading(t, cfg)
  {
  }

  /** The noise filter applied to the final rows keeps final rows, and every
      final row that passes. */
  lemma KeptFinalRows(ps: seq<Row>, out: Frame, es: seq<Enrollment>, evs: seq<StatusEvent>, cfg: Config)
    requires out.rows == Survivors(FinalRows(ps, es, evs, cfg), out.columns)
    ensures forall i | 0 <= i < |out.rows| ::
      HasLabel(out.rows[i]) && exists j | 0 <= j < |ps| :: out.rows[i] == FinalRow(ps[j], es, evs, cfg)
    ensures forall j | 0 <= j < |ps| ::
      Kept(FinalRow(ps[j], es, evs, cfg), out.columns) ==> FinalRow(ps[j], es, evs, cfg) in out.rows
  {
    var fr := FinalRows(ps, es, evs, cfg);
    forall i | 0 <= i < |out.rows|
      ensures HasLabel(out.rows[i])
      ensures exists j | 0 <= j < |ps| :: out.rows[i] == FinalRow(ps[j], es, evs, cfg)
    {
      assert out.rows[i] in fr;
      var j :| 0 <= j < |fr| && fr[j] == out.rows[i];
      assert out.rows[i] == FinalRow(ps[j], es, evs, cfg);
      FinalRowLabel(FeatureRow(ps[j], es, evs, ObservedCategories(es), cfg), cfg.numText);
    }
    forall j | 0 <= j < |ps| && Kept(FinalRow(ps[j], es, evs, cfg), out.columns)
      ensures FinalRow(ps[j], es, evs, cfg) in out.rows
    {
      assert fr[j] == FinalRow(ps[j], es, evs, cfg);
    }
  }

  /** After pruning, row `j` is the final row of personal row `j`. */
  lemma PrunedRowsAreFinal(p: Frame, f: Frame, g: Frame, h: Frame, es: seq<Enrollment>, evs: seq<StatusEvent>, cfg: Config)
    requires WellFormed(p) && IdsNormalized(p) && p.columns !! MergedColumns(ObservedCategories(es))
    requires BuildFeatures(p, es, evs, cfg) == Ok(f) && AddTarget(f) == Ok(g) && WellFormed(g)
    requires h == Prune(g, cfg.numText)
    ensures |h.rows| == |p.rows|
    ensures forall j | 0 <= j < |p.rows| :: h.rows[j] == FinalRow(p.rows[j], es, evs, cfg)
  {
    forall j | 0 <= j < |p.rows|
      ensures h.rows[j] == FinalRow(p.rows[j], es, evs, cfg)
    {
      LabelledRow(f.rows[j], g.rows[j], f.columns);
    }
  }

  /** Rows that are, position by position, the final rows of `ps` are the
      sequence of final rows. */
  lemma AreFinalRows(hs: seq<Row>, ps: seq<Row>, es: seq<Enrollment>, evs: seq<StatusEvent>, cfg: Config)
    requires |hs| == |ps|
    requires forall j | 0 <= j < |ps| :: hs[j] == FinalRow(ps[j], es, evs, cfg)
    ensures hs == FinalRows(ps, es, evs, cfg)
  {
  }

  /** One row of `criar_target`'s output is the input row with the label
      set. */
  lemma LabelledRow(fr: Row, gr: Row, columns: set<string>)
    requires fr.Keys == columns && StatusColumn in columns
    requires gr.Keys == columns + {TargetColumn}
    requires forall k | k in fr && k != TargetColumn :: gr[k] == fr[k]
    requires gr[TargetColumn] == Num(0 as real) || gr[TargetColumn] == Num(1 as real)
    requires gr[TargetColumn] == Num(1 as real) <==> IsDropoutStatus(AsTextOrEmpty(fr[StatusColumn]))
    ensures gr == Labelled(fr)
  {
    var want := Labelled(fr);
    assert !IsDropoutStatus("") by {
      assert !Text.Contains(Text.Upper(""), "CANCELADO");
      assert !Text.Contains(Text.Upper(""), "DESISTENCIA");
    }
    assert gr.Keys == want.Keys;
    assert gr[TargetColumn] == want[TargetColumn];
  }

  /** `pipeline()` without the file reading, the rounding and the file
      writing. */
  function Run(raw: RawFrame, enrollments: seq<EnrollmentIn>, statuses: seq<StatusIn>, cfg: Config): (r: Result<Frame, Error>)
    requires Rectangular(raw)
    ensures r.Ok? ==> WellFormed(r.value) && r.value.columns !! DroppedColumns
    ensures r.Ok? ==> TargetColumn in r.value.columns && AgeColumn in r.value.columns
    ensures r.Ok? ==> |r.value.rows| <= |raw.rows|
    ensures r.Ok? ==> forall i | 0 <= i < |r.value.rows| ::
      Kept(r.value.rows[i], r.value.columns) && HasLabel(r.value.rows[i])
    ensures r.Ok? ==> LoadAll(raw, enrollments, statuses, cfg).Ok?
    ensures r.Ok? ==> var t := LoadAll(raw, enrollments, statuses, cfg).value;
      forall j | 0 <= j < |t.personal.rows| ::
        Kept(FinalRow(t.personal.rows[j], t.enrollments, t.events, cfg), r.value.columns) ==>
        FinalRow(t.personal.rows[j], t.enrollments, t.events, cfg) in r.value.rows
    ensures r.Ok? ==> var t := LoadAll(raw, enrollments, statuses, cfg).value;
      forall i | 0 <= i < |r.value.rows| ::
        r.value.rows[i] in FinalRows(t.personal.rows, t.enrollments, t.events, cfg)
    ensures r.Ok? ==> var t := LoadAll(raw, enrollments, statuses, cfg).value;
      r.value.rows == Survivors(FinalRows(t.personal.rows, t.enrollments, t.events, cfg), r.value.columns)
    ensures r.Ok? ==> var t := LoadAll(raw, enrollments, statuses, cfg).value;
      r.value.columns == FinalColumns(t.personal.columns, t.enrollments)
    ensures r.Err? <==>
      || LoadAll(raw, enrollments, statuses, cfg).Err?
      || StopsAfterLoading(LoadAll(raw, enrollments, statuses, cfg).value, cfg)
  {
    var t :- LoadAll(raw, enrollments, statuses, cfg);
    Transform(t, cfg)
  }

  /** The label of a final row is 0 or 1. */
  lemma FinalRowLabel(f: Row, numText: real -> string)
    ensures HasLabel(PruneRow(Labelled(f), numText))
  {
    LabelAndAgeAreKept();
    var l := Labelled(f);
    assert TargetColumn in l;
  }
}
