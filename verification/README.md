# student-situation: the per-student feature pipeline, in Dafny

This project models `pipeline()` of `main.py`. The pipeline reads three
tables:
- the students' personal records (`dados_pessoais`);
- their course enrollments (`matriculas`);
- their status-change events (`situacoes`).

From these it builds one row per undergraduate student, holding:
- the student's personal columns and age;
- enrollment aggregates: distinct offerings taken, distinct offerings per
  outcome category, mean grade, absences and makeup exams;
- status aggregates: distinct terms and latest situation;
- the dropout label `aluno_evadio`.

It then drops identifying columns, recodes `cotista` and removes the noise
rows.

Each stage is a pure function over immutable data:

| module | file | stage |
|---|---|---|
| `Frames` | frames.dfy | A table as a set of column names plus rows (`map<string, Cell>`), and a run's `Config`: the current year, `str()` of a number, `pd.to_numeric` on text and the accent stripper, all as parameters. |
| `Records` | records.dfy | Typed enrollment and status rows, as read and after cleaning. |
| `Text` | text.dfy | `strip`, `upper`, `lower` and substring search on `seq<char>`. |
| `Outcome` | outcome.dfy | `categorizar_descricao` as an ordered rule table. |
| `Target` | target.dfy | `criar_target`. |
| `Loading` | loading.dfy | `padronizar_colunas`, the undergraduate filter, the `status` rename, the `reposicao` flag, the orphan filters and the `situacao` cleaning. |
| `Aggregates` | aggregates.dfy | The enrollment-side aggregates of `construir_features`. |
| `StatusResolver` | status.dfy | Distinct terms and the latest status event. |
| `Joins` | joins.dfy | `merge(how="left")` onto the personal rows, for right sides with one row per id (`agrupar`, `pivot_table`). |
| `Features` | features.dfy | `construir_features`: the seven left joins and the zero fill. |
| `Postprocess` | postprocess.dfy | `limpar_colunas_irrelevantes` and `remover_registros_ruidosos`. |
| `Pipeline` | pipeline.dfy | The stages composed. |

A column the code reads from the personal frame or the feature frame but
the frame lacks is a `KeyError` in pandas. Here it is
`Err(MissingColumn(name))`. The enrollment and status rows are typed records
whose fields are always present, so their missing columns are not modelled
(see "Left out"). Comparing a text `ano_ingresso` with 2010 raises
`TypeError`, which is `Err(NotComparable(...))`.

Notes on what `main.py` computes:
- No highest-grade deduplication. The mean is over every enrollment row, so
  a retaken offering graded 7.0 and 8.5 averages to 7.75, not 8.5
  (`Aggregates.RetakeIsAveraged`).
- No standard deviation and no ratio features.
- The `disciplina_*` pivot columns are not zero-filled. A student without
  enrollments keeps them missing (`Features.InactiveStudent`).
- The dropout label reads the personal `status_do_discente` column, not the
  latest `situacao`.
- Dates are compared as text (no `to_datetime` in `main.py`), and `sort_values`
  places missing dates last. A student with an undated event therefore gets
  an undated event as latest (`StatusResolver.LatestPrefersUndated`), not
  the earliest.

## Model

| member | source | states |
|---|---|---|
| Outcome.CategorizePriority | main.py:36-44 | Each category is chosen exactly when one of its markers occurs in the trimmed, upper-cased description and no marker of an earlier rule does. APROVADO/DISPENSADO beats REPROVADO, which beats TRANCADO/CANCELADO/DESISTENCIA, which beats INDEFERIDO; no marker gives outros. |
| Outcome.RuleTableUnfolded | main.py:36-44 | The rule table, evaluated top to bottom, equals the chain of `if` tests in the source. |
| Outcome.Categorize | main.py:31-33 | A missing description is `outros`. |
| Outcome.CategorizeIgnoresCase | main.py:35 | Lower- or upper-casing the description does not change its category. |
| Outcome.CategorizeIgnoresSurroundingSpace | main.py:35 | Stripping the description does not change its category. |
| Outcome.ApprovedByGrade | main.py:36-37 | "APROVADO POR NOTA" is `aprovada`. |
| Outcome.FailedByAbsence | main.py:35-39 | "reprovado por faltas" is `reprovada`: case is ignored, and "REPROVADO" does not contain "APROVADO". |
| Target.DropoutLabel | main.py:194-199 | The label is 0 or 1. It is 1 exactly when the status is text whose upper-cased form contains CANCELADO or DESISTENCIA. A missing status is 0. |
| Target.DropoutLabelIgnoresCase | main.py:196 | Lower-casing the status does not change its label. |
| Target.AddTarget | main.py:193-202 | It fails exactly when `status_do_discente` is absent. Otherwise it adds `aluno_evadio` with a 0/1 value per row, set by the status text, and leaves every other cell and the row count unchanged. |
| Loading.StandardizeHeaderIdempotent | main.py:8 | Stripping and lower-casing column names twice is the same as once. |
| Loading.NormalizeIdIdempotent | main.py:9 | Id normalisation (`str`, strip, lower) applied to its own output changes nothing. |
| Loading.NormalizedRow | main.py:9 | A loaded row has the header's columns. Its id cell is the normalised id, and every other cell is the raw cell. |
| Loading.StandardizePersonal | main.py:7-11 | It fails exactly when the standardised header has a repeated name or no `id_discente`. Otherwise the frame has those columns, one row per input row and normalised ids. |
| Loading.FilterUndergraduate | main.py:70 | It fails exactly when `nivel_ensino` is absent. Otherwise the kept rows are exactly the input rows whose stripped, upper-cased level is "GRADUAÇÃO", in order. |
| Loading.RenameStatus | main.py:72 | `status` becomes `status_do_discente` with the same values. Other cells and the row count are unchanged. A clash with an existing `status_do_discente` is an error. |
| Loading.LoadPersonal | main.py:66-74 | It fails exactly when the standardised header repeats a name, lacks `id_discente` or `nivel_ensino`, or has both `status` and `status_do_discente`. Otherwise its columns are the standardised header with `status` renamed, every loaded row is undergraduate with normalised ids, and the loaded rows are exactly the undergraduate standardised rows, in input order and with repeats kept, each with `status` renamed. |
| Loading.LoadedPersonalRows | main.py:66-74 | After a successful load, every undergraduate input row is present with `status` renamed, and every loaded row is such an input row. |
| Loading.SelectPersonal | main.py:70-72 | On standardised records it fails exactly when `nivel_ensino` is absent or both `status` and `status_do_discente` are present. Otherwise the columns are the input columns with `status` renamed, and the rows are exactly the undergraduate rows, in order and with repeats kept, each with `status` renamed. |
| Loading.EnrollmentHeader | main.py:80-83 | After the exact `discente` rename and standardisation, a header without `id_discente` fails with `MissingColumn` (`KeyError`), and one with `id_discente` more than once fails with `DuplicateColumn` (the `.str` accessor on two columns). Otherwise keeping first occurrences leaves a header without repeats that has the same names. |
| Loading.IdTwiceRefused | main.py:80-83 | Any header with two names that both become `id_discente` is refused. |
| Loading.ShortNamesLackId | main.py:80-83 | A header without `discente` whose names are all shorter than `id_discente` lacks the identifier. |
| Loading.LeadingIdAccepted | main.py:80-83 | A leading `discente` followed only by other short names is accepted, however often they repeat. |
| Loading.RenameRepeatsId | main.py:80-83 | `discente, id_discente, id_turma` is refused as a repeated `id_discente`. |
| Loading.PaddedNameNotRenamed | main.py:80-83 | `"Discente "` is not renamed (the rename is exact and comes before the strip), so the header lacks `id_discente`. |
| Loading.RepeatedColumnDropped | main.py:80-83 | `discente, id_turma, id_turma` is accepted: the repeated `id_turma` is dropped. |
| Loading.KeepFirstColumns | main.py:83 | The kept positions are exactly the first occurrences of each name, in increasing order. |
| Loading.MakeupFlag | main.py:93-95 | The flag is 1 exactly for the text "True". "False", any other text and a missing value are 0. |
| Loading.LoadEnrollments | main.py:97 | The kept enrollment rows are exactly the cleaned rows whose student is among the personal ids, each as often as it occurs among the cleaned rows. |
| Loading.LoadStatus | main.py:109 | The kept status rows are exactly the cleaned rows whose student is among the personal ids, each as often as it occurs among the cleaned rows. |
| Loading.CleanSituationIdempotent | main.py:111-114 | Cleaning `situacao` (upper, strip, accent removal) twice is the same as once, for an accent remover that is idempotent and keeps clean text clean. |
| Aggregates.RowsOf | main.py:14-15 | A student's group holds exactly the rows with that id. It is empty exactly when no row has the id. |
| Aggregates.RowsOfCounts | main.py:14-15 | A student's group holds each of that student's rows as often as the table does, and no other row. |
| Aggregates.OfferingsCoveredByCategories | main.py:134-141 | The distinct offerings of a student are the union of the distinct offerings of the five categories. |
| Aggregates.CategoryCountBounded | main.py:134-141 | Each per-category count is at most the student's distinct-offering count. |
| Aggregates.RepeatedOfferingCountsOnce | main.py:128-141 | Another row for an offering already seen, with the same category, changes neither the offering set nor any category's set. |
| Aggregates.MeanGrade | main.py:144-148 | The mean is missing exactly when no row has a grade. |
| Aggregates.MeanGradeBounded | main.py:144-148 | The mean lies within any bounds that hold for every grade. |
| Aggregates.RetakeIsAveraged | main.py:144-148 | Two rows of one offering, graded 7.0 and 8.5, count as one offering and average to 7.75. |
| Aggregates.TotalMakeups | main.py:158 | The makeup total is between 0 and the student's row count. |
| Aggregates.TotalMakeupsCountsFlaggedRows | main.py:158 | The makeup total is the number of rows flagged 1. |
| Aggregates.TotalAbsencesRowwise | main.py:150-157 | Summing the first-seen absence value of each distinct offering equals the row-wise sum that adds a row's value only when its offering has none yet. |
| Aggregates.RepeatedOfferingAddsNoAbsences | main.py:150-157 | A row for an offering that already has an absence value adds nothing to the total. |
| Aggregates.OfferingOrder | main.py:151-153 | The offerings in first-seen order, each once. |
| StatusResolver.EventsOf | main.py:168-171 | A student's events are exactly the events with that id. There are none exactly when no event has the id. |
| StatusResolver.EventsOfCounts | main.py:168-171 | A student's events hold each of that student's events as often as the table does, and no other event. |
| StatusResolver.Latest | main.py:170-172 | The kept event is one of the student's events, and its date is greatest in the date order (missing last). There is none exactly when the student has no events. |
| StatusResolver.LatestOfDatedEvents | main.py:171 | When every event is dated, the kept date is the greatest in text order. |
| StatusResolver.LatestPrefersUndated | main.py:171 | When some event is undated, the kept event is undated. |
| StatusResolver.LaterDateWins | main.py:170-172 | Of events dated 2021-03-01 and 2021-09-01, the September one is kept, in either row order. |
| StatusResolver.DateLeTransitive | main.py:171 | The date order is transitive. |
| StatusResolver.LexLeAntisymmetric | main.py:171 | The text order is antisymmetric. |
| StatusResolver.TermKeyInjective | main.py:163-167 | For years without a dot, `"ano.periodo"` determines both the year and the period. |
| StatusResolver.RepeatedTermCountsOnce | main.py:168 | An event whose term is already present does not change the distinct-term set. |
| Joins.LeftJoinOneToOne | main.py:128-132 | A left merge onto a right side with unique keys yields exactly one output row per left row. Each output row is the left row plus the matched cells, or missing cells when nothing matches. |
| Joins.GroupedUniqueKeys | main.py:14-15 | A grouped table (`reset_index`) has one row per key. |
| Joins.JoinGrouped | main.py:128-132 | Joining a grouped table gives each left row the cells of its own key's group. |
| Joins.JoinAllRows | main.py:128-176 | After all the left joins, row count and ids are unchanged, and row `i` is the personal row plus the cells every table holds for its id. |
| Features.BuildFeatures | main.py:119-190 | It fails exactly when `ano_nascimento` is absent. Otherwise it returns one row per personal row, in order, each the feature row of that student, with the personal columns plus `idade` and the merged columns. |
| Features.AssembledRowsPerStudent | main.py:122-188 | The joined and zero-filled rows are, row by row, the feature rows of the personal rows. |
| Features.FeatureRowCounts | main.py:128-188 | A student's row holds the number of distinct offerings, the mean grade (0 when none), the first-seen absence total, the makeup total and the number of distinct terms. |
| Features.FeatureRowCategory | main.py:134-142 | Each observed category's column holds the student's distinct offerings of that category, at most the distinct-offering count. It is missing when the student has no enrollments. |
| Features.FeatureRowSituation | main.py:170-176 | `situacao` is that of an event with the greatest date among the student's events. It is missing when there are none. |
| Features.FeatureRowPersonal | main.py:122-126 | Personal cells pass through unchanged, apart from `ano_nascimento` (coerced) and `idade`. |
| Features.WithAgeCells | main.py:123-126 | `idade` is the current year minus the coerced birth year, and missing when that is not a number. |
| Features.InactiveStudent | main.py:178-188 | A student with no enrollment and no status rows gets 0 in the five zero-filled columns, but missing `disciplina_*` and `situacao`. |
| Features.FeatureRowKeys | main.py:122-176 | A feature row has the personal columns, `idade` and every merged column. |
| Postprocess.Prune | main.py:205-236 | The listed columns are gone and the row count is unchanged. Every other cell except `cotista` is untouched, and `cotista`, when present, is recoded. |
| Postprocess.PruneLeavesOthers | main.py:221-223 | A frame with none of the listed columns and no `cotista` is returned unchanged. |
| Postprocess.CotistaCode | main.py:225-234 | The recoded value is 0 or 1. It is 1 exactly when the text, stripped and lower-cased, is "t". |
| Postprocess.CotistaCodeNormalizes | main.py:229-230 | Recoding ignores surrounding white space and case. |
| Postprocess.CotistaCodeTrue | main.py:226-234 | " T " is recoded to 1. |
| Postprocess.CotistaCodeFalse | main.py:226-234 | "f", "sim" and a missing cell are recoded to 0. |
| Postprocess.RemoveNoise | main.py:239-264 | It fails exactly when a noise column is absent, or when `ano_ingresso` exists and a non-noise row has a text year. On success the output has the same columns, and its rows are exactly the input rows that pass the noise, year and sex tests, in input order, each as often as in the input. |
| Postprocess.Survivors | main.py:256-262 | Every surviving row is an input row that passes all three tests, and every input row that passes them survives; there are no more survivors than input rows. Order and repeats are stated by `Postprocess.StepwiseIsSurvivors` and `Postprocess.SurvivorsCounts`. |
| Postprocess.StepwiseIsSurvivors | main.py:256-262 | Applying the noise filter, then the year filter when `ano_ingresso` exists, then the sex filter when `sexo` exists, gives the same sequence as one pass with all three tests. |
| Postprocess.SurvivorsCounts | main.py:256-262 | A row that passes the tests occurs among the survivors exactly as often as in the input; a row that fails does not occur. |
| Postprocess.RemoveNoiseIdempotent | main.py:239-264 | Filtering a filtered frame again changes nothing. |
| Pipeline.LoadAll | main.py:268-270 | It fails exactly when loading the personal records fails, and then holds those records. The personal frame is well formed with normalised ids. Every kept enrollment and status row belongs to a personal id, and every cleaned row that belongs to one is kept. The enrollments and status events are exactly those loaded against the ids of the loaded personal records. |
| Pipeline.PrunedRowsAreFinal | main.py:272-274 | After labelling and pruning, row `j` is the final row of personal row `j`. |
| Pipeline.NoiseFilterStops | main.py:239-264 | Once the table is assembled, the noise filter fails exactly when a noise-test column is missing from the final columns, or `ano_ingresso` is one of them and a final row that is not noise holds it as text. |
| Pipeline.KeptFinalRows | main.py:276 | When the rows are the survivors of the final rows, every row is a labelled final row of some personal row, and every final row that passes the filters is present. |
| Pipeline.FinalRowLabel | main.py:193-236 | Every final row carries a 0/1 `aluno_evadio`. |
| Pipeline.Assemble | main.py:272-274 | It fails exactly when a personal column is named like a joined column, or `ano_nascimento` or `status_do_discente` is absent. Otherwise the columns are the personal columns plus `idade`, the joined columns and `aluno_evadio`, less the dropped ones, and the rows are exactly the final rows of the personal rows, one per personal row and in order. |
| Pipeline.Transform | main.py:272-276 | It fails exactly when the assembly fails, a column of the noise test is missing from the final columns, or the final columns include `ano_ingresso` and a final row that is not noise holds it as text. On success the columns are the final columns, with `aluno_evadio` and `idade` and no dropped column. Its rows are exactly the final rows of the personal rows that pass the filters, in personal-row order, each once per personal row it comes from. Each is labelled 0 or 1. |
| Pipeline.Run | main.py:267-276 | A run fails exactly when loading the personal records fails or the stages after loading stop, under the conditions of `Pipeline.Transform`. On success the columns are the final columns of the loaded tables. A successful run yields a table without the dropped columns, with at most as many rows as personal rows read, each passing the filters and labelled 0 or 1. Loading succeeded, and the rows are exactly the final rows of the loaded personal rows that pass the filters, in order, so each row comes from a loaded student and every loaded student whose final row passes is present. |

## Left out

- File I/O: `carregar_csvs_em_pasta` (main.py:47-63), `to_csv` and the printing. The three tables are inputs. The per-file `try` that skips unreadable files is not modelled.
- Rounding: `arredondar_colunas_numericas` (main.py:18-22) is float rounding to two places, and floats are not modelled (`real` is exact). It runs before `remover_registros_ruidosos` (main.py:275-276), so leaving it out can change which rows the noise and year filters keep: `periodo_ingresso` 1.004 rounds to 1.0 and can be noise in `main.py` but not here, and `ano_ingresso` 2009.996 rounds to 2010.0 and is kept in `main.py` but dropped here.
- Accent stripping: `remover_acentos` (main.py:25-28) relies on Unicode NFKD, so it is a parameter of the run (`Config.stripAccents`).
- Numeric parsing: `pd.to_numeric` with the comma-to-dot replacement (main.py:85-91) is library parsing. Grades and absences arrive as `Option<real>`, and `ano_nascimento` coercion is `Config.parseNum`.
- The clock: `datetime.now().year` (main.py:126) is `Config.currentYear`.
- `str()` of a number: `astype(str)` on a numeric cell is `Config.numText`, a parameter.
- Missing status source: with no status CSV at all, `carregar_csvs_em_pasta` returns a frame without columns (main.py:49-51), and the early return at main.py:105-106 leads to a `KeyError` at main.py:163-164. This is not modelled: the status events are always a sequence of typed rows. A header-only status file is also returned early (main.py:105-106), but it keeps its columns, so main.py:163-176 run without error and give no status features. That matches the empty event sequence, provided the file's header is already in the standard form, because the early return skips `padronizar_colunas`.
- Dtype errors of the `.str` accessor on non-text columns are not modelled. A non-text level or status cell is treated as not matching.
- Column order of the output is not modelled. A table's columns are a set.
- StatusResolver.Latest: among events of equal date, the model keeps the later one in row order. The source's unstable `sort_values` fixes no such choice, so only the greatest-date property is stated.
- Features.BuildFeatures: requires that no personal column shares a name with a merged feature column. pandas would keep both under `_x`/`_y` suffixes; `Pipeline.Transform` reports `DuplicateColumn` for such a clash instead.
- Loading.StandardizePersonal: a repeated column name after standardisation is reported as `DuplicateColumn`; pandas would keep both columns.
- Missing columns of the enrollment and status sources: `main.py` raises `KeyError` when an enrollment extract lacks `id_turma`, `media_final`, `numero_total_faltas`, `reposicao` or `descricao` (main.py:85-95, 120, 151), or a status extract lacks `situacao`, `ano_alteracao_situacao`, `periodo_alteracao_situacao` or `data_alteracao_situacao` (main.py:111, 163-171). Those rows are typed records here (`Records.EnrollmentIn`, `Records.StatusIn`) whose fields always exist, so these errors have no counterpart.
- Loading.EnrollmentHeader: the enrollment rows are typed records, so the header it computes is not what selects the fields of `Records.EnrollmentIn`; nothing connects its result to `Loading.LoadEnrollments` beyond both following main.py:78-83.
- Loading.NormalizeId: `astype(str)` depends on the column's dtype. An integer column renders 123 as "123", a float column (one with a missing value, say) as "123.0". One `Config.numText` renders every numeric identifier, so the model assumes the personal, enrollment and status identifier columns share one numeric dtype; when they do not, pandas matches fewer students than the model.
- Records.EnrollmentIn: `offering` (`id_turma`) is always present. In pandas a missing `id_turma` is skipped by `nunique` (main.py:128-140) and its row is dropped by the `groupby(["id_discente", "id_turma"])` of the absences (main.py:150-154), while its grade and makeup still count. The model has no such row.
- Loading.MakeupFlag: assumes `reposicao` arrives as text. When `read_csv` parses a column holding only True/False as booleans, `.map({"True": 1, "False": 0})` (main.py:93-95) matches no value and `fillna(0)` makes every flag 0; the model reads such a column as "True"/"False" text.
- Text.UpperChar: maps only the ASCII letters and the Latin-1 letters à-þ (except ÷). Python's `str.upper` also maps ÿ to U+0178, µ to U+039C, ß to "SS" (two characters) and every cased letter beyond U+00FF; the model leaves those unchanged.
- Text.LowerChar: maps only the ASCII letters and the Latin-1 letters À-Þ (except ×). Python's `str.lower` also maps letters beyond U+00FF, for example the Kelvin sign U+212A to "k" and U+0130 to two characters; the model leaves those unchanged.
- The model-training scripts `predict.py` and `predict_nn.py` are not part of this model.
