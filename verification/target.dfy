/** The dropout label `aluno_evadio`, derived from the personal-record status
    text `status_do_discente`. */
module Target {
  import opened Wrappers
  import opened Text
  import opened Frames

  const StatusColumn := "status_do_discente"
  const TargetColumn := "aluno_evadio"

  /** The status marks a dropout: its upper-cased text names a cancellation
      or a withdrawal. */
  predicate IsDropoutStatus(s: string) {
    Contains(Upper(s), "CANCELADO") || Contains(Upper(s), "DESISTENCIA")
  }

  /** The label of one status cell. Only a text value can carry a marker;
      a missing status or a number is labelled 0. */
  function DropoutLabel(status: Cell): (r: int)
    ensures r == 0 || r == 1
    ensures r == 1 <==> status.Text? && IsDropoutStatus(status.t)
  {
    match status
    case Text(s) => if Contains(Upper(s), "CANCELADO") || Contains(Upper(s), "DESISTENCIA") then 1 else 0
    case _ => 0
  }

  /** The label does not depend on the case of the status text. */
  lemma DropoutLabelIgnoresCase(s: string)
    ensures DropoutLabel(Text(Lower(s))) == DropoutLabel(Text(s))
  {
    UpperOfLower(s);
  }

  /** `criar_target`: adds the label column computed from the status column;
      a frame without the status column makes the code raise `KeyError`.
      Row count, row order and every other column are unchanged. */
  function AddTarget(f: Frame): (r: Result<Frame, Error>)
    requires WellFormed(f)
    ensures r.Err? <==> StatusColumn !in f.columns
    ensures r.Err? ==> r.error == MissingColumn(StatusColumn)
    ensures r.Ok? ==> WellFormed(r.value)
    ensures r.Ok? ==> r.value.columns == f.columns + {TargetColumn}
    ensures r.Ok? ==> |r.value.rows| == |f.rows|
    ensures r.Ok? ==> forall i | 0 <= i < |f.rows| ::
      && (forall k | k in f.rows[i] && k != TargetColumn :: r.value.rows[i][k] == f.rows[i][k])
      && (r.value.rows[i][TargetColumn] == Num(1 as real) <==> IsDropoutStatus(AsTextOrEmpty(f.rows[i][StatusColumn])))
      && (r.value.rows[i][TargetColumn] in {Num(0 as real), Num(1 as real)})
  {
    if StatusColumn !in f.columns then Err(MissingColumn(StatusColumn))
    else
      Ok(Frame(f.columns + {TargetColumn},
        seq(|f.rows|, i requires 0 <= i < |f.rows| =>
          f.rows[i][TargetColumn := Num(DropoutLabel(f.rows[i][StatusColumn]) as real)])))
  }

  /** The text of a text cell; other cells have none. */
  function AsTextOrEmpty(c: Cell): string {
    if c.Text? then c.t else ""
  }
}
