/** Rows of the enrollment and status-change sources, before and after the
    loaders clean them. Numeric text has already been parsed (`None` where
    the text did not parse). */
module Records {
  import opened Wrappers
  import opened Frames

  /** A 0/1 indicator. */
  type Flag = x: int | 0 <= x <= 1

  /** One row of the enrollment extracts as read. */
  datatype EnrollmentIn = EnrollmentIn(
    student: Cell,               // discente / id_discente
    offering: string,            // id_turma
    grade: Option<real>,         // media_final
    absences: Option<real>,      // numero_total_faltas
    makeup: Option<string>,      // reposicao
    description: Option<string>) // descricao

  /** One enrollment row after loading: normalised student id and the makeup
      indicator as 0/1. */
  datatype Enrollment = Enrollment(
    student: string,
    offering: string,
    grade: Option<real>,
    absences: Option<real>,
    makeup: Flag,
    description: Option<string>)

  /** One row of the status-change extracts as read. */
  datatype StatusIn = StatusIn(
    student: Cell,               // id_discente
    date: Option<string>,        // data_alteracao_situacao
    year: Cell,                  // ano_alteracao_situacao
    period: Cell,                // periodo_alteracao_situacao
    situation: Option<string>)   // situacao

  /** One status-change event after loading. */
  datatype StatusEvent = StatusEvent(
    student: string,
    date: Option<string>,
    year: Cell,
    period: Cell,
    situation: Option<string>)
}
