/** The rows of the four tables: CURSO, DISCIPLINA, ALUNO and CURSO_DISCIPLINA. */
module Rows {

  /** A generated surrogate key (ID_CURSO, ID_DISCIPLINA, ID_ALUNO). */
  type Id = nat

  /** An ALUNO row: its name and the non-null foreign key ID_CURSO. */
  datatype StudentRow = StudentRow(name: string, courseId: Id)

  /** A CURSO_DISCIPLINA row: (ID_CURSO, ID_DISCIPLINA), the composite key of the join table. */
  type Link = (Id, Id)
}
