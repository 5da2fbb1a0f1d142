/** The transfer objects the view models bind to (AlunoDTO, MatriculaDTO,
    ArquivoDTO), reduced to the fields the core logic reads. */
module Dtos {
  import opened Common
  import opened Dates
  import opened Restricoes

  type Byte = bv8

  /** A student (AlunoDTO). */
  datatype Aluno = Aluno(id: int, nome: string, cpf: string, dataNascimento: Date, email: string)

  /** EAppMatriculaPlano */
  datatype Plano = Mensal | Semestral | Anual

  /** An enrollment (MatriculaDTO). The student and the objective may be null;
      the medical report (LaudoMedico) is absent or the bytes of a file. */
  datatype Matricula = Matricula(
    id: int,
    alunoMatricula: Option<Aluno>,
    plano: Plano,
    dataInicio: Date,
    dataFim: Date,
    objetivo: Option<string>,
    restricoesMedicas: Mask,
    laudoMedico: Option<seq<Byte>>)
}
