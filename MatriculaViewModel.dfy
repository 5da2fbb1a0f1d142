/** The enrollment form (MatriculaViewModel.cs): the business rules that
    decide whether an enrollment may be saved, the restriction check boxes,
    and the guard and dispatch of the save command. */
module Matriculas {
  import opened Common
  import opened Text
  import opened Dates
  import opened Restricoes
  import opened Dtos

  // ----- Business rules (ValidateMatricula) -----

  /** Why an enrollment is refused; each has its own alert text. */
  datatype Motivo =
    | AlunoNaoSelecionado
    | ObjetivoObrigatorio
    | PeriodoInvalido
    | MatriculaAtivaExistente
    | LaudoPorIdade
    | LaudoPorRestricao

  datatype Veredito = Aceita | Rejeitada(motivo: Motivo)

  /** The start of both medical-report alerts; the reason follows it. */
  const PrefixoLaudo: string := "O Laudo Médico é obrigatório. Motivo: "

  /** Any text that starts differently from PrefixoLaudo at index k, or is too
      short to hold it, does not start with it. */
  lemma NotLaudo(s: string, k: nat)
    requires k < |PrefixoLaudo| && (k < |s| ==> s[k] != PrefixoLaudo[k])
    ensures !StartsWith(s, PrefixoLaudo)
  {
    if |PrefixoLaudo| <= |s| {
      assert s[..|PrefixoLaudo|][k] == s[k];
    }
  }

  /** The text of the alert shown for each refusal. The two medical-report
      refusals, and only they, share one text followed by their reason. */
  function Mensagem(m: Motivo): (s: string)
    ensures m == LaudoPorIdade || m == LaudoPorRestricao <==> StartsWith(s, PrefixoLaudo)
  {
    match m
    case AlunoNaoSelecionado =>
      var s := "Você precisa buscar e selecionar um aluno.";
      NotLaudo(s, 0);
      s
    case ObjetivoObrigatorio =>
      var s := "O campo Objetivo é obrigatório.";
      NotLaudo(s, 2);
      s
    case PeriodoInvalido =>
      var s := "A Data Final deve ser maior que a Data de Início.";
      NotLaudo(s, 37);
      s
    case MatriculaAtivaExistente =>
      var s := "Este aluno já possui uma matrícula ativa.";
      NotLaudo(s, 0);
      s
    case LaudoPorIdade =>
      var s := PrefixoLaudo + "por ter entre 12 e 16 anos.";
      assert s[..|PrefixoLaudo|] == PrefixoLaudo;
      s
    case LaudoPorRestricao =>
      var s := PrefixoLaudo + "pois foram informadas restrições de saúde.";
      assert s[..|PrefixoLaudo|] == PrefixoLaudo;
      s
  }

  /** A persisted student (Id > 0) has been chosen. */
  predicate AlunoSelecionado(m: Matricula) {
    m.alunoMatricula.Some? && m.alunoMatricula.value.id > 0
  }

  /** A report is attached and is not empty. */
  predicate TemLaudo(m: Matricula) {
    m.laudoMedico.Some? && |m.laudoMedico.value| > 0
  }

  /** The checks that come before the active-enrollment query all pass. */
  predicate CamposValidos(m: Matricula) {
    AlunoSelecionado(m) && !IsNullOrWhiteSpace(m.objetivo) && Before(m.dataInicio, m.dataFim)
  }

  /** ObterAtivasAsync is called: in create mode, once the field checks
      pass. */
  predicate ConsultaAtivas(m: Matricula, isEditMode: bool) {
    !isEditMode && CamposValidos(m)
  }

  /** A report is required by age: the student is 12 to 16 years old. */
  predicate LaudoExigidoPorIdade(aluno: Aluno, hoje: Date) {
    12 <= AgeOn(aluno.dataNascimento, hoje) <= 16
  }

  /** A report is required by health: some restriction flag is set. */
  predicate LaudoExigidoPorRestricao(m: Matricula) {
    m.restricoesMedicas != Nenhuma
  }

  /** ValidateMatricula: the first failing check names the refusal.
      ativas is what ObterAtivasAsync returns for the student; it is read
      only in create mode. */
  function ValidateMatricula(m: Matricula, isEditMode: bool, hoje: Date, ativas: seq<Matricula>): (v: Veredito)
    ensures v.Aceita? <==>
      CamposValidos(m) && (isEditMode || ativas == [])
      && ((LaudoExigidoPorIdade(m.alunoMatricula.value, hoje) || LaudoExigidoPorRestricao(m)) ==> TemLaudo(m))
    ensures v == Rejeitada(AlunoNaoSelecionado) <==> !AlunoSelecionado(m)
    ensures v == Rejeitada(ObjetivoObrigatorio) <==> AlunoSelecionado(m) && IsNullOrWhiteSpace(m.objetivo)
    ensures v == Rejeitada(PeriodoInvalido) <==>
      AlunoSelecionado(m) && !IsNullOrWhiteSpace(m.objetivo) && !Before(m.dataInicio, m.dataFim)
    ensures v == Rejeitada(MatriculaAtivaExistente) <==> ConsultaAtivas(m, isEditMode) && ativas != []
    ensures v == Rejeitada(LaudoPorIdade) <==>
      CamposValidos(m) && (isEditMode || ativas == [])
      && LaudoExigidoPorIdade(m.alunoMatricula.value, hoje) && !TemLaudo(m)
    ensures v == Rejeitada(LaudoPorRestricao) <==>
      CamposValidos(m) && (isEditMode || ativas == [])
      && !LaudoExigidoPorIdade(m.alunoMatricula.value, hoje) && LaudoExigidoPorRestricao(m) && !TemLaudo(m)
  {
    if m.alunoMatricula.None? || m.alunoMatricula.value.id <= 0 then Rejeitada(AlunoNaoSelecionado)
    else if IsNullOrWhiteSpace(m.objetivo) then Rejeitada(ObjetivoObrigatorio)
    else if !Before(m.dataInicio, m.dataFim) then Rejeitada(PeriodoInvalido)
    else if !isEditMode && |ativas| > 0 then Rejeitada(MatriculaAtivaExistente)
    else
      var aluno := m.alunoMatricula.value;
      var idade := AgeOn(aluno.dataNascimento, hoje);
      var porIdade := 12 <= idade <= 16;
      var porRestricao := m.restricoesMedicas != Nenhuma;
      if (porIdade || porRestricao) && (m.laudoMedico.None? || |m.laudoMedico.value| == 0) then
        Rejeitada(if porIdade then LaudoPorIdade else LaudoPorRestricao)
      else Aceita
  }

  /** When the active enrollments are not queried (edit mode, or a field
      check failed first) the verdict does not depend on them, and edit mode
      never refuses for an active enrollment. */
  lemma VerdictIgnoresUnqueriedActives(m: Matricula, isEditMode: bool, hoje: Date, a1: seq<Matricula>, a2: seq<Matricula>)
    requires !ConsultaAtivas(m, isEditMode)
    ensures ValidateMatricula(m, isEditMode, hoje, a1) == ValidateMatricula(m, isEditMode, hoje, a2)
    ensures ValidateMatricula(m, isEditMode, hoje, a1) != Rejeitada(MatriculaAtivaExistente)
  {
  }

  /** Checks that the form's own fields fail refuse whatever the medical
      data and the active enrollments: an end date on or before the start
      date is refused, equal dates included. */
  lemma InvalidPeriodRefusedRegardless(m: Matricula, isEditMode: bool, hoje: Date, ativas: seq<Matricula>)
    requires AlunoSelecionado(m) && !IsNullOrWhiteSpace(m.objetivo)
    requires m.dataFim == m.dataInicio || Before(m.dataFim, m.dataInicio)
    ensures ValidateMatricula(m, isEditMode, hoje, ativas) == Rejeitada(PeriodoInvalido)
  {
  }

  /** The medical-report rule from the restriction side: once the check
      boxes have been turned into the mask, a report is required exactly
      when some box is ticked, and without one the enrollment is refused
      whatever the student's age. */
  lemma ReportRequiredByTickedBox(m: Matricula, opts: seq<RestricaoWrapper>, isEditMode: bool, hoje: Date, ativas: seq<Matricula>)
    requires forall i :: 0 <= i < |opts| ==> opts[i].valor != Nenhuma
    requires m.restricoesMedicas == CheckedMask(opts)
    requires CamposValidos(m) && (isEditMode || ativas == []) && !TemLaudo(m)
    ensures LaudoExigidoPorRestricao(m) <==> exists i :: 0 <= i < |opts| && opts[i].isChecked
    ensures (exists i :: 0 <= i < |opts| && opts[i].isChecked) ==> ValidateMatricula(m, isEditMode, hoje, ativas).Rejeitada?
  {
    CheckedMaskIsNone(opts);
  }

  /** The worked examples: a 14-year-old without restrictions or report is
      refused for age; a 30-year-old with allergies and a report is accepted;
      equal start and end dates are refused; a second enrollment in create
      mode while one is active is refused. */
  lemma Scenarios()
    ensures var hoje := CivilDate(2024, 6, 1);
      var jovem := Aluno(1, "Ana", "12345678901", CivilDate(2010, 3, 10), "");
      var adulto := Aluno(2, "Rui", "10987654321", CivilDate(1994, 1, 20), "");
      var base := Matricula(0, Some(jovem), Mensal, CivilDate(2024, 6, 1), CivilDate(2024, 7, 1), Some("Saúde"), Nenhuma, None);
      && ValidateMatricula(base, false, hoje, []) == Rejeitada(LaudoPorIdade)
      && ValidateMatricula(base.(alunoMatricula := Some(adulto), restricoesMedicas := Alergias, laudoMedico := Some([1])), false, hoje, []) == Aceita
      && ValidateMatricula(base.(dataInicio := CivilDate(2024, 1, 1), dataFim := CivilDate(2024, 1, 1)), false, hoje, []) == Rejeitada(PeriodoInvalido)
      && ValidateMatricula(base.(alunoMatricula := Some(adulto)), false, hoje, [base]) == Rejeitada(MatriculaAtivaExistente)
  {
    assert !IsWhiteSpace("Saúde"[0]);
  }

  // ----- The form's state and commands -----

  /** A call made to IMatriculaService, in the order made. */
  datatype Chamada = ObterAtivas(alunoId: int) | Atualizar(enviada: Matricula) | Adicionar(enviada: Matricula)

  /** How the save command ended: ignored while busy, refused by a rule
      (alert shown), saved (success alert, navigation back), or the service
      threw (error alert). */
  datatype ResultadoSalvar = Ocupado | Recusado(motivo: Motivo) | Salvo | FalhaAoSalvar

  /** The calls the validation itself makes. */
  function ConsultasFeitas(m: Matricula, isEditMode: bool): seq<Chamada> {
    if ConsultaAtivas(m, isEditMode) then [ObterAtivas(m.alunoMatricula.value.id)] else []
  }

  /** A new enrollment form: today as start, a month later as end, a
      placeholder student with Id 0 born 18 years ago, no restrictions. */
  function MatriculaPadrao(hoje: Date): (m: Matricula)
    requires 19 <= hoje.year && (hoje.year < 9999 || hoje.month < 12)
    ensures !AlunoSelecionado(m) && m.restricoesMedicas == Nenhuma && m.laudoMedico.None?
    ensures m.dataInicio == hoje && Before(m.dataInicio, m.dataFim)
  {
    var aluno := Aluno(0, "", "", AddYears(hoje, -18), "");
    Matricula(0, Some(aluno), Mensal, hoje, AddMonths(hoje, 1), Some(""), Nenhuma, None)
  }

  class MatriculaViewModel {
    var matricula: Matricula
    var isEditMode: bool
    var isBusy: bool
    /** RestricoesOpcoes: the check boxes bound to the form. */
    var restricoesOpcoes: seq<RestricaoWrapper>
    /** The service calls made so far. */
    var chamadas: seq<Chamada>

    constructor (hoje: Date)
      requires 19 <= hoje.year && (hoje.year < 9999 || hoje.month < 12)
      ensures matricula == MatriculaPadrao(hoje) && !isEditMode && !isBusy && chamadas == []
      ensures restricoesOpcoes == LoadedOptions(Nenhuma)
    {
      matricula := MatriculaPadrao(hoje);
      isEditMode := false;
      isBusy := false;
      chamadas := [];
      restricoesOpcoes := [];
      new;
      LoadRestricoes();
    }

    /** LoadRestricoes: rebuilds the six check boxes from the mask, whatever
        the collection held before. */
    method LoadRestricoes()
      modifies this`restricoesOpcoes
      ensures restricoesOpcoes == LoadedOptions(matricula.restricoesMedicas)
    {
      var atuais := matricula.restricoesMedicas;
      restricoesOpcoes := [];
      restricoesOpcoes := restricoesOpcoes + [RestricaoWrapper("Diabetes", Diabetes, HasFlag(atuais, Diabetes))];
      restricoesOpcoes := restricoesOpcoes + [RestricaoWrapper("Pressão Alta", PressaoAlta, HasFlag(atuais, PressaoAlta))];
      restricoesOpcoes := restricoesOpcoes + [RestricaoWrapper("Labirintite", Labirintite, HasFlag(atuais, Labirintite))];
      restricoesOpcoes := restricoesOpcoes + [RestricaoWrapper("Alergias", Alergias, HasFlag(atuais, Alergias))];
      restricoesOpcoes := restricoesOpcoes
        + [RestricaoWrapper("Problemas Respiratórios", ProblemasRespiratorios, HasFlag(atuais, ProblemasRespiratorios))];
      restricoesOpcoes := restricoesOpcoes
        + [RestricaoWrapper("Remédio Contínuo", RemedioContinuo, HasFlag(atuais, RemedioContinuo))];
    }

    /** The two-way binding of one check box's IsChecked. */
    method SetChecked(i: int, marcado: bool)
      requires 0 <= i < |restricoesOpcoes|
      modifies this`restricoesOpcoes
      ensures restricoesOpcoes == old(restricoesOpcoes)[i := old(restricoesOpcoes)[i].(isChecked := marcado)]
    {
      restricoesOpcoes := restricoesOpcoes[i := restricoesOpcoes[i].(isChecked := marcado)];
    }

    /** UpdateRestricoesEnum: ORs the flags of the ticked boxes, starting
        from Nenhuma, into the enrollment. */
    method UpdateRestricoesEnum()
      modifies this`matricula
      ensures matricula == old(matricula).(restricoesMedicas := CheckedMask(restricoesOpcoes))
    {
      var opcoes := restricoesOpcoes;
      var selecionadas := Nenhuma;
      var i := 0;
      while i < |opcoes|
        invariant 0 <= i <= |opcoes|
        invariant selecionadas == CheckedMask(opcoes[..i])
        invariant matricula == old(matricula)
      {
        if opcoes[i].isChecked {
          CheckedMaskTicked(opcoes, i);
          selecionadas := selecionadas | opcoes[i].valor;
        } else {
          CheckedMaskUnticked(opcoes, i);
        }
        i := i + 1;
      }
      assert opcoes[..i] == opcoes;
      matricula := matricula.(restricoesMedicas := selecionadas);
    }

    /** SaveMatriculaAsync. hoje stands for DateTime.Today, ativas for what
        ObterAtivasAsync returns, and gravacao for how AtualizarAsync or
        AdicionarAsync ends. Nothing happens while busy; otherwise the mask
        is rebuilt from the check boxes, the rules run, and only an accepted
        enrollment reaches the service: by AtualizarAsync in edit mode, by
        AdicionarAsync in create mode. alerta is the text of the alert that
        follows a refusal or a save; the alert for an exception shows the
        exception's message, which is not modelled. */
    method SaveMatricula(hoje: Date, ativas: seq<Matricula>, gravacao: Reply<Matricula>)
      returns (r: ResultadoSalvar, alerta: Option<string>)
      modifies this
      ensures r.Recusado? ==> alerta == Some(Mensagem(r.motivo))
      ensures r == Salvo ==>
        alerta == Some(if isEditMode then "Matrícula atualizada com sucesso!" else "Matrícula criada com sucesso!")
      ensures r == Ocupado || r == FalhaAoSalvar ==> alerta == None
      ensures old(isBusy) ==> r == Ocupado && unchanged(this)
      ensures !old(isBusy) ==>
        && matricula == old(matricula).(restricoesMedicas := CheckedMask(old(restricoesOpcoes)))
        && isEditMode == old(isEditMode) && restricoesOpcoes == old(restricoesOpcoes) && !isBusy
        && var v := ValidateMatricula(matricula, isEditMode, hoje, ativas);
           && chamadas == old(chamadas) + ConsultasFeitas(matricula, isEditMode)
                + (if v.Rejeitada? then []
                   else if isEditMode then [Atualizar(matricula)]
                   else [Adicionar(matricula)])
           && r == (if v.Rejeitada? then Recusado(v.motivo)
                    else if gravacao.Threw? then FalhaAoSalvar
                    else Salvo)
    {
      if isBusy {
        return Ocupado, None;
      }
      UpdateRestricoesEnum();
      chamadas := chamadas + ConsultasFeitas(matricula, isEditMode);
      var v := ValidateMatricula(matricula, isEditMode, hoje, ativas);
      if v.Rejeitada? {
        return Recusado(v.motivo), Some(Mensagem(v.motivo));
      }
      isBusy := true;
      if isEditMode {
        chamadas := chamadas + [Atualizar(matricula)];
      } else {
        chamadas := chamadas + [Adicionar(matricula)];
      }
      if gravacao.Threw? {
        r, alerta := FalhaAoSalvar, None;
      } else {
        var texto := if isEditMode then "Matrícula atualizada com sucesso!" else "Matrícula criada com sucesso!";
        r, alerta := Salvo, Some(texto);
      }
      isBusy := false;
    }
  }
}
