/** The student list screen (AlunoListViewModel.cs): which lookup the
    search runs, and how the search, load and delete commands change the
    list on screen. */
module AlunoLists {
  import opened Common
  import opened Text
  import opened Lists
  import opened Dtos

  /** The two entries of the filter picker; "CPF" is the default. */
  const FiltroId: string := "Id"
  const FiltroCpf: string := "CPF"

  /** The IAlunoService lookup a search makes, or none at all. */
  datatype Consulta = Todos | PorId(id: int) | PorCpf(cpf: string) | SemConsulta

  /** The branch SearchAlunosAsync takes: every student for a blank text;
      a lookup by id for the "Id" filter when the text parses as an int; a
      lookup by CPF, with the text as typed, for the "CPF" filter; no lookup
      otherwise. */
  function SelecionarConsulta(texto: string, filtro: string): (q: Consulta)
    ensures q == Todos <==> IsBlank(texto)
    ensures q.PorId? <==> !IsBlank(texto) && filtro == FiltroId && TryParseInt(texto).Some?
    ensures q.PorId? ==> TryParseInt(texto) == Some(q.id)
    ensures q.PorCpf? <==> !IsBlank(texto) && filtro == FiltroCpf
    ensures q.PorCpf? ==> q.cpf == texto
    ensures q == SemConsulta <==>
      !IsBlank(texto) && filtro != FiltroCpf && (filtro == FiltroId ==> TryParseInt(texto).None?)
  {
    if IsBlank(texto) then Todos
    else if filtro == FiltroId && TryParseInt(texto).Some? then PorId(TryParseInt(texto).value)
    else if filtro == FiltroCpf then PorCpf(texto)
    else SemConsulta
  }

  /** What the service answers: ObterTodosAsync (which may return null),
      ObterPorIdAsync and ObterPorCpfAsync (absent keys stand for null), and
      whether the awaited call throws. */
  datatype AlunoService = AlunoService(
    todos: Option<seq<Aluno>>,
    porId: map<int, Aluno>,
    porCpf: map<string, Aluno>,
    falha: bool)

  /** The students a lookup yields once it completes: a null list or a null
      student becomes an empty sequence. */
  function Resultados(svc: AlunoService, q: Consulta): (r: seq<Aluno>)
    ensures q != Todos ==> |r| <= 1
    ensures q == SemConsulta ==> r == []
  {
    match q
    case Todos => svc.todos.GetOr([])
    case PorId(id) => if id in svc.porId then [svc.porId[id]] else []
    case PorCpf(cpf) => if cpf in svc.porCpf then [svc.porCpf[cpf]] else []
    case SemConsulta => []
  }

  /** The lookups answer with the student they were asked for. The view
      model does not check this; it is what makes the student shown carry
      the id or CPF typed. */
  predicate Coerente(svc: AlunoService) {
    && (forall id :: id in svc.porId ==> svc.porId[id].id == id)
    && (forall cpf :: cpf in svc.porCpf ==> svc.porCpf[cpf].cpf == cpf)
  }

  /** A blank text lists every student the service returned, and none when
      it returned null. */
  lemma BlankSearchListsAll(svc: AlunoService, texto: string, filtro: string)
    requires IsBlank(texto)
    ensures Resultados(svc, SelecionarConsulta(texto, filtro)) == if svc.todos.Some? then svc.todos.value else []
  {
  }

  /** The "Id" filter with a number yields what ObterPorIdAsync answers for
      that number: one student or none. When the service answers with the
      student asked for, that student has the id typed. */
  lemma IdSearchYieldsThatStudent(svc: AlunoService, texto: string, n: int)
    requires !IsBlank(texto) && TryParseInt(texto) == Some(n)
    ensures var r := Resultados(svc, SelecionarConsulta(texto, FiltroId));
      && r == (if n in svc.porId then [svc.porId[n]] else [])
      && (Coerente(svc) ==> forall a :: a in r ==> a.id == n)
  {
  }

  /** The "CPF" filter yields what ObterPorCpfAsync answers for the text as
      typed: one student or none. When the service answers with the student
      asked for, that student has the CPF typed. */
  lemma CpfSearchYieldsThatStudent(svc: AlunoService, texto: string)
    requires !IsBlank(texto)
    ensures var r := Resultados(svc, SelecionarConsulta(texto, FiltroCpf));
      && r == (if texto in svc.porCpf then [svc.porCpf[texto]] else [])
      && (Coerente(svc) ==> forall a :: a in r ==> a.cpf == texto)
  {
  }

  /** A non-blank text under the "Id" filter that is not an int, or under
      any filter but "Id" and "CPF", makes no lookup and yields nothing. */
  lemma NoLookupYieldsNothing(svc: AlunoService, texto: string, filtro: string)
    requires !IsBlank(texto)
    requires (filtro == FiltroId && TryParseInt(texto).None?) || (filtro != FiltroId && filtro != FiltroCpf)
    ensures SelecionarConsulta(texto, filtro) == SemConsulta
    ensures Resultados(svc, SelecionarConsulta(texto, filtro)) == []
  {
  }

  /** Typing back the id of a student under the "Id" filter looks that
      student up. */
  lemma TypedIdIsLookedUp(id: int)
    requires IntMin <= id <= IntMax
    ensures SelecionarConsulta(IntToString(id), FiltroId) == PorId(id)
  {
    ParseIntRoundTrip(id);
    assert IntToString(id)[0] == '-' || IsDigit(IntToString(id)[0]);
  }

  class AlunoListViewModel {
    /** Alunos: the list on screen. */
    var alunos: seq<Aluno>
    var isBusy: bool
    var isRefreshing: bool
    var searchText: string
    var selectedFilterType: string
    /** The lookups made on IAlunoService so far. */
    var consultas: seq<Consulta>
    /** The ids passed to RemoverAsync so far. */
    var remocoes: seq<int>

    constructor ()
      ensures alunos == [] && consultas == [] && remocoes == []
      ensures !isBusy && !isRefreshing && searchText == "" && selectedFilterType == FiltroCpf
    {
      alunos := [];
      isBusy := false;
      isRefreshing := false;
      searchText := "";
      selectedFilterType := FiltroCpf;
      consultas := [];
      remocoes := [];
    }

    /** Alunos.Add of each item in order. */
    method Acrescentar(itens: seq<Aluno>)
      modifies this`alunos
      ensures alunos == old(alunos) + itens
    {
      var i := 0;
      while i < |itens|
        invariant 0 <= i <= |itens|
        invariant alunos == old(alunos) + itens[..i]
      {
        alunos := alunos + [itens[i]];
        i := i + 1;
      }
      assert itens[..i] == itens;
    }

    /** SearchAlunosAsync. Nothing happens while busy. Otherwise the list is
        cleared, the selected lookup is made, if any, and the list ends with
        what it yields; when the lookup throws the list stays empty and an
        error alert is shown. IsBusy ends false. */
    method SearchAlunos(svc: AlunoService) returns (r: Desfecho)
      modifies this`alunos, this`isBusy, this`consultas
      ensures old(isBusy) ==> r == Ignorado && unchanged(this)
      ensures !old(isBusy) ==>
        && !isBusy
        && var q := SelecionarConsulta(searchText, selectedFilterType);
           && consultas == old(consultas) + (if q == SemConsulta then [] else [q])
           && var lancou := q != SemConsulta && svc.falha;
              && alunos == (if lancou then [] else Resultados(svc, q))
              && r == if lancou then ErroExibido else Concluido
    {
      if isBusy {
        return Ignorado;
      }
      isBusy := true;
      alunos := [];
      var q := SelecionarConsulta(searchText, selectedFilterType);
      if q != SemConsulta {
        consultas := consultas + [q];
        if svc.falha {
          isBusy := false;
          return ErroExibido;
        }
      }
      Acrescentar(Resultados(svc, q));
      r := Concluido;
      isBusy := false;
    }

    /** LoadAlunosAsync. Nothing happens while busy. Otherwise the list is
        cleared and refilled with exactly the service's list, in order, and
        stays empty when the service returns null or throws. Both flags end
        false. */
    method LoadAlunos(svc: AlunoService) returns (r: Desfecho)
      modifies this`alunos, this`isBusy, this`isRefreshing, this`consultas
      ensures old(isBusy) ==> r == Ignorado && unchanged(this)
      ensures !old(isBusy) ==>
        && !isBusy && !isRefreshing
        && consultas == old(consultas) + [Todos]
        && alunos == (if svc.falha || svc.todos.None? then [] else svc.todos.value)
        && r == if svc.falha then ErroExibido else Concluido
    {
      if isBusy {
        return Ignorado;
      }
      isBusy := true;
      alunos := [];
      consultas := consultas + [Todos];
      if svc.falha {
        r := ErroExibido;
      } else {
        if svc.todos.Some? {
          Acrescentar(svc.todos.value);
        }
        r := Concluido;
      }
      isBusy := false;
      isRefreshing := false;
    }

    /** RefreshAsync: raises IsRefreshing and loads, so a refresh while busy
        leaves IsRefreshing raised. */
    method Refresh(svc: AlunoService) returns (r: Desfecho)
      modifies this`alunos, this`isBusy, this`isRefreshing, this`consultas
      ensures old(isBusy) ==>
        r == Ignorado && isBusy && isRefreshing && alunos == old(alunos) && consultas == old(consultas)
      ensures !old(isBusy) ==>
        && !isBusy && !isRefreshing
        && consultas == old(consultas) + [Todos]
        && alunos == (if svc.falha || svc.todos.None? then [] else svc.todos.value)
        && r == if svc.falha then ErroExibido else Concluido
    {
      isRefreshing := true;
      r := LoadAlunos(svc);
    }

    /** DeleteAlunoAsync. alvo is the student tapped, confirma the answer to
        the confirmation alert, remocao how RemoverAsync ends. There is no
        busy guard: a confirmed delete always calls the service and always
        leaves IsBusy false. The student leaves the list only when the
        service answers true; false and an exception show an error alert. */
    method DeleteAluno(alvo: Option<Aluno>, confirma: bool, remocao: Reply<bool>) returns (r: Desfecho)
      modifies this`alunos, this`isBusy, this`remocoes
      ensures var chamou := alvo.Some? && confirma;
        && remocoes == old(remocoes) + (if chamou then [alvo.value.id] else [])
        && isBusy == (old(isBusy) && !chamou)
        && r == (if !chamou then Ignorado else if remocao == Completed(true) then Concluido else ErroExibido)
        && alunos == if r == Concluido then RemoveFirst(old(alunos), alvo.value) else old(alunos)
    {
      if alvo.None? || !confirma {
        return Ignorado;
      }
      isBusy := true;
      remocoes := remocoes + [alvo.value.id];
      if remocao == Completed(true) {
        alunos := RemoveFirst(alunos, alvo.value);
        r := Concluido;
      } else {
        r := ErroExibido;
      }
      isBusy := false;
    }
  }
}
