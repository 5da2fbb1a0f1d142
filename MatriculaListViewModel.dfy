/** The enrollment list screen (MatriculaListViewModel.cs): a backup list of
    every enrollment the service returned, the list on screen, and the
    search, reload and delete commands that keep the two in step. */
module MatriculaLists {
  import opened Common
  import opened Text
  import opened Lists
  import opened Dtos

  /** The two entries of the filter picker (FilterTypes); the first is the
      default. */
  const FiltroNome: string := "Nome do Aluno"
  const FiltroCpf: string := "CPF do Aluno"
  const FilterTypes: seq<string> := [FiltroNome, FiltroCpf]

  /** Every entry has a student: filtering dereferences AlunoMatricula and
      throws a NullReferenceException on an entry without one. */
  predicate TodasComAluno(all: seq<Matricula>) {
    forall i :: 0 <= i < |all| ==> all[i].alunoMatricula.Some?
  }

  /** The Where predicate of SearchMatriculas: the student's name contains
      the text ignoring case for "Nome do Aluno", the student's CPF contains
      it exactly for any other filter. An exact name match is also a match. */
  function Corresponde(m: Matricula, texto: string, filtro: string): (b: bool)
    ensures b ==> m.alunoMatricula.Some?
    ensures m.alunoMatricula.Some? && filtro == FiltroNome && Contains(m.alunoMatricula.value.nome, texto) ==> b
  {
    m.alunoMatricula.Some? &&
    if filtro == FiltroNome then ContainsIgnoreCase(m.alunoMatricula.value.nome, texto)
    else Contains(m.alunoMatricula.value.cpf, texto)
  }

  /** _allMatriculas.Where(...).ToList(): the matching entries, in the
      backup list's order. */
  function Filtrar(all: seq<Matricula>, texto: string, filtro: string): (r: seq<Matricula>)
    ensures IsSubsequence(r, all)
    ensures forall k :: 0 <= k < |r| ==> Corresponde(r[k], texto, filtro)
  {
    WhereIsSubsequence(all, m => Corresponde(m, texto, filtro));
    Where(all, m => Corresponde(m, texto, filtro))
  }

  /** What SearchMatriculas puts on screen from the backup list: all of it,
      in its order, for a blank text; otherwise the filtered entries, or
      None when the filter throws because some entry has no student. */
  function Busca(all: seq<Matricula>, texto: string, filtro: string): (r: Option<seq<Matricula>>)
    ensures IsBlank(texto) ==> r == Some(all)
    ensures r.None? <==> !IsBlank(texto) && exists i :: 0 <= i < |all| && all[i].alunoMatricula.None?
    ensures r.Some? ==> IsSubsequence(r.value, all)
  {
    if IsBlank(texto) then
      SubsequenceReflexive(all);
      Some(all)
    else if !TodasComAluno(all) then None
    else Some(Filtrar(all, texto, filtro))
  }

  /** The "Nome do Aluno" filter keeps every copy of each entry whose
      student's name contains the text ignoring case, and no other entry. */
  lemma NameFilterKeepsExactly(all: seq<Matricula>, texto: string, m: Matricula)
    requires !IsBlank(texto) && TodasComAluno(all)
    ensures var r := Busca(all, texto, FiltroNome).value;
      var casa := m.alunoMatricula.Some? && ContainsIgnoreCase(m.alunoMatricula.value.nome, texto);
      && (m in r <==> m in all && casa)
      && multiset(r)[m] == if casa then multiset(all)[m] else 0
  {
    WhereKeepsExactly(all, x => Corresponde(x, texto, FiltroNome), m);
  }

  /** Any other filter, such as FiltroCpf, keeps every copy of each entry whose student's CPF
      contains the text, case and all, and no other entry. */
  lemma CpfFilterKeepsExactly(all: seq<Matricula>, texto: string, filtro: string, m: Matricula)
    requires !IsBlank(texto) && TodasComAluno(all) && filtro != FiltroNome
    ensures var r := Busca(all, texto, filtro).value;
      var casa := m.alunoMatricula.Some? && Contains(m.alunoMatricula.value.cpf, texto);
      && (m in r <==> m in all && casa)
      && multiset(r)[m] == if casa then multiset(all)[m] else 0
  {
    WhereKeepsExactly(all, x => Corresponde(x, texto, filtro), m);
  }

  /** A call made to IMatriculaService, in the order made. */
  datatype ChamadaLista = ObterTodas | Remover(id: int)

  class MatriculaListViewModel {
    /** _allMatriculas: the backup list the filter reads. */
    var allMatriculas: seq<Matricula>
    /** Matriculas: the list on screen. */
    var matriculas: seq<Matricula>
    var isBusy: bool
    var isRefreshing: bool
    var searchText: string
    var selectedFilterType: string
    /** The calls made to IMatriculaService so far. */
    var chamadas: seq<ChamadaLista>

    /** The screen shows a selection of the backup list, in its order. */
    ghost predicate Valid()
      reads this
    {
      IsSubsequence(matriculas, allMatriculas)
    }

    constructor ()
      ensures Valid()
      ensures allMatriculas == [] && matriculas == [] && chamadas == []
      ensures !isBusy && !isRefreshing && searchText == "" && selectedFilterType == FiltroNome
      ensures selectedFilterType in FilterTypes
    {
      allMatriculas := [];
      matriculas := [];
      isBusy := false;
      isRefreshing := false;
      searchText := "";
      selectedFilterType := FilterTypes[0];
      chamadas := [];
    }

    /** Matriculas.Clear() followed by Matriculas.Add of each item in
        order. */
    method Exibir(itens: seq<Matricula>)
      modifies this`matriculas
      ensures matriculas == itens
    {
      matriculas := [];
      var i := 0;
      while i < |itens|
        invariant 0 <= i <= |itens|
        invariant matriculas == itens[..i]
      {
        matriculas := matriculas + [itens[i]];
        i := i + 1;
      }
      assert itens[..i] == itens;
    }

    /** SearchMatriculas. lancou tells that the filter threw, in which case
        the screen is left as it was; the backup list is never touched. */
    method SearchMatriculas() returns (lancou: bool)
      requires Valid()
      modifies this`matriculas
      ensures Valid()
      ensures lancou <==> Busca(allMatriculas, searchText, selectedFilterType).None?
      ensures matriculas == Busca(allMatriculas, searchText, selectedFilterType).GetOr(old(matriculas))
    {
      if IsBlank(searchText) {
        SubsequenceReflexive(allMatriculas);
        Exibir(allMatriculas);
        return false;
      }
      if !TodasComAluno(allMatriculas) {
        return true;
      }
      var filtrada := Filtrar(allMatriculas, searchText, selectedFilterType);
      Exibir(filtrada);
      return false;
    }

    /** LoadMatriculasAsync, with resposta standing for how ObterTodasAsync
        ends. Nothing happens while busy, and no call is made. Otherwise
        ObterTodasAsync is called once, and a reply replaces the backup list
        and the screen shows it, filtered when the text is not blank; an
        exception from the service leaves both lists as they were,
        one from the filter leaves the whole list on screen; either shows an
        error alert. Both flags end false. */
    method LoadMatriculas(resposta: Reply<seq<Matricula>>) returns (r: Desfecho)
      requires Valid()
      modifies this`allMatriculas, this`matriculas, this`isBusy, this`isRefreshing, this`chamadas
      ensures Valid()
      ensures old(isBusy) ==> r == Ignorado && unchanged(this)
      ensures !old(isBusy) ==> !isBusy && !isRefreshing && chamadas == old(chamadas) + [ObterTodas]
      ensures !old(isBusy) && resposta.Threw? ==>
        r == ErroExibido && allMatriculas == old(allMatriculas) && matriculas == old(matriculas)
      ensures !old(isBusy) && resposta.Completed? ==>
        && allMatriculas == resposta.value
        && var b := Busca(resposta.value, searchText, selectedFilterType);
           && matriculas == b.GetOr(resposta.value)
           && r == if b.None? then ErroExibido else Concluido
    {
      if isBusy {
        return Ignorado;
      }
      isBusy := true;
      chamadas := chamadas + [ObterTodas];
      r := Concluido;
      if resposta.Threw? {
        r := ErroExibido;
      } else {
        allMatriculas := resposta.value;
        Exibir(allMatriculas);
        SubsequenceReflexive(allMatriculas);
        if !IsBlank(searchText) {
          var lancou := SearchMatriculas();
          if lancou {
            r := ErroExibido;
          }
        }
      }
      isBusy := false;
      isRefreshing := false;
    }

    /** RefreshAsync: clears the search text, even while busy, then
        reloads, so a completed reload shows the service's whole list. */
    method Refresh(resposta: Reply<seq<Matricula>>) returns (r: Desfecho)
      requires Valid()
      modifies this`searchText, this`allMatriculas, this`matriculas, this`isBusy, this`isRefreshing, this`chamadas
      ensures Valid()
      ensures searchText == "" && selectedFilterType == old(selectedFilterType)
      ensures old(isBusy) ==>
        && r == Ignorado && isBusy && isRefreshing == old(isRefreshing) && chamadas == old(chamadas)
        && allMatriculas == old(allMatriculas) && matriculas == old(matriculas)
      ensures !old(isBusy) ==> !isBusy && !isRefreshing && chamadas == old(chamadas) + [ObterTodas]
      ensures !old(isBusy) && resposta.Threw? ==>
        r == ErroExibido && allMatriculas == old(allMatriculas) && matriculas == old(matriculas)
      ensures !old(isBusy) && resposta.Completed? ==>
        r == Concluido && allMatriculas == resposta.value && matriculas == resposta.value
    {
      searchText := "";
      r := LoadMatriculas(resposta);
    }

    /** DeleteMatriculaAsync. alvo is the entry tapped, confirma the answer
        to the confirmation alert, remocao how RemoverAsync ends. The
        service is called only for a confirmed entry while not busy, and the
        entry leaves both lists whenever the call completes: the boolean it
        answers is not looked at, so false removes the entry too. */
    method DeleteMatricula(alvo: Option<Matricula>, confirma: bool, remocao: Reply<bool>) returns (r: Desfecho)
      requires Valid()
      modifies this`allMatriculas, this`matriculas, this`isBusy, this`chamadas
      ensures Valid()
      ensures isBusy == old(isBusy)
      ensures var chamou := alvo.Some? && alvo.value.alunoMatricula.Some? && confirma && !old(isBusy);
        && chamadas == old(chamadas) + (if chamou then [Remover(alvo.value.id)] else [])
        && r == (if !chamou then Ignorado else if remocao.Threw? then ErroExibido else Concluido)
        && (r == Concluido ==>
              allMatriculas == RemoveFirst(old(allMatriculas), alvo.value)
              && matriculas == RemoveFirst(old(matriculas), alvo.value))
        && (r != Concluido ==> allMatriculas == old(allMatriculas) && matriculas == old(matriculas))
    {
      if alvo.None? || alvo.value.alunoMatricula.None? {
        return Ignorado;
      }
      if !confirma {
        return Ignorado;
      }
      if isBusy {
        return Ignorado;
      }
      isBusy := true;
      var m := alvo.value;
      chamadas := chamadas + [Remover(m.id)];
      if remocao.Threw? {
        r := ErroExibido;
      } else {
        RemoveFirstKeepsSubsequence(matriculas, allMatriculas, m);
        allMatriculas := RemoveFirst(allMatriculas, m);
        matriculas := RemoveFirst(matriculas, m);
        r := Concluido;
      }
      isBusy := false;
    }
  }
}
