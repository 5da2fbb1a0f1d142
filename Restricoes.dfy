/** The [Flags] enum of medical restrictions and the check boxes that edit
    it (RestricaoWrapper, LoadRestricoes and UpdateRestricoesEnum in
    MatriculaViewModel.cs). */
module Restricoes {

  /** An EAppMatriculaRestricoes value: a set of flags in a 32-bit int. */
  type Mask = bv32

  const Nenhuma: Mask := 0
  const Diabetes: Mask := 1
  const PressaoAlta: Mask := 2
  const Labirintite: Mask := 4
  const Alergias: Mask := 8
  const ProblemasRespiratorios: Mask := 16
  const RemedioContinuo: Mask := 32

  /** The six flags, in the order the check boxes are listed. */
  const Flags: seq<Mask> := [Diabetes, PressaoAlta, Labirintite, Alergias, ProblemasRespiratorios, RemedioContinuo]

  /** Every flag together. */
  const Todas: Mask := 63

  /** Enum.HasFlag: every bit of flag is set in m, so None is in every
      mask. */
  function HasFlag(m: Mask, flag: Mask): (b: bool)
    ensures flag == Nenhuma ==> b
  {
    m & flag == flag
  }

  /** One check box: a restriction's name, its flag, and whether it is
      ticked. */
  datatype RestricaoWrapper = RestricaoWrapper(nome: string, valor: Mask, isChecked: bool)

  /** The check boxes LoadRestricoes builds for a mask: one per restriction,
      each ticked exactly when its flag is set in m. */
  function LoadedOptions(m: Mask): (opts: seq<RestricaoWrapper>)
    ensures |opts| == |Flags|
    ensures forall i :: 0 <= i < |opts| ==> opts[i].valor == Flags[i] && opts[i].isChecked == HasFlag(m, Flags[i])
  {
    [ RestricaoWrapper("Diabetes", Diabetes, HasFlag(m, Diabetes)),
      RestricaoWrapper("Pressão Alta", PressaoAlta, HasFlag(m, PressaoAlta)),
      RestricaoWrapper("Labirintite", Labirintite, HasFlag(m, Labirintite)),
      RestricaoWrapper("Alergias", Alergias, HasFlag(m, Alergias)),
      RestricaoWrapper("Problemas Respiratórios", ProblemasRespiratorios, HasFlag(m, ProblemasRespiratorios)),
      RestricaoWrapper("Remédio Contínuo", RemedioContinuo, HasFlag(m, RemedioContinuo)) ]
  }

  /** What one check box adds to the mask. */
  function Contribution(w: RestricaoWrapper): Mask {
    if w.isChecked then w.valor else Nenhuma
  }

  /** The mask UpdateRestricoesEnum builds: the flags of the ticked boxes
      ORed together, starting from Nenhuma. */
  function CheckedMask(opts: seq<RestricaoWrapper>): (r: Mask)
    ensures forall i :: 0 <= i < |opts| && opts[i].isChecked ==> HasFlag(r, opts[i].valor)
  {
    if opts == [] then Nenhuma
    else
      var init := opts[..|opts| - 1];
      var a := CheckedMask(init);
      assert forall i :: 0 <= i < |init| ==> init[i] == opts[i];
      TickedFlagsSurviveOr(opts, a, Contribution(opts[|opts| - 1]));
      a | Contribution(opts[|opts| - 1])
  }

  /** ORing more bits into a mask keeps the flags it has. */
  lemma OrKeepsFlag(a: Mask, c: Mask, v: Mask)
    requires HasFlag(a, v)
    ensures HasFlag(a | c, v)
  {
  }

  /** One step of the fold keeps the flags of the earlier ticked boxes and
      adds the flag of the last box when it is ticked. */
  lemma TickedFlagsSurviveOr(opts: seq<RestricaoWrapper>, a: Mask, c: Mask)
    requires |opts| > 0
    requires forall i :: 0 <= i < |opts| - 1 && opts[i].isChecked ==> HasFlag(a, opts[i].valor)
    requires c == Contribution(opts[|opts| - 1])
    ensures forall i :: 0 <= i < |opts| && opts[i].isChecked ==> HasFlag(a | c, opts[i].valor)
  {
    forall i | 0 <= i < |opts| && opts[i].isChecked
      ensures HasFlag(a | c, opts[i].valor)
    {
      if i < |opts| - 1 {
        OrKeepsFlag(a, c, opts[i].valor);
      } else {
        OrKeepsFlag(c, a, c);
        assert c | a == a | c;
      }
    }
  }

  /** One step of the fold: the first k boxes give the first k - 1 boxes'
      mask ORed with box k - 1's contribution. */
  lemma CheckedMaskStep(opts: seq<RestricaoWrapper>, k: int)
    requires 0 < k <= |opts|
    ensures CheckedMask(opts[..k]) == CheckedMask(opts[..k - 1]) | Contribution(opts[k - 1])
  {
    assert opts[..k][..k - 1] == opts[..k - 1];
  }

  /** A ticked box ORs its flag into the mask of the boxes before it. */
  lemma CheckedMaskTicked(opts: seq<RestricaoWrapper>, i: int)
    requires 0 <= i < |opts| && opts[i].isChecked
    ensures CheckedMask(opts[..i + 1]) == CheckedMask(opts[..i]) | opts[i].valor
  {
    CheckedMaskStep(opts, i + 1);
  }

  /** An unticked box leaves the mask of the boxes before it as it is. */
  lemma CheckedMaskUnticked(opts: seq<RestricaoWrapper>, i: int)
    requires 0 <= i < |opts| && !opts[i].isChecked
    ensures CheckedMask(opts[..i + 1]) == CheckedMask(opts[..i])
  {
    CheckedMaskStep(opts, i + 1);
  }

  lemma CheckedMaskOfSix(opts: seq<RestricaoWrapper>)
    requires |opts| == 6
    ensures CheckedMask(opts) == Contribution(opts[0]) | Contribution(opts[1]) | Contribution(opts[2])
      | Contribution(opts[3]) | Contribution(opts[4]) | Contribution(opts[5])
  {
    assert opts[..0] == [];
    CheckedMaskStep(opts, 1);
    CheckedMaskStep(opts, 2);
    CheckedMaskStep(opts, 3);
    CheckedMaskStep(opts, 4);
    CheckedMaskStep(opts, 5);
    CheckedMaskStep(opts, 6);
    assert opts[..6] == opts;
  }

  /** Loading the check boxes for a mask and building the mask back from
      them gives the mask's restriction flags, so every mask made of the six
      flags comes back unchanged. */
  lemma LoadThenUpdate(m: Mask)
    ensures CheckedMask(LoadedOptions(m)) == m & Todas
    ensures m & !Todas == 0 ==> CheckedMask(LoadedOptions(m)) == m
  {
    CheckedMaskOfSix(LoadedOptions(m));
  }

  /** A loaded box contributes exactly its own flag's bit of the mask. */
  lemma LoadedContribution(m: Mask, j: int)
    requires 0 <= j < |Flags|
    ensures Contribution(LoadedOptions(m)[j]) == m & Flags[j]
  {
    if j == 0 {
      assert Flags[0] == Diabetes;
    } else if j == 1 {
      assert Flags[1] == PressaoAlta;
    } else if j == 2 {
      assert Flags[2] == Labirintite;
    } else if j == 3 {
      assert Flags[3] == Alergias;
    } else if j == 4 {
      assert Flags[4] == ProblemasRespiratorios;
    } else {
      assert Flags[5] == RemedioContinuo;
    }
  }

  /** What box j contributes once box i alone has been set to b. */
  function EditedBit(m: Mask, i: int, b: bool, j: int): Mask
    requires 0 <= j < |Flags|
  {
    if j == i then (if b then Flags[j] else Nenhuma) else m & Flags[j]
  }

  lemma EditedBitsUnion(m: Mask, i: int, b: bool)
    requires 0 <= i < |Flags|
    ensures EditedBit(m, i, b, 0) | EditedBit(m, i, b, 1) | EditedBit(m, i, b, 2)
      | EditedBit(m, i, b, 3) | EditedBit(m, i, b, 4) | EditedBit(m, i, b, 5)
      == if b then (m & Todas) | Flags[i] else (m & Todas) & !Flags[i]
  {
    assert Flags[0] == 1 && Flags[1] == 2 && Flags[2] == 4 && Flags[3] == 8 && Flags[4] == 16 && Flags[5] == 32;
  }

  /** Setting one check box after loading sets or clears that flag and keeps
      the others. */
  lemma SetOneCheckBox(m: Mask, i: int, b: bool)
    requires 0 <= i < |Flags|
    ensures var opts := LoadedOptions(m);
      CheckedMask(opts[i := opts[i].(isChecked := b)])
        == if b then (m & Todas) | Flags[i] else (m & Todas) & !Flags[i]
  {
    var opts := LoadedOptions(m);
    var edited := opts[i := opts[i].(isChecked := b)];
    CheckedMaskOfSix(edited);
    forall j | 0 <= j < |Flags|
      ensures Contribution(edited[j]) == EditedBit(m, i, b, j)
    {
      if j != i {
        LoadedContribution(m, j);
      }
    }
    EditedBitsUnion(m, i, b);
  }

  /** Ticking a box that was unticked, saving, reloading the form and
      unticking the same box gives back the mask that was loaded. */
  lemma TickThenUntick(m: Mask, i: int)
    requires 0 <= i < |Flags| && !HasFlag(m, Flags[i])
    ensures var opts := LoadedOptions(m);
      var salva := CheckedMask(opts[i := opts[i].(isChecked := true)]);
      var recarregadas := LoadedOptions(salva);
      CheckedMask(recarregadas[i := recarregadas[i].(isChecked := false)]) == m & Todas
  {
    SetOneCheckBox(m, i, true);
    SetOneCheckBox((m & Todas) | Flags[i], i, false);
    assert Flags[0] == 1 && Flags[1] == 2 && Flags[2] == 4 && Flags[3] == 8 && Flags[4] == 16 && Flags[5] == 32;
  }

  /** The mask is Nenhuma exactly when no box whose flag is non-zero is
      ticked. */
  lemma {:induction false} CheckedMaskIsNone(opts: seq<RestricaoWrapper>)
    requires forall i :: 0 <= i < |opts| ==> opts[i].valor != Nenhuma
    ensures CheckedMask(opts) == Nenhuma <==> forall i :: 0 <= i < |opts| ==> !opts[i].isChecked
  {
    if opts != [] {
      var init := opts[..|opts| - 1];
      CheckedMaskIsNone(init);
      assert forall i :: 0 <= i < |init| ==> init[i] == opts[i];
    }
  }
}
