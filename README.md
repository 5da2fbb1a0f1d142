# AcademiaDoZe enrollment core, in Dafny

A model of the logic in the AcademiaDoZe gym-management app's presentation layer.
Everything else in that layer is screen plumbing. The model covers:

- **Enrollment validation** (`ValidateMatricula`). An ordered chain of checks decides whether an enrollment (matrícula) may be saved, and the first check that fails names the refusal:
  - a student must be selected;
  - the objective must not be blank;
  - the end date must come after the start date;
  - in create mode, the student must have no active enrollment;
  - a medical report (laudo) is required for students aged 12 to 16, or when any medical restriction is set.
- **The restriction check boxes.** The `[Flags]` mask of medical restrictions is exploded into six `RestricaoWrapper` boxes (`LoadRestricoes`). The ticked boxes are ORed back together (`UpdateRestricoesEnum`).
- **The save command** (`SaveMatriculaAsync`). It has a busy guard, rebuilds the mask, validates, and only then calls `AtualizarAsync` (edit mode) or `AdicionarAsync` (create mode).
- **The enrollment list screen.** It keeps a backup list and the list on screen. It has a reload, a reload that clears the search, a search by student name (ignoring case) or by CPF, and a delete that keeps both lists in step.
- **The student list screen.** It has the search dispatch (every student, by id, by CPF, or no lookup), the load, and the delete, which depends on the service's boolean answer.
- **The student form's e-mail check** (`OnEmailUnfocused`). The trimmed text is matched against `^[^@\s]+@[^@\s]+\.[^@\s]+$`, and the result drives the error label and the student's `Email`.

Modules:

| module | contents |
|---|---|
| `Common` | `Option` (for nullable references), `Reply` (a service call that completed or threw), `Desfecho` (how a list command ended) |
| `Text` | `char.IsWhiteSpace`, `string.Trim`, ordinal and case-insensitive `Contains`, `int.TryParse` |
| `Dates` | dates as `DateOnly` holds them, `AddYears`, `AddMonths`, and the age in whole years |
| `Lists` | order-preserving subsequences, `Where`, and `List.Remove` |
| `Restricoes` | the restriction mask, the check boxes, and the mask they build |
| `Dtos` | `AlunoDTO` and `MatriculaDTO`, reduced to the fields the logic reads |
| `Matriculas` | the validation rules and the `MatriculaViewModel` class |
| `MatriculaLists` | the `MatriculaListViewModel` class |
| `AlunoLists` | the search dispatch and the `AlunoListViewModel` class |
| `AlunoPages` | the e-mail pattern and the `AlunoPage` class |

Service calls, the clock and the user's answers to alerts are not modelled as calls. They are method parameters:
- `today` is `DateTime.Today`;
- `ativas` is what `ObterAtivasAsync` returns;
- a `Reply` says how an awaited service call ended;
- `confirma` is the answer to a confirmation alert.

Alerts and navigation become returned outcomes (`ResultadoSalvar`, `Desfecho`, `Motivo`). Each view model also records the service calls it makes, so the contracts can say which calls happen and when:
- `MatriculaViewModel` records `ObterAtivasAsync`, `AtualizarAsync` and `AdicionarAsync`;
- `MatriculaListViewModel` records `ObterTodasAsync` and `RemoverAsync`;
- `AlunoListViewModel` records its lookups and the ids passed to `RemoverAsync`.

Points of the code that the model keeps as written:
- **Active enrollments.** `ValidateMatricula` refuses in create mode whenever `ObterAtivasAsync` returns any enrollment at all (MatriculaViewModel.cs:316-317). What that service counts as active is not part of this model.
- **Busy guards.** `DeleteAlunoAsync` has no busy check. `DeleteMatriculaAsync` tests `IsBusy` only after the confirmation alert (MatriculaListViewModel.cs:169-171).
- **The delete result.** `DeleteMatriculaAsync` discards the result of `RemoverAsync` (MatriculaListViewModel.cs:176), so an answer of `false` still removes the entry from both lists.

## Model

| member | source | states |
|---|---|---|
| Matriculas.ValidateMatricula | AcademiaDoZe.Presentation.AppMaui/ViewModels/MatriculaViewModel.cs:292-340 | Accepts exactly when a student with Id > 0 is chosen, the objective is not null or blank, the end date is after the start date, the active list is empty (create mode only), and a non-empty report is attached when the age is 12 to 16 or a restriction is set. Each refusal reason holds exactly when every earlier check passes and its own check fails. A missing student comes first, and age is reported before restriction. |
| Matriculas.Mensagem | AcademiaDoZe.Presentation.AppMaui/ViewModels/MatriculaViewModel.cs:298-335 | The alert text for each refusal, as the code writes it. The two medical-report refusals, and only they, start with "O Laudo Médico é obrigatório. Motivo: ", followed by their reason. |
| Matriculas.VerdictIgnoresUnqueriedActives | AcademiaDoZe.Presentation.AppMaui/ViewModels/MatriculaViewModel.cs:314-322 | When the active enrollments are not queried (edit mode, or an earlier check failed), they do not affect the verdict, and edit mode never refuses for an active enrollment. |
| Matriculas.InvalidPeriodRefusedRegardless | AcademiaDoZe.Presentation.AppMaui/ViewModels/MatriculaViewModel.cs:308-312 | With a student and an objective, an end date equal to or before the start date is refused for the period, whatever the mode, the report and the active list. |
| Matriculas.ReportRequiredByTickedBox | AcademiaDoZe.Presentation.AppMaui/ViewModels/MatriculaViewModel.cs:329-337 | Once the mask is built from the boxes, a report is required for health reasons exactly when some box is ticked, and then an enrollment without a report is refused. |
| Matriculas.Scenarios | AcademiaDoZe.Presentation.AppMaui/ViewModels/MatriculaViewModel.cs:292-340 | Worked cases. A 14-year-old with no report is refused for age. An adult with allergies and a report is accepted. Equal start and end dates are refused. A create with an active enrollment is refused. |
| Matriculas.MatriculaPadrao | AcademiaDoZe.Presentation.AppMaui/ViewModels/MatriculaViewModel.cs:25-58 | The new-enrollment form starts today and ends after today. It has no restrictions, no report, and a placeholder student with Id 0, so it fails the first check until a student is chosen. |
| Matriculas.MatriculaViewModel.constructor | AcademiaDoZe.Presentation.AppMaui/ViewModels/MatriculaViewModel.cs:78-93 | Starts with the default enrollment in create mode, not busy, with the six boxes loaded from an empty mask. |
| Matriculas.MatriculaViewModel.LoadRestricoes | AcademiaDoZe.Presentation.AppMaui/ViewModels/MatriculaViewModel.cs:345-394 | Whatever the collection held before, it ends as exactly the six boxes for the enrollment's mask, each ticked exactly when its flag is set. |
| Matriculas.MatriculaViewModel.SetChecked | AcademiaDoZe.Presentation.AppMaui/ViewModels/MatriculaViewModel.cs:410-414 | The check-box binding changes one box's IsChecked and nothing else. |
| Matriculas.MatriculaViewModel.UpdateRestricoesEnum | AcademiaDoZe.Presentation.AppMaui/ViewModels/MatriculaViewModel.cs:396-404 | The loop ORs the values of the ticked boxes, starting from None, into the enrollment's mask, and leaves every other field alone. |
| Matriculas.MatriculaViewModel.SaveMatricula | AcademiaDoZe.Presentation.AppMaui/ViewModels/MatriculaViewModel.cs:215-245 | While busy nothing changes, no service is called and no alert is shown. Otherwise the mask is rebuilt from the boxes and the rules run. A refusal calls nothing but the active-enrollment query and shows that refusal's alert text. Acceptance calls `AtualizarAsync` in edit mode and `AdicionarAsync` in create mode, never both, and a completed call shows "Matrícula atualizada com sucesso!" or "Matrícula criada com sucesso!" respectively. The outcome is refused, failed (the call threw) or saved, and IsBusy ends false. |
| Dates.AgeOn | AcademiaDoZe.Presentation.AppMaui/ViewModels/MatriculaViewModel.cs:324-327 | The age is the difference of the years, or one less. It is one less exactly when the birthday's (month, day) comes after today's. |
| Dates.AddYears | AcademiaDoZe.Presentation.AppMaui/ViewModels/MatriculaViewModel.cs:326 | Keeps month and day, except that February 29 becomes February 28 in a target year that is not a leap year. |
| Dates.AddMonths | AcademiaDoZe.Presentation.AppMaui/ViewModels/MatriculaViewModel.cs:30 | Moves n months on, keeping the day or clamping it to the last day of the target month. |
| Dates.AgeCountsAnniversaries | AcademiaDoZe.Presentation.AppMaui/ViewModels/MatriculaViewModel.cs:324-327 | Away from February 29, the age is the number of birthdays reached: the age-th anniversary is not after today, and the next one is. |
| Dates.LeapDayBirthdayComesInMarch | AcademiaDoZe.Presentation.AppMaui/ViewModels/MatriculaViewModel.cs:324-327 | Someone born on 2008-02-29 is 16 on 2025-02-28 and 17 on 2025-03-01. |
| Restricoes.LoadedOptions | AcademiaDoZe.Presentation.AppMaui/ViewModels/MatriculaViewModel.cs:353-393 | Six boxes, one per flag in the listed order, each ticked exactly when the mask has its flag (`HasFlag`). |
| Restricoes.HasFlag | AcademiaDoZe.Presentation.AppMaui/ViewModels/MatriculaViewModel.cs:357-392 | `Enum.HasFlag`: every bit of the flag is set in the mask. The None flag is in every mask. |
| Restricoes.CheckedMask | AcademiaDoZe.Presentation.AppMaui/ViewModels/MatriculaViewModel.cs:398-402 | The flags of the ticked boxes ORed together from None. The flag of every ticked box is set in the result. |
| Restricoes.LoadThenUpdate | AcademiaDoZe.Presentation.AppMaui/ViewModels/MatriculaViewModel.cs:345-404 | Loading the boxes and then building the mask gives the mask's six restriction bits, so any mask made of the six flags comes back unchanged. |
| Restricoes.SetOneCheckBox | AcademiaDoZe.Presentation.AppMaui/ViewModels/MatriculaViewModel.cs:345-404 | After loading, ticking or unticking one box sets or clears exactly that flag and keeps every other flag. |
| Restricoes.TickThenUntick | AcademiaDoZe.Presentation.AppMaui/ViewModels/MatriculaViewModel.cs:345-404 | Ticking an unticked box, saving, reloading the boxes from the saved mask and unticking the same box gives back the loaded mask's six restriction bits. |
| Restricoes.CheckedMaskIsNone | AcademiaDoZe.Presentation.AppMaui/ViewModels/MatriculaViewModel.cs:396-404 | When every box has a non-zero flag, the mask built is None exactly when no box is ticked. |
| Restricoes.CheckedMaskTicked | AcademiaDoZe.Presentation.AppMaui/ViewModels/MatriculaViewModel.cs:399-401 | A ticked box ORs its value into the mask of the boxes before it. |
| Restricoes.CheckedMaskUnticked | AcademiaDoZe.Presentation.AppMaui/ViewModels/MatriculaViewModel.cs:399 | An unticked box leaves the mask of the boxes before it unchanged. |
| Text.Trim | AcademiaDoZe.Presentation.AppMaui/Views/AlunoPage.xaml.cs:39 | The result is a piece of the text with only white space before and after it. It neither starts nor ends with white space, and it is empty exactly when the text is all white space. |
| Text.TrimStart | AcademiaDoZe.Presentation.AppMaui/Views/AlunoPage.xaml.cs:39 | The result is the suffix after a run of white space, and it does not start with white space. |
| Text.TrimEnd | AcademiaDoZe.Presentation.AppMaui/Views/AlunoPage.xaml.cs:39 | The result is the prefix before a run of white space, and it does not end with white space. |
| Text.IsWhiteSpace | AcademiaDoZe.Presentation.AppMaui/Views/AlunoPage.xaml.cs:43 | `char.IsWhiteSpace`, which is also the set .NET's `\s` matches: the Unicode White_Space characters, listed by code point. |
| Text.WhiteSpaceClass | AcademiaDoZe.Presentation.AppMaui/Views/AlunoPage.xaml.cs:43 | Space, tab, line feed, vertical tab, form feed and carriage return are white space; ASCII letters, digits, '@' and '.' are not. |
| Text.IsNullOrWhiteSpace | AcademiaDoZe.Presentation.AppMaui/Views/AlunoPage.xaml.cs:37 | `string.IsNullOrWhiteSpace` holds exactly when the text is null or trims to the empty string. |
| Text.Contains | AcademiaDoZe.Presentation.AppMaui/ViewModels/MatriculaListViewModel.cs:127 | Ordinal `string.Contains`: a text found at the start is found, and a text found is no longer than the one searched. |
| Text.ContainsIffOccurs | AcademiaDoZe.Presentation.AppMaui/ViewModels/MatriculaListViewModel.cs:127 | The ordinal `Contains` holds exactly when the text occurs at some index. |
| Text.ContainsIgnoreCase | AcademiaDoZe.Presentation.AppMaui/ViewModels/MatriculaListViewModel.cs:121 | `Contains` with `OrdinalIgnoreCase`: every exact match is also a case-insensitive match, and a text found is no longer than the one searched. |
| Text.ContainsIgnoreCaseIffFoldedOccurs | AcademiaDoZe.Presentation.AppMaui/ViewModels/MatriculaListViewModel.cs:121 | A case-insensitive match holds exactly when the text occurs at some index once the case of both strings is folded. |
| Text.ContainsIgnoreCaseExample | AcademiaDoZe.Presentation.AppMaui/ViewModels/MatriculaListViewModel.cs:121 | "ana" is found in "Ana Silva" ignoring case, though not by the ordinal search. |
| Text.ContainsIgnoreCaseProperties | AcademiaDoZe.Presentation.AppMaui/ViewModels/MatriculaListViewModel.cs:121 | The case of the text searched for makes no difference to a case-insensitive search. |
| Text.TryParseInt | AcademiaDoZe.Presentation.AppMaui/ViewModels/AlunoListViewModel.cs:100 | Every value parsed fits a 32-bit int. |
| Text.ParseIntRoundTrip | AcademiaDoZe.Presentation.AppMaui/ViewModels/AlunoListViewModel.cs:100 | Every 32-bit int, written in decimal, parses back to itself. |
| Lists.RemoveFirst | AcademiaDoZe.Presentation.AppMaui/ViewModels/MatriculaListViewModel.cs:180-181 | `Remove` drops the first element equal to x and keeps the rest in order. A list without x is unchanged. |
| Lists.RemoveFirstCount | AcademiaDoZe.Presentation.AppMaui/ViewModels/MatriculaListViewModel.cs:180-181 | Exactly one copy of x goes away, and nothing else does. |
| Lists.RemoveFirstLength | AcademiaDoZe.Presentation.AppMaui/ViewModels/AlunoListViewModel.cs:177 | The list gets one shorter exactly when x is in it. |
| Lists.RemoveFirstOfSubsequence | AcademiaDoZe.Presentation.AppMaui/ViewModels/MatriculaListViewModel.cs:181 | Removing an element from the list on screen keeps it a subsequence of the backup list. |
| Lists.RemoveFirstKeepsSubsequence | AcademiaDoZe.Presentation.AppMaui/ViewModels/MatriculaListViewModel.cs:180-181 | Removing the same entry from both lists keeps the list on screen a subsequence of the backup list. |
| Lists.Where | AcademiaDoZe.Presentation.AppMaui/ViewModels/MatriculaListViewModel.cs:120-128 | The filtered list is no longer than its input, and each of its elements satisfies the predicate. |
| Lists.WhereIsSubsequence | AcademiaDoZe.Presentation.AppMaui/ViewModels/MatriculaListViewModel.cs:116-128 | The filtered list is an order-preserving subsequence of its input. |
| Lists.WhereKeepsExactly | AcademiaDoZe.Presentation.AppMaui/ViewModels/MatriculaListViewModel.cs:118-128 | Every copy of an element that satisfies the predicate is kept, and every other element is dropped. |
| Lists.SubsequenceReflexive | AcademiaDoZe.Presentation.AppMaui/ViewModels/MatriculaListViewModel.cs:68-72 | Showing the whole backup list keeps the screen a subsequence of it. |
| MatriculaLists.Corresponde | AcademiaDoZe.Presentation.AppMaui/ViewModels/MatriculaListViewModel.cs:118-128 | The `Where` predicate: "Nome do Aluno" tests the student's name ignoring case, any other filter tests the CPF exactly. Only an entry with a student can match, and under "Nome do Aluno" an exact name match always matches. |
| MatriculaLists.Filtrar | AcademiaDoZe.Presentation.AppMaui/ViewModels/MatriculaListViewModel.cs:116-129 | `Where(...).ToList()` over the backup list: every entry kept matches, and the result keeps the backup list's order. |
| MatriculaLists.Busca | AcademiaDoZe.Presentation.AppMaui/ViewModels/MatriculaListViewModel.cs:102-137 | What a search shows: the backup list as it is for a blank text. The filter throws exactly when the text is not blank and some entry has no student (`AlunoMatricula` is null). Whatever is shown is an order-preserving subsequence of the backup list. |
| MatriculaLists.NameFilterKeepsExactly | AcademiaDoZe.Presentation.AppMaui/ViewModels/MatriculaListViewModel.cs:118-122 | "Nome do Aluno" keeps every copy of each entry whose student's name contains the text, ignoring case, and no other entry. |
| MatriculaLists.CpfFilterKeepsExactly | AcademiaDoZe.Presentation.AppMaui/ViewModels/MatriculaListViewModel.cs:124-128 | Any other filter keeps every copy of each entry whose student's CPF contains the text, case-sensitively, and no other entry. |
| MatriculaLists.MatriculaListViewModel.constructor | AcademiaDoZe.Presentation.AppMaui/ViewModels/MatriculaListViewModel.cs:19-34 | Both lists start empty, the filter is "Nome do Aluno" and the search text is empty. |
| MatriculaLists.MatriculaListViewModel.Exibir | AcademiaDoZe.Presentation.AppMaui/ViewModels/MatriculaListViewModel.cs:68-72 | Clear followed by an Add loop leaves the screen equal to the items, in their order. |
| MatriculaLists.MatriculaListViewModel.SearchMatriculas | AcademiaDoZe.Presentation.AppMaui/ViewModels/MatriculaListViewModel.cs:102-137 | The screen shows the search result (all entries for a blank text, the filtered ones otherwise), or stays as it was when the filter throws. The backup list is never touched, and the screen stays a subsequence of it. |
| MatriculaLists.MatriculaListViewModel.LoadMatriculas | AcademiaDoZe.Presentation.AppMaui/ViewModels/MatriculaListViewModel.cs:56-89 | While busy nothing changes and no service is called. Otherwise `ObterTodasAsync` is called once. When it replies, its list becomes the backup list, and the screen shows the search over it (the whole list, in service order, for a blank text). An exception leaves both lists as they were and shows an alert. IsBusy and IsRefreshing end false. |
| MatriculaLists.MatriculaListViewModel.Refresh | AcademiaDoZe.Presentation.AppMaui/ViewModels/MatriculaListViewModel.cs:93-98 | The search text ends empty, even while busy. While busy no service is called. Otherwise `ObterTodasAsync` is called once, and a completed reload shows exactly the service's list on both lists. |
| MatriculaLists.MatriculaListViewModel.DeleteMatricula | AcademiaDoZe.Presentation.AppMaui/ViewModels/MatriculaListViewModel.cs:160-191 | `RemoverAsync` is called, with the entry's id, only for a confirmed entry while not busy. The entry leaves both lists whenever that call completes, whatever it answers. A declined confirmation, a busy state or an exception leave both lists unchanged, and the screen stays a subsequence of the backup list. |
| AlunoLists.SelecionarConsulta | AcademiaDoZe.Presentation.AppMaui/ViewModels/AlunoListViewModel.cs:96-110 | Four lookups, each in an if-and-only-if form. A blank text looks up every student. "Id" with text that parses as an int looks up that id. "CPF" looks up the text as typed. Anything else makes no lookup. |
| AlunoLists.Resultados | AcademiaDoZe.Presentation.AppMaui/ViewModels/AlunoListViewModel.cs:94-110 | The students a lookup yields: the list `ObterTodosAsync` returns, or nothing for null; one student or none for a lookup by id or CPF; nothing when no lookup is made. |
| AlunoLists.BlankSearchListsAll | AcademiaDoZe.Presentation.AppMaui/ViewModels/AlunoListViewModel.cs:96-98 | A blank text yields every student the service returned, and nothing when it returned null. |
| AlunoLists.IdSearchYieldsThatStudent | AcademiaDoZe.Presentation.AppMaui/ViewModels/AlunoListViewModel.cs:100-104 | With a number under "Id", the search yields exactly what `ObterPorIdAsync` answers for that number: that one student, or none for null. When the service answers with the student asked for, the student shown has that id. |
| AlunoLists.CpfSearchYieldsThatStudent | AcademiaDoZe.Presentation.AppMaui/ViewModels/AlunoListViewModel.cs:105-110 | Under "CPF", the search yields exactly what `ObterPorCpfAsync` answers for the text as typed: that one student, or none for null. When the service answers with the student asked for, the student shown has the CPF typed. |
| AlunoLists.NoLookupYieldsNothing | AcademiaDoZe.Presentation.AppMaui/ViewModels/AlunoListViewModel.cs:92-113 | Non-integer text under "Id", or any unknown filter, makes no lookup and yields an empty list. |
| AlunoLists.TypedIdIsLookedUp | AcademiaDoZe.Presentation.AppMaui/ViewModels/AlunoListViewModel.cs:100 | Typing a student's id under "Id" looks up exactly that id. |
| AlunoLists.AlunoListViewModel.constructor | AcademiaDoZe.Presentation.AppMaui/ViewModels/AlunoListViewModel.cs:10-46 | The list starts empty, the filter is "CPF" and the search text is empty. |
| AlunoLists.AlunoListViewModel.Acrescentar | AcademiaDoZe.Presentation.AppMaui/ViewModels/AlunoListViewModel.cs:112-113 | The Add loop appends the items in order. |
| AlunoLists.AlunoListViewModel.SearchAlunos | AcademiaDoZe.Presentation.AppMaui/ViewModels/AlunoListViewModel.cs:84-125 | While busy nothing changes. Otherwise only the selected lookup is made (none for "no lookup"), and the list ends as exactly what it yields. It ends empty with an alert when the lookup throws. IsBusy ends false. |
| AlunoLists.AlunoListViewModel.LoadAlunos | AcademiaDoZe.Presentation.AppMaui/ViewModels/AlunoListViewModel.cs:127-157 | While busy nothing changes. Otherwise the list ends as exactly the service's list, in order. It is empty when the service returns null or throws. IsBusy and IsRefreshing end false. |
| AlunoLists.AlunoListViewModel.Refresh | AcademiaDoZe.Presentation.AppMaui/ViewModels/AlunoListViewModel.cs:77-82 | Raises IsRefreshing and loads. A refresh while busy leaves IsRefreshing raised. |
| AlunoLists.AlunoListViewModel.DeleteAluno | AcademiaDoZe.Presentation.AppMaui/ViewModels/AlunoListViewModel.cs:159-193 | A confirmed delete always calls `RemoverAsync`, with no busy guard. The student leaves the list only when the answer is true; false and an exception leave the list unchanged and show an alert. IsBusy ends false. |
| AlunoPages.CasaPadrao | AcademiaDoZe.Presentation.AppMaui/Views/AlunoPage.xaml.cs:43 | The pattern `[^@\s]+@[^@\s]+\.[^@\s]+` matched from the first character to the last: a run, '@', a run, '.', a run. A match is at least five characters long and starts and ends with a run character. |
| AlunoPages.RegexIsMatch | AcademiaDoZe.Presentation.AppMaui/Views/AlunoPage.xaml.cs:41-44 | `Regex.IsMatch` with `^...$` and no Multiline option: the pattern matches the whole text, or the text less a final line break. A match is at least five characters long and starts with a run character. |
| AlunoPages.EmailValido | AcademiaDoZe.Presentation.AppMaui/Views/AlunoPage.xaml.cs:41-44 | The test written out: no white space, one '@' that is not first, and a '.' strictly inside the domain. An accepted address is at least five characters long and neither starts nor ends with '@'. |
| AlunoPages.EmailValidoIffCasaPadrao | AcademiaDoZe.Presentation.AppMaui/Views/AlunoPage.xaml.cs:41-44 | The written-out check (one '@' that is not first, no white space, a '.' strictly inside the domain) accepts exactly the strings the pattern matches from end to end. |
| AlunoPages.ValidoEntaoCasa | AcademiaDoZe.Presentation.AppMaui/Views/AlunoPage.xaml.cs:43 | Every address the written-out test accepts splits into run, '@', run, '.', run. |
| AlunoPages.CasaEntaoValido | AcademiaDoZe.Presentation.AppMaui/Views/AlunoPage.xaml.cs:43 | Every string the pattern matches passes the written-out test. |
| AlunoPages.TrimmedTextMatchesIffValid | AcademiaDoZe.Presentation.AppMaui/Views/AlunoPage.xaml.cs:39-44 | On trimmed text, `Regex.IsMatch` (including `$` before a final line break) agrees with the written-out check. |
| AlunoPages.ValidAddressShape | AcademiaDoZe.Presentation.AppMaui/Views/AlunoPage.xaml.cs:43 | A valid address has exactly one '@', at least one character before it, and no white space. After the '@' it has a '.' with a character between them and a character after the '.'. |
| AlunoPages.DollarBeforeFinalNewline | AcademiaDoZe.Presentation.AppMaui/Views/AlunoPage.xaml.cs:41-44 | Untrimmed, the pattern accepts "a@b.c" followed by a line break, which the trimmed check rejects. |
| AlunoPages.ExampleValid | AcademiaDoZe.Presentation.AppMaui/Views/AlunoPage.xaml.cs:43 | "ana@mail.com" passes. |
| AlunoPages.ExampleNoDot | AcademiaDoZe.Presentation.AppMaui/Views/AlunoPage.xaml.cs:43 | "ana@mail" fails, having no dot after the '@'. |
| AlunoPages.ExampleNoLocalPart | AcademiaDoZe.Presentation.AppMaui/Views/AlunoPage.xaml.cs:43 | "@mail.com" fails, having nothing before the '@'. |
| AlunoPages.ExampleTwoAts | AcademiaDoZe.Presentation.AppMaui/Views/AlunoPage.xaml.cs:43 | "a@b@c.d" fails, having a second '@'. |
| AlunoPages.ExampleDotAfterAt | AcademiaDoZe.Presentation.AppMaui/Views/AlunoPage.xaml.cs:43 | "a@.com" fails, having the dot right after the '@'. |
| AlunoPages.ExampleInnerSpace | AcademiaDoZe.Presentation.AppMaui/Views/AlunoPage.xaml.cs:43 | "an a@mail.com" fails, containing a space. |
| AlunoPages.AlunoPage.OnEmailUnfocused | AcademiaDoZe.Presentation.AppMaui/Views/AlunoPage.xaml.cs:35-52 | A null or blank entry changes nothing. Otherwise the error label is visible exactly when the trimmed text does not match, and the student's e-mail becomes the trimmed text only when it matches, the student's other fields unchanged; the student is unchanged otherwise. |

## Left out

- Alerts (`DisplayAlert`) and navigation (`GoToAsync`) are returned outcomes, not calls. A confirmation alert's answer is a parameter.
- `SelecionarLaudoAsync`: file picking and stream copying are platform I/O. A report is modelled only as absent or a byte sequence.
- `LoadMatriculaAsync`, `InitializeAsync`, `SearchAlunoByCpfAsync` and `CancelAsync` in MatriculaViewModel.cs are not modelled. Neither are the add/edit navigation commands of both list screens. They load or navigate and hold no rule of their own.
- The debounce handler and `OnShowPasswordToggled` in AlunoPage.xaml.cs are left out: they are about timing, cancellation and the password field.
- Matriculas.MatriculaViewModel.SaveMatricula takes the active enrollments as a completed value. It does not model `ObterAtivasAsync` throwing or returning null. In the code either one escapes the command uncaught, because validation runs outside the try block.
- What `ObterAtivasAsync` counts as active is decided inside the service, which is not part of this model.
- `EAppMatriculaRestricoes` is not part of this model. Its six flags are taken to be the single bits 1, 2, 4, 8, 16 and 32 of a 32-bit int, and None to be 0.
- Object identity is value equality. `List.Remove` and `ObservableCollection.Remove` compare with the DTO's `Equals` (references, unless the DTO overrides it; the DTO classes are not part of this model); `RemoveFirst` compares values.
- Text.ContainsIgnoreCase folds ASCII letters only. `StringComparison.OrdinalIgnoreCase` folds every Unicode letter, so accented names can match in the code where the model does not.
- Text.TryParseInt accepts the invariant culture's signs and the white space of `NumberStyles.Integer`. It does not accept the trailing NUL characters .NET also accepts, or the current culture's sign symbols.
- MatriculaLists.MatriculaListViewModel.DeleteMatricula, for an entry whose `AlunoMatricula` is null: the code throws while building the confirmation text. The model returns `Ignorado` and changes nothing.
- The student's name and CPF are non-null strings in the model. A null one would throw inside the code's filter.
- AlunoLists.IdSearchYieldsThatStudent and AlunoLists.CpfSearchYieldsThatStudent prove that the student shown carries the id or CPF typed only under `Coerente`: the lookup answers with the student it was asked for. The view model never checks this. A service whose CPF lookup normalises punctuation would answer with a CPF written differently.
- Matriculas.MatriculaViewModel.SaveMatricula gives no alert text for `FalhaAoSalvar`: the code's alert shows the exception's message, which is not modelled.
- Commands run one at a time, to completion. Interleaving at `await` points is not modelled; for example, a `DeleteAlunoAsync` could clear IsBusy while another command is still running.
- Property-change notifications, titles, `TextoBotaoLaudo`, and the DTO fields no rule reads (address, phone, password, photo) are left out.
- The BindingContext type test in `OnEmailUnfocused` is left out: the page is assumed to be bound to its view model.
- The label's initial visibility comes from XAML, which is not part of this model.
- Dates lie between 0001-01-01 and 9999-12-31, as `DateOnly` requires.
