/** The student form's e-mail check (OnEmailUnfocused in AlunoPage.xaml.cs):
    the trimmed entry text is matched against ^[^@\s]+@[^@\s]+\.[^@\s]+$,
    the error label shows the verdict, and a valid address is written to
    the student. */
module AlunoPages {
  import opened Common
  import opened Text
  import opened Lists
  import opened Dtos

  // ----- The regular expression -----

  /** A character of the class [^@\s]; .NET's \s is the set char.IsWhiteSpace
      accepts. */
  predicate NaClasse(c: char) {
    c != '@' && !IsWhiteSpace(c)
  }

  /** s matches [^@\s]+ */
  predicate Trecho(s: string) {
    |s| > 0 && forall k :: 0 <= k < |s| ==> NaClasse(s[k])
  }

  /** s matches [^@\s]+@[^@\s]+\.[^@\s]+ from its first character to its
      last: a run, an '@', a run, a '.', a run. */
  ghost function CasaPadrao(s: string): (b: bool)
    ensures b ==> 5 <= |s| && NaClasse(s[0]) && NaClasse(s[|s| - 1])
  {
    exists i, j :: 0 <= i < j < |s| && s[i] == '@' && s[j] == '.'
      && Trecho(s[..i]) && Trecho(s[i + 1..j]) && Trecho(s[j + 1..])
  }

  /** Regex.IsMatch with the anchored pattern. Without RegexOptions.Multiline,
      .NET's $ matches at the end and also just before a final '\n'.
      IgnoreCase changes nothing: '@', '.' and \s have no case. */
  ghost function RegexIsMatch(s: string): (b: bool)
    ensures b ==> 5 <= |s| && NaClasse(s[0])
  {
    CasaPadrao(s) || (|s| > 0 && s[|s| - 1] == '\n' && CasaPadrao(s[..|s| - 1]))
  }

  // ----- The test written out -----

  /** An address passes when it has no white space, an '@' that is not its
      first character and is the only one, and after it a '.' that is
      neither the first nor the last character of the domain. */
  function EmailValido(s: string): (b: bool)
    ensures b ==> 5 <= |s| && s[0] != '@' && s[|s| - 1] != '@'
  {
    && (forall k :: 0 <= k < |s| ==> !IsWhiteSpace(s[k]))
    && '@' in s
    && var i := IndexOf(s, '@');
       && 0 < i
       && '@' !in s[i + 1..]
       && exists k :: i + 1 < k < |s| - 1 && s[k] == '.'
  }

  lemma ValidoEntaoCasa(s: string)
    requires EmailValido(s)
    ensures CasaPadrao(s)
  {
    var i := IndexOf(s, '@');
    var j :| i + 1 < j < |s| - 1 && s[j] == '.';
    assert Trecho(s[..i]);
    forall k | i < k < |s|
      ensures s[k] != '@'
    {
      assert s[k] == s[i + 1..][k - i - 1];
    }
    assert Trecho(s[i + 1..j]);
    assert Trecho(s[j + 1..]);
  }

  lemma CasaEntaoValido(s: string)
    requires CasaPadrao(s)
    ensures EmailValido(s)
  {
    var i, j :| 0 <= i < j < |s| && s[i] == '@' && s[j] == '.'
      && Trecho(s[..i]) && Trecho(s[i + 1..j]) && Trecho(s[j + 1..]);
    // Every character but s[i] is in a run or is the '.'.
    assert forall k :: 0 <= k < |s| && k != i ==> NaClasse(s[k]) by {
      forall k | 0 <= k < |s| && k != i
        ensures NaClasse(s[k])
      {
        if k < i {
          assert s[k] == s[..i][k];
        } else if i < k < j {
          assert s[k] == s[i + 1..j][k - i - 1];
        } else if j < k {
          assert s[k] == s[j + 1..][k - j - 1];
        }
      }
    }
    assert IndexOf(s, '@') == i by {
      var p := IndexOf(s, '@');
      assert forall k :: 0 <= k < p ==> s[k] != '@' by {
        forall k | 0 <= k < p
          ensures s[k] != '@'
        {
          assert s[k] == s[..p][k];
        }
      }
    }
    assert '@' !in s[i + 1..] by {
      forall k | i < k < |s|
        ensures s[k] != '@'
      {
        assert NaClasse(s[k]);
      }
    }
    assert i + 1 < j < |s| - 1;
  }

  /** The written-out check accepts exactly the addresses the pattern
      matches from end to end. */
  lemma EmailValidoIffCasaPadrao(s: string)
    ensures EmailValido(s) <==> CasaPadrao(s)
  {
    if EmailValido(s) {
      ValidoEntaoCasa(s);
    }
    if CasaPadrao(s) {
      CasaEntaoValido(s);
    }
  }

  /** On trimmed text the final-'\n' case of $ cannot arise, so the regex
      and the written-out check agree. */
  lemma TrimmedTextMatchesIffValid(x: string)
    ensures RegexIsMatch(Trim(x)) <==> EmailValido(Trim(x))
  {
    var t := Trim(x);
    EmailValidoIffCasaPadrao(t);
    assert t != [] ==> t[|t| - 1] != '\n' by {
      assert IsWhiteSpace('\n');
    }
  }

  /** What a valid address looks like: one '@' exactly, at least one
      character before it, no white space, and after the '@' a '.' with a
      character between them and one after it. */
  lemma ValidAddressShape(s: string)
    requires EmailValido(s)
    ensures multiset(s)['@'] == 1
    ensures s[0] != '@'
    ensures forall k :: 0 <= k < |s| ==> !IsWhiteSpace(s[k])
    ensures exists i, j :: 0 < i && i + 1 < j < |s| - 1 && s[i] == '@' && s[j] == '.'
  {
    var i := IndexOf(s, '@');
    assert s == s[..i] + [s[i]] + s[i + 1..];
    assert multiset(s) == multiset(s[..i]) + multiset{'@'} + multiset(s[i + 1..]);
    var j :| i + 1 < j < |s| - 1 && s[j] == '.';
  }

  /** The final-'\n' case: untrimmed, the pattern accepts an address that
      ends with a line break, which the trimmed check never sees. */
  lemma DollarBeforeFinalNewline()
    ensures RegexIsMatch("a@b.c\n") && !EmailValido("a@b.c\n")
  {
    var s := "a@b.c";
    assert s[1] == '@' && s[3] == '.' && Trecho(s[..1]) && Trecho(s[2..3]) && Trecho(s[4..]);
    assert "a@b.c\n"[..5] == s;
    assert CasaPadrao(s);
    assert IsWhiteSpace("a@b.c\n"[5]);
  }

  /** A non-empty string of lower-case ASCII letters matches [^@\s]+. */
  lemma LettersAreARun(s: string)
    requires |s| > 0 && forall k :: 0 <= k < |s| ==> 'a' <= s[k] <= 'z'
    ensures Trecho(s)
  {
  }

  /** A plain address passes. */
  lemma ExampleValid()
    ensures EmailValido("ana@mail.com")
  {
    var s := "ana@mail.com";
    LettersAreARun(s[..3]);
    LettersAreARun(s[4..8]);
    LettersAreARun(s[9..]);
    assert s[3] == '@' && s[8] == '.';
    CasaEntaoValido(s);
  }

  /** A missing dot, a missing local part, a second '@', a dot right after
      the '@' and an inner space all fail. */
  lemma ExampleNoDot()
    ensures !EmailValido("ana@mail")
  {
  }

  lemma ExampleNoLocalPart()
    ensures !EmailValido("@mail.com")
  {
  }

  lemma ExampleTwoAts()
    ensures !EmailValido("a@b@c.d")
  {
    assert IndexOf("a@b@c.d", '@') == 1;
    assert "a@b@c.d"[2..][1] == '@';
  }

  lemma ExampleDotAfterAt()
    ensures !EmailValido("a@.com")
  {
  }

  lemma ExampleInnerSpace()
    ensures !EmailValido("an a@mail.com")
  {
    assert "an a@mail.com"[2] == ' ';
  }

  // ----- The page -----

  class AlunoPage {
    /** EmailErrorLabel.IsVisible */
    var erroEmailVisivel: bool
    /** The bound student (viewModel.Aluno). */
    var aluno: Aluno

    /** OnEmailUnfocused, with texto the entry's Text (None for null). A
        null or blank entry changes nothing. Otherwise the trimmed text is
        matched: the error label is shown exactly when it does not match,
        and a matching text becomes the student's e-mail, the student's
        other fields staying as they were. */
    method OnEmailUnfocused(texto: Option<string>)
      modifies this
      ensures IsNullOrWhiteSpace(texto) ==> unchanged(this)
      ensures !IsNullOrWhiteSpace(texto) ==>
        var t := Trim(texto.value);
        && erroEmailVisivel == !RegexIsMatch(t)
        && aluno == if RegexIsMatch(t) then old(aluno).(email := t) else old(aluno)
    {
      if !IsNullOrWhiteSpace(texto) {
        var t := Trim(texto.value);
        var valido := EmailValido(t);
        TrimmedTextMatchesIffValid(texto.value);
        erroEmailVisivel := !valido;
        if valido {
          aluno := aluno.(email := t);
        }
      }
    }
  }
}
