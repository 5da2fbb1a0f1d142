/** The .NET string routines the view models rely on: white-space tests,
    Trim, ordinal and case-insensitive Contains, and int.TryParse. */
module Text {
  import opened Common

  /** char.IsWhiteSpace: the Unicode White_Space characters, which are also
      what the regular-expression class \s matches. */
  predicate IsWhiteSpace(c: char) {
    var n := c as int;
    (9 <= n <= 13) || n == 0x20 || n == 0x85 || n == 0xA0 || n == 0x1680
    || (0x2000 <= n <= 0x200A) || n == 0x2028 || n == 0x2029 || n == 0x202F
    || n == 0x205F || n == 0x3000
  }

  /** Space, tab, line feed, vertical tab, form feed and carriage return are
      white space; ASCII letters, digits, '@' and '.' are not. */
  lemma WhiteSpaceClass(c: char)
    ensures c == ' ' || ('\t' <= c <= '\r') ==> IsWhiteSpace(c)
    ensures ('a' <= c <= 'z') || ('A' <= c <= 'Z') || ('0' <= c <= '9') || c == '@' || c == '.' ==> !IsWhiteSpace(c)
  {
  }

  /** Every character of s is white space (true of the empty string). */
  predicate IsBlank(s: string) {
    forall i :: 0 <= i < |s| ==> IsWhiteSpace(s[i])
  }

  /** string.IsNullOrWhiteSpace: null, or nothing is left once trimmed. */
  function IsNullOrWhiteSpace(s: Option<string>): (b: bool)
    ensures b <==> s.None? || Trim(s.value) == []
  {
    s.None? || IsBlank(s.value)
  }

  /** A blank character in front of a blank text leaves it blank. */
  lemma BlankCons(c: char, a: string)
    requires IsWhiteSpace(c) && IsBlank(a)
    ensures IsBlank([c] + a)
  {
    forall k | 0 <= k < |[c] + a|
      ensures IsWhiteSpace(([c] + a)[k])
    {
      if k > 0 {
        assert ([c] + a)[k] == a[k - 1];
      }
    }
  }

  /** A blank character after a blank text leaves it blank. */
  lemma BlankSnoc(a: string, c: char)
    requires IsBlank(a) && IsWhiteSpace(c)
    ensures IsBlank(a + [c])
  {
    forall k | 0 <= k < |a + [c]|
      ensures IsWhiteSpace((a + [c])[k])
    {
      if k < |a| {
        assert (a + [c])[k] == a[k];
      }
    }
  }

  /** Drops the leading white space of s: the result is the suffix of s that
      starts at its first non-white character. */
  function TrimStart(s: string): (r: string)
    ensures |r| <= |s| && r == s[|s| - |r|..]
    ensures IsBlank(s[..|s| - |r|])
    ensures r == [] || !IsWhiteSpace(r[0])
  {
    if s != [] && IsWhiteSpace(s[0]) then
      var r := TrimStart(s[1..]);
      assert s[..|s| - |r|] == [s[0]] + s[1..][..|s| - 1 - |r|];
      BlankCons(s[0], s[1..][..|s| - 1 - |r|]);
      r
    else s
  }

  /** Drops the trailing white space of s: the result is the prefix of s that
      ends at its last non-white character. */
  function TrimEnd(s: string): (r: string)
    ensures |r| <= |s| && r == s[..|r|]
    ensures IsBlank(s[|r|..])
    ensures r == [] || !IsWhiteSpace(r[|r| - 1])
  {
    if s != [] && IsWhiteSpace(s[|s| - 1]) then
      var r := TrimEnd(s[..|s| - 1]);
      assert s[|r|..] == s[..|s| - 1][|r|..] + [s[|s| - 1]];
      BlankSnoc(s[..|s| - 1][|r|..], s[|s| - 1]);
      r
    else s
  }

  /** TrimEnd after TrimStart keeps a piece of s between two blank runs. */
  lemma {:induction false} TrimmedPiece(s: string)
    ensures exists i, j :: 0 <= i <= j <= |s| && TrimEnd(TrimStart(s)) == s[i..j] && IsBlank(s[..i]) && IsBlank(s[j..])
  {
    var t := TrimStart(s);
    var r := TrimEnd(t);
    var i := |s| - |t|;
    var j := i + |r|;
    assert r == s[i..j] by {
      assert t == s[i..];
      assert r == t[..|r|];
    }
    assert IsBlank(s[j..]) by {
      assert s[j..] == t[|r|..];
    }
    assert IsBlank(s[..i]);
  }

  /** TrimEnd after TrimStart starts and ends with a non-white character. */
  lemma {:induction false} TrimmedEnds(s: string)
    ensures var r := TrimEnd(TrimStart(s));
      r == [] || (!IsWhiteSpace(r[0]) && !IsWhiteSpace(r[|r| - 1]))
  {
    var t := TrimStart(s);
    var r := TrimEnd(t);
    if r != [] {
      assert r[0] == t[0];
    }
  }

  /** TrimEnd after TrimStart is empty exactly for blank text. */
  lemma {:induction false} TrimmedEmptyIffBlank(s: string)
    ensures TrimEnd(TrimStart(s)) == [] <==> IsBlank(s)
  {
    var t := TrimStart(s);
    var r := TrimEnd(t);
    assert t == [] <==> IsBlank(s) by {
      if t == [] {
        assert s[..|s|] == s;
      } else {
        assert !IsWhiteSpace(s[|s| - |t|]);
      }
    }
    assert r == [] <==> t == [] by {
      if r == [] {
        assert t[0..] == t;
      }
    }
  }

  /** string.Trim(): s with its leading and trailing white space removed,
      so a piece of s between two blank runs. */
  function Trim(s: string): (r: string)
    ensures exists i, j :: 0 <= i <= j <= |s| && r == s[i..j] && IsBlank(s[..i]) && IsBlank(s[j..])
    ensures r == [] || (!IsWhiteSpace(r[0]) && !IsWhiteSpace(r[|r| - 1]))
    ensures r == [] <==> IsBlank(s)
  {
    TrimmedPiece(s);
    TrimmedEnds(s);
    TrimmedEmptyIffBlank(s);
    TrimEnd(TrimStart(s))
  }

  // ----- Contains -----

  /** t occurs in s starting at index i. */
  ghost predicate OccursAt(s: string, t: string, i: int) {
    0 <= i && i + |t| <= |s| && s[i..i + |t|] == t
  }

  /** s starts with t (ordinal comparison). */
  predicate StartsWith(s: string, t: string) {
    |t| <= |s| && s[..|t|] == t
  }

  /** string.Contains(t): ordinal, case-sensitive substring search. The empty
      string occurs in every string. */
  function Contains(s: string, t: string): (b: bool)
    ensures StartsWith(s, t) ==> b
    ensures b ==> |t| <= |s|
    decreases |s|
  {
    StartsWith(s, t) || (s != [] && Contains(s[1..], t))
  }

  /** An occurrence at any index is found by the scan. */
  lemma {:induction false} OccursThenContains(s: string, t: string, i: int)
    requires OccursAt(s, t, i)
    ensures Contains(s, t)
    decreases i
  {
    if i == 0 {
      assert s[..|t|] == s[0..0 + |t|];
    } else {
      assert s[1..][i - 1..i - 1 + |t|] == s[i..i + |t|];
      OccursThenContains(s[1..], t, i - 1);
    }
  }

  /** What the scan finds is an occurrence. */
  lemma {:induction false} ContainsThenOccurs(s: string, t: string)
    requires Contains(s, t)
    ensures exists i :: OccursAt(s, t, i)
    decreases |s|
  {
    if StartsWith(s, t) {
      assert OccursAt(s, t, 0);
    } else {
      ContainsThenOccurs(s[1..], t);
      var i :| OccursAt(s[1..], t, i);
      assert s[1..][i..i + |t|] == s[i + 1..i + 1 + |t|];
      assert OccursAt(s, t, i + 1);
    }
  }

  /** The scan agrees with the definition of a substring occurrence. */
  lemma ContainsIffOccurs(s: string, t: string)
    ensures Contains(s, t) <==> exists i :: OccursAt(s, t, i)
  {
    if Contains(s, t) {
      ContainsThenOccurs(s, t);
    }
    if exists i :: OccursAt(s, t, i) {
      var i :| OccursAt(s, t, i);
      OccursThenContains(s, t, i);
    }
  }

  /** The ordinal upper-case folding of ASCII letters; other characters are
      kept as they are. */
  function FoldCase(c: char): char {
    if 'a' <= c <= 'z' then (c as int - 32) as char else c
  }

  function Fold(s: string): (r: string)
    ensures |r| == |s| && forall i :: 0 <= i < |s| ==> r[i] == FoldCase(s[i])
  {
    seq(|s|, i requires 0 <= i < |s| => FoldCase(s[i]))
  }

  /** An ordinal occurrence survives folding both strings. */
  lemma ContainsThenFoldedContains(s: string, t: string)
    ensures Contains(s, t) ==> Contains(Fold(s), Fold(t))
  {
    if Contains(s, t) {
      ContainsThenOccurs(s, t);
      var i :| OccursAt(s, t, i);
      assert Fold(s)[i..i + |t|] == Fold(t);
      OccursThenContains(Fold(s), Fold(t), i);
    }
  }

  /** string.Contains(t, StringComparison.OrdinalIgnoreCase): an exact
      occurrence is also a case-insensitive one. */
  function ContainsIgnoreCase(s: string, t: string): (b: bool)
    ensures Contains(s, t) ==> b
    ensures b ==> |t| <= |s|
  {
    ContainsThenFoldedContains(s, t);
    Contains(Fold(s), Fold(t))
  }

  /** t occurs in s at i once the case of both is folded. */
  ghost predicate FoldedAt(s: string, t: string, i: int) {
    0 <= i && i + |t| <= |s| && Fold(s[i..i + |t|]) == Fold(t)
  }

  /** A case-insensitive match is exactly an occurrence up to case. */
  lemma ContainsIgnoreCaseIffFoldedOccurs(s: string, t: string)
    ensures ContainsIgnoreCase(s, t) <==> exists i :: FoldedAt(s, t, i)
  {
    ContainsIffOccurs(Fold(s), Fold(t));
    if ContainsIgnoreCase(s, t) {
      var i :| OccursAt(Fold(s), Fold(t), i);
      assert Fold(s)[i..i + |t|] == Fold(s[i..i + |t|]);
      assert FoldedAt(s, t, i);
    }
    if exists i :: FoldedAt(s, t, i) {
      var i :| FoldedAt(s, t, i);
      assert Fold(s)[i..i + |t|] == Fold(s[i..i + |t|]);
      assert OccursAt(Fold(s), Fold(t), i);
    }
  }

  /** A differently-cased occurrence is found: "ana" in "Ana Silva". */
  lemma ContainsIgnoreCaseExample()
    ensures ContainsIgnoreCase("Ana Silva", "ana") && !Contains("Ana Silva", "ana")
  {
    var s := "Ana Silva";
    assert FoldedAt(s, "ana", 0) by {
      assert s[..3] == "Ana";
      assert Fold("Ana") == Fold("ana");
    }
    ContainsIgnoreCaseIffFoldedOccurs(s, "ana");
    ContainsIffOccurs(s, "ana");
    forall i | 0 <= i && i + 3 <= |s|
      ensures !OccursAt(s, "ana", i)
    {
      assert s[i..i + 3][0] == s[i] && s[i..i + 3][1] == s[i + 1];
    }
  }

  /** The case of the text searched for does not matter. */
  lemma ContainsIgnoreCaseProperties(s: string, t: string)
    ensures ContainsIgnoreCase(s, t) == ContainsIgnoreCase(s, Fold(t))
  {
    assert Fold(Fold(t)) == Fold(t);
  }

  // ----- int.TryParse -----

  const IntMin: int := -0x8000_0000
  const IntMax: int := 0x7FFF_FFFF

  /** The white space NumberStyles.Integer lets stand around a number. */
  predicate IsNumberWhite(c: char) {
    c == ' ' || ('\t' <= c <= '\r')
  }

  function StripNumberWhite(s: string): (r: string)
    ensures |r| <= |s|
    decreases |s|
  {
    if s != [] && IsNumberWhite(s[0]) then StripNumberWhite(s[1..])
    else if s != [] && IsNumberWhite(s[|s| - 1]) then StripNumberWhite(s[..|s| - 1])
    else s
  }

  predicate IsDigit(c: char) {
    '0' <= c <= '9'
  }

  predicate AllDigits(s: string) {
    forall i :: 0 <= i < |s| ==> IsDigit(s[i])
  }

  /** The value of a string of decimal digits, most significant first. */
  function DigitsValue(s: string): nat
    requires AllDigits(s)
  {
    if s == [] then 0
    else DigitsValue(s[..|s| - 1]) * 10 + (s[|s| - 1] as int - '0' as int)
  }

  /** int.TryParse(s, out n) with NumberStyles.Integer: optional white space
      around an optional sign and one or more decimal digits, whose value must
      fit a 32-bit int. */
  function TryParseInt(s: string): (r: Option<int>)
    ensures r.Some? ==> IntMin <= r.value <= IntMax
  {
    var t := StripNumberWhite(s);
    if t == [] then None
    else
      var negative := t[0] == '-';
      var digits := if t[0] == '-' || t[0] == '+' then t[1..] else t;
      if digits == [] || !AllDigits(digits) then None
      else
        var v: int := DigitsValue(digits);
        var n := if negative then -v else v;
        if IntMin <= n <= IntMax then Some(n) else None
  }

  /** The decimal digits of n, without leading zeros. */
  function NatToDigits(n: nat): (r: string)
    ensures r != [] && AllDigits(r)
  {
    if n < 10 then ['0' + n as char]
    else NatToDigits(n / 10) + ['0' + (n % 10) as char]
  }

  /** int.ToString() in the invariant culture. */
  function IntToString(n: int): string {
    if n < 0 then "-" + NatToDigits(-n) else NatToDigits(n)
  }

  lemma {:induction false} DigitsValueOfNatToDigits(n: nat)
    ensures DigitsValue(NatToDigits(n)) == n
  {
    var r := NatToDigits(n);
    if n >= 10 {
      DigitsValueOfNatToDigits(n / 10);
      assert r[..|r| - 1] == NatToDigits(n / 10);
    }
  }

  /** TryParseInt reads back every 32-bit int that IntToString writes. */
  lemma ParseIntRoundTrip(n: int)
    requires IntMin <= n <= IntMax
    ensures TryParseInt(IntToString(n)) == Some(n)
  {
    var s := IntToString(n);
    var ds := NatToDigits(if n < 0 then -n else n);
    DigitsValueOfNatToDigits(if n < 0 then -n else n);
    assert !IsNumberWhite(s[0]) && !IsNumberWhite(s[|s| - 1]) by {
      assert IsDigit(ds[|ds| - 1]);
      if n < 0 {
        assert s[|s| - 1] == ds[|ds| - 1];
      } else {
        assert IsDigit(ds[0]);
      }
    }
    assert StripNumberWhite(s) == s;
    if n < 0 {
      assert s[1..] == ds;
    } else {
      assert IsDigit(ds[0]);
    }
  }
}
