/** The few Python string operations the pipeline relies on: `str(n)` and
    `int(s)` for decimal integers, ASCII `lower`/`upper`/`title`, and the
    substring test `t in s`. */
module Text {
  import opened Outcomes

  predicate IsDigit(c: char) {
    '0' <= c <= '9'
  }

  predicate IsDigits(s: string) {
    forall i :: 0 <= i < |s| ==> IsDigit(s[i])
  }

  function DigitChar(d: nat): (c: char)
    requires d < 10
    ensures IsDigit(c)
  {
    ('0' as int + d) as char
  }

  function DigitValue(c: char): (d: nat)
    requires IsDigit(c)
    ensures d < 10
  {
    c as int - '0' as int
  }

  /** Decimal digits of `n`, most significant first, without leading zeros. */
  function NatToString(n: nat): (s: string)
    ensures |s| > 0 && IsDigits(s)
    ensures s[0] == '0' ==> n == 0
    decreases n
  {
    if n < 10 then [DigitChar(n)] else NatToString(n / 10) + [DigitChar(n % 10)]
  }

  /** Python `str(n)` for an integer: a minus sign exactly for negative `n`,
      then decimal digits. `ParseIntToString` shows `int` reads it back. */
  function IntToString(n: int): (s: string)
    ensures |s| > 0 && (s[0] == '-' <==> n < 0)
    ensures n >= 0 ==> IsDigits(s)
    ensures n < 0 ==> |s| > 1 && IsDigits(s[1..])
  {
    if n < 0 then "-" + NatToString(-n) else NatToString(n)
  }

  /** The value of a string of decimal digits (empty string reads as 0). */
  function DigitsValue(s: string): nat
    requires IsDigits(s)
  {
    if |s| == 0 then 0 else DigitsValue(s[..|s| - 1]) * 10 + DigitValue(s[|s| - 1])
  }

  /** Python `int(s)` on an optional sign followed by decimal digits; any other
      text raises ValueError, modelled as `None`. */
  function ParseInt(s: string): (r: Option<int>)
    ensures r.Some? ==> |s| > 0 && IsDigit(s[|s| - 1])
    ensures r.Some? && s[0] != '-' ==> r.value >= 0
    ensures |s| > 0 && IsDigits(s) ==> r.Some?
  {
    if |s| > 1 && s[0] == '-' && IsDigits(s[1..]) then Some(-(DigitsValue(s[1..]) as int))
    else if |s| > 1 && s[0] == '+' && IsDigits(s[1..]) then Some(DigitsValue(s[1..]))
    else if |s| > 0 && IsDigits(s) then Some(DigitsValue(s))
    else None
  }

  lemma {:induction false} DigitsValueOfNatToString(n: nat)
    ensures DigitsValue(NatToString(n)) == n
    decreases n
  {
    var s := NatToString(n);
    if n < 10 {
      assert s[..|s| - 1] == [];
    } else {
      DigitsValueOfNatToString(n / 10);
      assert s[..|s| - 1] == NatToString(n / 10);
    }
  }

  /** `int(str(n)) == n`: the roster keys built from provider ids read back as those ids. */
  lemma ParseIntToString(n: int)
    ensures ParseInt(IntToString(n)) == Some(n)
  {
    if n < 0 {
      var t := NatToString(-n);
      assert IntToString(n)[1..] == t;
      DigitsValueOfNatToString(-n);
    } else {
      DigitsValueOfNatToString(n);
    }
  }

  /** `str` is injective on integers, so distinct provider ids look up distinct roster keys. */
  lemma IntToStringInjective(m: int, n: int)
    ensures IntToString(m) == IntToString(n) ==> m == n
  {
    ParseIntToString(m);
    ParseIntToString(n);
  }

  predicate IsUpper(c: char) {
    'A' <= c <= 'Z'
  }

  predicate IsLower(c: char) {
    'a' <= c <= 'z'
  }

  /** Python's notion of a cased character, restricted to ASCII. */
  predicate IsCased(c: char) {
    IsUpper(c) || IsLower(c)
  }

  function ToLowerChar(c: char): char {
    if IsUpper(c) then (c as int + 32) as char else c
  }

  function ToUpperChar(c: char): char {
    if IsLower(c) then (c as int - 32) as char else c
  }

  /** Python `s.lower()` on ASCII text: the same letters, none upper-case. */
  function Lower(s: string): (r: string)
    ensures |r| == |s|
    ensures forall i :: 0 <= i < |s| ==> ToLowerChar(r[i]) == ToLowerChar(s[i]) && !IsUpper(r[i])
  {
    seq(|s|, i requires 0 <= i < |s| => ToLowerChar(s[i]))
  }

  /** Python `s.upper()` on ASCII text: the same letters, none lower-case. */
  function Upper(s: string): (r: string)
    ensures |r| == |s|
    ensures forall i :: 0 <= i < |s| ==> ToLowerChar(r[i]) == ToLowerChar(s[i]) && !IsLower(r[i])
  {
    seq(|s|, i requires 0 <= i < |s| => ToUpperChar(s[i]))
  }

  /** Python `s.title()` on ASCII text: a character is upper-cased when the one
      before it is not cased (or it is first), and lower-cased otherwise. */
  function Title(s: string): (r: string)
    ensures |r| == |s|
    ensures forall i :: 0 <= i < |s| ==> ToLowerChar(r[i]) == ToLowerChar(s[i])
    ensures forall i :: 0 < i < |s| && IsCased(s[i - 1]) ==> !IsUpper(r[i])
    ensures forall i :: 0 <= i < |s| && (i == 0 || !IsCased(s[i - 1])) ==> !IsLower(r[i])
  {
    seq(|s|, i requires 0 <= i < |s| => TitleChar(s, i))
  }

  /** The character `title()` puts at position `i`. */
  function TitleChar(s: string, i: int): (c: char)
    requires 0 <= i < |s|
    ensures ToLowerChar(c) == ToLowerChar(s[i])
    ensures i > 0 && IsCased(s[i - 1]) ==> !IsUpper(c)
    ensures (i == 0 || !IsCased(s[i - 1])) ==> !IsLower(c)
  {
    CaseOfCaseChar(s[i]);
    if i > 0 && IsCased(s[i - 1]) then ToLowerChar(s[i]) else ToUpperChar(s[i])
  }

  /** Python `t in s` for strings. */
  predicate HasSubstring(s: string, t: string)
    ensures HasSubstring(s, t) ==> |t| <= |s|
    ensures |t| <= |s| && s[..|t|] == t ==> HasSubstring(s, t)
  {
    assert |t| <= |s| && s[..|t|] == t ==> OccursAt(s, t, 0);
    exists i :: 0 <= i <= |s| - |t| && OccursAt(s, t, i)
  }

  predicate OccursAt(s: string, t: string, i: nat) {
    i + |t| <= |s| && s[i..i + |t|] == t
  }

  /** A text without the first character of `t` cannot contain `t`. */
  lemma NoSubstringWithoutFirstChar(s: string, t: string)
    requires |t| > 0 && forall i :: 0 <= i < |s| ==> s[i] != t[0]
    ensures !HasSubstring(s, t)
  {
    forall i | 0 <= i <= |s| - |t|
      ensures !OccursAt(s, t, i)
    {
      assert s[i..i + |t|][0] == s[i] != t[0];
    }
  }

  lemma CaseOfCaseChar(c: char)
    ensures ToLowerChar(ToUpperChar(c)) == ToLowerChar(c)
    ensures ToUpperChar(ToLowerChar(c)) == ToUpperChar(c)
    ensures ToLowerChar(ToLowerChar(c)) == ToLowerChar(c)
    ensures ToUpperChar(ToUpperChar(c)) == ToUpperChar(c)
    ensures IsCased(ToLowerChar(c)) == IsCased(c) == IsCased(ToUpperChar(c))
  {
  }

  /** Lower-, upper- and title-casing only look at a text up to case. */
  lemma CaseMappingsIgnoreCase(s: string)
    ensures Lower(Upper(s)) == Lower(s) && Lower(Lower(s)) == Lower(s)
    ensures Upper(Lower(s)) == Upper(s) && Upper(Upper(s)) == Upper(s)
    ensures Title(Lower(s)) == Title(s) && Title(Upper(s)) == Title(s)
    ensures Lower(Title(s)) == Lower(s) && Title(Title(s)) == Title(s)
  {
    forall i | 0 <= i < |s|
      ensures Lower(Upper(s))[i] == Lower(s)[i] && Lower(Lower(s))[i] == Lower(s)[i]
      ensures Upper(Lower(s))[i] == Upper(s)[i] && Upper(Upper(s))[i] == Upper(s)[i]
      ensures Title(Lower(s))[i] == Title(s)[i] && Title(Upper(s))[i] == Title(s)[i]
      ensures Lower(Title(s))[i] == Lower(s)[i] && Title(Title(s))[i] == Title(s)[i]
    {
      CaseOfCaseChar(s[i]);
      if i > 0 {
        CaseOfCaseChar(s[i - 1]);
      }
    }
  }
}
