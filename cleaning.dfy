/** clean_values (aueb_pathfinding/ultils.py): strip decorative symbols, then try an integer parse. */
module Cleaning {
  import opened Options

  /** The character class [@#!$*] that clean_values removes. */
  const Symbols: set<char> := {'@', '#', '!', '$', '*'}

  /** The value returned by clean_values: an int when the cleaned text parses, the text otherwise. */
  datatype Cleaned = Number(n: int) | Text(s: string)

  /** re.sub("[@#!$*]", "", s): every symbol removed, the other characters kept in order. */
  function StripSymbols(s: string): (r: string)
    ensures |r| <= |s|
    ensures forall i :: 0 <= i < |r| ==> r[i] !in Symbols
  {
    if s == [] then []
    else if s[0] in Symbols then StripSymbols(s[1..])
    else [s[0]] + StripSymbols(s[1..])
  }

  /** Stripping works piecewise: it commutes with concatenation, so relative order is kept. */
  lemma {:induction false} StripSymbolsAppend(a: string, b: string)
    ensures StripSymbols(a + b) == StripSymbols(a) + StripSymbols(b)
  {
    if a == [] {
      assert a + b == b;
    } else {
      assert (a + b)[0] == a[0] && (a + b)[1..] == a[1..] + b;
      StripSymbolsAppend(a[1..], b);
    }
  }

  /** Every non-symbol character survives as often as it occurs; no symbol survives. */
  lemma {:induction false} StripSymbolsCounts(s: string)
    ensures forall c :: multiset(StripSymbols(s))[c] == if c in Symbols then 0 else multiset(s)[c]
  {
    if s != [] {
      StripSymbolsCounts(s[1..]);
      assert s == [s[0]] + s[1..];
    }
  }

  /** A string without symbols is left unchanged. */
  lemma {:induction false} StripSymbolsIdentity(s: string)
    requires forall i :: 0 <= i < |s| ==> s[i] !in Symbols
    ensures StripSymbols(s) == s
  {
    if s != [] {
      StripSymbolsIdentity(s[1..]);
    }
  }

  /** Stripping twice is stripping once. */
  lemma StripSymbolsIdempotent(s: string)
    ensures StripSymbols(StripSymbols(s)) == StripSymbols(s)
  {
    StripSymbolsIdentity(StripSymbols(s));
  }

  predicate IsDigit(c: char) {
    '0' as int <= c as int <= '9' as int
  }

  predicate AllDigits(s: string) {
    |s| >= 1 && forall i :: 0 <= i < |s| ==> IsDigit(s[i])
  }

  /** The integer literals accepted by the model of int(): an optional sign, then decimal digits. */
  predicate IsIntLiteral(s: string) {
    if |s| >= 1 && (s[0] == '-' || s[0] == '+') then AllDigits(s[1..]) else AllDigits(s)
  }

  /** The value of a digit string, read most significant digit first. */
  function DigitsValue(s: string): nat
    requires forall i :: 0 <= i < |s| ==> IsDigit(s[i])
  {
    if s == [] then 0
    else
      assert IsDigit(s[|s| - 1]);
      DigitsValue(s[..|s| - 1]) * 10 + (s[|s| - 1] as int - '0' as int)
  }

  /** int(s) on the accepted literals; None where Python raises ValueError. */
  function ParseInt(s: string): (r: Option<int>)
    ensures r.Some? <==> IsIntLiteral(s)
    ensures r.Some? && s[0] == '-' ==> r.value <= 0
    ensures r.Some? && s[0] != '-' ==> r.value >= 0
  {
    if |s| >= 1 && s[0] == '-' then
      if AllDigits(s[1..]) then Some(0 - DigitsValue(s[1..]) as int) else None
    else if |s| >= 1 && s[0] == '+' then
      if AllDigits(s[1..]) then Some(DigitsValue(s[1..])) else None
    else if AllDigits(s) then Some(DigitsValue(s))
    else None
  }

  function DigitChar(d: nat): char
    requires d < 10
  {
    ('0' as int + d) as char
  }

  /** Decimal rendering of a natural number, the inverse of DigitsValue. */
  function ShowNat(n: nat): (r: string)
    ensures AllDigits(r)
  {
    if n < 10 then [DigitChar(n)] else ShowNat(n / 10) + [DigitChar(n % 10)]
  }

  /** str(n): decimal rendering of an integer with a leading '-' when negative. */
  function ShowInt(n: int): string {
    if n < 0 then "-" + ShowNat(-n) else ShowNat(n)
  }

  lemma {:induction false} DigitsValueShowNat(n: nat)
    ensures DigitsValue(ShowNat(n)) == n
  {
    if n >= 10 {
      var s := ShowNat(n);
      assert s[..|s| - 1] == ShowNat(n / 10);
      DigitsValueShowNat(n / 10);
    }
  }

  /** int(str(n)) == n: the parse inverts the decimal rendering. */
  lemma ParseShowRoundTrip(n: int)
    ensures ParseInt(ShowInt(n)) == Some(n)
  {
    if n < 0 {
      assert ShowInt(n)[1..] == ShowNat(-n);
      DigitsValueShowNat(-n);
    } else {
      DigitsValueShowNat(n);
    }
  }

  /** clean_values(value): the stripped text as an int when it parses, as text otherwise. */
  function CleanValues(value: string): (r: Cleaned)
    ensures r.Number? <==> IsIntLiteral(StripSymbols(value))
    ensures r.Number? ==> ParseInt(StripSymbols(value)) == Some(r.n)
    ensures r.Text? ==> r.s == StripSymbols(value)
  {
    var cleaned := StripSymbols(value);
    match ParseInt(cleaned)
    case Some(n) => Number(n)
    case None => Text(cleaned)
  }

  /** A number decorated with symbols on either side cleans to that number. */
  lemma CleanDecoratedNumber(n: int, before: string, after: string)
    requires forall i :: 0 <= i < |before| ==> before[i] in Symbols
    requires forall i :: 0 <= i < |after| ==> after[i] in Symbols
    ensures CleanValues(before + ShowInt(n) + after) == Number(n)
  {
    var shown := ShowInt(n);
    StripSymbolsAppend(before + shown, after);
    StripSymbolsAppend(before, shown);
    StripSymbolsEmpty(before);
    StripSymbolsEmpty(after);
    assert forall i :: 0 <= i < |shown| ==> IsDigit(shown[i]) || shown[i] == '-' by {
      if n < 0 {
        assert forall i :: 1 <= i < |shown| ==> shown[i] == ShowNat(-n)[i - 1];
      }
    }
    StripSymbolsIdentity(shown);
    assert StripSymbols(before + shown + after) == shown;
    ParseShowRoundTrip(n);
  }

  /** A symbol inside a number is dropped and the digits join up. */
  lemma CleanSplitNumber()
    ensures CleanValues("1#2") == Number(12)
  {
    assert StripSymbols("1#2") == "12";
    assert DigitsValue("12"[..1]) == 1;
  }

  /** Leading zeros are accepted, as int() accepts them. */
  lemma CleanLeadingZeros()
    ensures CleanValues("0#07") == Number(7)
  {
    assert StripSymbols("0#07") == "007";
    assert "007"[..2] == "00" && "00"[..1] == "0";
    assert DigitsValue("0") == 0 && DigitsValue("00") == 0;
    assert DigitsValue("007") == 7;
    assert ParseInt("007") == Some(7);
  }

  /** An explicit plus sign is accepted. */
  lemma CleanPlusSign()
    ensures CleanValues("+5") == Number(5)
  {
    assert "+5"[1..] == "5";
  }

  /** A classroom name stays text, without its symbols. */
  lemma CleanName()
    ensures CleanValues("A*21") == Text("A21")
  {
    assert StripSymbols("A*21") == "A21";
  }

  lemma {:induction false} StripSymbolsEmpty(s: string)
    requires forall i :: 0 <= i < |s| ==> s[i] in Symbols
    ensures StripSymbols(s) == []
  {
    if s != [] {
      StripSymbolsEmpty(s[1..]);
    }
  }
}
