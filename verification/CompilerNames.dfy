/**
 The string operands of the SimpleLang back end.

 The IR generator names everything with strings: integer literals become their
 decimal text, temporaries become "t" plus a counter, labels "L" plus a counter.
 The code generator later tells constants from variables by looking at the text
 again.  This module defines that text and proves that nothing is confused.
 */
module CompilerNames {

  datatype Option<+T> = None | Some(value: T)

  function DigitChar(d: nat): char
    requires d < 10
  {
    '0' + d as char
  }

  /** Decimal text of a natural number, without leading zeros. */
  function NatToStr(n: nat): string
  {
    if n < 10 then [DigitChar(n)] else NatToStr(n / 10) + [DigitChar(n % 10)]
  }

  /** `str(n)` for an integer literal. */
  function IntToStr(n: int): string
  {
    if n < 0 then "-" + NatToStr(-n) else NatToStr(n)
  }

  predicate IsDigit(c: char) { '0' <= c <= '9' }

  /** `str.isdigit`, on ASCII text. */
  predicate IsDigits(s: string)
  {
    |s| > 0 && forall i :: 0 <= i < |s| ==> IsDigit(s[i])
  }

  /** `str.lstrip('-')`. */
  function StripMinus(s: string): string
  {
    if |s| > 0 && s[0] == '-' then StripMinus(s[1..]) else s
  }

  /** The test by which `load_value` recognises a constant operand. */
  predicate IsConstant(s: string)
  {
    IsDigits(StripMinus(s))
  }

  function DigitsToNat(s: string): nat
    requires IsDigits(s)
  {
    var d := (s[|s| - 1] - '0') as nat;
    if |s| == 1 then d else DigitsToNat(s[..|s| - 1]) * 10 + d
  }

  /** `int(s)` on text that passed `IsConstant`; None where Python raises ValueError. */
  function PyInt(s: string): Option<int>
    requires IsConstant(s)
  {
    if IsDigits(s) then Some(DigitsToNat(s))
    else if |s| > 0 && s[0] == '-' && IsDigits(s[1..]) then Some(-(DigitsToNat(s[1..]) as int))
    else None
  }

  /** The integer a constant operand denotes (0 for text such as "--1", which no generated operand has). */
  function ConstantOf(s: string): int
    requires IsConstant(s)
  {
    match PyInt(s) case Some(n) => n case None => 0
  }

  function Temp(k: nat): string { "t" + NatToStr(k) }

  function Label(k: nat): string { "L" + NatToStr(k) }

  const MAIN_LABEL: string := "func_main"

  lemma {:induction false} NatToStrRoundTrip(n: nat)
    ensures IsDigits(NatToStr(n))
    ensures DigitsToNat(NatToStr(n)) == n
  {
    if n >= 10 {
      NatToStrRoundTrip(n / 10);
      var s := NatToStr(n);
      assert s[..|s| - 1] == NatToStr(n / 10);
    }
  }

  lemma StripDigits(s: string)
    requires IsDigits(s)
    ensures StripMinus(s) == s
  {
    assert IsDigit(s[0]);
  }

  /** Printing a literal and reading it back in the code generator is the identity. */
  lemma LiteralRoundTrip(n: int)
    ensures IsConstant(IntToStr(n))
    ensures PyInt(IntToStr(n)) == Some(n)
  {
    var a := if n < 0 then -n else n;
    NatToStrRoundTrip(a);
    StripDigits(NatToStr(a));
    if n < 0 {
      var s := IntToStr(n);
      assert s[1..] == NatToStr(a);
      assert StripMinus(s) == NatToStr(a);
      assert !IsDigit(s[0]);
    }
  }

  lemma NatToStrInjective(a: nat, b: nat)
    requires NatToStr(a) == NatToStr(b)
    ensures a == b
  {
    NatToStrRoundTrip(a);
    NatToStrRoundTrip(b);
  }

  lemma TempInjective(a: nat, b: nat)
    requires Temp(a) == Temp(b)
    ensures a == b
  {
    assert Temp(a)[1..] == NatToStr(a) && Temp(b)[1..] == NatToStr(b);
    NatToStrInjective(a, b);
  }

  lemma LabelInjective(a: nat, b: nat)
    requires Label(a) == Label(b)
    ensures a == b
  {
    assert Label(a)[1..] == NatToStr(a) && Label(b)[1..] == NatToStr(b);
    NatToStrInjective(a, b);
  }

  /** Temporaries, labels and literals never coincide, and none of them is the entry label. */
  lemma GeneratedNamesApart(k: nat, j: nat, n: int)
    ensures Temp(k) != Label(j) && Temp(k) != IntToStr(n) && Label(j) != IntToStr(n)
    ensures !IsConstant(Temp(k)) && !IsConstant(Label(j))
    ensures MAIN_LABEL !in {Temp(k), Label(j), IntToStr(n)} && !IsConstant(MAIN_LABEL)
  {
    assert Temp(k)[0] == 't' && !IsDigit('t');
    assert Label(j)[0] == 'L' && !IsDigit('L');
    assert MAIN_LABEL[0] == 'f' && !IsDigit('f');
    LiteralRoundTrip(n);
  }
}
