/** `validateCPF`: the Brazilian national-ID (CPF) check.  The input is
    stripped to its digits; eleven digits are required, a repeated single
    digit is refused, and the last two digits must equal the two modulo-11
    check digits computed from the digits before them. */
module Cpf {
  import opened Chars
  import Masks

  /** `parseInt` of a single decimal digit. */
  function DigitValue(c: char): (v: nat)
    requires IsDigit(c)
    ensures v <= 9
  {
    c as int - '0' as int
  }

  /** The regular expression `^(\d)\1+$`: two or more copies of one digit,
      that is, a digit string of length two or more whose characters are all
      equal to one another. */
  function IsRepdigit(s: string): (b: bool)
    ensures b <==> |s| >= 2 && AllDigits(s) && forall i, j :: 0 <= i < j < |s| ==> s[i] == s[j]
  {
    |s| >= 2 && IsDigit(s[0]) && forall i :: 1 <= i < |s| ==> s[i] == s[0]
  }

  /** The weighted sum of the first `n` digits of `d`, digit `i` weighted by
      `factor - i`. */
  function WeightedSum(d: string, factor: nat, n: nat): int
    requires n <= |d|
    requires AllDigits(d)
  {
    if n == 0 then 0
    else WeightedSum(d, factor, n - 1) + DigitValue(d[n - 1]) * (factor - (n - 1))
  }

  /** The check-digit rule as the registry states it: eleven minus the
      remainder of the weighted sum by eleven, or zero when that remainder is
      zero or one. */
  function RegistryDigit(sum: int): nat {
    var rem := sum % 11;
    if rem < 2 then 0 else 11 - rem
  }

  /** Multiplying by ten is multiplying by minus one modulo eleven, so the
      source's rule and the registry's rule give the same digit. */
  lemma SourceRuleIsRegistryRule(sum: int)
    ensures (if (sum * 10) % 11 == 10 then 0 else (sum * 10) % 11) == RegistryDigit(sum)
  {
    var q, rem := sum / 11, sum % 11;
    assert sum * 10 == 11 * (10 * q) + rem * 10;
    assert (sum * 10) % 11 == (rem * 10) % 11;
  }

  /** `calcDigit(factor)` on an all-digit string: ten times the weighted sum
      of the first `factor - 1` digits, modulo eleven, with ten read as zero.
      That is the registry's check digit of those digits. */
  function CheckDigit(d: string, factor: nat): (r: nat)
    requires AllDigits(d)
    requires 1 <= factor <= |d| + 1
    ensures r == RegistryDigit(WeightedSum(d, factor, factor - 1))
    ensures r <= 9
  {
    var sum := WeightedSum(d, factor, factor - 1);
    SourceRuleIsRegistryRule(sum);
    var digit := (sum * 10) % 11;
    if digit == 10 then 0 else digit
  }

  /** `calcDigit` as the loop the source runs: it accumulates the weighted
      sum digit by digit and yields the same digit as `CheckDigit`. */
  method CalcDigit(cpf: string, factor: nat) returns (digit: nat)
    requires AllDigits(cpf)
    requires 1 <= factor <= |cpf| + 1
    ensures digit == CheckDigit(cpf, factor)
  {
    var sum := 0;
    var i := 0;
    while i < factor - 1
      invariant 0 <= i <= factor - 1
      invariant sum == WeightedSum(cpf, factor, i)
    {
      sum := sum + DigitValue(cpf[i]) * (factor - i);
      i := i + 1;
    }
    digit := (sum * 10) % 11;
    if digit == 10 {
      digit := 0;
    }
    SourceRuleIsRegistryRule(sum);
  }

  /** The registry's two check-digit conditions on an eleven-digit string:
      digit 10 is the check digit of the first nine (weights 10..2), digit 11
      the check digit of the first ten (weights 11..2). */
  predicate CheckDigitsHold(d: string)
    requires |d| == 11 && AllDigits(d)
  {
    && RegistryDigit(WeightedSum(d, 10, 9)) == DigitValue(d[9])
    && RegistryDigit(WeightedSum(d, 11, 10)) == DigitValue(d[10])
  }

  /** `validateCPF`. */
  function ValidateCpf(cpf: string): (ok: bool)
    ensures ok ==> |Digits(cpf)| == 11
    ensures ok ==> !IsRepdigit(Digits(cpf))
    ensures var d := Digits(cpf);
      |d| == 11 && !IsRepdigit(d) ==> (ok <==> CheckDigitsHold(d))
  {
    var d := Digits(cpf);
    if |d| != 11 || IsRepdigit(d) then false
    else
      CheckDigit(d, 10) == DigitValue(d[9]) && CheckDigit(d, 11) == DigitValue(d[10])
  }

  /** Sum of the weights `factor - i` for `i < n`. */
  function WeightTotal(factor: nat, n: nat): int {
    if n == 0 then 0 else WeightTotal(factor, n - 1) + (factor - (n - 1))
  }

  lemma {:induction false} RepdigitWeightedSum(d: string, factor: nat, n: nat)
    requires n <= |d| && AllDigits(d)
    requires forall i :: 0 <= i < |d| ==> d[i] == d[0]
    ensures n > 0 ==> WeightedSum(d, factor, n) == DigitValue(d[0]) * WeightTotal(factor, n)
  {
    if n > 1 {
      RepdigitWeightedSum(d, factor, n - 1);
      assert d[n - 1] == d[0];
    }
  }

  /** Every eleven-digit repdigit satisfies both check-digit conditions, so
      the explicit repdigit test is what refuses `000.000.000-00`,
      `111.111.111-11` and the rest. */
  lemma RepdigitsPassCheckDigits(d: string)
    requires |d| == 11 && AllDigits(d) && IsRepdigit(d)
    ensures CheckDigitsHold(d)
  {
    var v := DigitValue(d[0]);
    RepdigitWeightedSum(d, 10, 9);
    RepdigitWeightedSum(d, 11, 10);
    assert WeightTotal(10, 9) == 54;
    assert WeightTotal(11, 10) == 65;
    assert d[9] == d[0] && d[10] == d[0];
    assert v <= 9;
    if v == 0 { } else if v == 1 { } else if v == 2 { } else if v == 3 { }
    else if v == 4 { } else if v == 5 { } else if v == 6 { } else if v == 7 { }
    else if v == 8 { } else { assert v == 9; }
  }

  /** The check reads only the digits: punctuation around them never matters. */
  lemma ValidateCpfIgnoresPunctuation(cpf: string)
    ensures ValidateCpf(cpf) == ValidateCpf(Digits(cpf))
  {
    StripIdempotent(cpf);
  }

  /** What the CPF field shows after masking validates exactly when the
      typed text does, as long as no more than eleven digits were typed. */
  lemma MaskedCpfValidatesAlike(value: string)
    requires |Digits(value)| <= 11
    ensures ValidateCpf(Masks.FormatCpf(value)) == ValidateCpf(value)
  {
    assert Digits(Masks.FormatCpf(value)) == Digits(value);
  }

  // Worked examples.  Each takes its input as a parameter pinned by
  // `requires`: with the string literal written into the ensures, the solver
  // unfolds it eagerly and, on some random seeds, runs out of resources.

  /** A registered CPF number: both check digits agree. */
  lemma ExampleValid(d: string)
    requires d == "52998224725"
    ensures ValidateCpf(d)
  {
    DigitsOfDigits(d);
    assert !IsRepdigit(d) by {
      assert d[1] != d[0];
    }
    assert WeightedSum(d, 10, 1) == 50;
    assert WeightedSum(d, 10, 2) == 68;
    assert WeightedSum(d, 10, 3) == 140;
    assert WeightedSum(d, 10, 4) == 203;
    assert WeightedSum(d, 10, 5) == 251;
    assert WeightedSum(d, 10, 6) == 261;
    assert WeightedSum(d, 10, 7) == 269;
    assert WeightedSum(d, 10, 8) == 281;
    assert WeightedSum(d, 10, 9) == 295;
    assert WeightedSum(d, 11, 1) == 55;
    assert WeightedSum(d, 11, 2) == 75;
    assert WeightedSum(d, 11, 3) == 156;
    assert WeightedSum(d, 11, 4) == 228;
    assert WeightedSum(d, 11, 5) == 284;
    assert WeightedSum(d, 11, 6) == 296;
    assert WeightedSum(d, 11, 7) == 306;
    assert WeightedSum(d, 11, 8) == 322;
    assert WeightedSum(d, 11, 9) == 343;
    assert WeightedSum(d, 11, 10) == 347;
  }

  /** The same number with its last digit altered fails the second check. */
  lemma ExampleWrongCheckDigit(d: string)
    requires d == "52998224724"
    ensures !ValidateCpf(d)
  {
    DigitsOfDigits(d);
    assert WeightedSum(d, 11, 1) == 55;
    assert WeightedSum(d, 11, 2) == 75;
    assert WeightedSum(d, 11, 3) == 156;
    assert WeightedSum(d, 11, 4) == 228;
    assert WeightedSum(d, 11, 5) == 284;
    assert WeightedSum(d, 11, 6) == 296;
    assert WeightedSum(d, 11, 7) == 306;
    assert WeightedSum(d, 11, 8) == 322;
    assert WeightedSum(d, 11, 9) == 343;
    assert WeightedSum(d, 11, 10) == 347;
  }

  /** A repdigit is refused although its check digits agree. */
  lemma ExampleRepdigit(d: string)
    requires d == "11111111111"
    ensures !ValidateCpf(d)
    ensures CheckDigitsHold(d)
  {
    DigitsOfDigits(d);
    RepdigitsPassCheckDigits(d);
  }
}
