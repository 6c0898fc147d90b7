/** The input masks of the enrollment form: postal code (CEP), national ID
    (CPF), landline and cell phone.  Each strips every non-digit, keeps a
    bounded prefix of the digits and re-inserts fixed separators once the
    digit count crosses a threshold. */
module Masks {
  import opened Chars
  import opened Optional

  function Min(a: nat, b: nat): nat {
    if a <= b then a else b
  }

  /** A slice that stops at or before `cap` reads the same from the first
      `cap` characters as from the whole string. */
  lemma SliceOfPrefix(d: string, cap: nat, from: nat, to: nat)
    requires to <= cap
    ensures Slice(Prefix(d, cap), from, to) == Slice(d, from, to)
  {
  }

  /** Stripping a slice of an all-digit string leaves it unchanged. */
  lemma DigitSlice(d: string, from: nat, to: nat)
    requires AllDigits(d)
    ensures Digits(Slice(d, from, to)) == Slice(d, from, to)
  {
    DigitsOfDigits(Slice(d, from, to));
  }

  lemma StripSeparator(c: char)
    requires !IsDigit(c)
    ensures Digits([c]) == ""
  {
    DigitsOfSeparators([c]);
  }

  // ---------------------------------------------------------------------------
  // CEP: 99999-999
  // ---------------------------------------------------------------------------

  function CepLayout(d: string): string {
    if |d| > 5 then Slice(d, 0, 5) + "-" + Slice(d, 5, 8) else d
  }

  /** `formatCep`: the bare digits while there are at most five of them,
      otherwise the first five digits, a hyphen and up to three more. */
  function FormatCep(value: string): (r: string)
    ensures var d := Digits(value);
      && Digits(r) == Prefix(d, 8)
      && (|d| <= 5 ==> r == d)
      && (|d| > 5 ==> |r| == Min(|d|, 8) + 1 && r[5] == '-')
      && (forall i :: 0 <= i < |r| ==> (r[i] == '-' <==> |d| > 5 && i == 5))
      && (forall i :: 0 <= i < |r| ==> IsDigit(r[i]) || r[i] == '-')
  {
    var d := Digits(value);
    CepLayoutShape(d);
    CepLayout(d)
  }

  lemma CepLayoutShape(d: string)
    requires AllDigits(d)
    ensures var r := CepLayout(d);
      && Digits(r) == Prefix(d, 8)
      && (|d| <= 5 ==> r == d)
      && (|d| > 5 ==> |r| == Min(|d|, 8) + 1 && r[5] == '-')
      && (forall i :: 0 <= i < |r| ==> (r[i] == '-' <==> |d| > 5 && i == 5))
      && (forall i :: 0 <= i < |r| ==> IsDigit(r[i]) || r[i] == '-')
  {
    if |d| > 5 {
      var a, b := Slice(d, 0, 5), Slice(d, 5, 8);
      DigitsConcat(a + "-", b);
      DigitsConcat(a, "-");
      DigitSlice(d, 0, 5);
      DigitSlice(d, 5, 8);
      StripSeparator('-');
      assert a + b == Prefix(d, 8);
    } else {
      DigitsOfDigits(d);
    }
  }

  /** Re-applying the CEP mask to its own output changes nothing. */
  lemma FormatCepIdempotent(value: string)
    ensures FormatCep(FormatCep(value)) == FormatCep(value)
  {
    var d := Digits(value);
    assert Digits(FormatCep(value)) == Prefix(d, 8);
    SliceOfPrefix(d, 8, 0, 5);
    SliceOfPrefix(d, 8, 5, 8);
  }

  // ---------------------------------------------------------------------------
  // CPF: 999.999.999-99
  // ---------------------------------------------------------------------------

  function CpfLayout(d: string): string {
    if |d| > 9 then
      Slice(d, 0, 3) + "." + Slice(d, 3, 6) + "." + Slice(d, 6, 9) + "-" + Slice(d, 9, 11)
    else d
  }

  /** Where the CPF mask puts a separator once more than nine digits are
      present: dots after the third and sixth digit, a hyphen after the ninth. */
  predicate CpfSeparatorAt(i: nat) {
    i == 3 || i == 7 || i == 11
  }

  /** `formatCPF`: the bare digits while there are at most nine of them,
      otherwise `DDD.DDD.DDD-DD` truncated to eleven digits. */
  function FormatCpf(value: string): (r: string)
    ensures var d := Digits(value);
      && Digits(r) == Prefix(d, 11)
      && (|d| <= 9 ==> r == d)
      && (|d| > 9 ==> |r| == Min(|d|, 11) + 3 && r[3] == '.' && r[7] == '.' && r[11] == '-')
      && (forall i :: 0 <= i < |r| ==> (IsDigit(r[i]) <==> !(|d| > 9 && CpfSeparatorAt(i))))
      && (forall i :: 0 <= i < |r| ==> IsDigit(r[i]) || r[i] == '.' || r[i] == '-')
  {
    var d := Digits(value);
    CpfLayoutShape(d);
    CpfLayout(d)
  }

  lemma CpfLayoutShape(d: string)
    requires AllDigits(d)
    ensures var r := CpfLayout(d);
      && Digits(r) == Prefix(d, 11)
      && (|d| <= 9 ==> r == d)
      && (|d| > 9 ==> |r| == Min(|d|, 11) + 3 && r[3] == '.' && r[7] == '.' && r[11] == '-')
      && (forall i :: 0 <= i < |r| ==> (IsDigit(r[i]) <==> !(|d| > 9 && CpfSeparatorAt(i))))
      && (forall i :: 0 <= i < |r| ==> IsDigit(r[i]) || r[i] == '.' || r[i] == '-')
  {
    if |d| > 9 {
      CpfLayoutDigits(d);
      CpfLayoutPositions(d);
    } else {
      DigitsOfDigits(d);
    }
  }

  lemma CpfLayoutDigits(d: string)
    requires AllDigits(d) && |d| > 9
    ensures Digits(CpfLayout(d)) == Prefix(d, 11)
  {
    var a, b, c, e := Slice(d, 0, 3), Slice(d, 3, 6), Slice(d, 6, 9), Slice(d, 9, 11);
    DigitSlice(d, 0, 3);
    DigitSlice(d, 3, 6);
    DigitSlice(d, 6, 9);
    DigitSlice(d, 9, 11);
    StripSeparator('.');
    StripSeparator('-');
    var ab, abc := a + "." + b, a + "." + b + "." + c;
    StripAround(a, ".", b);
    StripAround(ab, ".", c);
    StripAround(abc, "-", e);
    assert CpfLayout(d) == abc + "-" + e;
    assert a + b + c + e == Prefix(d, 11);
  }

  lemma CpfLayoutPositions(d: string)
    requires AllDigits(d) && |d| > 9
    ensures var r := CpfLayout(d);
      && |r| == Min(|d|, 11) + 3 && r[3] == '.' && r[7] == '.' && r[11] == '-'
      && (forall i :: 0 <= i < |r| ==> (IsDigit(r[i]) <==> !CpfSeparatorAt(i)))
      && (forall i :: 0 <= i < |r| ==> IsDigit(r[i]) || r[i] == '.' || r[i] == '-')
  {
  }

  /** Re-applying the CPF mask to its own output changes nothing. */
  lemma FormatCpfIdempotent(value: string)
    ensures FormatCpf(FormatCpf(value)) == FormatCpf(value)
  {
    var d := Digits(value);
    assert Digits(FormatCpf(value)) == Prefix(d, 11);
    SliceOfPrefix(d, 11, 0, 3);
    SliceOfPrefix(d, 11, 3, 6);
    SliceOfPrefix(d, 11, 6, 9);
    SliceOfPrefix(d, 11, 9, 11);
  }

  // ---------------------------------------------------------------------------
  // Phones: (99) 9999-9999 and (99) 99999-9999
  // ---------------------------------------------------------------------------

  /** The layout shared by both phone masks: an opening parenthesis at once,
      `) ` after the two area-code digits, the local digits, and a hyphen
      after local digit `split`; at most `cap` digits are kept. */
  function PhoneLayout(d: string, split: nat, cap: nat): string
    requires 2 < split < cap
  {
    if |d| == 0 then ""
    else
      var head := "(" + Slice(d, 0, 2);
      var withArea := if |d| >= 2 then head + ") " else head;
      if |d| > 2 then
        if |d| > split then withArea + Slice(d, 2, split) + "-" + Slice(d, split, cap)
        else withArea + Slice(d, 2, split)
      else withArea
  }

  /** The separator the phone layout puts at position `i` of the output when
      `n` digits are shown, if any. */
  function PhoneSeparatorAt(i: nat, n: nat, split: nat): Option<char> {
    if i == 0 then Some('(')
    else if n >= 2 && i == 3 then Some(')')
    else if n >= 2 && i == 4 then Some(' ')
    else if n > split && i == split + 3 then Some('-')
    else None
  }

  /** Length of the phone layout as a function of the digit count. */
  function PhoneLength(n: nat, split: nat, cap: nat): nat {
    if n == 0 then 0
    else if n == 1 then 2
    else if n <= split then n + 3
    else Min(n, cap) + 4
  }

  /** The exact shape of a phone layout: its stripped digits are the first
      `cap` input digits, its length follows the digit count, and every
      position holds the separator the layout puts there or else a digit. */
  predicate PhoneShape(r: string, d: string, split: nat, cap: nat) {
    && Digits(r) == Prefix(d, cap)
    && |r| == PhoneLength(|d|, split, cap)
    && (forall i :: 0 <= i < |r| ==>
          match PhoneSeparatorAt(i, |d|, split)
          case Some(c) => r[i] == c
          case None => IsDigit(r[i]))
  }

  lemma PhoneLayoutShape(d: string, split: nat, cap: nat)
    requires AllDigits(d)
    requires 2 < split < cap
    ensures PhoneShape(PhoneLayout(d, split, cap), d, split, cap)
  {
    PhoneLayoutDigits(d, split, cap);
    PhoneLayoutPositions(d, split, cap);
  }

  /** Stripping `x + sep + y` when `sep` holds no digit. */
  lemma StripAround(x: string, sep: string, y: string)
    requires Digits(sep) == ""
    ensures Digits(x + sep + y) == Digits(x) + Digits(y)
  {
    DigitsConcat(x + sep, y);
    DigitsConcat(x, sep);
  }

  /** The opening `(` and the area code strip to the area code. */
  lemma PhoneHeadDigits(d: string)
    requires AllDigits(d)
    ensures Digits("(" + Slice(d, 0, 2)) == Slice(d, 0, 2)
  {
    DigitSlice(d, 0, 2);
    StripSeparator('(');
    DigitsConcat("(", Slice(d, 0, 2));
  }

  /** The area code followed by the rest of the kept digits is the prefix. */
  lemma AreaCodeThenRest(d: string, cap: nat)
    requires 2 <= |d| && 2 < cap
    ensures Slice(d, 0, 2) + Slice(d, 2, cap) == Prefix(d, cap)
  {
  }

  lemma PhoneLayoutDigits(d: string, split: nat, cap: nat)
    requires AllDigits(d)
    requires 2 < split < cap
    ensures Digits(PhoneLayout(d, split, cap)) == Prefix(d, cap)
  {
    var n := |d|;
    if n == 0 {
      return;
    }
    var a := Slice(d, 0, 2);
    PhoneHeadDigits(d);
    if n < 2 {
      assert PhoneLayout(d, split, cap) == "(" + a;
      assert a == Prefix(d, cap);
      return;
    }
    var tail := PhoneTail(d, split, cap);
    assert PhoneLayout(d, split, cap) == ("(" + a) + ") " + tail;
    DigitsOfSeparators(") ");
    StripAround("(" + a, ") ", tail);
    PhoneTailDigits(d, split, cap);
    AreaCodeThenRest(d, cap);
  }

  /** What the phone layout writes after `(DD) `. */
  function PhoneTail(d: string, split: nat, cap: nat): string
    requires 2 < split < cap
  {
    if |d| > split then Slice(d, 2, split) + "-" + Slice(d, split, cap)
    else if |d| > 2 then Slice(d, 2, split)
    else ""
  }

  lemma PhoneTailDigits(d: string, split: nat, cap: nat)
    requires AllDigits(d)
    requires 2 < split < cap
    ensures Digits(PhoneTail(d, split, cap)) == Slice(d, 2, cap)
  {
    var b, c := Slice(d, 2, split), Slice(d, split, cap);
    if |d| > split {
      DigitSlice(d, 2, split);
      DigitSlice(d, split, cap);
      StripSeparator('-');
      StripAround(b, "-", c);
      assert b + c == Slice(d, 2, cap);
    } else if |d| > 2 {
      DigitSlice(d, 2, split);
    }
  }

  lemma PhoneLayoutPositions(d: string, split: nat, cap: nat)
    requires AllDigits(d)
    requires 2 < split < cap
    ensures var r := PhoneLayout(d, split, cap);
      && |r| == PhoneLength(|d|, split, cap)
      && (forall i :: 0 <= i < |r| ==>
            match PhoneSeparatorAt(i, |d|, split)
            case Some(c) => r[i] == c
            case None => IsDigit(r[i]))
  {
    var r := PhoneLayout(d, split, cap);
    var n := |d|;
    if n == 0 {
      return;
    }
    var a := Slice(d, 0, 2);
    if n == 1 {
      assert r == "(" + a;
      return;
    }
    var b := Slice(d, 2, split);
    var c := Slice(d, split, cap);
    var tail := if n > split then b + "-" + c else if n > 2 then b else "";
    assert r == "(" + a + ") " + tail;
    assert |a| == 2;
    forall i | 0 <= i < |r|
      ensures match PhoneSeparatorAt(i, n, split)
              case Some(ch) => r[i] == ch
              case None => IsDigit(r[i])
    {
      if i == 0 {
      } else if i < 3 {
        assert r[i] == a[i - 1] == d[i - 1];
      } else if i < 5 {
      } else if i < split + 3 {
        assert r[i] == tail[i - 5] == b[i - 5] == d[i - 3];
      } else if i == split + 3 {
        assert r[i] == tail[i - 5];
      } else {
        assert r[i] == tail[i - 5] == c[i - split - 4] == d[i - 4];
      }
    }
  }

  /** `formatLandline` and `formatCellPhone`, with the hyphen position and the
      digit cap as parameters. */
  function FormatPhone(value: string, split: nat, cap: nat): (r: string)
    requires 2 < split < cap
    ensures PhoneShape(r, Digits(value), split, cap)
  {
    var d := Digits(value);
    PhoneLayoutShape(d, split, cap);
    PhoneLayout(d, split, cap)
  }

  /** The phone mask reads only the first `cap` digits of its input. */
  lemma PhoneLayoutOfPrefix(d: string, split: nat, cap: nat)
    requires 2 < split < cap
    ensures PhoneLayout(Prefix(d, cap), split, cap) == PhoneLayout(d, split, cap)
  {
    SliceOfPrefix(d, cap, 0, 2);
    SliceOfPrefix(d, cap, 2, split);
    SliceOfPrefix(d, cap, split, cap);
  }

  lemma FormatPhoneIdempotent(value: string, split: nat, cap: nat)
    requires 2 < split < cap
    ensures FormatPhone(FormatPhone(value, split, cap), split, cap) == FormatPhone(value, split, cap)
  {
    PhoneLayoutOfPrefix(Digits(value), split, cap);
  }

  const LandlineSplit: nat := 6
  const LandlineCap: nat := 10
  const CellPhoneSplit: nat := 7
  const CellPhoneCap: nat := 11

  /** `formatLandline`: `(DD) DDDD-DDDD`, at most ten digits. */
  function FormatLandline(value: string): (r: string)
    ensures PhoneShape(r, Digits(value), LandlineSplit, LandlineCap)
  {
    FormatPhone(value, LandlineSplit, LandlineCap)
  }

  /** `formatCellPhone`: `(DD) DDDDD-DDDD`, at most eleven digits. */
  function FormatCellPhone(value: string): (r: string)
    ensures PhoneShape(r, Digits(value), CellPhoneSplit, CellPhoneCap)
  {
    FormatPhone(value, CellPhoneSplit, CellPhoneCap)
  }

  /** The separators of a phone mask appear exactly when their thresholds are
      crossed: nothing at all without digits, `) ` from the second digit on,
      the hyphen once there are more than `split` digits. */
  lemma PhoneSeparators(value: string, split: nat, cap: nat)
    requires 2 < split < cap
    ensures var r, n := FormatPhone(value, split, cap), |Digits(value)|;
      && (r == "" <==> n == 0)
      && (n > 0 ==> r[0] == '(')
      && ((')' in r) <==> n >= 2)
      && (n >= 2 ==> r[3..5] == ") ")
      && (('-' in r) <==> n > split)
      && (n > split ==> r[split + 3] == '-')
      && Digits(r) == Prefix(Digits(value), cap)
  {
    var r, d := FormatPhone(value, split, cap), Digits(value);
    ShapeOpening(r, d, split, cap);
    ShapeAreaCode(r, d, split, cap);
    ShapeHyphen(r, d, split, cap);
  }

  lemma ShapeOpening(r: string, d: string, split: nat, cap: nat)
    requires 2 < split < cap
    requires PhoneShape(r, d, split, cap)
    ensures r == "" <==> |d| == 0
    ensures |d| > 0 ==> r[0] == '('
  {
    if |d| > 0 {
      assert PhoneSeparatorAt(0, |d|, split) == Some('(');
    }
  }

  lemma ShapeAreaCode(r: string, d: string, split: nat, cap: nat)
    requires 2 < split < cap
    requires PhoneShape(r, d, split, cap)
    ensures (')' in r) <==> |d| >= 2
    ensures |d| >= 2 ==> r[3..5] == ") "
  {
    if ')' in r {
      var i :| 0 <= i < |r| && r[i] == ')';
      assert PhoneSeparatorAt(i, |d|, split) != None;
    }
    if |d| >= 2 {
      assert PhoneSeparatorAt(3, |d|, split) == Some(')');
      assert PhoneSeparatorAt(4, |d|, split) == Some(' ');
    }
  }

  lemma ShapeHyphen(r: string, d: string, split: nat, cap: nat)
    requires 2 < split < cap
    requires PhoneShape(r, d, split, cap)
    ensures ('-' in r) <==> |d| > split
    ensures |d| > split ==> r[split + 3] == '-'
  {
    if '-' in r {
      var i :| 0 <= i < |r| && r[i] == '-';
      assert PhoneSeparatorAt(i, |d|, split) != None;
    }
    if |d| > split {
      assert PhoneSeparatorAt(split + 3, |d|, split) == Some('-');
    }
  }

  lemma FormatLandlineIdempotent(value: string)
    ensures FormatLandline(FormatLandline(value)) == FormatLandline(value)
  {
    FormatPhoneIdempotent(value, LandlineSplit, LandlineCap);
  }

  lemma FormatCellPhoneIdempotent(value: string)
    ensures FormatCellPhone(FormatCellPhone(value)) == FormatCellPhone(value)
  {
    FormatPhoneIdempotent(value, CellPhoneSplit, CellPhoneCap);
  }

  /** Typing more digits never shortens a masked value, whichever of the
      four masks is applied. */
  lemma MasksGrowWithDigits(u: string, v: string)
    requires |Digits(u)| <= |Digits(v)|
    ensures |FormatCep(u)| <= |FormatCep(v)|
    ensures |FormatCpf(u)| <= |FormatCpf(v)|
    ensures |FormatLandline(u)| <= |FormatLandline(v)|
    ensures |FormatCellPhone(u)| <= |FormatCellPhone(v)|
  {
  }

  // Worked examples of the four masks on fully typed values.
  // Each takes its input as a parameter pinned by `requires`: with the string
  // literal written into the ensures, the solver unfolds it eagerly and, on
  // some random seeds, runs out of resources.

  lemma ExampleCellPhone(v: string)
    requires v == "11987654321"
    ensures FormatCellPhone(v) == "(11) 98765-4321"
  {
    DigitsOfDigits(v);
    assert PhoneLayout(v, CellPhoneSplit, CellPhoneCap) == "(11) 98765-4321";
  }

  lemma ExampleLandline(v: string)
    requires v == "1134567890"
    ensures FormatLandline(v) == "(11) 3456-7890"
  {
    DigitsOfDigits(v);
    assert PhoneLayout(v, LandlineSplit, LandlineCap) == "(11) 3456-7890";
  }

  lemma ExampleCep(v: string)
    requires v == "01310930"
    ensures FormatCep(v) == "01310-930"
  {
    DigitsOfDigits(v);
    assert CepLayout(v) == "01310-930";
  }

  lemma ExampleCpf(v: string)
    requires v == "52998224725"
    ensures FormatCpf(v) == "529.982.247-25"
  {
    assert CpfLayout(v) == "529.982.247-25" by {
      assert Slice(v, 0, 3) == "529";
      assert Slice(v, 3, 6) == "982";
      assert Slice(v, 6, 9) == "247";
      assert Slice(v, 9, 11) == "25";
    }
    assert Digits(v) == v by {
      DigitsOfDigits(v);
    }
  }
}
