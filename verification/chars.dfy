/** Character classes and the string operations the form's helpers share:
    `value.replace(/\D/g, "")` and `String.prototype.slice`. */
module Chars {

  /** The regular-expression class `\d` (no `u` flag): ASCII `0`..`9` only. */
  predicate IsDigit(c: char) {
    '0' <= c <= '9'
  }

  /** The regular-expression class `\s`: the ECMAScript white-space and
      line-terminator code points. */
  predicate IsSpace(c: char) {
    || c == ' '
    || ('\t' <= c <= '\r')              // tab, line feed, vertical tab, form feed, carriage return
    || c as int == 0x00A0
    || c as int == 0x1680
    || (0x2000 <= c as int <= 0x200A)
    || c as int == 0x2028
    || c as int == 0x2029
    || c as int == 0x202F
    || c as int == 0x205F
    || c as int == 0x3000
    || c as int == 0xFEFF
  }

  predicate AllDigits(s: string) {
    forall i :: 0 <= i < |s| ==> IsDigit(s[i])
  }

  /** `s.replace(/\D/g, "")`: the digits of `s`, in order. */
  function Digits(s: string): (r: string)
    ensures AllDigits(r)
    ensures |r| <= |s|
  {
    if |s| == 0 then ""
    else if IsDigit(s[0]) then [s[0]] + Digits(s[1..])
    else Digits(s[1..])
  }

  /** JavaScript `s.slice(from, to)` for non-negative bounds: both bounds are
      clamped to the length, and an empty string results when they cross. */
  function Slice(s: string, from: nat, to: nat): (r: string)
    ensures |r| == if to <= |s| then (if from <= to then to - from else 0)
                   else (if from <= |s| then |s| - from else 0)
    ensures forall i :: 0 <= i < |r| ==> r[i] == s[from + i]
  {
    var lo := if from < |s| then from else |s|;
    var hi := if to < |s| then to else |s|;
    if lo <= hi then s[lo..hi] else ""
  }

  /** The first `n` characters of `s`, or all of them when there are fewer. */
  function Prefix(s: string, n: nat): (r: string)
    ensures |r| == if n <= |s| then n else |s|
    ensures r <= s
  {
    if n <= |s| then s[..n] else s
  }

  lemma {:induction false} DigitsConcat(a: string, b: string)
    ensures Digits(a + b) == Digits(a) + Digits(b)
    decreases |a|
  {
    if |a| == 0 {
      assert a + b == b;
    } else {
      assert (a + b)[0] == a[0];
      assert (a + b)[1..] == a[1..] + b;
      DigitsConcat(a[1..], b);
    }
  }

  /** Stripping is the identity on a string that is already all digits, and
      only on such strings. */
  lemma {:induction false} DigitsOfDigits(s: string)
    ensures Digits(s) == s <==> AllDigits(s)
    decreases |s|
  {
    if |s| > 0 {
      DigitsOfDigits(s[1..]);
      if !IsDigit(s[0]) {
        assert |Digits(s)| <= |s[1..]| < |s|;
      }
    }
  }

  /** A string free of digits strips to the empty string. */
  lemma {:induction false} DigitsOfSeparators(s: string)
    requires forall i :: 0 <= i < |s| ==> !IsDigit(s[i])
    ensures Digits(s) == ""
    decreases |s|
  {
    if |s| > 0 {
      DigitsOfSeparators(s[1..]);
    }
  }

  /** Stripping twice is stripping once. */
  lemma StripIdempotent(s: string)
    ensures Digits(Digits(s)) == Digits(s)
  {
    DigitsOfDigits(Digits(s));
  }
}
