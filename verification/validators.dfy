/** The submit-time field validators `validateEmail`, `validatePhone` and
    `validateCEP`, each a regular-expression test written out as a
    predicate, with the simple condition each one amounts to. */
module Validators {
  import opened Chars
  import Masks

  // ---------------------------------------------------------------------------
  // E-mail: /^[^\s@]+@[^\s@]+\.[^\s@]+$/
  // ---------------------------------------------------------------------------

  /** One `[^\s@]+` of the e-mail pattern. */
  predicate EmailPart(s: string) {
    |s| > 0 && forall i :: 0 <= i < |s| ==> !IsSpace(s[i]) && s[i] != '@'
  }

  /** `validateEmail`: the whole string is `A@B.C` with `A`, `B`, `C` each a
      non-empty run free of white space and `@`.  The regex engine's choice of
      where `B` ends is existential: any `.` that leaves both sides non-empty
      will do. */
  function ValidateEmail(email: string): (ok: bool)
    ensures ok <==> EmailShape(email)
  {
    EmailMatchIsShape(email);
    EmailMatch(email)
  }

  /** The shape the pattern accepts, stated without the pattern: no white
      space anywhere, exactly one `@` and not at the start, and after it a
      domain holding a `.` with text on both sides. */
  predicate EmailShape(s: string) {
    && (forall i :: 0 <= i < |s| ==> !IsSpace(s[i]))
    && exists at :: 0 < at < |s| && OnlyAt(s, at) && DomainHasDot(s[at + 1..])
  }

  /** `at` is the position of the one and only `@` of `s`. */
  predicate OnlyAt(s: string, at: nat) {
    at < |s| && s[at] == '@' && forall i :: 0 <= i < |s| && s[i] == '@' ==> i == at
  }

  predicate DomainHasDot(d: string) {
    exists j :: 0 < j < |d| - 1 && d[j] == '.'
  }

  /** The pattern itself: some `@` and some later `.` cut the string into
      three parts of the `[^\s@]+` kind. */
  predicate EmailMatch(email: string) {
    exists at | 0 < at < |email| :: exists dot | at < dot < |email| ::
      && email[at] == '@'
      && email[dot] == '.'
      && EmailPart(email[..at])
      && EmailPart(email[at + 1..dot])
      && EmailPart(email[dot + 1..])
  }

  lemma EmailMatchIsShape(s: string)
    ensures EmailMatch(s) <==> EmailShape(s)
  {
    if EmailMatch(s) {
      var at, dot :| 0 < at < dot < |s| && s[at] == '@' && s[dot] == '.'
        && EmailPart(s[..at]) && EmailPart(s[at + 1..dot]) && EmailPart(s[dot + 1..]);
      MatchHasShape(s, at, dot);
    }
    if EmailShape(s) {
      var at :| 0 < at < |s| && OnlyAt(s, at) && DomainHasDot(s[at + 1..]);
      ShapeHasMatch(s, at);
    }
  }

  lemma MatchHasShape(s: string, at: nat, dot: nat)
    requires 0 < at < dot < |s| && s[at] == '@' && s[dot] == '.'
    requires EmailPart(s[..at]) && EmailPart(s[at + 1..dot]) && EmailPart(s[dot + 1..])
    ensures EmailShape(s)
  {
    forall i | 0 <= i < |s|
      ensures !IsSpace(s[i]) && (s[i] == '@' ==> i == at)
    {
      if i < at {
        assert s[i] == s[..at][i];
      } else if at < i < dot {
        assert s[i] == s[at + 1..dot][i - at - 1];
      } else if dot < i {
        assert s[i] == s[dot + 1..][i - dot - 1];
      }
    }
    assert s[at + 1..][dot - at - 1] == '.';
    assert DomainHasDot(s[at + 1..]);
    assert OnlyAt(s, at);
  }

  lemma ShapeHasMatch(s: string, at: nat)
    requires 0 < at < |s| && OnlyAt(s, at) && DomainHasDot(s[at + 1..])
    requires forall i :: 0 <= i < |s| ==> !IsSpace(s[i])
    ensures EmailMatch(s)
  {
    var j :| 0 < j < |s[at + 1..]| - 1 && s[at + 1..][j] == '.';
    var dot := at + 1 + j;
    assert s[dot] == '.';
    assert EmailPart(s[..at]) by {
      forall i | 0 <= i < at ensures s[..at][i] == s[i] && s[i] != '@' {}
    }
    var b, c := s[at + 1..dot], s[dot + 1..];
    forall i | 0 <= i < |b| ensures b[i] != '@' {
      assert b[i] == s[at + 1 + i];
    }
    forall i | 0 <= i < |c| ensures c[i] != '@' {
      assert c[i] == s[dot + 1 + i];
    }
    assert EmailPart(b);
    assert EmailPart(c);
  }

  // ---------------------------------------------------------------------------
  // Phone and CEP: /\d{10,11}/ and /\d{8}/, unanchored
  // ---------------------------------------------------------------------------

  /** An unanchored `\d{lo,hi}`: somewhere in `s` there is a run of between
      `lo` and `hi` digits. */
  predicate HasDigitRun(s: string, lo: nat, hi: nat) {
    exists k: nat, i: nat | lo <= k <= hi && i <= |s| - k :: DigitRunAt(s, i, k)
  }

  /** `s` holds `k` digits in a row from position `i` on. */
  predicate DigitRunAt(s: string, i: nat, k: nat) {
    i + k <= |s| && AllDigits(s[i..i + k])
  }

  /** On a string of digits only, the unanchored pattern reduces to a
      minimum length. */
  lemma DigitRunOfDigits(s: string, lo: nat, hi: nat)
    requires AllDigits(s)
    requires lo <= hi
    ensures HasDigitRun(s, lo, hi) <==> |s| >= lo
  {
    if |s| >= lo {
      assert DigitRunAt(s, 0, lo);
    }
  }

  /** `validatePhone`: after stripping, ten or eleven digits in a row.  As the
      stripped string is all digits, any phone with at least ten digits
      passes, twelve or more included. */
  function ValidatePhone(phone: string): (ok: bool)
    ensures ok <==> |Digits(phone)| >= 10
  {
    DigitRunOfDigits(Digits(phone), 10, 11);
    HasDigitRun(Digits(phone), 10, 11)
  }

  /** `validateCEP`: after stripping, eight digits in a row, so any value with
      at least eight digits passes. */
  function ValidateCep(cep: string): (ok: bool)
    ensures ok <==> |Digits(cep)| >= 8
  {
    DigitRunOfDigits(Digits(cep), 8, 8);
    HasDigitRun(Digits(cep), 8, 8)
  }

  /** A masked landline validates exactly when ten digits were typed. */
  lemma MaskedLandlineValidates(value: string)
    ensures ValidatePhone(Masks.FormatLandline(value)) <==> |Digits(value)| >= 10
  {
  }

  /** A masked cell phone validates exactly when ten or more digits were
      typed, so a cell number one digit short still passes. */
  lemma MaskedCellPhoneValidates(value: string)
    ensures ValidatePhone(Masks.FormatCellPhone(value)) <==> |Digits(value)| >= 10
  {
  }

  /** A masked CEP validates exactly when eight digits were typed. */
  lemma MaskedCepValidates(value: string)
    ensures ValidateCep(Masks.FormatCep(value)) <==> |Digits(value)| >= 8
  {
  }
}
