# FormularioADS enrollment form — a Dafny model

This project models the logic of `FormularioADS`. It is a single React
component for a Brazilian academic enrollment form, and all of its logic is
in `src/App.jsx`. The model covers these parts:

- **Input masks.** `formatCep`, `formatCPF`, `formatLandline` and
  `formatCellPhone` strip every non-digit, keep a bounded prefix of the
  digits, and re-insert fixed separators.
- **CPF check.** `validateCPF` and its inner `calcDigit` implement the
  national-ID (CPF) modulo-11 check-digit algorithm.
- **Validators.** `validateEmail`, `validatePhone` and `validateCEP` are
  regular-expression tests. The model writes each one out as an explicit
  predicate.
- **Handlers.** `handleChange`, `fetchAddress` and `handleSubmit` become pure
  state transitions. The form is an immutable `FormData` record, and the
  page state is `Page` (the form plus the lookup's `cepLoading` and
  `cepError`).

Modules, one per concern:

| module | file | models |
|---|---|---|
| `Optional` | optional.dfy | optional values (absent JSON fields, unparseable dates) |
| `Chars` | chars.dfy | `\d`, `\s`, `replace(/\D/g, "")`, `slice` |
| `Masks` | masks.dfy | the four input masks |
| `Cpf` | cpf.dfy | `validateCPF`, `calcDigit` |
| `Validators` | validators.dfy | `validateEmail`, `validatePhone`, `validateCEP` |
| `Form` | form.dfy | the form record and `handleChange` |
| `CepLookup` | ceplookup.dfy | `fetchAddress` |
| `Submit` | submit.dfy | `handleSubmit` |

Notes on how the code behaves, each stated and proved in the model:

- **The CPF digit rule.** The source computes a check digit as ten times the
  weighted sum, modulo 11, with 10 read as 0. `Cpf.SourceRuleIsRegistryRule`
  proves this equals the usual rule: eleven minus the remainder, or 0 when
  the remainder is 0 or 1.
- **Repdigits.** Every eleven-digit repdigit satisfies both check-digit
  conditions (`Cpf.RepdigitsPassCheckDigits`). Only the explicit repdigit
  test refuses them.
- **The phone and CEP patterns.** `/\d{10,11}/` and `/\d{8}/` have no
  anchors, but they run on a digits-only string. So they reduce to "at
  least 10 digits" and "at least 8 digits", and a 12-digit phone passes.
- **The minor checkbox.** In `handleChange` the trailing `isMinor:` entry
  overrides the `[id]:` entry. Ticking the minor checkbox therefore never
  changes the state (`Form.CheckboxIsInert`). Only the date of birth
  decides the flag.
- **An invalid CEP.** When the CEP does not have exactly eight digits,
  `fetchAddress` sets its error and returns at once. It leaves `cepLoading`
  as it was instead of resetting the lookup state. The model follows the
  code.

## Model

| member | source | states |
|---|---|---|
| Chars.Digits | src/App.jsx:30 | the stripped text holds only the characters `0`..`9` and is never longer than the input |
| Chars.DigitsOfDigits | src/App.jsx:30 | stripping leaves a text unchanged iff it is all digits |
| Chars.DigitsConcat | src/App.jsx:30 | stripping a concatenation concatenates the stripped parts |
| Masks.FormatCep | src/App.jsx:29-35 | the stripped output is the first 8 input digits; with at most 5 digits it is the bare digits; otherwise there is exactly one `-`, at position 5, and the length is min(n,8)+1; only digits and `-` occur |
| Masks.FormatCepIdempotent | src/App.jsx:29-35 | masking an already masked CEP changes nothing |
| Masks.FormatCpf | src/App.jsx:38-44 | the stripped output is the first 11 input digits; with at most 9 digits it is the bare digits; otherwise it is `DDD.DDD.DDD-D(D)`, with separators exactly at positions 3, 7 and 11 and length min(n,11)+3 |
| Masks.FormatCpfIdempotent | src/App.jsx:38-44 | masking an already masked CPF changes nothing |
| Masks.FormatPhone | src/App.jsx:66-95 | the shared phone layout: the stripped output is the first `cap` digits; its length follows the digit count; every position holds `(`, `)`, ` `, `-` where the layout puts one, and a digit elsewhere |
| Masks.FormatLandline | src/App.jsx:66-79 | the phone layout with the hyphen after local digit 6 and at most 10 digits |
| Masks.FormatCellPhone | src/App.jsx:82-95 | the phone layout with the hyphen after local digit 7 and at most 11 digits |
| Masks.PhoneSeparators | src/App.jsx:68-77 | empty output iff no digits; `(` first; `)` present iff at least 2 digits, and `) ` then sits at positions 3-4; `-` present iff more than `split` digits, at position split+3 |
| Masks.FormatLandlineIdempotent | src/App.jsx:66-79 | masking an already masked landline changes nothing |
| Masks.FormatCellPhoneIdempotent | src/App.jsx:82-95 | masking an already masked cell phone changes nothing |
| Masks.MasksGrowWithDigits | src/App.jsx:29-95 | more digits typed never give a shorter masked value, for all four masks |
| Masks.ExampleCellPhone | src/App.jsx:82-95 | `11987654321` is shown as `(11) 98765-4321` |
| Masks.ExampleLandline | src/App.jsx:66-79 | `1134567890` is shown as `(11) 3456-7890` |
| Masks.ExampleCep | src/App.jsx:29-35 | `01310930` is shown as `01310-930` |
| Masks.ExampleCpf | src/App.jsx:38-44 | `52998224725` is shown as `529.982.247-25` |
| Cpf.IsRepdigit | src/App.jsx:48 | `^(\d)\1+$` matches iff the text has at least two characters, all digits, all equal to one another |
| Cpf.CheckDigit | src/App.jsx:50-57 | `calcDigit(factor)` yields the registry check digit of the weighted sum of the first factor−1 digits (weights factor down to 2), so at most 9 |
| Cpf.CalcDigit | src/App.jsx:50-57 | the loop that adds up digit i times (factor − i) over the first factor−1 digits returns the same digit as `Cpf.CheckDigit` |
| Cpf.SourceRuleIsRegistryRule | src/App.jsx:55-56 | (10·S mod 11, with 10 read as 0) equals (11 − S mod 11, or 0 when S mod 11 < 2) for every sum S |
| Cpf.ValidateCpf | src/App.jsx:46-63 | acceptance needs exactly 11 stripped digits that are not a repdigit; for such input it accepts iff digit 10 and digit 11 are the registry check digits of the first 9 (weights 10..2) and the first 10 (weights 11..2) digits |
| Cpf.RepdigitsPassCheckDigits | src/App.jsx:48 | every 11-digit repdigit satisfies both check-digit conditions, so only the repdigit test rejects it |
| Cpf.ValidateCpfIgnoresPunctuation | src/App.jsx:47 | the verdict depends only on the digits of the input |
| Cpf.MaskedCpfValidatesAlike | src/App.jsx:38-47 | with at most 11 digits typed, the masked CPF validates exactly when the typed text does |
| Cpf.ExampleValid | src/App.jsx:46-63 | `52998224725` is accepted |
| Cpf.ExampleWrongCheckDigit | src/App.jsx:46-63 | `52998224724` is rejected |
| Cpf.ExampleRepdigit | src/App.jsx:46-63 | `11111111111` is rejected although its check digits agree |
| Validators.ValidateEmail | src/App.jsx:148-149 | accepts iff there is no white space, exactly one `@`, not first, and after it a domain holding a `.` with text on both sides |
| Validators.EmailMatchIsShape | src/App.jsx:148-149 | the pattern reading (some `@` and later `.` split the string into three runs free of `@` and white space) is equivalent to that shape, in both directions |
| Validators.DigitRunOfDigits | src/App.jsx:151-155 | on an all-digit string an unanchored `\d{lo,hi}` matches iff the string has at least `lo` characters |
| Validators.ValidatePhone | src/App.jsx:151-152 | accepts iff the input has at least 10 digits |
| Validators.ValidateCep | src/App.jsx:154-155 | accepts iff the input has at least 8 digits |
| Validators.MaskedLandlineValidates | src/App.jsx:66-79 | a masked landline passes the phone check iff at least 10 digits were typed |
| Validators.MaskedCellPhoneValidates | src/App.jsx:82-95 | a masked cell phone passes the phone check iff at least 10 digits were typed |
| Validators.MaskedCepValidates | src/App.jsx:29-35 | a masked CEP passes the CEP check iff at least 8 digits were typed |
| Form.Put | src/App.jsx:110-112 | `{...prev, [id]: v}` sets field `id` to `v` and leaves every other field as it was |
| Form.HandleChange | src/App.jsx:97-118 | only the target field changes (plus the minor flag for a date of birth); CEP, CPF, landline and cell phone store their masks and other inputs their raw text; the flag becomes `currentYear − birthYear < 18` only for the date of birth and otherwise keeps its value |
| Form.CheckboxIsInert | src/App.jsx:112-116 | a change event from the minor checkbox leaves the whole state unchanged |
| Form.DateOfBirthDecidesMinor | src/App.jsx:113-116 | after a date-of-birth change the flag is exactly `currentYear − birthYear < 18` |
| Form.ReenteringShownTextIsNoop | src/App.jsx:97-118 | re-delivering the text a field shows changes nothing |
| Form.ChangesOfDistinctFieldsCommute | src/App.jsx:110-117 | edits of two different inputs give the same state in either order |
| CepLookup.LookupCode | src/App.jsx:121-125 | a code is sent iff the CEP has exactly 8 digits, and it is those 8 digits |
| CepLookup.StartLookup | src/App.jsx:126-127 | while the request is pending the form is unchanged, loading is on and the error is empty |
| CepLookup.FinishLookup | src/App.jsx:131-145 | loading is off on every outcome; not-found and failure set their messages without touching the form; an address overwrites only street, city and state, with an absent value read as "" |
| CepLookup.FetchAddress | src/App.jsx:120-146 | a CEP without exactly 8 digits sets "CEP inválido!" and changes neither the form nor loading; otherwise loading ends off, and each outcome has the effect described for `FinishLookup`, with the error cleared after an address |
| CepLookup.FetchAddressIdempotent | src/App.jsx:120-146 | the lookup never changes the CEP field, and repeating it with the same answer changes nothing |
| CepLookup.TypedCepLookupCode | src/App.jsx:100-101 | a CEP entered through the mask is looked up iff at least 8 digits were typed, and the code is the first 8 of them |
| Submit.HandleSubmit | src/App.jsx:157-172 | the form is submitted iff every check passes; a block names a failing check, and every check earlier in the order passed |
| Submit.MessagesAreDistinct | src/App.jsx:159-168 | different failures give different alert texts |
| Submit.PasswordMismatchBlocks | src/App.jsx:165-166 | differing passwords always block submission; once the four earlier checks pass, the mismatch is the reported reason |
| Submit.AdultNeverBlockedByCep | src/App.jsx:167-168 | a non-minor is never refused for the CEP |
| Submit.FirstFailureIsStable | src/App.jsx:159-168 | a form that agrees on the checks before the reported one is blocked no earlier |
| Submit.UntouchedFormIsBlockedByEmail | src/App.jsx:5-23 | the initial form is not a minor's, and submitting it untouched is refused at the first check, for the empty e-mail |

## Left out

- Rendering, CSS and the `useState` wiring (src/App.jsx:1-27, 174-368) are presentation only. The form is a plain record, and each setter call is a field update of that record.
- The `fetch` request and JSON decoding (src/App.jsx:129-130) are network I/O. They become the `LookupOutcome` parameter: `NotFound` for a truthy `erro`, `Found` with possibly absent fields, and `LookupFailed` for anything thrown.
- The clock and date parsing are left out (`new Date().getFullYear()` and `new Date(value).getFullYear()`, src/App.jsx:115). Both years are parameters, and an unparseable date is `None`, which compares false as `NaN` does.
- `alert`, `console.log` and `preventDefault` (src/App.jsx:158-171) are side effects. `handleSubmit` returns `Submitted` or `Blocked(reason)` instead, and `Submit.Message` gives each reason's alert text.
- The regular-expression engine is not modelled. Each pattern is an explicit predicate, and `\s` is the fixed list of ECMAScript white-space code points.
- Overlapping lookups can race, and the source has no mechanism against that. `FinishLookup` takes whichever page state is current when the request settles, which is how the source behaves.
- Form.HandleChange: the event's `id` is one of the form's seventeen input ids, and `type === "checkbox"` holds exactly for the minor checkbox, as in the markup. Events from unknown ids, which would add a new key to the state object, are not modelled.
- The browser's own constraint validation is not modelled. It covers the `required` attributes and the `type="email"` input in the markup (src/App.jsx:187-358) and runs before `onSubmit` fires. `Submit.HandleSubmit` models the handler once the browser has let the submission through.
