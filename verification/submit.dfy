/** `handleSubmit`: six checks run in a fixed order; the first that fails
    is reported in an alert and stops the submission, and when none fails
    the form is accepted.  The alert and the console log become the
    returned `SubmitResult`. */
module Submit {
  import opened Form
  import Cpf
  import Validators

  /** Which check stopped the submission. */
  datatype SubmitError =
    | BadEmail | BadCpf | BadLandline | BadCellPhone | PasswordMismatch | BadCep

  datatype SubmitResult = Submitted | Blocked(reason: SubmitError)

  /** The alert text of each failure. */
  function Message(e: SubmitError): string {
    match e
    case BadEmail => "E-mail inválido!"
    case BadCpf => "CPF inválido!"
    case BadLandline => "Telefone fixo inválido!"
    case BadCellPhone => "Celular inválido!"
    case PasswordMismatch => "Senhas não coincidem!"
    case BadCep => "CEP inválido!"
  }

  const SuccessMessage: string := "Formulário enviado com sucesso!"

  /** The position of each check in the order they run. */
  function Rank(e: SubmitError): nat {
    match e
    case BadEmail => 0
    case BadCpf => 1
    case BadLandline => 2
    case BadCellPhone => 3
    case PasswordMismatch => 4
    case BadCep => 5
  }

  /** The check whose failure is reported as `e`.  The CEP is checked only
      for a minor, whose address section is the one shown. */
  predicate Passes(f: FormData, e: SubmitError) {
    match e
    case BadEmail => Validators.ValidateEmail(f.email)
    case BadCpf => Cpf.ValidateCpf(f.cpf)
    case BadLandline => Validators.ValidatePhone(f.landline)
    case BadCellPhone => Validators.ValidatePhone(f.cellPhone)
    case PasswordMismatch => f.password == f.confirmPassword
    case BadCep => !f.isMinor || Validators.ValidateCep(f.zipCode)
  }

  /** `handleSubmit`: the first failing check in order wins; the form is
      submitted exactly when every check passes. */
  function HandleSubmit(f: FormData): (r: SubmitResult)
    ensures r.Submitted? <==> forall e :: Passes(f, e)
    ensures r.Blocked? ==> !Passes(f, r.reason)
    ensures r.Blocked? ==> forall e :: Rank(e) < Rank(r.reason) ==> Passes(f, e)
  {
    ChecksInOrder(f);
    if !Validators.ValidateEmail(f.email) then Blocked(BadEmail)
    else if !Cpf.ValidateCpf(f.cpf) then Blocked(BadCpf)
    else if !Validators.ValidatePhone(f.landline) then Blocked(BadLandline)
    else if !Validators.ValidatePhone(f.cellPhone) then Blocked(BadCellPhone)
    else if f.password != f.confirmPassword then Blocked(PasswordMismatch)
    else if f.isMinor && !Validators.ValidateCep(f.zipCode) then Blocked(BadCep)
    else Submitted
  }

  /** Every check, listed in the order they run. */
  lemma ChecksInOrder(f: FormData)
    ensures (forall e :: Passes(f, e)) <==>
      && Passes(f, BadEmail) && Passes(f, BadCpf) && Passes(f, BadLandline)
      && Passes(f, BadCellPhone) && Passes(f, PasswordMismatch) && Passes(f, BadCep)
  {
    if Passes(f, BadEmail) && Passes(f, BadCpf) && Passes(f, BadLandline)
      && Passes(f, BadCellPhone) && Passes(f, PasswordMismatch) && Passes(f, BadCep)
    {
      forall e ensures Passes(f, e) {
        match e
        case BadEmail =>
        case BadCpf =>
        case BadLandline =>
        case BadCellPhone =>
        case PasswordMismatch =>
        case BadCep =>
      }
    }
  }

  /** Each alert names one check: different failures read differently. */
  lemma MessagesAreDistinct(a: SubmitError, b: SubmitError)
    ensures Message(a) == Message(b) <==> a == b
  {
    if a != b {
      assert Message(a)[0] != Message(b)[0] || Message(a)[1] != Message(b)[1];
    }
  }

  /** Differing passwords always block the submission, however the other
      fields are filled; once the four earlier checks pass, the mismatch is
      what is reported. */
  lemma PasswordMismatchBlocks(f: FormData)
    requires f.password != f.confirmPassword
    ensures HandleSubmit(f).Blocked?
    ensures Rank(HandleSubmit(f).reason) <= Rank(PasswordMismatch)
    ensures (forall e :: Rank(e) < Rank(PasswordMismatch) ==> Passes(f, e)) ==>
      HandleSubmit(f) == Blocked(PasswordMismatch)
  {
    assert !Passes(f, PasswordMismatch);
  }

  /** An adult's submission is never refused for the CEP. */
  lemma AdultNeverBlockedByCep(f: FormData)
    requires !f.isMinor
    ensures HandleSubmit(f) != Blocked(BadCep)
  {
  }

  /** Fixing the reported field never brings back an earlier failure: a
      form that differs only in a later check's field is blocked at the same
      place or later. */
  lemma FirstFailureIsStable(f: FormData, g: FormData, e: SubmitError)
    requires HandleSubmit(f) == Blocked(e)
    requires forall e' :: Rank(e') < Rank(e) ==> Passes(g, e') == Passes(f, e')
    ensures HandleSubmit(g).Submitted? || Rank(HandleSubmit(g).reason) >= Rank(e)
  {
  }

  /** The form as it is first shown is not a minor's, and submitting it
      untouched is refused at the first check, the empty e-mail. */
  lemma UntouchedFormIsBlockedByEmail()
    ensures !Initial.isMinor
    ensures HandleSubmit(Initial) == Blocked(BadEmail)
  {
    assert !Validators.ValidateEmail(Initial.email);
  }
}
