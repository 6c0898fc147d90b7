/** `fetchAddress`: the postal-code (CEP) lookup run when the CEP input
    loses focus.  The request to the lookup service and the decoding of its
    JSON answer are abstracted into a `LookupOutcome`; the handler's effect
    on the page state is a pure function of the page and that outcome. */
module CepLookup {
  import opened Optional
  import opened Chars
  import opened Form
  import Masks

  /** What the awaited request produced: an answer carrying the `erro` flag,
      an address whose `logradouro`, `localidade` and `uf` may be absent, or
      a thrown network or decoding error. */
  datatype LookupOutcome =
    | NotFound
    | Found(street: Option<string>, city: Option<string>, uf: Option<string>)
    | LookupFailed

  /** `cepLoading` and `cepError`. */
  datatype CepStatus = CepStatus(loading: bool, error: string)

  /** Everything the component keeps: the form and the lookup status. */
  datatype Page = Page(form: FormData, cep: CepStatus)

  const InvalidCepMessage: string := "CEP inválido!"
  const NotFoundMessage: string := "CEP não encontrado!"
  const LookupErrorMessage: string := "Erro ao buscar o CEP."

  /** The code the handler sends to the lookup service, if any: the digits
      of the CEP field, provided there are exactly eight. */
  function LookupCode(f: FormData): (code: Option<string>)
    ensures code.Some? <==> |Digits(f.zipCode)| == 8
    ensures code.Some? ==> |code.value| == 8 && AllDigits(code.value)
    ensures code.Some? ==> code.value == Digits(f.zipCode)
  {
    var cep := Digits(f.zipCode);
    if |cep| != 8 then None else Some(cep)
  }

  /** The page while the request is in flight: loading, no error. */
  function StartLookup(p: Page): (r: Page)
    ensures r.form == p.form
    ensures r.cep.loading && r.cep.error == ""
  {
    p.(cep := CepStatus(true, ""))
  }

  /** What the handler does once the request settles, applied to the page as
      it stands at that moment (the form update is a functional update of
      the latest state).  Loading is cleared on every path. */
  function FinishLookup(p: Page, outcome: LookupOutcome): (r: Page)
    ensures !r.cep.loading
    ensures !outcome.Found? ==> r.form == p.form
    ensures outcome.NotFound? ==> r.cep.error == NotFoundMessage
    ensures outcome.LookupFailed? ==> r.cep.error == LookupErrorMessage
    ensures outcome.Found? ==> r.cep.error == p.cep.error
    ensures outcome.Found? ==>
      && r.form.address == ValueOr(outcome.street, "")
      && r.form.city == ValueOr(outcome.city, "")
      && r.form.state == ValueOr(outcome.uf, "")
      && forall g :: g !in {Address, City, State} ==> Get(r.form, g) == Get(p.form, g)
  {
    var settled := match outcome
      case NotFound => p.(cep := p.cep.(error := NotFoundMessage))
      case Found(street, city, uf) =>
        p.(form := p.form.(address := ValueOr(street, ""), city := ValueOr(city, ""), state := ValueOr(uf, "")))
      case LookupFailed => p.(cep := p.cep.(error := LookupErrorMessage));
    settled.(cep := settled.cep.(loading := false))
  }

  /** `fetchAddress`, from the blur to the settled request. */
  function FetchAddress(p: Page, outcome: LookupOutcome): (r: Page)
    ensures |Digits(p.form.zipCode)| != 8 ==>
      r.form == p.form && r.cep.loading == p.cep.loading && r.cep.error == InvalidCepMessage
    ensures |Digits(p.form.zipCode)| == 8 ==> !r.cep.loading
    ensures |Digits(p.form.zipCode)| == 8 && outcome.NotFound? ==>
      r.form == p.form && r.cep.error == NotFoundMessage
    ensures |Digits(p.form.zipCode)| == 8 && outcome.LookupFailed? ==>
      r.form == p.form && r.cep.error == LookupErrorMessage
    ensures |Digits(p.form.zipCode)| == 8 && outcome.Found? ==>
      && r.cep.error == ""
      && r.form.address == ValueOr(outcome.street, "")
      && r.form.city == ValueOr(outcome.city, "")
      && r.form.state == ValueOr(outcome.uf, "")
      && forall g :: g !in {Address, City, State} ==> Get(r.form, g) == Get(p.form, g)
  {
    match LookupCode(p.form)
    case None => p.(cep := p.cep.(error := InvalidCepMessage))
    case Some(_) => FinishLookup(StartLookup(p), outcome)
  }

  /** The lookup never touches the CEP field itself, so blurring it again
      asks for the same code and, with the same answer, changes nothing. */
  lemma FetchAddressIdempotent(p: Page, outcome: LookupOutcome)
    ensures FetchAddress(p, outcome).form.zipCode == p.form.zipCode
    ensures FetchAddress(FetchAddress(p, outcome), outcome) == FetchAddress(p, outcome)
  {
    var once := FetchAddress(p, outcome);
    assert Get(once.form, ZipCode) == Get(p.form, ZipCode);
    var twice := FetchAddress(once, outcome);
    if outcome.Found? && |Digits(p.form.zipCode)| == 8 {
      Extensionality(twice.form, once.form);
    }
  }

  /** A CEP typed through the mask is looked up exactly when at least eight
      digits were typed, and the code sent is the first eight of them. */
  lemma TypedCepLookupCode(prev: FormData, value: string, checked: bool, currentYear: int, birthYear: Option<int>)
    ensures var f := HandleChange(prev, ChangeEvent(ZipCode, value, checked), currentYear, birthYear);
      && (LookupCode(f).Some? <==> |Digits(value)| >= 8)
      && (LookupCode(f).Some? ==> LookupCode(f).value == Digits(value)[..8])
  {
  }
}
