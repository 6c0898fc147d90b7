/** The form state of `FormularioADS` and its `handleChange` handler, as a
    pure transition from the previous state and one input event to the next
    state. */
module Form {
  import opened Optional
  import Masks

  /** The `id` of every input of the form. */
  datatype FieldId =
    | FullName | DateOfBirth | Cpf | Landline | CellPhone | IsMinor
    | FatherName | MotherName | ZipCode | Address | Number | AddOn
    | City | State | Email | Password | ConfirmPassword

  /** A field's content: every field holds text except the minor flag. */
  datatype Value = Text(text: string) | Flag(flag: bool)

  datatype FormData = FormData(
    fullName: string,
    dateOfBirth: string,
    cpf: string,
    landline: string,
    cellPhone: string,
    isMinor: bool,
    fatherName: string,
    motherName: string,
    zipCode: string,
    address: string,
    number: string,
    addOn: string,
    city: string,
    state: string,
    email: string,
    password: string,
    confirmPassword: string)

  /** The state the form starts in: every text empty, not a minor. */
  const Initial: FormData :=
    FormData("", "", "", "", "", false, "", "", "", "", "", "", "", "", "", "", "")

  /** `formData[id]`. */
  function Get(f: FormData, id: FieldId): Value {
    match id
    case FullName => Text(f.fullName)
    case DateOfBirth => Text(f.dateOfBirth)
    case Cpf => Text(f.cpf)
    case Landline => Text(f.landline)
    case CellPhone => Text(f.cellPhone)
    case IsMinor => Flag(f.isMinor)
    case FatherName => Text(f.fatherName)
    case MotherName => Text(f.motherName)
    case ZipCode => Text(f.zipCode)
    case Address => Text(f.address)
    case Number => Text(f.number)
    case AddOn => Text(f.addOn)
    case City => Text(f.city)
    case State => Text(f.state)
    case Email => Text(f.email)
    case Password => Text(f.password)
    case ConfirmPassword => Text(f.confirmPassword)
  }

  /** Two states that agree on every field are the same state. */
  lemma Extensionality(a: FormData, b: FormData)
    requires forall id :: Get(a, id) == Get(b, id)
    ensures a == b
  {
    assert Get(a, FullName) == Get(b, FullName);
    assert Get(a, DateOfBirth) == Get(b, DateOfBirth);
    assert Get(a, Cpf) == Get(b, Cpf);
    assert Get(a, Landline) == Get(b, Landline);
    assert Get(a, CellPhone) == Get(b, CellPhone);
    assert Get(a, IsMinor) == Get(b, IsMinor);
    assert Get(a, FatherName) == Get(b, FatherName);
    assert Get(a, MotherName) == Get(b, MotherName);
    assert Get(a, ZipCode) == Get(b, ZipCode);
    assert Get(a, Address) == Get(b, Address);
    assert Get(a, Number) == Get(b, Number);
    assert Get(a, AddOn) == Get(b, AddOn);
    assert Get(a, City) == Get(b, City);
    assert Get(a, State) == Get(b, State);
    assert Get(a, Email) == Get(b, Email);
    assert Get(a, Password) == Get(b, Password);
    assert Get(a, ConfirmPassword) == Get(b, ConfirmPassword);
  }

  /** The only checkbox of the form is the minor flag; every other input is
      a text, date, e-mail or password input. */
  predicate IsCheckbox(id: FieldId) {
    id == IsMinor
  }

  /** A value fits a field when its kind matches the field's. */
  predicate Fits(id: FieldId, v: Value) {
    v.Flag? <==> id == IsMinor
  }

  /** `{ ...f, [id]: v }`. */
  function Put(f: FormData, id: FieldId, v: Value): (r: FormData)
    requires Fits(id, v)
    ensures Get(r, id) == v
    ensures forall g :: g != id ==> Get(r, g) == Get(f, g)
  {
    match id
    case FullName => f.(fullName := v.text)
    case DateOfBirth => f.(dateOfBirth := v.text)
    case Cpf => f.(cpf := v.text)
    case Landline => f.(landline := v.text)
    case CellPhone => f.(cellPhone := v.text)
    case IsMinor => f.(isMinor := v.flag)
    case FatherName => f.(fatherName := v.text)
    case MotherName => f.(motherName := v.text)
    case ZipCode => f.(zipCode := v.text)
    case Address => f.(address := v.text)
    case Number => f.(number := v.text)
    case AddOn => f.(addOn := v.text)
    case City => f.(city := v.text)
    case State => f.(state := v.text)
    case Email => f.(email := v.text)
    case Password => f.(password := v.text)
    case ConfirmPassword => f.(confirmPassword := v.text)
  }

  /** The `target` of a change event: the input's id, its text and, for the
      checkbox, whether it is ticked. */
  datatype ChangeEvent = ChangeEvent(id: FieldId, value: string, checked: bool)

  /** The text `handleChange` stores for a text input: the mask of the four
      masked fields, the raw value otherwise. */
  function MaskFor(id: FieldId, value: string): string {
    match id
    case ZipCode => Masks.FormatCep(value)
    case Cpf => Masks.FormatCpf(value)
    case Landline => Masks.FormatLandline(value)
    case CellPhone => Masks.FormatCellPhone(value)
    case _ => value
  }

  /** The age rule: this year minus the birth year, below eighteen.  An
      unparseable date (`None`) gives `NaN`, and `NaN < 18` is false. */
  predicate MinorAge(currentYear: int, birthYear: Option<int>) {
    birthYear.Some? && currentYear - birthYear.value < 18
  }

  /** `handleChange`.  `currentYear` is `new Date().getFullYear()` and
      `birthYear` is `new Date(value).getFullYear()`, `None` for an invalid
      date; both are read only when the date of birth changes.  The event's
      own entry is written first and the trailing `isMinor` entry then
      overrides it, so ticking the checkbox leaves the flag as it was. */
  function HandleChange(prev: FormData, ev: ChangeEvent, currentYear: int, birthYear: Option<int>): (r: FormData)
    ensures forall g :: g != ev.id && g != IsMinor ==> Get(r, g) == Get(prev, g)
    ensures ev.id == ZipCode ==> r.zipCode == Masks.FormatCep(ev.value)
    ensures ev.id == Cpf ==> r.cpf == Masks.FormatCpf(ev.value)
    ensures ev.id == Landline ==> r.landline == Masks.FormatLandline(ev.value)
    ensures ev.id == CellPhone ==> r.cellPhone == Masks.FormatCellPhone(ev.value)
    ensures ev.id !in {ZipCode, Cpf, Landline, CellPhone, IsMinor} ==> Get(r, ev.id) == Text(ev.value)
    ensures ev.id != IsMinor ==> Get(r, ev.id) == Text(MaskFor(ev.id, ev.value))
    ensures r.isMinor <==> if ev.id == DateOfBirth then MinorAge(currentYear, birthYear) else prev.isMinor
  {
    var written := if IsCheckbox(ev.id) then Flag(ev.checked) else Text(MaskFor(ev.id, ev.value));
    var next := Put(prev, ev.id, written);
    next.(isMinor := if ev.id == DateOfBirth then MinorAge(currentYear, birthYear) else prev.isMinor)
  }

  /** The minor checkbox cannot be toggled by the user: its change event
      leaves the whole state as it was. */
  lemma CheckboxIsInert(prev: FormData, value: string, checked: bool, currentYear: int, birthYear: Option<int>)
    ensures HandleChange(prev, ChangeEvent(IsMinor, value, checked), currentYear, birthYear) == prev
  {
  }

  /** Setting the date of birth decides the minor flag from the years alone,
      whatever the flag was before. */
  lemma DateOfBirthDecidesMinor(prev: FormData, value: string, currentYear: int, birthYear: int)
    ensures var r := HandleChange(prev, ChangeEvent(DateOfBirth, value, false), currentYear, Some(birthYear));
      r.isMinor <==> currentYear - birthYear < 18
  {
  }

  /** When a controlled input re-delivers the text it shows, `handleChange`
      changes nothing: the masks are idempotent. */
  lemma ReenteringShownTextIsNoop(prev: FormData, ev: ChangeEvent, currentYear: int, birthYear: Option<int>, checked: bool)
    requires ev.id != IsMinor
    ensures var r := HandleChange(prev, ev, currentYear, birthYear);
      HandleChange(r, ChangeEvent(ev.id, Get(r, ev.id).text, checked), currentYear, birthYear) == r
  {
    var r := HandleChange(prev, ev, currentYear, birthYear);
    var again := HandleChange(r, ChangeEvent(ev.id, Get(r, ev.id).text, checked), currentYear, birthYear);
    match ev.id {
      case ZipCode => Masks.FormatCepIdempotent(ev.value);
      case Cpf => Masks.FormatCpfIdempotent(ev.value);
      case Landline => Masks.FormatLandlineIdempotent(ev.value);
      case CellPhone => Masks.FormatCellPhoneIdempotent(ev.value);
      case _ =>
    }
    Extensionality(again, r);
  }

  /** The field written by the first edit keeps the first edit's text
      whichever edit comes second. */
  lemma EditedFieldSurvivesOtherEdit(
    f: FormData, e1: ChangeEvent, y1: Option<int>, e2: ChangeEvent, y2: Option<int>, currentYear: int)
    requires e1.id != e2.id && e1.id != IsMinor
    ensures Get(HandleChange(HandleChange(f, e1, currentYear, y1), e2, currentYear, y2), e1.id)
         == Text(MaskFor(e1.id, e1.value))
    ensures Get(HandleChange(HandleChange(f, e2, currentYear, y2), e1, currentYear, y1), e1.id)
         == Text(MaskFor(e1.id, e1.value))
  {
    var f1 := HandleChange(f, e1, currentYear, y1);
    assert Get(HandleChange(f1, e2, currentYear, y2), e1.id) == Get(f1, e1.id);
  }

  /** A field neither edit targets keeps its text in both orders. */
  lemma UneditedFieldIsKept(
    f: FormData, e1: ChangeEvent, y1: Option<int>, e2: ChangeEvent, y2: Option<int>, currentYear: int, g: FieldId)
    requires g != e1.id && g != e2.id && g != IsMinor
    ensures Get(HandleChange(HandleChange(f, e1, currentYear, y1), e2, currentYear, y2), g) == Get(f, g)
  {
    assert Get(HandleChange(f, e1, currentYear, y1), g) == Get(f, g);
  }

  /** One field of the two orders of applying edits to different inputs. */
  lemma ChangesCommuteAt(
    f: FormData, e1: ChangeEvent, y1: Option<int>, e2: ChangeEvent, y2: Option<int>, currentYear: int, g: FieldId)
    requires e1.id != e2.id
    ensures Get(HandleChange(HandleChange(f, e1, currentYear, y1), e2, currentYear, y2), g)
         == Get(HandleChange(HandleChange(f, e2, currentYear, y2), e1, currentYear, y1), g)
  {
    if g == IsMinor {
    } else if g == e1.id {
      EditedFieldSurvivesOtherEdit(f, e1, y1, e2, y2, currentYear);
    } else if g == e2.id {
      EditedFieldSurvivesOtherEdit(f, e2, y2, e1, y1, currentYear);
    } else {
      UneditedFieldIsKept(f, e1, y1, e2, y2, currentYear, g);
      UneditedFieldIsKept(f, e2, y2, e1, y1, currentYear, g);
    }
  }

  /** Edits of two different inputs do not interfere: applying them in
      either order gives the same state. */
  lemma ChangesOfDistinctFieldsCommute(
    f: FormData, e1: ChangeEvent, y1: Option<int>, e2: ChangeEvent, y2: Option<int>, currentYear: int)
    requires e1.id != e2.id
    ensures HandleChange(HandleChange(f, e1, currentYear, y1), e2, currentYear, y2)
         == HandleChange(HandleChange(f, e2, currentYear, y2), e1, currentYear, y1)
  {
    var a := HandleChange(HandleChange(f, e1, currentYear, y1), e2, currentYear, y2);
    var b := HandleChange(HandleChange(f, e2, currentYear, y2), e1, currentYear, y1);
    forall g ensures Get(a, g) == Get(b, g) {
      ChangesCommuteAt(f, e1, y1, e2, y2, currentYear, g);
    }
    Extensionality(a, b);
  }
}
