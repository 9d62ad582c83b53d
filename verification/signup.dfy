/** The sign-up form (src/pages/Cadastro.tsx): the password confirmation
    check, the field rules of the form's schema with the message the page
    shows for the first broken rule, and the normalised payload handed to
    the authentication service. The schema's e-mail test is a parameter. */
module Signup {
  import opened Wrappers
  import opened Decimal
  import opened Text

  datatype SignupForm = SignupForm(
    fullName: string,
    email: string,
    phone: string,
    password: string,
    confirmPassword: string,
    vehicleModel: string,
    vehicleColor: string,
    vehiclePlate: string)

  /** The schema's keys, in declaration order. */
  datatype Field = FullName | Email | Phone | Password | VehicleModel | VehicleColor | VehiclePlate

  datatype Issue = Issue(field: Field, message: string)

  const NameTooShort: string := "Nome deve ter pelo menos 2 caracteres"
  const EmailInvalid: string := "Email inválido"
  const PhoneTooShort: string := "Telefone deve ter pelo menos 10 dígitos"
  const PasswordTooShort: string := "Senha deve ter pelo menos 6 caracteres"
  const ModelMissing: string := "Informe o modelo do veículo"
  const ColorMissing: string := "Informe a cor do veículo"
  const PlateInvalid: string := "Placa inválida"

  /** The schema library's own message for a maximum without a custom one. */
  function TooLong(max: nat): (m: string)
    ensures |m| > 28 && m[..28] == "String must contain at most "
  {
    "String must contain at most " + NatToString(max) + " character(s)"
  }

  /** A minimum length with its own message. */
  function AtLeast(f: Field, v: string, min: nat, message: string): (issues: seq<Issue>)
    ensures issues == [] <==> min <= |v|
    ensures issues != [] ==> issues == [Issue(f, message)]
  {
    if |v| < min then [Issue(f, message)] else []
  }

  /** A maximum length with the library's message. */
  function AtMost(f: Field, v: string, max: nat): (issues: seq<Issue>)
    ensures issues == [] <==> |v| <= max
    ensures issues != [] ==> issues == [Issue(f, TooLong(max))]
  {
    if |v| > max then [Issue(f, TooLong(max))] else []
  }

  /** A minimum and a maximum length, checked in that order; each broken
      bound is one issue. */
  function Bounds(f: Field, v: string, min: nat, minMessage: string, max: nat): (issues: seq<Issue>)
    ensures issues == [] <==> min <= |v| <= max
    ensures forall i | 0 <= i < |issues| :: issues[i].field == f
    ensures |v| < min ==> issues[0] == Issue(f, minMessage)
    ensures min <= |v| && |v| > max ==> issues == [Issue(f, TooLong(max))]
  {
    AtLeast(f, v, min, minMessage) + AtMost(f, v, max)
  }

  function FieldIssues(f: Field, form: SignupForm, isEmail: string -> bool): (issues: seq<Issue>)
    ensures forall i | 0 <= i < |issues| :: issues[i].field == f
  {
    match f
    case FullName => Bounds(FullName, Trim(form.fullName), 2, NameTooShort, 100)
    case Email =>
      var e := Trim(form.email);
      (if isEmail(e) then [] else [Issue(Email, EmailInvalid)]) + AtMost(Email, e, 255)
    case Phone =>
      // The first alternative's issues surface unless the text is exactly
      // empty, which the second alternative accepts.
      if form.phone == "" then [] else Bounds(Phone, Trim(form.phone), 10, PhoneTooShort, 20)
    case Password => AtLeast(Password, form.password, 6, PasswordTooShort)
    case VehicleModel => Bounds(VehicleModel, Trim(form.vehicleModel), 1, ModelMissing, 100)
    case VehicleColor => Bounds(VehicleColor, Trim(form.vehicleColor), 1, ColorMissing, 50)
    case VehiclePlate => Bounds(VehiclePlate, Trim(form.vehiclePlate), 7, PlateInvalid, 10)
  }

  const FieldOrder: seq<Field> := [FullName, Email, Phone, Password, VehicleModel, VehicleColor, VehiclePlate]

  /** The issues `check` reports for the given fields, field after field. */
  function IssuesOf(fields: seq<Field>, check: Field -> seq<Issue>): seq<Issue> {
    if |fields| == 0 then [] else check(fields[0]) + IssuesOf(fields[1..], check)
  }

  /** Every field is checked, in schema order, and all issues are kept. */
  function Issues(form: SignupForm, isEmail: string -> bool): seq<Issue> {
    IssuesOf(FieldOrder, (f: Field) => FieldIssues(f, form, isEmail))
  }

  /** No issue at all exactly when no field has one. */
  lemma {:induction false} NoIssuesIff(fields: seq<Field>, check: Field -> seq<Issue>)
    ensures IssuesOf(fields, check) == [] <==> forall j | 0 <= j < |fields| :: check(fields[j]) == []
    decreases |fields|
  {
    if |fields| > 0 {
      NoIssuesIff(fields[1..], check);
      assert forall j | 1 <= j < |fields| :: fields[j] == fields[1..][j - 1];
    }
  }

  /** The first issue belongs to the first field that has one. */
  lemma {:induction false} FirstIssueOf(fields: seq<Field>, check: Field -> seq<Issue>, k: nat)
    requires k < |fields|
    requires check(fields[k]) != []
    requires forall j | 0 <= j < k :: check(fields[j]) == []
    ensures IssuesOf(fields, check) != []
    ensures IssuesOf(fields, check)[0] == check(fields[k])[0]
    decreases k
  {
    if k > 0 {
      var rest := fields[1..];
      assert rest[k - 1] == fields[k];
      forall j | 0 <= j < k - 1
        ensures check(rest[j]) == []
      {
        assert rest[j] == fields[j + 1];
      }
      FirstIssueOf(rest, check, k - 1);
    }
  }

  /** What the account is created with. */
  datatype Payload = Payload(
    email: string,
    password: string,
    fullName: string,
    phone: Option<string>,
    vehicleModel: string,
    vehicleColor: string,
    vehiclePlate: string)

  datatype SignupOutcome =
    /** "As senhas não coincidem." */
    | PasswordMismatch
    /** The first issue's message, shown in a toast. */
    | Invalid(message: string)
    | SignUp(payload: Payload)

  /** The submit handler up to the sign-up request. */
  function Submit(form: SignupForm, isEmail: string -> bool): (r: SignupOutcome)
    ensures r.PasswordMismatch? <==> form.password != form.confirmPassword
    ensures r.Invalid? <==> form.password == form.confirmPassword && Issues(form, isEmail) != []
    ensures r.Invalid? ==> r.message == Issues(form, isEmail)[0].message
  {
    if form.password != form.confirmPassword then PasswordMismatch
    else
      var issues := Issues(form, isEmail);
      if issues != [] then Invalid(issues[0].message)
      else
        var phone := Trim(form.phone);
        SignUp(Payload(
          Trim(form.email),
          form.password,
          Trim(form.fullName),
          if phone == "" then None else Some(phone),
          Trim(form.vehicleModel),
          Trim(form.vehicleColor),
          ToUpper(Trim(form.vehiclePlate))))
  }

  /** The bounds each field must meet. */
  predicate WithinBounds(f: Field, form: SignupForm, isEmail: string -> bool) {
    match f
    case FullName => 2 <= |Trim(form.fullName)| <= 100
    case Email => isEmail(Trim(form.email)) && |Trim(form.email)| <= 255
    case Phone => form.phone == "" || 10 <= |Trim(form.phone)| <= 20
    case Password => 6 <= |form.password|
    case VehicleModel => 1 <= |Trim(form.vehicleModel)| <= 100
    case VehicleColor => 1 <= |Trim(form.vehicleColor)| <= 50
    case VehiclePlate => 7 <= |Trim(form.vehiclePlate)| <= 10
  }

  /** One field passes exactly when it is within its bounds. */
  lemma FieldAccepted(f: Field, form: SignupForm, isEmail: string -> bool)
    ensures FieldIssues(f, form, isEmail) == [] <==> WithinBounds(f, form, isEmail)
  {
  }

  /** Every field is checked. */
  lemma FieldOrderComplete(f: Field)
    ensures exists j | 0 <= j < |FieldOrder| :: FieldOrder[j] == f
  {
    match f
    case FullName => assert FieldOrder[0] == f;
    case Email => assert FieldOrder[1] == f;
    case Phone => assert FieldOrder[2] == f;
    case Password => assert FieldOrder[3] == f;
    case VehicleModel => assert FieldOrder[4] == f;
    case VehicleColor => assert FieldOrder[5] == f;
    case VehiclePlate => assert FieldOrder[6] == f;
  }

  /** The schema accepts a form exactly when every field is within its
      bounds. */
  lemma AcceptedIff(form: SignupForm, isEmail: string -> bool)
    ensures Issues(form, isEmail) == [] <==> forall f: Field :: WithinBounds(f, form, isEmail)
  {
    NoIssuesIff(FieldOrder, (f: Field) => FieldIssues(f, form, isEmail));
    if Issues(form, isEmail) == [] {
      forall f: Field
        ensures WithinBounds(f, form, isEmail)
      {
        FieldOrderComplete(f);
        var j :| 0 <= j < |FieldOrder| && FieldOrder[j] == f;
        FieldAccepted(f, form, isEmail);
      }
    }
    if forall f: Field :: WithinBounds(f, form, isEmail) {
      forall j | 0 <= j < |FieldOrder|
        ensures FieldIssues(FieldOrder[j], form, isEmail) == []
      {
        FieldAccepted(FieldOrder[j], form, isEmail);
      }
    }
  }

  /** The payload is the trimmed form: the phone is absent exactly when the
      field was left empty, the plate is upper-cased, the password is passed
      as typed, and every length is within its bounds. */
  lemma PayloadNormalised(form: SignupForm, isEmail: string -> bool)
    requires Submit(form, isEmail).SignUp?
    ensures var p := Submit(form, isEmail).payload;
      && p.email == Trim(form.email) && isEmail(p.email)
      && p.fullName == Trim(form.fullName) && 2 <= |p.fullName| <= 100
      && p.password == form.password == form.confirmPassword
      && (p.phone.None? <==> form.phone == "")
      && (p.phone.Some? ==> p.phone.value == Trim(form.phone) && 10 <= |p.phone.value| <= 20)
      && p.vehicleModel == Trim(form.vehicleModel) && p.vehicleColor == Trim(form.vehicleColor)
      && |p.vehiclePlate| == |Trim(form.vehiclePlate)| && 7 <= |p.vehiclePlate| <= 10
      && (forall i | 0 <= i < |p.vehiclePlate| :: p.vehiclePlate[i] == UpperChar(Trim(form.vehiclePlate)[i]))
  {
    AcceptedIff(form, isEmail);
    assert WithinBounds(FullName, form, isEmail) && WithinBounds(Email, form, isEmail);
    assert WithinBounds(Phone, form, isEmail) && WithinBounds(VehiclePlate, form, isEmail);
    var phone := Trim(form.phone);
    var plate := Trim(form.vehiclePlate);
    var p := Submit(form, isEmail).payload;
    assert p.phone == if phone == "" then None else Some(phone);
    assert p.vehiclePlate == ToUpper(plate);
    if form.phone == "" {
      assert phone == "";
    } else {
      assert 10 <= |phone|;
    }
  }

  /** The message shown is the first broken rule of the first field, in
      schema order, that breaks one. */
  lemma FirstIssueShown(form: SignupForm, isEmail: string -> bool, k: nat)
    requires form.password == form.confirmPassword
    requires k < |FieldOrder|
    requires FieldIssues(FieldOrder[k], form, isEmail) != []
    requires forall j | 0 <= j < k :: FieldIssues(FieldOrder[j], form, isEmail) == []
    ensures Submit(form, isEmail) == Invalid(FieldIssues(FieldOrder[k], form, isEmail)[0].message)
  {
    FirstIssueOf(FieldOrder, (f: Field) => FieldIssues(f, form, isEmail), k);
  }

  /** A mismatched confirmation wins over every schema issue, and a blank
      form shows the name rule first. */
  lemma MismatchFirst(isEmail: string -> bool)
    ensures Submit(SignupForm("", "", "", "a", "b", "", "", ""), isEmail) == PasswordMismatch
    ensures Submit(SignupForm("", "", "", "", "", "", "", ""), isEmail) == Invalid(NameTooShort)
  {
    assert Trim("") == "";
    FirstIssueShown(SignupForm("", "", "", "", "", "", "", ""), isEmail, 0);
  }

  /** The two maxima spelled out. */
  lemma SpelledBounds()
    ensures NatToString(20) == "20" && NatToString(255) == "255"
  {
    assert NatToString(2) == "2";
    assert NatToString(25) == "25";
  }

  /** The library's maximum message spells the bound in decimal. */
  lemma TooLongMessages()
    ensures TooLong(20) == "String must contain at most 20 character(s)"
    ensures TooLong(255) == "String must contain at most 255 character(s)"
  {
    SpelledBounds();
  }

  /** A phone of blanks is not the empty literal: it is trimmed to nothing
      and fails the minimum, while an empty phone passes. */
  lemma BlankPhoneRejected(form: SignupForm, isEmail: string -> bool)
    requires form.phone == "   "
    ensures FieldIssues(Phone, form, isEmail) == [Issue(Phone, PhoneTooShort)]
    ensures FieldIssues(Phone, form.(phone := ""), isEmail) == []
  {
    assert Trim("   ") == "" by {
      assert |TrimStart("   ")| == 0 by {
        assert TrimStart("   ") == TrimStart("  ") == TrimStart(" ") == TrimStart("");
      }
    }
  }
}
