/** The customers service's registration schema as a validation function with
    per-field errors, and the shape of a stored customer account. */
module Customers {

  import opened Common

  /** A stored account. The balance is a float column in the database; no wallet
      arithmetic is part of this model, so it is carried as a plain value. */
  datatype Customer = Customer(
    id: int,
    fullName: string,
    username: string,
    passwordHash: string,
    age: int,
    address: string,
    gender: Option<string>,
    maritalStatus: Option<string>,
    walletBalance: real,
    role: string)

  /** A registration request body; `None` means the key was not sent. */
  datatype Registration = Registration(
    fullName: Option<string>,
    username: Option<string>,
    password: Option<string>,
    age: Option<int>,
    address: Option<string>,
    gender: Option<string>,
    maritalStatus: Option<string>)

  /** The schema fields an error can be reported under. */
  datatype Field = FullName | Username | Password | Age | Address | Gender | MaritalStatus

  const MinPasswordLength := 6
  const MinAge := 1
  const Genders: set<string> := {"Male", "Female", "Other"}
  const MaritalStatuses: set<string> := {"Single", "Married", "Divorced", "Widowed"}

  /** A required key: an error when absent or when its validator rejects the value. */
  predicate RequiredFails<T>(v: Option<T>, ok: T -> bool) {
    match v
    case None => true
    case Some(x) => !ok(x)
  }

  /** An optional key: an error only when present and rejected. */
  predicate OptionalFails<T>(v: Option<T>, ok: T -> bool) {
    match v
    case None => false
    case Some(x) => !ok(x)
  }

  /** Loading a registration: every field reported with an error. */
  function Errors(reg: Registration): (errs: set<Field>)
    ensures FullName in errs <==> reg.fullName.None? || reg.fullName.value == ""
    ensures Username in errs <==> reg.username.None? || reg.username.value == ""
    ensures Password in errs <==> reg.password.None? || |reg.password.value| < 6
    ensures Age in errs <==> reg.age.None? || reg.age.value <= 0
    ensures Address in errs <==> reg.address.None?
    ensures Gender in errs <==>
              reg.gender.Some? && reg.gender.value != "Male" && reg.gender.value != "Female"
              && reg.gender.value != "Other"
    ensures MaritalStatus in errs <==>
              reg.maritalStatus.Some? && reg.maritalStatus.value !in ["Single", "Married", "Divorced", "Widowed"]
  {
    (if RequiredFails(reg.fullName, (s: string) => |s| >= 1) then {FullName} else {})
    + (if RequiredFails(reg.username, (s: string) => |s| >= 1) then {Username} else {})
    + (if RequiredFails(reg.password, (s: string) => |s| >= MinPasswordLength) then {Password} else {})
    + (if RequiredFails(reg.age, (n: int) => n >= MinAge) then {Age} else {})
    + (if RequiredFails(reg.address, (s: string) => true) then {Address} else {})
    + (if OptionalFails(reg.gender, (s: string) => s in Genders) then {Gender} else {})
    + (if OptionalFails(reg.maritalStatus, (s: string) => s in MaritalStatuses) then {MaritalStatus} else {})
  }

  /** The registrations the schema admits, described positively. */
  predicate Admissible(reg: Registration) {
    && reg.fullName.Some? && reg.fullName.value != ""
    && reg.username.Some? && reg.username.value != ""
    && reg.password.Some? && |reg.password.value| >= 6
    && reg.age.Some? && reg.age.value >= 1
    && reg.address.Some?
    && (reg.gender.Some? ==> reg.gender.value in ["Male", "Female", "Other"])
    && (reg.maritalStatus.Some? ==> reg.maritalStatus.value in ["Single", "Married", "Divorced", "Widowed"])
  }

  /** A registration loads without error exactly when it is admissible. */
  lemma ErrorsEmptyIffAdmissible(reg: Registration)
    ensures Errors(reg) == {} <==> Admissible(reg)
  {
  }

  /** A complete registration from the service's tests is accepted. */
  lemma AcceptsTestRegistration()
    ensures Errors(Registration(Some("Jane Smith"), Some("janesmith"), Some("StrongPass!23"), Some(28),
                                Some("456 Elm St, Anytown, USA"), None, None)) == {}
  {
  }

  /** A negative age is reported under "age" and nowhere else. */
  lemma RejectsNegativeAge()
    ensures Errors(Registration(Some("Bob Johnson"), Some("bobjohnson"), Some("Pass123!"), Some(-5),
                                Some("789 Pine St, Anytown, USA"), None, None)) == {Age}
  {
  }

  /** Each absent required key is reported under its own name. */
  lemma ReportsEachMissingField()
    ensures Errors(Registration(None, Some("alicewilliams"), Some("AlicePass!23"), Some(32),
                                None, None, None)) == {FullName, Address}
  {
  }

  /** An empty username is reported under "username"; an empty address is accepted. */
  lemma EmptyUsernameButEmptyAddressFine()
    ensures Errors(Registration(Some("A"), Some(""), Some("secret"), Some(1), Some(""), Some("Other"), Some("Single")))
            == {Username}
  {
  }
}
