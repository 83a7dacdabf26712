/** The dialogs the handlers show, and the checks each form's fields go
    through before any statement reaches the store. */
module Forms {
  import opened Basics
  import opened Text
  import opened Tables

  /** The message dialog a handler ends with; `Silent` when it shows none. */
  datatype Notice =
    | Silent
    | ConnectionFailed
    // create account
    | FillAllFields | PasswordsDiffer | CredentialsTooShort | AccountCreated | UsernameTaken
    // log in
    | EnterCredentials | UsernameCaseMismatch | IncorrectPassword | NoSuchAccount
    // apply for a job
    | NoJobSelected | NotSignedIn | FillRequiredFields | AgeNotNumber | InvalidAge
    | ApplicationSubmitted | ApplicationRejectedByStore
    // create a job post
    | FillJobFields | JobCreated
    // created and applied jobs
    | NoApplicants | NoJobPostSelected | JobPostDeleted | JobPostNotFound
    | NoApplicationSelected | ApplicationWithdrawn | ApplicationNotFound
    // account
    | AccountDeleted

  /** The outcome of a form check: the values to store, or the dialog that
      rejects the form. */
  datatype Checked<T> = Pass(value: T) | Reject(notice: Notice)

  // ---------------------------------------------------------------------
  // Create account
  // ---------------------------------------------------------------------

  const MinPasswordLength := 8
  const MinUsernameLength := 6

  /** The checks of `handleCreateAccount`, in order: every field filled, the
      passwords equal, then the length bounds. Only the user name is
      trimmed; the passwords are taken as typed. */
  function CheckAccountForm(username: string, password: string, rePassword: string): (r: Checked<Account>)
    ensures r.Pass? <==>
              password == rePassword && |password| >= MinPasswordLength
              && |Trim(username)| >= MinUsernameLength
    ensures r.Pass? ==> r.value == Account(Trim(username), password)
    ensures r == Reject(FillAllFields) <==> Trim(username) == [] || password == [] || rePassword == []
    ensures r == Reject(PasswordsDiffer) <==>
              Trim(username) != [] && password != [] && rePassword != [] && password != rePassword
    ensures r.Reject? ==> r.notice in {FillAllFields, PasswordsDiffer, CredentialsTooShort}
  {
    var name := Trim(username);
    if name == [] || password == [] || rePassword == [] then Reject(FillAllFields)
    else if password != rePassword then Reject(PasswordsDiffer)
    else if |password| < MinPasswordLength || |name| < MinUsernameLength then Reject(CredentialsTooShort)
    else Pass(Account(name, password))
  }

  /** The username bound is six characters after trimming: five are
      refused, six are accepted (given an acceptable password). */
  lemma UsernameBoundary(username: string, password: string)
    requires Trim(username) == username && |password| >= MinPasswordLength
    ensures |username| == 5 ==> CheckAccountForm(username, password, password) == Reject(CredentialsTooShort)
    ensures |username| == 6 ==> CheckAccountForm(username, password, password) == Pass(Account(username, password))
  {
  }

  // ---------------------------------------------------------------------
  // Log in
  // ---------------------------------------------------------------------

  /** What the login handler concludes from the looked-up row: the three
      failures have three different dialogs, and success shows none. */
  function LoginVerdict(found: Option<Account>, name: string, password: string): (n: Notice)
    ensures n == Silent <==> found == Some(Account(name, password))
    ensures n == NoSuchAccount <==> found.None?
    ensures n == UsernameCaseMismatch <==> found.Some? && found.value.name != name
    ensures n == IncorrectPassword <==>
              found.Some? && found.value.name == name && found.value.password != password
  {
    match found
    case None => NoSuchAccount
    case Some(a) =>
      if a.name != name then UsernameCaseMismatch
      else if a.password == password then Silent
      else IncorrectPassword
  }

  // ---------------------------------------------------------------------
  // Apply for a job
  // ---------------------------------------------------------------------

  /** The five text fields of the application screen. */
  datatype ApplyForm = ApplyForm(fullName: string, age: string, contact: string, email: string, education: string)

  /** `clearApplyFields()` */
  const BlankApplyForm := ApplyForm("", "", "", "", "")

  /** The fields as `loadApplicationData` fills them from a stored row. */
  function Prefill(d: Details): ApplyForm {
    ApplyForm(d.fullName, Decimal(d.age), d.contact, d.email, d.education)
  }

  const MinAge := 17
  const MaxAge := 99

  predicate Blank(s: string) {
    Trim(s) == []
  }

  predicate AnyBlank(f: ApplyForm) {
    Blank(f.fullName) || Blank(f.age) || Blank(f.contact) || Blank(f.email) || Blank(f.education)
  }

  /** The details of a submission that passed every check: trimmed,
      non-empty text fields and an age in range. */
  predicate Submittable(d: Details) {
    && d.fullName != [] && Trim(d.fullName) == d.fullName
    && d.contact != [] && Trim(d.contact) == d.contact
    && d.email != [] && Trim(d.email) == d.email
    && d.education != [] && Trim(d.education) == d.education
    && MinAge <= d.age <= MaxAge
  }

  /** The guards of `handleJobApplication`, in the order the handler tests
      them: a job selected (positive id), a user signed in, every trimmed
      field filled, the age an integer, the age in 17..99. */
  function CheckApplication(selected: int, user: Option<string>, f: ApplyForm): (r: Checked<Details>)
    ensures r == Reject(NoJobSelected) <==> selected <= 0
    ensures r == Reject(NotSignedIn) <==> selected > 0 && (user.None? || user.value == [])
    ensures r == Reject(FillRequiredFields) <==>
              selected > 0 && user.Some? && user.value != [] && AnyBlank(f)
    ensures r == Reject(AgeNotNumber) <==>
              selected > 0 && user.Some? && user.value != [] && !AnyBlank(f)
              && ParseInt(Trim(f.age)).None?
    ensures r == Reject(InvalidAge) <==>
              selected > 0 && user.Some? && user.value != [] && !AnyBlank(f)
              && ParseInt(Trim(f.age)).Some? && !(MinAge <= ParseInt(Trim(f.age)).value <= MaxAge)
    ensures r.Pass? <==>
              selected > 0 && user.Some? && user.value != [] && !AnyBlank(f)
              && ParseInt(Trim(f.age)).Some? && MinAge <= ParseInt(Trim(f.age)).value <= MaxAge
    ensures r.Pass? ==> Submittable(r.value) && r.value.age == ParseInt(Trim(f.age)).value
    ensures r.Pass? ==> r.value.fullName == Trim(f.fullName) && r.value.contact == Trim(f.contact)
                        && r.value.email == Trim(f.email) && r.value.education == Trim(f.education)
  {
    if selected <= 0 then Reject(NoJobSelected)
    else if user.None? || user.value == [] then Reject(NotSignedIn)
    else if AnyBlank(f) then Reject(FillRequiredFields)
    else match ParseInt(Trim(f.age))
      case None => Reject(AgeNotNumber)
      case Some(age) =>
        if age <= 16 || age > 99 then Reject(InvalidAge)
        else
          TrimIdempotent(f.fullName);
          TrimIdempotent(f.contact);
          TrimIdempotent(f.email);
          TrimIdempotent(f.education);
          Pass(Details(Trim(f.fullName), age, Trim(f.contact), Trim(f.email), Trim(f.education)))
  }

  /** The age bound is 17..99: 16 is refused, 17 and 99 are accepted,
      100 is refused. */
  lemma AgeBoundary(selected: int, user: string, f: ApplyForm)
    requires selected > 0 && user != [] && !AnyBlank(f)
    requires ParseInt(Trim(f.age)).Some?
    ensures ParseInt(Trim(f.age)).value == 16 ==> CheckApplication(selected, Some(user), f) == Reject(InvalidAge)
    ensures ParseInt(Trim(f.age)).value == 17 ==> CheckApplication(selected, Some(user), f).Pass?
    ensures ParseInt(Trim(f.age)).value == 99 ==> CheckApplication(selected, Some(user), f).Pass?
    ensures ParseInt(Trim(f.age)).value == 100 ==> CheckApplication(selected, Some(user), f) == Reject(InvalidAge)
  {
  }

  /** Submitting the form exactly as `loadApplicationData` filled it from a
      stored application stores the same details again. */
  lemma PrefillResubmits(selected: int, user: string, d: Details)
    requires selected > 0 && user != [] && Submittable(d)
    ensures CheckApplication(selected, Some(user), Prefill(d)) == Pass(d)
  {
    var f := Prefill(d);
    DecimalTrimmed(d.age);
    ParseDecimal(d.age);
    assert Trim(f.age) == Decimal(d.age);
    assert Decimal(d.age) == NatDecimal(d.age);
    assert !AnyBlank(f);
  }

  // ---------------------------------------------------------------------
  // Create a job post
  // ---------------------------------------------------------------------

  function TrimFields(f: JobFields): JobFields {
    JobFields(Trim(f.title), Trim(f.description), Trim(f.employer), Trim(f.skills),
              Trim(f.location), Trim(f.contact), Trim(f.deadline))
  }

  /** The check of `handleCreateJob`: all seven fields, trimmed, must be
      non-empty; the trimmed values are what gets stored. */
  function CheckJobForm(f: JobFields): (r: Checked<JobFields>)
    ensures r.Pass? <==>
              !Blank(f.title) && !Blank(f.description) && !Blank(f.employer) && !Blank(f.skills)
              && !Blank(f.location) && !Blank(f.contact) && !Blank(f.deadline)
    ensures r.Reject? ==> r.notice == FillJobFields
    ensures r.Pass? ==> r.value == TrimFields(f)
  {
    var t := TrimFields(f);
    if t.title == [] || t.description == [] || t.employer == [] || t.skills == []
       || t.location == [] || t.contact == [] || t.deadline == []
    then Reject(FillJobFields)
    else Pass(t)
  }
}
