/** What each event handler of the frame does, as a function from the
    frame's state before the event to its state after it and the dialog it
    shows. The frame's methods are proved to update their fields exactly as
    these functions say; the rules the handlers promise are lemmas about the
    functions. */
module Session {
  import opened Basics
  import opened Text
  import opened Tables
  import opened Forms
  import opened Views

  /** The cards of the frame's `CardLayout`. */
  datatype Screen =
    | Home | CreateAccount | Login | Dashboard | JobList | ApplyJob | CreateJob | ViewApplied | ViewCreated
  {
    /** The cards reachable only with a user signed in. */
    predicate SignedIn() {
      !(this == Home || this == CreateAccount || this == Login)
    }
  }

  /** The buttons that only switch cards (and clear the text fields of the
      card they leave or open, which the model does not track). */
  datatype Button =
    | OpenLogin | OpenCreateAccount | LoginBack | CreateAccountBack
    | OpenCreateJob | JobListBack | CreateJobBack | AppliedBack | CreatedBack
  {
    function From(): Screen {
      match this
      case OpenLogin => Home
      case OpenCreateAccount => Home
      case LoginBack => Login
      case CreateAccountBack => CreateAccount
      case OpenCreateJob => Dashboard
      case JobListBack => JobList
      case CreateJobBack => CreateJob
      case AppliedBack => ViewApplied
      case CreatedBack => ViewCreated
    }

    function To(): Screen {
      match this
      case OpenLogin => Login
      case OpenCreateAccount => CreateAccount
      case LoginBack => Home
      case CreateAccountBack => Home
      case OpenCreateJob => CreateJob
      case JobListBack => Dashboard
      case CreateJobBack => Dashboard
      case AppliedBack => Dashboard
      case CreatedBack => Dashboard
    }
  }

  /** The frame's state: the store, the session (`loggedInUsername`,
      `selectedJobIdToApply`), the card shown, the rows of its three tables,
      the application form's fields and the rows of the latest applicants
      window. */
  datatype State = State(
    db: Db,
    loggedIn: Option<string>,
    selectedJob: int,
    screen: Screen,
    jobTable: seq<Row<JobCells>>,
    appliedTable: seq<Row<AppliedCells>>,
    createdTable: seq<Row<CreatedCells>>,
    applyForm: ApplyForm,
    applicants: seq<Details>)

  /** A handler's effect: the new state and the dialog shown. */
  datatype Outcome = Outcome(state: State, notice: Notice)

  /** The store keeps its constraints, a user is signed in exactly on the
      signed-in cards, and the signed-in user has an account. */
  ghost predicate Inv(s: State) {
    && Tables.Valid(s.db)
    && (s.loggedIn.Some? <==> s.screen.SignedIn())
    && (s.loggedIn.Some? ==> s.loggedIn.value in Names(s.db.users))
  }

  /** The frame as it opens: home card, nobody signed in, no job selected
      (`selectedJobIdToApply` starts at Java's default 0). */
  function Start(db: Db): (s: State)
    ensures Tables.Valid(db) ==> Inv(s)
  {
    State(db, None, 0, Home, [], [], [], BlankApplyForm, [])
  }

  // ---------------------------------------------------------------------
  // The handlers
  // ---------------------------------------------------------------------

  function Press(s: State, b: Button): (r: State)
    requires s.screen == b.From()
    ensures r.screen == b.To() && r.screen.SignedIn() == s.screen.SignedIn()
    ensures r.db == s.db && r.loggedIn == s.loggedIn && r.selectedJob == s.selectedJob
  {
    s.(screen := b.To())
  }

  /** `handleCreateAccount` */
  function HandleCreateAccount(s: State, username: string, password: string, rePassword: string, dbOk: bool): (o: Outcome)
    ensures o.state.loggedIn == s.loggedIn
    ensures o.state.db.posts == s.db.posts && o.state.db.apps == s.db.apps
    ensures o.notice == AccountCreated <==> o.state != s
  {
    match CheckAccountForm(username, password, rePassword)
    case Reject(n) => Outcome(s, n)
    case Pass(acc) =>
      if !dbOk then Outcome(s, ConnectionFailed)
      else match InsertUser(s.db, acc.name, acc.password)
        case None => Outcome(s, UsernameTaken)
        case Some(db) => Outcome(s.(db := db, screen := Home), AccountCreated)
  }

  /** `handleLogin` */
  function HandleLogin(s: State, username: string, password: string, dbOk: bool): (o: Outcome)
    ensures o.state.db == s.db
    ensures o.state != s ==> o.notice == Silent && o.state.loggedIn == Some(Trim(username)) && o.state.screen == Dashboard
  {
    var name := Trim(username);
    if name == [] || password == [] then Outcome(s, EnterCredentials)
    else if !dbOk then Outcome(s, ConnectionFailed)
    else
      var verdict := LoginVerdict(SelectUser(s.db.users, name), name, password);
      if verdict == Silent then Outcome(s.(loggedIn := Some(name), screen := Dashboard), Silent)
      else Outcome(s, verdict)
  }

  /** The logout button. */
  function HandleLogout(s: State): (r: State)
    ensures r.loggedIn.None? && r.screen == Home
    ensures r.db == s.db && r.selectedJob == s.selectedJob
  {
    s.(loggedIn := None, screen := Home)
  }

  /** The application form as `loadApplicationData` leaves it: the fields of
      the stored application, or blank when the lookup finds none. */
  function LoadedForm(db: Db, jobId: int, user: string): (f: ApplyForm)
    ensures (forall a :: a in db.apps ==> !(a.jobId == jobId && NameEq(a.username, user))) ==> f == BlankApplyForm
    ensures (exists a :: a in db.apps && a.jobId == jobId && NameEq(a.username, user)) ==>
              exists a :: a in db.apps && a.jobId == jobId && NameEq(a.username, user) && f == Prefill(a.details)
  {
    var found := SelectApplication(db, jobId, user);
    if found == [] then BlankApplyForm else Prefill(found[0].details)
  }

  /** Opening an applied job shows the user's stored application, and
      submitting it unedited stores the same details. */
  lemma LoadedFormIsStored(db: Db, a: Application)
    requires Tables.Valid(db) && a in db.apps && a.username in Names(db.users)
    ensures LoadedForm(db, a.jobId, a.username) == Prefill(a.details)
    ensures a.jobId > 0 && a.username != [] && Submittable(a.details) ==>
              CheckApplication(a.jobId, Some(a.username), LoadedForm(db, a.jobId, a.username)) == Pass(a.details)
  {
    SelectApplicationExact(db, a.jobId, a.username);
    if a.jobId > 0 && a.username != [] && Submittable(a.details) {
      PrefillResubmits(a.jobId, a.username, a.details);
    }
  }

  /** A click in the job list at `row`, on the button column or not. */
  function ClickJobRow(s: State, row: int, onButton: bool, dbOk: bool): (r: State)
    requires s.loggedIn.Some?
    ensures r.db == s.db && r.loggedIn == s.loggedIn
    ensures r != s ==> onButton && 0 <= row < |s.jobTable| && r.selectedJob == s.jobTable[row].Id() > 0
  {
    if !onButton || !(0 <= row < |s.jobTable|) || s.jobTable[row].Id() <= 0 then s
    else
      var id := s.jobTable[row].Id();
      if s.jobTable[row].cells.status == Apply then
        s.(selectedJob := id, applyForm := BlankApplyForm, screen := ApplyJob)
      else if dbOk then
        s.(selectedJob := id, applyForm := LoadedForm(s.db, id, s.loggedIn.value), screen := ApplyJob)
      else
        s.(selectedJob := id)
  }

  /** The user typing into the application form. */
  function EditApplyForm(s: State, form: ApplyForm): State {
    s.(applyForm := form)
  }

  /** `refreshJobListAndShow` */
  function RefreshJobList(s: State, dbOk: bool, failed: set<int>): (r: State)
    requires s.loggedIn.Some?
    ensures !dbOk ==> r == s
    ensures dbOk ==> r == s.(jobTable := r.jobTable, screen := JobList) && |r.jobTable| >= |s.db.posts|
  {
    if dbOk then s.(jobTable := JobListing(s.db, s.loggedIn.value, failed), screen := JobList) else s
  }

  /** `handleJobApplication` */
  function HandleJobApplication(s: State, dbOk: bool, failed: set<int>): (o: Outcome)
    ensures o.notice == ApplicationSubmitted <==>
              CheckApplication(s.selectedJob, s.loggedIn, s.applyForm).Pass? && dbOk && s.selectedJob in PostIds(s.db.posts)
    ensures o.notice != ApplicationSubmitted ==> o.state == s
    ensures o.state.loggedIn == s.loggedIn && o.state.selectedJob == s.selectedJob
  {
    match CheckApplication(s.selectedJob, s.loggedIn, s.applyForm)
    case Reject(n) => Outcome(s, n)
    case Pass(details) => StoreApplication(s, details, dbOk, failed)
  }

  /** The part of `handleJobApplication` after the checks: the `REPLACE
      INTO`, then a blank form and the refreshed job list. */
  function StoreApplication(s: State, details: Details, dbOk: bool, failed: set<int>): (o: Outcome)
    requires s.loggedIn.Some?
    ensures o.notice == ApplicationSubmitted <==> dbOk && s.selectedJob in PostIds(s.db.posts)
    ensures o.notice != ApplicationSubmitted ==> o.state == s
    ensures o.notice == ApplicationSubmitted ==> o.state.applyForm == BlankApplyForm && o.state.screen == JobList
    ensures o.state.loggedIn == s.loggedIn && o.state.selectedJob == s.selectedJob
  {
    if !dbOk then Outcome(s, ConnectionFailed)
    else match ReplaceApplication(s.db, Application(s.selectedJob, s.loggedIn.value, details))
      case None => Outcome(s, ApplicationRejectedByStore)
      case Some(db) =>
        Outcome(RefreshJobList(s.(db := db, applyForm := BlankApplyForm), true, failed), ApplicationSubmitted)
  }

  /** The cancel button of the application form. */
  function CancelApply(s: State, dbOk: bool, failed: set<int>): (r: State)
    requires s.loggedIn.Some?
    ensures r.applyForm == BlankApplyForm && r.db == s.db && r.selectedJob == s.selectedJob
    ensures dbOk ==> r.screen == JobList
  {
    RefreshJobList(s.(applyForm := BlankApplyForm), dbOk, failed)
  }

  /** `handleCreateJob` */
  function HandleCreateJob(s: State, form: JobFields, dbOk: bool): (o: Outcome)
    requires s.loggedIn.Some?
    ensures o.notice == JobCreated <==> CheckJobForm(form).Pass? && dbOk
    ensures o.notice != JobCreated ==> o.state == s
    ensures o.state.db.users == s.db.users && o.state.db.apps == s.db.apps
  {
    match CheckJobForm(form)
    case Reject(n) => Outcome(s, n)
    case Pass(fields) =>
      if !dbOk then Outcome(s, ConnectionFailed)
      else Outcome(s.(db := InsertPost(s.db, fields, s.loggedIn.value), screen := Dashboard), JobCreated)
  }

  /** `refreshAppliedJobsAndShow` */
  function RefreshAppliedJobs(s: State, dbOk: bool): (r: State)
    requires s.loggedIn.Some?
    ensures !dbOk ==> r == s
    ensures dbOk ==> r == s.(appliedTable := r.appliedTable, screen := ViewApplied) && r.appliedTable != []
  {
    if dbOk then s.(appliedTable := AppliedListing(s.db, s.loggedIn.value), screen := ViewApplied) else s
  }

  /** `refreshCreatedJobsAndShow` */
  function RefreshCreatedJobs(s: State, dbOk: bool, failed: set<int>): (r: State)
    requires s.loggedIn.Some?
    ensures !dbOk ==> r == s
    ensures dbOk ==> r == s.(createdTable := r.createdTable, screen := ViewCreated) && r.createdTable != []
  {
    if dbOk then s.(createdTable := CreatedListing(s.db, s.loggedIn.value, failed), screen := ViewCreated) else s
  }

  /** A double click on row `row` of the created-jobs table (-1: none
      selected), then `showApplicantsForJob`. */
  function ShowApplicants(s: State, row: int, dbOk: bool): (o: Outcome)
    requires -1 <= row < |s.createdTable|
    ensures o.state == s.(applicants := o.state.applicants)
    ensures o.state != s ==> row >= 0 && dbOk && o.notice == Silent && o.state.applicants != []
  {
    if row == -1 || s.createdTable[row].Id() <= 0 then Outcome(s, Silent)
    else if !dbOk then Outcome(s, ConnectionFailed)
    else
      var rows := ApplicantRows(s.db, s.createdTable[row].Id());
      if rows == [] then Outcome(s, NoApplicants) else Outcome(s.(applicants := rows), Silent)
  }

  /** `handleDeleteJobPost`, with row `selected` of the created-jobs table
      selected (-1: none) and the user's answer to the confirmation. */
  function HandleDeleteJobPost(s: State, selected: int, confirm: bool, dbOk: bool, failed: set<int>): (o: Outcome)
    requires s.loggedIn.Some? && -1 <= selected < |s.createdTable|
    ensures o.notice == JobPostDeleted ==> selected >= 0 && confirm && dbOk
    ensures o.notice !in {JobPostDeleted, JobPostNotFound} ==> o.state == s
    ensures o.state.db.users == s.db.users && o.state.loggedIn == s.loggedIn
  {
    if selected == -1 then Outcome(s, NoJobPostSelected)
    else if !confirm then Outcome(s, Silent)
    else if !dbOk then Outcome(s, ConnectionFailed)
    else
      var r := DeleteJobPost(s.db, s.createdTable[selected].Id(), s.loggedIn.value);
      if r.affected > 0 then Outcome(RefreshCreatedJobs(s.(db := r.db), true, failed), JobPostDeleted)
      else Outcome(s.(db := r.db), JobPostNotFound)
  }

  /** `handleDeleteApplication`, with row `selected` of the applied-jobs
      table selected (-1: none) and the user's answer to the confirmation. */
  function HandleDeleteApplication(s: State, selected: int, confirm: bool, dbOk: bool): (o: Outcome)
    requires s.loggedIn.Some? && -1 <= selected < |s.appliedTable|
    ensures o.notice == ApplicationWithdrawn ==> selected >= 0 && confirm && dbOk
    ensures o.notice !in {ApplicationWithdrawn, ApplicationNotFound} ==> o.state == s
    ensures o.state.db.users == s.db.users && o.state.db.posts == s.db.posts && o.state.loggedIn == s.loggedIn
  {
    if selected == -1 then Outcome(s, NoApplicationSelected)
    else if !confirm then Outcome(s, Silent)
    else if !dbOk then Outcome(s, ConnectionFailed)
    else
      var r := DeleteApplication(s.db, s.appliedTable[selected].Id(), s.loggedIn.value);
      if r.affected > 0 then Outcome(RefreshAppliedJobs(s.(db := r.db), true), ApplicationWithdrawn)
      else Outcome(s.(db := r.db), ApplicationNotFound)
  }

  /** `handleDeleteAccount`: the three deletions commit together or not at
      all. */
  function HandleDeleteAccount(s: State, confirm: bool, dbOk: bool): (o: Outcome)
    requires s.loggedIn.Some?
    ensures o.notice == AccountDeleted <==> confirm && dbOk
    ensures o.notice != AccountDeleted ==> o.state == s
    ensures o.notice == AccountDeleted ==> o.state.loggedIn.None? && o.state.screen == Home
  {
    if !confirm then Outcome(s, Silent)
    else if !dbOk then Outcome(s, ConnectionFailed)
    else Outcome(s.(db := DeleteAccount(s.db, s.loggedIn.value), loggedIn := None, screen := Home), AccountDeleted)
  }

  // ---------------------------------------------------------------------
  // What the handlers promise
  // ---------------------------------------------------------------------

  /** No plain navigation button crosses between the signed-out and the
      signed-in cards: only logging in, logging out and deleting the account
      do. */
  lemma ButtonsKeepSide(b: Button)
    ensures b.To().SignedIn() == b.From().SignedIn()
  {
  }

  /** Creating an account: the form is refused, or the name is taken, or
      exactly one account (trimmed name, password as typed) is added and
      the home card shown; nobody is signed in by it. */
  lemma CreateAccountRules(s: State, username: string, password: string, rePassword: string, dbOk: bool)
    requires Inv(s) && s.screen == CreateAccount
    ensures var o := HandleCreateAccount(s, username, password, rePassword, dbOk);
            var c := CheckAccountForm(username, password, rePassword);
            && Inv(o.state)
            && o.state.loggedIn == s.loggedIn && o.state.selectedJob == s.selectedJob
            && (c.Reject? ==> o == Outcome(s, c.notice))
            && (o.notice == ConnectionFailed <==> c.Pass? && !dbOk)
            && (o.notice == UsernameTaken <==>
                  c.Pass? && dbOk && exists a :: a in s.db.users && NameEq(a.name, Trim(username)))
            && (o.notice == AccountCreated <==>
                  c.Pass? && dbOk && forall a :: a in s.db.users ==> !NameEq(a.name, Trim(username)))
            && (o.notice == AccountCreated ==>
                  o.state == s.(db := s.db.(users := s.db.users + [Account(Trim(username), password)]), screen := Home))
            && (o.notice != AccountCreated ==> o.state == s)
  {
    var c := CheckAccountForm(username, password, rePassword);
    if c.Pass? && dbOk && InsertUser(s.db, c.value.name, c.value.password).Some? {
      InsertUserValid(s.db, c.value.name, c.value.password);
    }
  }

  /** Logging in succeeds exactly when the trimmed name and the password are
      a stored account, name in its stored letter case; then that user is
      signed in on the dashboard. Each failure has its own dialog and
      leaves the state as it was. */
  lemma LoginRules(s: State, username: string, password: string, dbOk: bool)
    requires Inv(s)
    ensures var o := HandleLogin(s, username, password, dbOk);
            var name := Trim(username);
            var entered := name != [] && password != [];
            && Inv(o.state)
            && (o.notice == Silent <==> entered && dbOk && Account(name, password) in s.db.users)
            && (o.notice == Silent ==> o.state == s.(loggedIn := Some(name), screen := Dashboard))
            && (o.notice != Silent ==> o.state == s)
            && (o.notice == EnterCredentials <==> !entered)
            && (o.notice == ConnectionFailed <==> entered && !dbOk)
            && (o.notice == UsernameCaseMismatch <==>
                  entered && dbOk && exists a :: a in s.db.users && NameEq(a.name, name) && a.name != name)
            && (o.notice == IncorrectPassword <==>
                  entered && dbOk && exists a :: a in s.db.users && a.name == name && a.password != password)
            && (o.notice == NoSuchAccount <==>
                  entered && dbOk && forall a :: a in s.db.users ==> !NameEq(a.name, name))
  {
    var name := Trim(username);
    if name != [] && password != [] && dbOk {
      var found := SelectUser(s.db.users, name);
      forall a | a in s.db.users && NameEq(a.name, name) ensures found == Some(a) {
        AccountUnique(s.db, found.value, a);
      }
      LoginAcceptsIff(s.db, name, password);
    }
  }

  /** Logging out signs the user out on the home card and leaves the store
      and the selected job alone. */
  lemma LogoutRules(s: State)
    requires Inv(s)
    ensures var t := HandleLogout(s);
            Inv(t) && t.loggedIn == None && t.screen == Home && t.db == s.db && t.selectedJob == s.selectedJob
  {
  }

  /** A click selects a job only through the button column of a row with a
      positive id; "Apply" opens a blank form and "APPLIED" the form filled
      from the user's stored application. Otherwise nothing changes. */
  lemma ClickRules(s: State, row: int, onButton: bool, dbOk: bool)
    requires Inv(s) && s.screen == JobList
    ensures var t := ClickJobRow(s, row, onButton, dbOk);
            var hit := onButton && 0 <= row < |s.jobTable| && s.jobTable[row].Id() > 0;
            && Inv(t)
            && t.db == s.db && t.loggedIn == s.loggedIn
            && (!hit ==> t == s)
            && (hit ==> t.selectedJob == s.jobTable[row].id > 0)
            && (hit && s.jobTable[row].cells.status == Apply ==>
                  t.applyForm == BlankApplyForm && t.screen == ApplyJob)
            && (hit && s.jobTable[row].cells.status == Applied && dbOk ==>
                  && t.screen == ApplyJob
                  && forall a :: a in s.db.apps && a.jobId == t.selectedJob && a.username == s.loggedIn.value ==>
                       t.applyForm == Prefill(a.details))
            && (hit && s.jobTable[row].cells.status == Applied && !dbOk ==>
                  t == s.(selectedJob := s.jobTable[row].id))
  {
    var t := ClickJobRow(s, row, onButton, dbOk);
    forall a | a in s.db.apps && a.jobId == t.selectedJob && a.username == s.loggedIn.value
      ensures (onButton && 0 <= row < |s.jobTable| && s.jobTable[row].Id() > 0
               && s.jobTable[row].cells.status == Applied && dbOk) ==> t.applyForm == Prefill(a.details)
    {
      SelectApplicationExact(s.db, a.jobId, a.username);
    }
  }

  /** Submitting the application: the guards in order refuse with nothing
      changed; otherwise `REPLACE INTO` leaves exactly one application for
      the selected job and the user, holding the submitted details, keeps
      every other application, and shows the refreshed job list with a
      blank form. The selected job stays selected. */
  lemma SubmitRules(s: State, dbOk: bool, failed: set<int>)
    requires Inv(s)
    ensures var o := HandleJobApplication(s, dbOk, failed);
            var c := CheckApplication(s.selectedJob, s.loggedIn, s.applyForm);
            && o.state.selectedJob == s.selectedJob && o.state.loggedIn == s.loggedIn
            && (c.Reject? ==> o == Outcome(s, c.notice))
            && (o.notice == ConnectionFailed <==> c.Pass? && !dbOk)
            && (o.notice == ApplicationRejectedByStore <==>
                  c.Pass? && dbOk && s.selectedJob !in PostIds(s.db.posts))
            && (o.notice == ApplicationSubmitted <==>
                  c.Pass? && dbOk && s.selectedJob in PostIds(s.db.posts))
            && (o.notice != ApplicationSubmitted ==> o.state == s)
            && (o.notice == ApplicationSubmitted ==>
                  var app := Application(s.selectedJob, s.loggedIn.value, c.value);
                  && SelectApplication(o.state.db, s.selectedJob, s.loggedIn.value) == [app]
                  && (forall b :: !SameKey(b, app) ==> (b in o.state.db.apps <==> b in s.db.apps))
                  && o.state.db.users == s.db.users && o.state.db.posts == s.db.posts
                  && o.state == s.(db := s.db.(apps := o.state.db.apps), applyForm := BlankApplyForm,
                                   jobTable := o.state.jobTable, screen := JobList)
                  && o.state.jobTable == JobListing(o.state.db, s.loggedIn.value, failed))
  {
    var c := CheckApplication(s.selectedJob, s.loggedIn, s.applyForm);
    if c.Pass? && dbOk {
      var app := Application(s.selectedJob, s.loggedIn.value, c.value);
      if ReplaceApplication(s.db, app).Some? {
        ReplaceLeavesOne(s.db, app);
      }
    }
  }

  /** Submitting keeps the store's constraints and the session consistent. */
  lemma SubmitKeepsInv(s: State, dbOk: bool, failed: set<int>)
    requires Inv(s)
    ensures Inv(HandleJobApplication(s, dbOk, failed).state)
  {
    match CheckApplication(s.selectedJob, s.loggedIn, s.applyForm)
    case Reject(_) =>
    case Pass(details) => StoreApplicationKeepsInv(s, details, dbOk, failed);
  }

  lemma StoreApplicationKeepsInv(s: State, details: Details, dbOk: bool, failed: set<int>)
    requires Inv(s) && s.loggedIn.Some?
    ensures Inv(StoreApplication(s, details, dbOk, failed).state)
  {
    var app := Application(s.selectedJob, s.loggedIn.value, details);
    if dbOk && ReplaceApplication(s.db, app).Some? {
      ReplaceApplicationValid(s.db, app);
    }
  }

  /** Submitting a second time for the same job, with whatever details the
      form then holds, succeeds as well and leaves the store as if only the
      second submission had been made: there is still one application,
      holding the latest details. */
  lemma ResubmitOverwrites(s: State, first: Details, latest: Details, failed: set<int>)
    requires Inv(s) && s.loggedIn.Some?
    requires StoreApplication(s, first, true, failed).notice == ApplicationSubmitted
    ensures var once := StoreApplication(s, first, true, failed).state;
            var twice := StoreApplication(once, latest, true, failed);
            && twice.notice == ApplicationSubmitted
            && twice.state.db == StoreApplication(s, latest, true, failed).state.db
            && SelectApplication(twice.state.db, s.selectedJob, s.loggedIn.value) ==
                 [Application(s.selectedJob, s.loggedIn.value, latest)]
  {
    var user := s.loggedIn.value;
    var app1 := Application(s.selectedJob, user, first);
    var app2 := Application(s.selectedJob, user, latest);
    var once := ReplaceApplication(s.db, app1).value;
    assert PostIds(once.posts) == PostIds(s.db.posts);
    ReplaceOverwrites(s.db, app1, app2);
    ReplaceApplicationValid(s.db, app1);
    ReplaceLeavesOne(once, app2);
  }

  /** Cancelling the application clears the form and keeps the selected
      job. */
  lemma CancelRules(s: State, dbOk: bool, failed: set<int>)
    requires Inv(s) && s.screen == ApplyJob
    ensures var t := CancelApply(s, dbOk, failed);
            && Inv(t) && t.applyForm == BlankApplyForm && t.selectedJob == s.selectedJob && t.db == s.db
            && (dbOk ==> t.screen == JobList && t.jobTable == JobListing(s.db, s.loggedIn.value, failed))
  {
  }

  /** Creating a job post: the form is refused, or one post with the trimmed
      fields is added under the signed-in user with a fresh positive id and
      the dashboard shown. */
  lemma CreateJobRules(s: State, form: JobFields, dbOk: bool)
    requires Inv(s) && s.screen == CreateJob
    ensures var o := HandleCreateJob(s, form, dbOk);
            && (CheckJobForm(form).Reject? ==> o == Outcome(s, FillJobFields))
            && (o.notice == ConnectionFailed <==> CheckJobForm(form).Pass? && !dbOk)
            && (o.notice == JobCreated <==> CheckJobForm(form).Pass? && dbOk)
            && (o.notice == JobCreated ==>
                  && o.state == s.(db := s.db.(posts := s.db.posts + [JobPost(s.db.nextId, TrimFields(form), s.loggedIn.value)],
                                               nextId := s.db.nextId + 1),
                                   screen := Dashboard)
                  && s.db.nextId > 0 && s.db.nextId !in PostIds(s.db.posts))
            && (o.notice != JobCreated ==> o.state == s)
  {
    if CheckJobForm(form).Pass? && dbOk {
      NewPostIdFresh(s.db, TrimFields(form), s.loggedIn.value);
    }
  }

  /** Creating a job post keeps the store's constraints and the session
      consistent. */
  lemma CreateJobKeepsInv(s: State, form: JobFields, dbOk: bool)
    requires Inv(s) && s.screen == CreateJob
    ensures Inv(HandleCreateJob(s, form, dbOk).state)
  {
    if CheckJobForm(form).Pass? && dbOk {
      InsertPostValid(s.db, TrimFields(form), s.loggedIn.value);
    }
  }

  /** The applicants window opens exactly for a real post that has
      applications, and then lists exactly their details. */
  lemma ShowApplicantsRules(s: State, row: int, dbOk: bool)
    requires Inv(s) && -1 <= row < |s.createdTable|
    ensures var o := ShowApplicants(s, row, dbOk);
            var posted := row >= 0 && s.createdTable[row].Id() > 0;
            && Inv(o.state)
            && o.state == s.(applicants := o.state.applicants)
            && (!posted ==> o == Outcome(s, Silent))
            && (posted && !dbOk ==> o == Outcome(s, ConnectionFailed))
            && (o.notice == NoApplicants <==>
                  posted && dbOk && CountApplications(s.db, s.createdTable[row].Id()) == 0)
            && (o.notice == NoApplicants ==> o.state == s)
            && (posted && dbOk && CountApplications(s.db, s.createdTable[row].Id()) > 0 ==>
                  && o == Outcome(s.(applicants := ApplicantRows(s.db, s.createdTable[row].Id())), Silent)
                  && |o.state.applicants| == CountApplications(s.db, s.createdTable[row].Id())
                  && forall d :: d in o.state.applicants <==>
                       exists a :: a in s.db.apps && a.jobId == s.createdTable[row].Id() && a.details == d)
  {
    if row >= 0 && dbOk {
      ApplicantRowsMatchCount(s.db, s.createdTable[row].Id());
    }
  }

  /** Deleting the selected job post: it goes, with its applications, only
      if the signed-in user created it; otherwise "not found" with nothing
      changed. */
  lemma DeleteJobPostRules(s: State, selected: int, confirm: bool, dbOk: bool, failed: set<int>)
    requires Inv(s) && s.screen == ViewCreated && -1 <= selected < |s.createdTable|
    ensures var o := HandleDeleteJobPost(s, selected, confirm, dbOk, failed);
            var id := if selected >= 0 then s.createdTable[selected].Id() else -1;
            var owned := exists p :: p in s.db.posts && p.id == id && p.creator == s.loggedIn.value;
            && Inv(o.state)
            && (o.notice == NoJobPostSelected <==> selected == -1)
            && (selected >= 0 && !confirm ==> o.notice == Silent)
            && (selected >= 0 && confirm && !dbOk ==> o.notice == ConnectionFailed)
            && (o.notice == JobPostDeleted <==> selected >= 0 && confirm && dbOk && owned)
            && (o.notice == JobPostNotFound <==> selected >= 0 && confirm && dbOk && !owned)
            && (o.notice != JobPostDeleted ==> o.state == s)
            && (o.notice == JobPostDeleted ==>
                  && (forall p :: p in o.state.db.posts <==> p in s.db.posts && p.id != id)
                  && (forall a :: a in o.state.db.apps <==> a in s.db.apps && a.jobId != id)
                  && o.state.db.users == s.db.users && o.state.db.nextId == s.db.nextId
                  && o.state == s.(db := o.state.db, createdTable := o.state.createdTable, screen := ViewCreated)
                  && o.state.createdTable == CreatedListing(o.state.db, s.loggedIn.value, failed))
  {
    if selected >= 0 && confirm && dbOk {
      var id := s.createdTable[selected].Id();
      var user := s.loggedIn.value;
      DeleteJobPostEffect(s.db, id, user);
      DeletePostsValid(s.db, NotPostOf(id, user));
      var r := DeleteJobPost(s.db, id, user);
      if r.affected > 0 {
        var q :| q in s.db.posts && q.id == id && q.creator == user;
        forall p | p in r.db.posts ensures p.id != id {
          var i :| 0 <= i < |s.db.posts| && s.db.posts[i] == p;
          var j :| 0 <= j < |s.db.posts| && s.db.posts[j] == q;
          if i < j {
            assert IdsIncrease(s.db.posts[i], s.db.posts[j]);
          } else if j < i {
            assert IdsIncrease(s.db.posts[j], s.db.posts[i]);
          }
        }
      }
    }
  }

  /** Withdrawing the selected application: exactly the user's application
      to that job goes; otherwise "not found" with nothing changed. */
  lemma DeleteApplicationRules(s: State, selected: int, confirm: bool, dbOk: bool)
    requires Inv(s) && s.screen == ViewApplied && -1 <= selected < |s.appliedTable|
    ensures var o := HandleDeleteApplication(s, selected, confirm, dbOk);
            var id := if selected >= 0 then s.appliedTable[selected].Id() else -1;
            var user := s.loggedIn.value;
            var applied := exists a :: a in s.db.apps && a.jobId == id && a.username == user;
            && Inv(o.state)
            && (o.notice == NoApplicationSelected <==> selected == -1)
            && (selected >= 0 && !confirm ==> o.notice == Silent)
            && (selected >= 0 && confirm && !dbOk ==> o.notice == ConnectionFailed)
            && (o.notice == ApplicationWithdrawn <==> selected >= 0 && confirm && dbOk && applied)
            && (o.notice == ApplicationNotFound <==> selected >= 0 && confirm && dbOk && !applied)
            && (o.notice != ApplicationWithdrawn ==> o.state == s)
            && (o.notice == ApplicationWithdrawn ==>
                  && (forall a :: a in o.state.db.apps <==> a in s.db.apps && !(a.jobId == id && a.username == user))
                  && o.state == s.(db := s.db.(apps := o.state.db.apps), appliedTable := o.state.appliedTable,
                                   screen := ViewApplied)
                  && o.state.appliedTable == AppliedListing(o.state.db, user))
  {
    if selected >= 0 && confirm && dbOk {
      var id := s.appliedTable[selected].Id();
      DeleteApplicationEffect(s.db, id, s.loggedIn.value);
      DeleteApplicationValid(s.db, id, s.loggedIn.value);
    }
  }

  /** Deleting the account after confirmation removes, together, the
      account, its applications, its job posts and every application to
      them, and leaves everybody else's rows; the user is then signed out
      on the home card. Refused or failed, nothing changes. */
  lemma DeleteAccountRules(s: State, confirm: bool, dbOk: bool)
    requires Inv(s) && s.screen == Dashboard
    ensures var o := HandleDeleteAccount(s, confirm, dbOk);
            var user := s.loggedIn.value;
            && Inv(o.state)
            && (!confirm ==> o.notice == Silent)
            && (confirm && !dbOk ==> o.notice == ConnectionFailed)
            && (o.notice == AccountDeleted <==> confirm && dbOk)
            && (o.notice != AccountDeleted ==> o.state == s)
            && (o.notice == AccountDeleted ==>
                  && (forall a :: a in o.state.db.users <==> a in s.db.users && a.name != user)
                  && (forall p :: p in o.state.db.posts <==> p in s.db.posts && p.creator != user)
                  && (forall a :: a in o.state.db.apps <==>
                        a in s.db.apps && a.username != user && a.jobId !in CreatedIds(s.db, user))
                  && o.state == s.(db := o.state.db, loggedIn := None, screen := Home)
                  && o.state.db.nextId == s.db.nextId)
  {
    if confirm && dbOk {
      DeleteAccountEffect(s.db, s.loggedIn.value);
    }
  }
}
