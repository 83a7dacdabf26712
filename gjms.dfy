/** The application frame: the store it talks to, the session
    (`loggedInUsername`, `selectedJobIdToApply`), the card shown, and the
    contents of its tables and of the application form. Each event handler
    is a method that updates these fields in place; what the user types and
    answers arrives as parameters, and `dbOk == false` stands for a
    connection the store refused. Every method is proved to leave the fields
    as the matching function of `Session` says, so the rules proved there
    hold of the frame. */
module Frame {
  import opened Basics
  import opened Tables
  import opened Forms
  import opened Views
  import opened Session

  class Gjms {
    var db: Db
    var loggedIn: Option<string>
    var selectedJob: int
    var screen: Screen
    var jobTable: seq<Row<JobCells>>
    var appliedTable: seq<Row<AppliedCells>>
    var createdTable: seq<Row<CreatedCells>>
    var applyForm: ApplyForm
    /** The rows of the most recent applicants window. */
    var applicants: seq<Details>

    /** The fields, as one value. */
    function Snapshot(): State
      reads this
    {
      State(db, loggedIn, selectedJob, screen, jobTable, appliedTable, createdTable, applyForm, applicants)
    }

    ghost predicate Valid()
      reads this
    {
      Inv(Snapshot())
    }

    /** The frame opens on the home card with nobody signed in and no job
        selected. */
    constructor (store: Db)
      requires Tables.Valid(store)
      ensures Valid() && Snapshot() == Start(store)
    {
      db := store;
      loggedIn := None;
      selectedJob := 0;
      screen := Home;
      jobTable := [];
      appliedTable := [];
      createdTable := [];
      applyForm := BlankApplyForm;
      applicants := [];
    }

    method Press(b: Button)
      requires Valid() && screen == b.From()
      modifies this`screen
      ensures Valid() && Snapshot() == Session.Press(old(Snapshot()), b)
    {
      ButtonsKeepSide(b);
      screen := b.To();
    }

    /** `handleCreateAccount`: the form checks, then the insert; success
        returns to the home card without signing anybody in. */
    method HandleCreateAccount(username: string, password: string, rePassword: string, dbOk: bool)
      returns (notice: Notice)
      requires Valid() && screen == CreateAccount
      modifies this`db, this`screen
      ensures Valid()
      ensures Outcome(Snapshot(), notice) ==
                Session.HandleCreateAccount(old(Snapshot()), username, password, rePassword, dbOk)
    {
      CreateAccountRules(Snapshot(), username, password, rePassword, dbOk);
      var checked := CheckAccountForm(username, password, rePassword);
      if checked.Reject? {
        notice := checked.notice;
        return;
      }
      if !dbOk {
        notice := ConnectionFailed;
        return;
      }
      var acc := checked.value;
      match InsertUser(db, acc.name, acc.password)
      case None =>
        notice := UsernameTaken;
      case Some(d) =>
        db := d;
        notice := AccountCreated;
        screen := Home;
    }

    /** `handleLogin`: the lookup ignores letter case, then the stored name
        must equal the trimmed entry exactly and the password must match. */
    method HandleLogin(username: string, password: string, dbOk: bool) returns (notice: Notice)
      requires Valid()
      modifies this`loggedIn, this`screen
      ensures Valid()
      ensures Outcome(Snapshot(), notice) == Session.HandleLogin(old(Snapshot()), username, password, dbOk)
    {
      LoginRules(Snapshot(), username, password, dbOk);
      var name := Text.Trim(username);
      if name == [] || password == [] {
        notice := EnterCredentials;
        return;
      }
      if !dbOk {
        notice := ConnectionFailed;
        return;
      }
      notice := LoginVerdict(SelectUser(db.users, name), name, password);
      if notice == Silent {
        loggedIn := Some(name);
        screen := Dashboard;
      }
    }

    /** The logout button; the selected job is left as it was. */
    method HandleLogout()
      requires Valid()
      modifies this`loggedIn, this`screen
      ensures Valid() && Snapshot() == Session.HandleLogout(old(Snapshot()))
    {
      loggedIn := None;
      screen := Home;
    }

    /** A click in the job list: only the button column of a row whose id is
        positive selects a job, then opens the application form, blank for
        "Apply" and as `loadApplicationData` fills it for "APPLIED". */
    method ClickJobRow(row: int, onButton: bool, dbOk: bool)
      requires Valid() && screen == JobList
      modifies this`selectedJob, this`applyForm, this`screen
      ensures Valid() && Snapshot() == Session.ClickJobRow(old(Snapshot()), row, onButton, dbOk)
    {
      ClickRules(Snapshot(), row, onButton, dbOk);
      if !onButton || !(0 <= row < |jobTable|) {
        return;
      }
      var id := jobTable[row].Id();
      if id <= 0 {
        return;
      }
      selectedJob := id;
      if jobTable[row].cells.status == Apply {
        applyForm := BlankApplyForm;
        screen := ApplyJob;
      } else if dbOk {
        applyForm := LoadedForm(db, id, loggedIn.value);
        screen := ApplyJob;
      }
    }

    /** The user typing into the application form. */
    method EditApplyForm(form: ApplyForm)
      requires Valid()
      modifies this`applyForm
      ensures Valid() && Snapshot() == Session.EditApplyForm(old(Snapshot()), form)
    {
      applyForm := form;
    }

    /** `refreshJobListAndShow` */
    method RefreshJobList(dbOk: bool, failed: set<int>)
      requires Valid() && screen.SignedIn()
      modifies this`jobTable, this`screen
      ensures Valid() && Snapshot() == Session.RefreshJobList(old(Snapshot()), dbOk, failed)
    {
      if dbOk {
        jobTable := BuildJobList(db, loggedIn.value, failed);
        screen := JobList;
      }
    }

    /** `handleJobApplication`: the guards in order, then `REPLACE INTO`, a
        blank form and the refreshed job list. */
    method HandleJobApplication(dbOk: bool, failed: set<int>) returns (notice: Notice)
      requires Valid()
      modifies this`db, this`applyForm, this`screen, this`jobTable
      ensures Valid()
      ensures Outcome(Snapshot(), notice) == Session.HandleJobApplication(old(Snapshot()), dbOk, failed)
    {
      ghost var s0 := Snapshot();
      var checked := CheckApplication(selectedJob, loggedIn, applyForm);
      if checked.Reject? {
        notice := checked.notice;
        return;
      }
      if !dbOk {
        notice := ConnectionFailed;
        return;
      }
      var app := Application(selectedJob, loggedIn.value, checked.value);
      match ReplaceApplication(db, app)
      case None =>
        notice := ApplicationRejectedByStore;
      case Some(d) =>
        StoreApplicationKeepsInv(Snapshot(), checked.value, dbOk, failed);
        db := d;
        notice := ApplicationSubmitted;
        applyForm := BlankApplyForm;
        assert Snapshot() == s0.(db := d, applyForm := BlankApplyForm);
        RefreshJobList(true, failed);
    }

    /** The cancel button of the application form: a blank form and the
        refreshed job list; the selected job is left as it was. */
    method CancelApply(dbOk: bool, failed: set<int>)
      requires Valid() && screen == ApplyJob
      modifies this`applyForm, this`jobTable, this`screen
      ensures Valid() && Snapshot() == Session.CancelApply(old(Snapshot()), dbOk, failed)
    {
      applyForm := BlankApplyForm;
      RefreshJobList(dbOk, failed);
    }

    /** `handleCreateJob`: all seven trimmed fields filled, then the insert
        under the signed-in user's name. */
    method HandleCreateJob(form: JobFields, dbOk: bool) returns (notice: Notice)
      requires Valid() && screen == CreateJob
      modifies this`db, this`screen
      ensures Valid()
      ensures Outcome(Snapshot(), notice) == Session.HandleCreateJob(old(Snapshot()), form, dbOk)
    {
      CreateJobKeepsInv(Snapshot(), form, dbOk);
      var checked := CheckJobForm(form);
      if checked.Reject? {
        notice := checked.notice;
        return;
      }
      if !dbOk {
        notice := ConnectionFailed;
        return;
      }
      db := InsertPost(db, checked.value, loggedIn.value);
      notice := JobCreated;
      screen := Dashboard;
    }

    /** `refreshAppliedJobsAndShow` */
    method RefreshAppliedJobs(dbOk: bool)
      requires Valid() && screen.SignedIn()
      modifies this`appliedTable, this`screen
      ensures Valid() && Snapshot() == Session.RefreshAppliedJobs(old(Snapshot()), dbOk)
    {
      if dbOk {
        appliedTable := BuildAppliedList(db, loggedIn.value);
        screen := ViewApplied;
      }
    }

    /** `refreshCreatedJobsAndShow` */
    method RefreshCreatedJobs(dbOk: bool, failed: set<int>)
      requires Valid() && screen.SignedIn()
      modifies this`createdTable, this`screen
      ensures Valid() && Snapshot() == Session.RefreshCreatedJobs(old(Snapshot()), dbOk, failed)
    {
      if dbOk {
        createdTable := BuildCreatedList(db, loggedIn.value, failed);
        screen := ViewCreated;
      }
    }

    /** A double click on a row of the created-jobs table, then
        `showApplicantsForJob`. */
    method ShowApplicants(row: int, dbOk: bool) returns (notice: Notice)
      requires Valid() && screen == ViewCreated && -1 <= row < |createdTable|
      modifies this`applicants
      ensures Valid()
      ensures Outcome(Snapshot(), notice) == Session.ShowApplicants(old(Snapshot()), row, dbOk)
    {
      notice := Silent;
      if row == -1 || createdTable[row].Id() <= 0 {
        return;
      }
      if !dbOk {
        notice := ConnectionFailed;
        return;
      }
      var rows := BuildApplicants(db, createdTable[row].Id());
      if rows == [] {
        notice := NoApplicants;
      } else {
        applicants := rows;
      }
    }

    /** `handleDeleteJobPost`: the owner's delete with its applications, then
        the refreshed table; zero rows affected is reported. */
    method HandleDeleteJobPost(selected: int, confirm: bool, dbOk: bool, failed: set<int>)
      returns (notice: Notice)
      requires Valid() && screen == ViewCreated && -1 <= selected < |createdTable|
      modifies this`db, this`createdTable, this`screen
      ensures Valid()
      ensures Outcome(Snapshot(), notice) ==
                Session.HandleDeleteJobPost(old(Snapshot()), selected, confirm, dbOk, failed)
    {
      if selected == -1 {
        notice := NoJobPostSelected;
        return;
      }
      if !confirm {
        notice := Silent;
        return;
      }
      if !dbOk {
        notice := ConnectionFailed;
        return;
      }
      DeletePostsValid(db, NotPostOf(createdTable[selected].Id(), loggedIn.value));
      ghost var s0 := Snapshot();
      var result := DeleteJobPost(db, createdTable[selected].Id(), loggedIn.value);
      db := result.db;
      assert Snapshot() == s0.(db := result.db);
      if result.affected > 0 {
        notice := JobPostDeleted;
        RefreshCreatedJobs(true, failed);
      } else {
        notice := JobPostNotFound;
      }
    }

    /** `handleDeleteApplication`: withdraws the signed-in user's application
        to the selected job, then the refreshed table; zero rows affected is
        reported. */
    method HandleDeleteApplication(selected: int, confirm: bool, dbOk: bool) returns (notice: Notice)
      requires Valid() && screen == ViewApplied && -1 <= selected < |appliedTable|
      modifies this`db, this`appliedTable, this`screen
      ensures Valid()
      ensures Outcome(Snapshot(), notice) ==
                Session.HandleDeleteApplication(old(Snapshot()), selected, confirm, dbOk)
    {
      if selected == -1 {
        notice := NoApplicationSelected;
        return;
      }
      if !confirm {
        notice := Silent;
        return;
      }
      if !dbOk {
        notice := ConnectionFailed;
        return;
      }
      DeleteApplicationValid(db, appliedTable[selected].Id(), loggedIn.value);
      ghost var s0 := Snapshot();
      var result := DeleteApplication(db, appliedTable[selected].Id(), loggedIn.value);
      db := result.db;
      assert Snapshot() == s0.(db := result.db);
      if result.affected > 0 {
        notice := ApplicationWithdrawn;
        RefreshAppliedJobs(true);
      } else {
        notice := ApplicationNotFound;
      }
    }

    /** `handleDeleteAccount`: after confirmation, the three deletions as one
        committed unit, then signed out on the home card. */
    method HandleDeleteAccount(confirm: bool, dbOk: bool) returns (notice: Notice)
      requires Valid() && screen == Dashboard
      modifies this`db, this`loggedIn, this`screen
      ensures Valid()
      ensures Outcome(Snapshot(), notice) == Session.HandleDeleteAccount(old(Snapshot()), confirm, dbOk)
    {
      ghost var s0 := Snapshot();
      if !confirm {
        notice := Silent;
        return;
      }
      if !dbOk {
        notice := ConnectionFailed;
        return;
      }
      var user := loggedIn.value;
      DeleteAccountValid(db, user);
      db := DeleteAccount(db, user);
      notice := AccountDeleted;
      loggedIn := None;
      screen := Home;
      assert Snapshot() == s0.(db := db, loggedIn := None, screen := Home);
    }
  }
}
