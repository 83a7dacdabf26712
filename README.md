# GJMS2 workflow model

A Dafny model of the workflow engine inside `GJMS2`, the job-marketplace frame. Users create accounts and log in. They browse job posts and apply to a job, re-submitting replaces the earlier application. They post jobs, look at the applicants to their own posts, withdraw applications, delete their posts, and delete their account.

The store has three tables:
- `users`, keyed on the user name, compared without regard to letter case (the default collation; see "## Left out");
- `job_posts`, with auto-increment ids;
- `job_applications`, unique on (`job_id`, `username`).

The session consists of `loggedInUsername`, `selectedJobIdToApply` and the card the frame shows.

Modules:

- `Basics`: `Option`, and `Filter`/`Count` (a `SELECT ... WHERE` and a `COUNT(*)` over a table held as a sequence) with their lemmas.
- `Text`:
  - Java's `String.trim()`;
  - the store's case-insensitive comparison of user names (ASCII letter case);
  - `Integer.parseInt` and `String.valueOf(int)`, and the round trip between them.
- `Tables`:
  - the rows, and the store's constraints as the predicate `Valid`;
  - every SQL statement the handlers issue, as a function from tables to tables;
  - lemmas that each statement keeps `Valid`, and what each statement does to the rows.
- `Forms`: the dialogs (`Notice`) and the checks each form goes through, in the handlers' order.
- `Views`: the rows the three tables of the frame show.
  - Each `while (rs.next())` loop is a method proved equal to a listing function.
  - Lemmas state what the listing contains.
- `Session`: the frame's fields as one value `State`, and one function per event handler giving the new state and the dialog shown. The rules each handler promises are lemmas about these functions.
- `Frame`: the class `Gjms`, which holds the fields and updates them in place.
  - Every handler method keeps the imperative shape of the Java code.
  - Each is proved to leave the fields as the matching `Session` function says, and to keep `Valid()`.

A handler's inputs are its parameters:
- the text the user typed;
- the row clicked or selected;
- the answer to a confirmation dialog;
- `dbOk`, false when `connect()` could not open a connection;
- `failed`, the job ids whose helper lookups (`hasUserApplied`, `countApplications`) hit an `SQLException` and so answer "not applied" or 0.

## Model

| member | source | states |
|---|---|---|
| Text.Trim | GJMS2.java:1734-1738 | the trimmed text is no longer than the input, neither starts nor ends with a character at most U+0020, and is empty exactly when every character of the input is one |
| Text.TrimStrips | GJMS2.java:1734-1738 | the trimmed text is the slice `s[i..j]` of the input, and everything cut before `i` and after `j` is a character at most U+0020 |
| Text.TrimFixed | GJMS2.java:1734-1738 | text with no such character at either end is unchanged by trimming |
| Text.TrimIdempotent | GJMS2.java:1734-1738 | trimming a trimmed value changes nothing |
| Text.ParseInt | GJMS2.java:1765-1766 | the parse succeeds exactly when the text is an optional `+`/`-` followed by at least one decimal digit and the signed value fits in a 32-bit `int`; then the result is that signed value (leading zeros and a `+` sign allowed); any other text is the `NumberFormatException` |
| Text.DigitChar | GJMS2.java:1703 | the character is a decimal digit whose value is the given digit |
| Text.NatDecimal | GJMS2.java:1703 | the decimal text of a natural number is never empty and starts with a digit |
| Text.Decimal | GJMS2.java:1703 | `String.valueOf(n)` is never empty and starts with '-' exactly when `n` is negative |
| Text.NatDecimalDigits | GJMS2.java:1703 | the decimal text of a natural number consists of digits whose value is that number |
| Text.ParseDecimal | GJMS2.java:1703 | `Integer.parseInt(String.valueOf(n)) == n` for every 32-bit `n` |
| Text.DecimalTrimmed | GJMS2.java:1703 | the decimal text of a number has no spaces to trim |
| Tables.StoredNamesExact | GJMS2.java:1410-1437 | for two stored account names, the store's case-insensitive comparison is exact equality, since the insert refuses a name equal up to case |
| Tables.SelectUser | GJMS2.java:1470-1486 | the lookup returns an account whose name matches up to letter case, and returns none only when no account matches |
| Tables.SelectApplication | GJMS2.java:1687-1693 | the rows returned are exactly the stored applications with that job id and a user name equal up to case |
| Tables.SelectApplicants | GJMS2.java:1915-1932 | the rows returned are exactly the stored applications to that job, as many as `COUNT(*)` gives |
| Tables.CountApplied | GJMS2.java:1649-1660 | the count is positive exactly when the user has an application to that job |
| Tables.CountApplications | GJMS2.java:2171-2180 | the count is at most the number of applications, and positive exactly when some application is to that job |
| Tables.SelectCreated | GJMS2.java:2085-2095 | the rows returned are exactly the stored posts whose creator matches the user up to case |
| Tables.FindPost | GJMS2.java:1993 | a post found has the id looked for; none is found only when no post has that id |
| Tables.Join | GJMS2.java:1993 | every joined pair is an application and a post with the application's job id |
| Tables.SelectApplied | GJMS2.java:1993-2003 | every row returned is one of the user's applications paired with the post it applies to |
| Tables.JoinTotal | GJMS2.java:1993 | when every application's job exists, the join keeps every application, in order |
| Tables.InsertUser | GJMS2.java:1410-1437 | the insert fails exactly when an account with the same name up to case exists; otherwise it appends exactly the new account |
| Tables.InsertPost | GJMS2.java:1857-1879 | the posts gain exactly one row at the end, carrying the next auto-increment id, the fields and the creator; the counter advances by one; users and applications are unchanged |
| Tables.ReplaceApplication | GJMS2.java:1781 | the `REPLACE INTO` fails exactly when no post has the job id (foreign key); otherwise only the applications change (users, posts and the id counter stay) |
| Tables.DeleteApplication | GJMS2.java:2411-2421 | the affected count is the number of rows matching (job, user), and exactly those rows go |
| Tables.DeletePosts | GJMS2.java:2331-2341 | the affected count is the number of posts removed; posts not kept go, and so do the applications to them (cascade); users and the id counter are untouched |
| Tables.DeleteJobPost | GJMS2.java:2331-2341 | the posts left are exactly those that do not have both this id and this creator; no application is added; users and the id counter are unchanged |
| Tables.DeleteAccount | GJMS2.java:2217-2255 | the accounts and posts left are exactly those not belonging to the user; every application left is one not made by the user; the id counter is unchanged |
| Tables.InsertUserValid | GJMS2.java:1410-1421 | inserting an account keeps the store's constraints |
| Tables.InsertPostValid | GJMS2.java:1857-1879 | inserting a post by an existing user keeps the constraints |
| Tables.ReplaceApplicationValid | GJMS2.java:1781-1796 | the `REPLACE INTO` keeps the constraints, including one application per (job, user) |
| Tables.DeletePostsValid | GJMS2.java:2331-2341 | deleting posts with their applications keeps the constraints |
| Tables.DeleteApplicationValid | GJMS2.java:2411-2421 | withdrawing applications keeps the constraints |
| Tables.DeleteAccountValid | GJMS2.java:2217-2255 | the three deletions of the account deletion together keep the constraints |
| Tables.AccountUnique | GJMS2.java:1434-1437 | two stored accounts whose names match up to case are the same account |
| Tables.LoginAcceptsIff | GJMS2.java:1470-1507 | the lookup finds an account with exactly the entered name and password if and only if that account is stored |
| Tables.ApplicantNamesExact | GJMS2.java:2411-2419 | for a signed-in user, `username = ?` over applications is exact equality |
| Tables.CreatorNamesExact | GJMS2.java:2331-2339 | for a signed-in user, `creator_username = ?` over posts is exact equality |
| Tables.SelectApplicationExact | GJMS2.java:1687-1699 | the lookup by (job, user) returns the one stored application, or nothing when there is none |
| Tables.NewPostIdFresh | GJMS2.java:1857-1879 | a new post's id is positive and differs from every existing id |
| Tables.ReplaceLeavesOne | GJMS2.java:1780-1781 | after the upsert exactly one application has the (job, user) key, the new one; rows with other keys are unchanged |
| Tables.ReplaceOverwrites | GJMS2.java:1780-1781 | upserting twice for the same key equals upserting only the second application |
| Tables.DeleteApplicationEffect | GJMS2.java:2411-2435 | the affected count is at most 1; it is 1 exactly when the user has an application to that job; 0 means the tables are unchanged; only that application goes |
| Tables.DeleteJobPostEffect | GJMS2.java:2331-2357 | the affected count is at most 1; it is 1 exactly when the user owns a post with that id; then that post and every application to it go; 0 means the tables are unchanged |
| Tables.DeleteOwnedPost | GJMS2.java:2331-2343 | an owned post is the only row `id = ? AND creator_username = ?` matches, so only its id is removed |
| Tables.DeleteNoOwnedPost | GJMS2.java:2351-2357 | with no owned post of that id the delete changes nothing |
| Tables.DeleteAccountEffect | GJMS2.java:2217-2255 | the deletion removes exactly the user's account, the user's posts, and the applications by the user or to the user's posts; all other rows and the id counter stay, and the constraints hold |
| Forms.CheckAccountForm | GJMS2.java:1372-1408 | the form passes if and only if the passwords are equal, the password has at least 8 characters and the trimmed name at least 6; the account stored is (trimmed name, password as typed); "fill all fields" and "passwords differ" come exactly in their cases |
| Forms.UsernameBoundary | GJMS2.java:1398-1399 | a 5-character name is refused as too short and a 6-character name is accepted |
| Forms.LoginVerdict | GJMS2.java:1478-1518 | success exactly when the found row has the entered name and password; "no such account" exactly when nothing is found; the case-mismatch and wrong-password messages exactly in their cases |
| Forms.CheckApplication | GJMS2.java:1732-1778 | the six outcomes in guard order, each as an if-and-only-if on the inputs: no job, not signed in, a blank field, age not a number, age outside 17..99, pass; a pass stores the trimmed fields and the parsed age |
| Forms.AgeBoundary | GJMS2.java:1766-1772 | age 16 and 100 are refused; 17 and 99 are accepted |
| Forms.PrefillResubmits | GJMS2.java:1699-1709 | submitting the form exactly as filled from a stored, valid application passes the checks with the same details |
| Forms.CheckJobForm | GJMS2.java:1827-1853 | the form passes if and only if none of the seven trimmed fields is empty; the trimmed fields are what gets stored |
| Views.BuildJobList | GJMS2.java:1546-1592 | the loop builds exactly the job listing |
| Views.JobListingRows | GJMS2.java:1552-1592 | one row per post, in order, with its id and fields; "APPLIED" exactly when the lookup did not fail and the user has an application to that job; no posts gives only the placeholder |
| Views.JobListingClickable | GJMS2.java:2635-2647 | a row has a positive id exactly when it is a job row; the placeholder's id is -1 |
| Views.HasApplied | GJMS2.java:1647-1677 | `hasUserApplied` answers true exactly when the lookup did not fail and the user has an application to that job |
| Views.BuildAppliedList | GJMS2.java:2003-2043 | the loop builds exactly the applied-jobs listing |
| Views.AppliedListingRows | GJMS2.java:1993-2043 | one row per application of the user, in order, with job id, details and the title and employer of that job; none gives only the placeholder |
| Views.BuildCreatedList | GJMS2.java:2095-2129 | the loop builds exactly the created-jobs listing |
| Views.ApplicationsShown | GJMS2.java:2169-2197 | the count column is at most the number of applications, and positive exactly when the lookup did not fail and the post has an application |
| Views.CreatedListingRows | GJMS2.java:2103-2129 | one row per post the user created; the count column equals the number of applications to that post unless its count lookup failed; none gives only the placeholder |
| Views.BuildApplicants | GJMS2.java:1915-1932 | the loop builds exactly the applicant rows |
| Views.ApplicantRowsMatchCount | GJMS2.java:1915-1945 | there are as many applicant rows as applications to the job, and they are exactly those applications' details |
| Session.Start | GJMS2.java:217-265 | the frame opens on the home card (`initializeGUI`) with nobody signed in and no job selected (fields at lines 112-114); the invariant holds for a store satisfying its constraints |
| Session.Press | GJMS2.java:387-403 | a navigation button shows its card, which is on the same side (signed in or not) as the card it was pressed on; store, user and selected job are unchanged (the other buttons: lines 507, 614, 670, 777, 1137, 1219, 1309) |
| Session.HandleCreateAccount | GJMS2.java:1372-1450 | creating an account never signs anyone in and never touches posts or applications; the state changes exactly when the account is created |
| Session.HandleLogin | GJMS2.java:1455-1524 | login never changes the store; when it changes the state, it shows no dialog, signs in the trimmed name and shows the dashboard |
| Session.HandleLogout | GJMS2.java:680-686 | logout signs out onto the home card; store and selected job are unchanged |
| Session.LoadedForm | GJMS2.java:1685-1715 | with no stored application for the job and user the form is blank; otherwise it holds the fields of a stored application for that job and user |
| Session.ClickJobRow | GJMS2.java:285-325 | a click never changes the store or the user; when it changes anything, it was on the button column of a job row and selects that row's positive id |
| Session.RefreshJobList | GJMS2.java:1532-1639 | without a connection nothing changes; otherwise only the job table and the card change, to the job list, with at least one row per post |
| Session.HandleJobApplication | GJMS2.java:1732-1819 | "submitted" exactly when the checks pass, the connection works and the job exists; any other outcome leaves the state unchanged; user and selected job are never changed |
| Session.StoreApplication | GJMS2.java:1780-1811 | "submitted" exactly when the connection works and the job exists, then with a blank form on the job list; otherwise the state is unchanged |
| Session.CancelApply | GJMS2.java:941-947 | cancel blanks the form and keeps the store and the selected job; with a connection it shows the job list |
| Session.HandleCreateJob | GJMS2.java:1827-1897 | "job created" exactly when the form passes and the connection works; any other outcome leaves the state unchanged; users and applications are never changed |
| Session.RefreshAppliedJobs | GJMS2.java:1991-2075 | without a connection nothing changes; otherwise only the applied table (never empty) and the card change |
| Session.RefreshCreatedJobs | GJMS2.java:2083-2161 | without a connection nothing changes; otherwise only the created table (never empty) and the card change |
| Session.ShowApplicants | GJMS2.java:1334-1350 | only the applicants window can change, and it does only for a selected row with a working connection, showing a non-empty list and no dialog |
| Session.HandleDeleteJobPost | GJMS2.java:2295-2373 | "deleted" needs a selection, a confirmation and a connection; outcomes other than deleted and not-found leave the state unchanged; users and the signed-in user are never changed |
| Session.HandleDeleteApplication | GJMS2.java:2381-2451 | "withdrawn" needs a selection, a confirmation and a connection; outcomes other than withdrawn and not-found leave the state unchanged; users, posts and the signed-in user are never changed |
| Session.HandleDeleteAccount | GJMS2.java:2205-2287 | the account is deleted exactly when confirmed with a working connection, then the user is signed out on the home card; otherwise the state is unchanged |
| Session.LoadedFormIsStored | GJMS2.java:1685-1715 | opening an applied job fills the form from the stored application; submitting it unedited stores the same details |
| Session.ButtonsKeepSide | GJMS2.java:387-403 | no navigation button crosses between signed-out and signed-in cards (the other buttons: lines 507, 614, 670, 777, 1137, 1219, 1309) |
| Session.CreateAccountRules | GJMS2.java:1372-1450 | a refused form changes nothing; "username taken" exactly when a name equal up to case exists; otherwise exactly one account is appended and the home card shown, with nobody signed in |
| Session.LoginRules | GJMS2.java:1455-1524 | login succeeds if and only if the trimmed name and password are a stored account, then the user is signed in on the dashboard; each failure has its own notice, each as an if-and-only-if, and leaves the state unchanged |
| Session.LogoutRules | GJMS2.java:680-686 | logout signs out onto the home card and keeps the store and the selected job |
| Session.ClickRules | GJMS2.java:285-325 | only a button-column click on a row with positive id selects that job; "Apply" opens a blank form, "APPLIED" a form filled from the stored application; anything else changes nothing |
| Session.SubmitRules | GJMS2.java:1732-1819 | a refused check changes nothing; success exactly when the checks pass and the job exists; then exactly one application for (job, user) holds the submitted details, other applications are unchanged, and the form is blank on the refreshed job list; nothing else changes (users, posts, id counter, selected job, the other tables) |
| Session.SubmitKeepsInv | GJMS2.java:1732-1819 | submitting keeps the store's constraints and the session consistent |
| Session.StoreApplicationKeepsInv | GJMS2.java:1780-1811 | the upsert and refresh keep the invariant |
| Session.ResubmitOverwrites | GJMS2.java:1780-1811 | a second submission to the same job succeeds and leaves the store as if only it had been made, with one application holding the latest details |
| Session.CancelRules | GJMS2.java:941-947 | cancel blanks the form, keeps the selected job and the store, and shows the refreshed job list |
| Session.CreateJobRules | GJMS2.java:1827-1897 | a refused form changes nothing, nor does a failed connection; otherwise the new state is the old one with exactly one post appended (trimmed fields, the user as creator, a fresh positive id), the id counter advanced and the dashboard shown |
| Session.CreateJobKeepsInv | GJMS2.java:1857-1887 | creating a post keeps the invariant |
| Session.ShowApplicantsRules | GJMS2.java:1904-1947 | nothing happens for the placeholder or no selection; a failed connection changes nothing; "no applicants", with nothing changed, exactly when the count is 0; for a real post with applications the window opens listing exactly the details of that post's applications, as many as the count; only the window changes |
| Session.DeleteJobPostRules | GJMS2.java:2295-2373 | no selection, declined and failed connection each have their notice; deleted exactly when the user owns the post, then the post and its applications go, the created table is refreshed and nothing else changes (users, id counter, session, other tables, form); otherwise "not found" and nothing changes |
| Session.DeleteApplicationRules | GJMS2.java:2381-2451 | deleted exactly when the user has an application to the selected job; then only that application goes, the applied table is refreshed and nothing else changes; otherwise "not found" and nothing changes |
| Session.DeleteAccountRules | GJMS2.java:2205-2287 | a confirmed deletion removes the user's account, posts, applications and the applications to those posts together, keeps all other rows, and signs out onto the home card, with nothing else changed (id counter, selected job, tables, form); a declined or failed deletion changes nothing |
| Frame.Gjms.constructor | GJMS2.java:217-265 | the frame starts in the initial state, satisfying the invariant |
| Frame.Gjms.Press | GJMS2.java:387-403 | a navigation button switches to its card and keeps the invariant (the other buttons: lines 507, 614, 670, 777, 1137, 1219, 1309) |
| Frame.Gjms.HandleCreateAccount | GJMS2.java:1372-1450 | the fields change as the account-creation handler function says; invariant kept |
| Frame.Gjms.HandleLogin | GJMS2.java:1455-1524 | the fields change as the login handler function says; invariant kept |
| Frame.Gjms.HandleLogout | GJMS2.java:680-686 | signs out onto the home card; invariant kept |
| Frame.Gjms.ClickJobRow | GJMS2.java:285-325 | the fields change as the job-row click function says; invariant kept |
| Frame.Gjms.EditApplyForm | GJMS2.java:797-961 | the form holds what the user typed; invariant kept |
| Frame.Gjms.RefreshJobList | GJMS2.java:1532-1639 | the job table is the job listing and the job list is shown; invariant kept |
| Frame.Gjms.HandleJobApplication | GJMS2.java:1732-1819 | the fields change as the submission function says; invariant kept |
| Frame.Gjms.CancelApply | GJMS2.java:941-947 | blank form and refreshed job list; invariant kept |
| Frame.Gjms.HandleCreateJob | GJMS2.java:1827-1897 | the fields change as the job-creation function says; invariant kept |
| Frame.Gjms.RefreshAppliedJobs | GJMS2.java:1991-2075 | the applied table is the applied listing and its card is shown; invariant kept |
| Frame.Gjms.RefreshCreatedJobs | GJMS2.java:2083-2161 | the created table is the created listing and its card is shown; invariant kept |
| Frame.Gjms.ShowApplicants | GJMS2.java:1904-1983 | the applicants window and notice are as the applicants function says; invariant kept |
| Frame.Gjms.HandleDeleteJobPost | GJMS2.java:2295-2373 | the fields change as the post-deletion function says; invariant kept |
| Frame.Gjms.HandleDeleteApplication | GJMS2.java:2381-2451 | the fields change as the withdrawal function says; invariant kept |
| Frame.Gjms.HandleDeleteAccount | GJMS2.java:2205-2287 | the fields change as the account-deletion function says; invariant kept |

## Where the code and its on-screen text differ

The model follows the code in each case:
- **User name length.** `handleCreateAccount` requires at least 6 characters after trimming. The form's text asks for 8.
- **Age range.** The age check refuses `age <= 16 || age > 99`, so 17..99 pass. The message says "16-99".
- **Login messages.** The case-mismatch message and the no-such-account message are two different strings, differing in letter case. The model keeps them as two different notices.
- **Selected job.** `selectedJobIdToApply` is never reset: not by logout, cancel, a submission or an account deletion.

## Left out

- The Swing presentation is not modelled: layout, colours, fonts, hover tracking, button renderers, and the separate applicants `JFrame` (only the rows it would show are kept).
- Clearing the login, create-account and create-job fields is not modelled; only the application form is tracked.
- JDBC plumbing is left out. A connection that cannot be opened is `dbOk == false`. Most handlers then change nothing and show the connection dialog, with these exceptions. The three refreshes change nothing; they return a state only, so the dialog `connect()` shows is not recorded for them. `ClickJobRow` on an "APPLIED" row still records the selected job, because `loadApplicationData` fails after `selectedJobIdToApply` is set (GJMS2.java:308-317, 1685-1715). `CancelApply` still blanks the form before its refresh fails. The Java code distinguishes this case (a `NullPointerException` that escapes most handlers) from an `SQLException` raised mid-query (which still shows some cards). The model does not make that distinction.
- Helper lookups that fail are the `failed` set of job ids.
- The refresh after a successful submission or delete is assumed to reach the store.
- Frame.Gjms.HandleDeleteAccount models the intended all-or-nothing transaction. It does not model the rollback attempted on a fresh connection after a failure, nor any partial effect that could leave.
- Timestamps are not modelled (`posting_date`, `application_date`, and the date columns of the three tables).
- Program start-up is modelled only as the initial state and the home card. Left out: `main`, the look and feel, and the panel and table construction in `initializeGUI`. The driver and connection constants are also left out.
- Frame.Gjms.ClickJobRow: a click outside the table's rows (a Java exception in the source) changes nothing in the model.
- Text.ParseInt accepts ASCII digits only. It leaves out the other Unicode digits `Integer.parseInt` accepts. Text lengths count `char`s, not UTF-16 code units.
- The store's collation is assumed to be case-insensitive, the usual default for a MySQL text column; the code itself only anticipates it (GJMS2.java:1465-1469). Under a binary collation two changes follow: `UsernameCaseMismatch` could no longer happen, and names differing only in case could coexist. The case folding is modelled on ASCII letters only, with no accents or other Unicode folding.
- The `rowsAffected == 0` branch after `REPLACE INTO` is not modelled: it cannot happen, because a successful `REPLACE` always affects a row.
- Confirmation dialogs are the boolean `confirm` parameter.
- Passwords are stored and compared as typed, as the code does (no hashing).
