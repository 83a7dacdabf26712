/** The tables the frame shows: the job list with each job's applied status,
    the user's applications, the user's job posts with their application
    counts, and the applicants of one post. Each is specified by a function
    of the store, and built by a method whose loop appends one row per row
    of the query's result set. */
module Views {
  import opened Basics
  import opened Text
  import opened Tables

  /** A table row: a data row whose hidden first column holds the job id, or
      the single row `createEmptyRow` puts in an empty table, with id -1 and
      a message in the second column. */
  datatype Row<C> = Data(id: int, cells: C) | Placeholder(message: string)
  {
    /** The value of the hidden id column. */
    function Id(): int {
      match this
      case Data(id, _) => id
      case Placeholder(_) => -1
    }
  }

  /** The last column of the job list: "Apply" or "APPLIED". */
  datatype Status = Apply | Applied

  datatype JobCells = JobCells(fields: JobFields, status: Status)
  datatype AppliedCells = AppliedCells(title: string, employer: string, details: Details)
  datatype CreatedCells = CreatedCells(title: string, employer: string, applications: nat)

  const NoJobsMessage := "No Jobs Posted Yet."
  const NoAppliedMessage := "You have not applied to any jobs."
  const NoCreatedMessage := "You have not created any job posts."

  function WithPlaceholder<C>(rows: seq<Row<C>>, message: string): seq<Row<C>> {
    if rows == [] then [Placeholder(message)] else rows
  }

  // ---------------------------------------------------------------------
  // Job list
  // ---------------------------------------------------------------------

  /** `hasUserApplied`: the count of the viewer's applications to the job is
      positive. A lookup that fails (a job id in `failed`) answers false. */
  function HasApplied(db: Db, viewer: string, failed: set<int>, jobId: int): (b: bool)
    ensures b <==> jobId !in failed && exists a :: a in db.apps && a.jobId == jobId && NameEq(a.username, viewer)
  {
    jobId !in failed && CountApplied(db, viewer, jobId) > 0
  }

  function JobRow(db: Db, viewer: string, failed: set<int>, p: JobPost): Row<JobCells> {
    Data(p.id, JobCells(p.fields, if HasApplied(db, viewer, failed, p.id) then Applied else Apply))
  }

  /** The job list of `refreshJobListAndShow`: every post in table order. */
  function JobListing(db: Db, viewer: string, failed: set<int>): seq<Row<JobCells>> {
    WithPlaceholder(seq(|db.posts|, k requires 0 <= k < |db.posts| => JobRow(db, viewer, failed, db.posts[k])),
                    NoJobsMessage)
  }

  method BuildJobList(db: Db, viewer: string, failed: set<int>) returns (rows: seq<Row<JobCells>>)
    ensures rows == JobListing(db, viewer, failed)
  {
    rows := [];
    var i := 0;
    while i < |db.posts|
      invariant 0 <= i <= |db.posts| && |rows| == i
      invariant forall k :: 0 <= k < i ==> rows[k] == JobRow(db, viewer, failed, db.posts[k])
    {
      var p := db.posts[i];
      var status := if HasApplied(db, viewer, failed, p.id) then Applied else Apply;
      rows := rows + [Data(p.id, JobCells(p.fields, status))];
      i := i + 1;
    }
    if rows == [] {
      rows := [Placeholder(NoJobsMessage)];
    }
  }

  /** One row per post, in table order, carrying the post's id and fields;
      the status is "APPLIED" exactly when the lookup did not fail and the
      viewer has an application to that post. With no posts the list is the
      single placeholder row. */
  lemma JobListingRows(db: Db, viewer: string, failed: set<int>)
    requires Valid(db) && viewer in Names(db.users)
    ensures var rows := JobListing(db, viewer, failed);
            && (db.posts == [] ==> rows == [Placeholder(NoJobsMessage)])
            && (db.posts != [] ==> |rows| == |db.posts|)
            && forall k :: 0 <= k < |db.posts| ==>
                 && rows[k].Data?
                 && rows[k].id == db.posts[k].id
                 && rows[k].cells.fields == db.posts[k].fields
                 && (rows[k].cells.status == Applied <==>
                       rows[k].id !in failed
                       && exists a :: a in db.apps && a.jobId == rows[k].id && a.username == viewer)
  {
    ApplicantNamesExact(db, viewer);
    var rows := JobListing(db, viewer, failed);
    forall k | 0 <= k < |db.posts|
      ensures rows[k].cells.status == Applied <==>
                rows[k].id !in failed
                && exists a :: a in db.apps && a.jobId == rows[k].id && a.username == viewer
    {
      var id := db.posts[k].id;
      if CountApplied(db, viewer, id) > 0 {
        var a :| a in db.apps && HasKey(id, viewer)(a);
        assert a.jobId == id && a.username == viewer;
      }
    }
  }

  /** The click guard `id > 0` tells data rows from the placeholder: every
      stored post has a positive id and the placeholder's is -1. */
  lemma JobListingClickable(db: Db, viewer: string, failed: set<int>)
    requires Valid(db)
    ensures forall row :: row in JobListing(db, viewer, failed) ==> (row.Id() > 0 <==> row.Data?)
  {
    var rows := JobListing(db, viewer, failed);
    forall row | row in rows ensures row.Id() > 0 <==> row.Data? {
      if db.posts != [] {
        var k :| 0 <= k < |rows| && rows[k] == row;
        assert db.posts[k] in db.posts;
      }
    }
  }

  // ---------------------------------------------------------------------
  // Applied jobs
  // ---------------------------------------------------------------------

  function AppliedRow(joined: (Application, JobPost)): Row<AppliedCells> {
    Data(joined.0.jobId, AppliedCells(joined.1.fields.title, joined.1.fields.employer, joined.0.details))
  }

  /** The list of `refreshAppliedJobsAndShow`: the viewer's applications
      joined with their posts. */
  function AppliedListing(db: Db, viewer: string): seq<Row<AppliedCells>> {
    var q := SelectApplied(db, viewer);
    WithPlaceholder(seq(|q|, k requires 0 <= k < |q| => AppliedRow(q[k])), NoAppliedMessage)
  }

  method BuildAppliedList(db: Db, viewer: string) returns (rows: seq<Row<AppliedCells>>)
    ensures rows == AppliedListing(db, viewer)
  {
    var result := SelectApplied(db, viewer);
    rows := [];
    var i := 0;
    while i < |result|
      invariant 0 <= i <= |result| && |rows| == i
      invariant forall k :: 0 <= k < i ==> rows[k] == AppliedRow(result[k])
    {
      var (app, post) := result[i];
      rows := rows + [Data(app.jobId, AppliedCells(post.fields.title, post.fields.employer, app.details))];
      i := i + 1;
    }
    if rows == [] {
      rows := [Placeholder(NoAppliedMessage)];
    }
  }

  /** One row per application of the viewer, in table order, with the job
      id and the details as submitted and the title and employer of that
      job; no application, only the placeholder. */
  lemma AppliedListingRows(db: Db, viewer: string)
    requires Valid(db) && viewer in Names(db.users)
    ensures var mine := Filter(db.apps, AppliedBy(viewer));
            var rows := AppliedListing(db, viewer);
            && (forall a :: a in mine <==> a in db.apps && a.username == viewer)
            && (mine == [] ==> rows == [Placeholder(NoAppliedMessage)])
            && (mine != [] ==> |rows| == |mine|)
            && forall k :: 0 <= k < |mine| ==>
                 && rows[k].Data?
                 && rows[k].id == mine[k].jobId
                 && rows[k].cells.details == mine[k].details
                 && exists p :: p in db.posts && p.id == mine[k].jobId
                      && rows[k].cells.title == p.fields.title && rows[k].cells.employer == p.fields.employer
  {
    ApplicantNamesExact(db, viewer);
    var mine := Filter(db.apps, AppliedBy(viewer));
    JoinTotal(mine, db.posts);
    var q := SelectApplied(db, viewer);
    var rows := AppliedListing(db, viewer);
    if mine != [] {
      assert rows == seq(|q|, k requires 0 <= k < |q| => AppliedRow(q[k]));
      forall k | 0 <= k < |mine|
        ensures exists p :: p in db.posts && p.id == mine[k].jobId
                  && rows[k].cells.title == p.fields.title && rows[k].cells.employer == p.fields.employer
      {
        assert rows[k] == AppliedRow(q[k]);
        assert q[k].1 in db.posts;
      }
    }
  }

  // ---------------------------------------------------------------------
  // Created jobs
  // ---------------------------------------------------------------------

  /** `countApplications`; a lookup that fails answers 0. */
  function ApplicationsShown(db: Db, failed: set<int>, jobId: int): (n: nat)
    ensures n <= |db.apps|
    ensures n > 0 <==> jobId !in failed && exists a :: a in db.apps && a.jobId == jobId
  {
    if jobId in failed then 0 else CountApplications(db, jobId)
  }

  function CreatedRow(db: Db, failed: set<int>, p: JobPost): Row<CreatedCells> {
    Data(p.id, CreatedCells(p.fields.title, p.fields.employer, ApplicationsShown(db, failed, p.id)))
  }

  /** The list of `refreshCreatedJobsAndShow`: the viewer's posts with the
      number of applications to each. */
  function CreatedListing(db: Db, viewer: string, failed: set<int>): seq<Row<CreatedCells>> {
    var q := SelectCreated(db, viewer);
    WithPlaceholder(seq(|q|, k requires 0 <= k < |q| => CreatedRow(db, failed, q[k])), NoCreatedMessage)
  }

  method BuildCreatedList(db: Db, viewer: string, failed: set<int>) returns (rows: seq<Row<CreatedCells>>)
    ensures rows == CreatedListing(db, viewer, failed)
  {
    var result := SelectCreated(db, viewer);
    rows := [];
    var i := 0;
    while i < |result|
      invariant 0 <= i <= |result| && |rows| == i
      invariant forall k :: 0 <= k < i ==> rows[k] == CreatedRow(db, failed, result[k])
    {
      var p := result[i];
      var count := ApplicationsShown(db, failed, p.id);
      rows := rows + [Data(p.id, CreatedCells(p.fields.title, p.fields.employer, count))];
      i := i + 1;
    }
    if rows == [] {
      rows := [Placeholder(NoCreatedMessage)];
    }
  }

  /** One row per post the viewer created, in table order; the count shown
      is the number of applications with that job id, unless the lookup
      failed; no posts, only the placeholder. */
  lemma CreatedListingRows(db: Db, viewer: string, failed: set<int>)
    requires Valid(db) && viewer in Names(db.users)
    ensures var mine := SelectCreated(db, viewer);
            var rows := CreatedListing(db, viewer, failed);
            && (forall p :: p in mine <==> p in db.posts && p.creator == viewer)
            && (mine == [] ==> rows == [Placeholder(NoCreatedMessage)])
            && (mine != [] ==> |rows| == |mine|)
            && forall k :: 0 <= k < |mine| ==>
                 && rows[k].Data?
                 && rows[k].id == mine[k].id
                 && rows[k].cells.title == mine[k].fields.title
                 && rows[k].cells.applications ==
                      (if mine[k].id in failed then 0 else |SelectApplicants(db, mine[k].id)|)
  {
    CreatorNamesExact(db, viewer);
  }

  // ---------------------------------------------------------------------
  // Applicants of one post
  // ---------------------------------------------------------------------

  /** The rows of `showApplicantsForJob`: the details of every application
      to the job. */
  function ApplicantRows(db: Db, jobId: int): seq<Details> {
    var q := SelectApplicants(db, jobId);
    seq(|q|, k requires 0 <= k < |q| => q[k].details)
  }

  method BuildApplicants(db: Db, jobId: int) returns (rows: seq<Details>)
    ensures rows == ApplicantRows(db, jobId)
  {
    var result := SelectApplicants(db, jobId);
    rows := [];
    var i := 0;
    while i < |result|
      invariant 0 <= i <= |result| && |rows| == i
      invariant forall k :: 0 <= k < i ==> rows[k] == result[k].details
    {
      rows := rows + [result[i].details];
      i := i + 1;
    }
  }

  /** The applicant window has as many rows as the count shown for the
      post, and shows the details of exactly the applications to it. */
  lemma ApplicantRowsMatchCount(db: Db, jobId: int)
    ensures |ApplicantRows(db, jobId)| == CountApplications(db, jobId)
    ensures forall d :: d in ApplicantRows(db, jobId) <==>
              exists a :: a in db.apps && a.jobId == jobId && a.details == d
  {
    var q := SelectApplicants(db, jobId);
    var rows := ApplicantRows(db, jobId);
    forall d ensures d in rows <==> exists a :: a in db.apps && a.jobId == jobId && a.details == d {
      if d in rows {
        var k :| 0 <= k < |rows| && rows[k] == d;
        assert q[k] in q;
      }
      if a :| a in db.apps && a.jobId == jobId && a.details == d {
        assert a in q;
        var k :| 0 <= k < |q| && q[k] == a;
        assert rows[k] == d;
      }
    }
  }
}
