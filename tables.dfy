/** The relational store behind the application, as three in-memory tables:
    `users` (username, password), `job_posts` and `job_applications`. Each
    SQL statement the handlers issue is a function on the tables; the store's
    own guarantees (unique keys, auto-increment ids, foreign keys, cascading
    deletes) are the invariant `Valid`. */
module Tables {
  import opened Basics
  import opened Text

  datatype Account = Account(name: string, password: string)

  /** The seven columns a job post is created with. */
  datatype JobFields = JobFields(
    title: string, description: string, employer: string, skills: string,
    location: string, contact: string, deadline: string)

  /** A `job_posts` row; `id` is assigned by the store. */
  datatype JobPost = JobPost(id: int, fields: JobFields, creator: string)

  /** What an applicant submits for one job. */
  datatype Details = Details(fullName: string, age: int, contact: string, email: string, education: string)

  /** A `job_applications` row, unique on (`jobId`, `username`). */
  datatype Application = Application(jobId: int, username: string, details: Details)

  /** The three tables, in table-scan order, and the next auto-increment id. */
  datatype Db = Db(users: seq<Account>, posts: seq<JobPost>, apps: seq<Application>, nextId: int)

  /** The result of a `DELETE`: the new tables and `executeUpdate()`'s count. */
  datatype Update = Update(db: Db, affected: nat)

  function Names(users: seq<Account>): set<string> {
    set a | a in users :: a.name
  }

  function PostIds(posts: seq<JobPost>): set<int> {
    set p | p in posts :: p.id
  }

  // ---------------------------------------------------------------------
  // The store's constraints
  // ---------------------------------------------------------------------

  /** The primary key on `users.username`, under the case-insensitive collation. */
  predicate DistinctNames(a: Account, b: Account) {
    !NameEq(a.name, b.name)
  }

  /** Auto-increment ids grow with table order. */
  predicate IdsIncrease(p: JobPost, q: JobPost) {
    p.id < q.id
  }

  /** The unique index on (`job_id`, `username`). */
  predicate SameKey(a: Application, b: Application) {
    a.jobId == b.jobId && NameEq(a.username, b.username)
  }

  predicate DistinctKeys(a: Application, b: Application) {
    !SameKey(a, b)
  }

  ghost predicate Valid(db: Db) {
    && Pairwise(db.users, DistinctNames)
    && 0 < db.nextId
    && Pairwise(db.posts, IdsIncrease)
    && (forall p :: p in db.posts ==> 0 < p.id < db.nextId)
    && (forall p :: p in db.posts ==> p.creator in Names(db.users))
    && Pairwise(db.apps, DistinctKeys)
    && (forall a :: a in db.apps ==> a.jobId in PostIds(db.posts))
    && (forall a :: a in db.apps ==> a.username in Names(db.users))
  }

  /** On names that belong to accounts, the store's case-insensitive
      comparison is plain equality, because no two accounts' names differ
      only in case. */
  lemma StoredNamesExact(db: Db, x: string, y: string)
    requires Valid(db)
    requires x in Names(db.users) && y in Names(db.users)
    ensures NameEq(x, y) <==> x == y
  {
    if NameEq(x, y) {
      var a :| a in db.users && a.name == x;
      var b :| b in db.users && b.name == y;
      var i :| 0 <= i < |db.users| && db.users[i] == a;
      var j :| 0 <= j < |db.users| && db.users[j] == b;
      assert i == j;
    }
  }

  // ---------------------------------------------------------------------
  // Row conditions (`WHERE` clauses)
  // ---------------------------------------------------------------------

  /** `WHERE job_id = ? AND username = ?` */
  function HasKey(jobId: int, user: string): Application -> bool {
    (a: Application) => a.jobId == jobId && NameEq(a.username, user)
  }

  /** The rows a `DELETE ... WHERE job_id = ? AND username = ?` keeps. */
  function LacksKey(jobId: int, user: string): Application -> bool {
    (a: Application) => !(a.jobId == jobId && NameEq(a.username, user))
  }

  /** `WHERE job_id = ?` */
  function ForJob(jobId: int): Application -> bool {
    (a: Application) => a.jobId == jobId
  }

  /** `WHERE creator_username = ?` */
  function CreatedBy(user: string): JobPost -> bool {
    (p: JobPost) => NameEq(p.creator, user)
  }

  /** `WHERE username = ?` on applications. */
  function AppliedBy(user: string): Application -> bool {
    (a: Application) => NameEq(a.username, user)
  }

  /** The rows a `DELETE FROM job_applications WHERE username = ?` keeps. */
  function NotAppliedBy(user: string): Application -> bool {
    (a: Application) => !NameEq(a.username, user)
  }

  /** The rows a `DELETE FROM job_posts WHERE creator_username = ?` keeps. */
  function NotCreatedBy(user: string): JobPost -> bool {
    (p: JobPost) => !NameEq(p.creator, user)
  }

  /** The rows a `DELETE FROM job_posts WHERE id = ? AND creator_username = ?` keeps. */
  function NotPostOf(id: int, user: string): JobPost -> bool {
    (p: JobPost) => !(p.id == id && NameEq(p.creator, user))
  }

  /** The rows a `DELETE FROM users WHERE username = ?` keeps. */
  function OtherAccount(user: string): Account -> bool {
    (a: Account) => !NameEq(a.name, user)
  }

  /** The applications that the cascade from deleting the posts `gone` keeps. */
  function OutsideJobs(gone: set<int>): Application -> bool {
    (a: Application) => a.jobId !in gone
  }

  /** The ids of the posts a deletion that keeps `keep` removes. */
  function RemovedIds(posts: seq<JobPost>, keep: JobPost -> bool): set<int> {
    set p | p in posts && !keep(p) :: p.id
  }

  // ---------------------------------------------------------------------
  // Queries
  // ---------------------------------------------------------------------

  /** `SELECT username, password_hash FROM users WHERE username = ?`: the
      first matching row, if any. */
  function SelectUser(users: seq<Account>, name: string): (r: Option<Account>)
    ensures r.Some? ==> r.value in users && NameEq(r.value.name, name)
    ensures r.None? ==> forall a :: a in users ==> !NameEq(a.name, name)
  {
    if users == [] then None
    else if NameEq(users[0].name, name) then Some(users[0])
    else SelectUser(users[1..], name)
  }

  /** `SELECT * FROM job_applications WHERE username = ? AND job_id = ?` */
  function SelectApplication(db: Db, jobId: int, user: string): (r: seq<Application>)
    ensures forall a :: a in r <==> a in db.apps && a.jobId == jobId && NameEq(a.username, user)
  {
    Filter(db.apps, HasKey(jobId, user))
  }

  /** `SELECT ... FROM job_applications WHERE job_id = ?` */
  function SelectApplicants(db: Db, jobId: int): (r: seq<Application>)
    ensures forall a :: a in r <==> a in db.apps && a.jobId == jobId
    ensures |r| == CountApplications(db, jobId)
  {
    Filter(db.apps, ForJob(jobId))
  }

  /** `SELECT COUNT(*) FROM job_applications WHERE username = ? AND job_id = ?` */
  function CountApplied(db: Db, user: string, jobId: int): (n: nat)
    ensures n > 0 <==> exists a :: a in db.apps && a.jobId == jobId && NameEq(a.username, user)
  {
    Count(db.apps, HasKey(jobId, user))
  }

  /** `SELECT COUNT(*) FROM job_applications WHERE job_id = ?` */
  function CountApplications(db: Db, jobId: int): (n: nat)
    ensures n <= |db.apps|
    ensures n > 0 <==> exists a :: a in db.apps && a.jobId == jobId
  {
    Count(db.apps, ForJob(jobId))
  }

  /** `SELECT ... FROM job_posts WHERE creator_username = ?` */
  function SelectCreated(db: Db, user: string): (r: seq<JobPost>)
    ensures forall p :: p in r <==> p in db.posts && NameEq(p.creator, user)
  {
    Filter(db.posts, CreatedBy(user))
  }

  /** The job post with the given id, for the join of the applied-jobs view. */
  function FindPost(posts: seq<JobPost>, id: int): (r: Option<JobPost>)
    ensures r.Some? ==> r.value in posts && r.value.id == id
    ensures r.None? ==> id !in PostIds(posts)
  {
    if posts == [] then None
    else if posts[0].id == id then Some(posts[0])
    else FindPost(posts[1..], id)
  }

  /** `job_applications ja JOIN job_posts jp ON ja.job_id = jp.id`, in the
      order of the applications. The contract gives soundness; `JoinTotal`
      gives completeness for a store whose foreign keys hold. */
  function Join(apps: seq<Application>, posts: seq<JobPost>): (r: seq<(Application, JobPost)>)
    ensures |r| <= |apps|
    ensures forall k :: 0 <= k < |r| ==> r[k].0 in apps && r[k].1 in posts && r[k].1.id == r[k].0.jobId
  {
    if apps == [] then []
    else
      var rest := Join(apps[1..], posts);
      match FindPost(posts, apps[0].jobId)
      case None => rest
      case Some(p) => [(apps[0], p)] + rest
  }

  /** The query of the applied-jobs view: `... WHERE ja.username = ?`. Every
      application of the user appears: see `JoinTotal` and
      `Views.AppliedListingRows`. */
  function SelectApplied(db: Db, user: string): (r: seq<(Application, JobPost)>)
    ensures forall k :: 0 <= k < |r| ==>
              r[k].0 in db.apps && NameEq(r[k].0.username, user) && r[k].1 in db.posts && r[k].1.id == r[k].0.jobId
  {
    Join(Filter(db.apps, AppliedBy(user)), db.posts)
  }

  // ---------------------------------------------------------------------
  // Statements that change the tables
  // ---------------------------------------------------------------------

  /** `INSERT INTO users (username, password_hash) VALUES (?, ?)`; `None` is
      the integrity-constraint violation of a name already taken (in any
      letter case). */
  function InsertUser(db: Db, name: string, password: string): (r: Option<Db>)
    ensures r.None? <==> exists a :: a in db.users && NameEq(a.name, name)
    ensures r.Some? ==> r.value == db.(users := db.users + [Account(name, password)])
  {
    match SelectUser(db.users, name)
    case Some(_) => None
    case None => Some(db.(users := db.users + [Account(name, password)]))
  }

  /** `INSERT INTO job_posts (...) VALUES (...)`: the new row takes the next
      auto-increment id. */
  function InsertPost(db: Db, fields: JobFields, creator: string): (r: Db)
    ensures |r.posts| == |db.posts| + 1 && r.posts[..|db.posts|] == db.posts
    ensures r.posts[|db.posts|] == JobPost(db.nextId, fields, creator)
    ensures r.nextId == db.nextId + 1 && r.users == db.users && r.apps == db.apps
  {
    db.(posts := db.posts + [JobPost(db.nextId, fields, creator)], nextId := db.nextId + 1)
  }

  /** `REPLACE INTO job_applications (...) VALUES (...)`: any row with the
      same (`job_id`, `username`) is deleted and the new row inserted. `None`
      is the foreign-key violation of a job id that no post has. */
  function ReplaceApplication(db: Db, app: Application): (r: Option<Db>)
    ensures r.None? <==> app.jobId !in PostIds(db.posts)
    ensures r.Some? ==> r.value == db.(apps := r.value.apps)
  {
    if FindPost(db.posts, app.jobId).None? then None
    else Some(db.(apps := Filter(db.apps, LacksKey(app.jobId, app.username)) + [app]))
  }

  /** `DELETE FROM job_applications WHERE job_id = ? AND username = ?` */
  function DeleteApplication(db: Db, jobId: int, user: string): (r: Update)
    ensures r.affected == |SelectApplication(db, jobId, user)|
    ensures r.db == db.(apps := Filter(db.apps, LacksKey(jobId, user)))
  {
    var apps := Filter(db.apps, LacksKey(jobId, user));
    FilterComplement(db.apps, HasKey(jobId, user), LacksKey(jobId, user));
    Update(db.(apps := apps), |db.apps| - |apps|)
  }

  /** Deletes the job posts that `keep` rejects, together with every
      application to them. The cascade is the assumed schema behaviour: the
      handlers rely on `ON DELETE CASCADE` on `job_applications.job_id`. */
  function DeletePosts(db: Db, keep: JobPost -> bool): (r: Update)
    ensures r.affected == |db.posts| - |r.db.posts|
    ensures forall p :: p in r.db.posts <==> p in db.posts && keep(p)
    ensures forall a :: a in r.db.apps <==> a in db.apps && a.jobId !in RemovedIds(db.posts, keep)
    ensures r.db.users == db.users && r.db.nextId == db.nextId
  {
    var posts := Filter(db.posts, keep);
    var apps := Filter(db.apps, OutsideJobs(RemovedIds(db.posts, keep)));
    Update(db.(posts := posts, apps := apps), |db.posts| - |posts|)
  }

  /** `DELETE FROM job_posts WHERE id = ? AND creator_username = ?` */
  function DeleteJobPost(db: Db, id: int, user: string): (r: Update)
    ensures forall p :: p in r.db.posts <==> p in db.posts && !(p.id == id && NameEq(p.creator, user))
    ensures forall a :: a in r.db.apps ==> a in db.apps
    ensures r.db.users == db.users && r.db.nextId == db.nextId
  {
    DeletePosts(db, NotPostOf(id, user))
  }

  /** The three statements of the account deletion, in order:
      applications by the user, posts by the user (cascading to their
      applications), then the user row. */
  function DeleteAccount(db: Db, user: string): (r: Db)
    ensures forall a :: a in r.users <==> a in db.users && !NameEq(a.name, user)
    ensures forall p :: p in r.posts <==> p in db.posts && !NameEq(p.creator, user)
    ensures forall a :: a in r.apps ==> a in db.apps && !NameEq(a.username, user)
    ensures r.nextId == db.nextId
  {
    var step1 := db.(apps := Filter(db.apps, NotAppliedBy(user)));
    var step2 := DeletePosts(step1, NotCreatedBy(user)).db;
    step2.(users := Filter(step2.users, OtherAccount(user)))
  }

  // ---------------------------------------------------------------------
  // Each statement preserves the store's constraints
  // ---------------------------------------------------------------------

  lemma InsertUserValid(db: Db, name: string, password: string)
    requires Valid(db) && InsertUser(db, name, password).Some?
    ensures Valid(InsertUser(db, name, password).value)
  {
    var r := InsertUser(db, name, password).value;
    var x := Account(name, password);
    forall y | y in db.users ensures DistinctNames(y, x) {
      // otherwise the insert would have been refused
    }
    AppendPairwise(db.users, x, DistinctNames);
    assert Names(db.users) <= Names(r.users);
  }

  lemma InsertPostValid(db: Db, fields: JobFields, creator: string)
    requires Valid(db) && creator in Names(db.users)
    ensures Valid(InsertPost(db, fields, creator))
  {
    var p := JobPost(db.nextId, fields, creator);
    AppendPairwise(db.posts, p, IdsIncrease);
    assert PostIds(db.posts) <= PostIds(db.posts + [p]);
  }

  lemma ReplaceApplicationValid(db: Db, app: Application)
    requires Valid(db) && app.username in Names(db.users)
    requires ReplaceApplication(db, app).Some?
    ensures Valid(ReplaceApplication(db, app).value)
  {
    var kept := Filter(db.apps, LacksKey(app.jobId, app.username));
    FilterPairwise(db.apps, LacksKey(app.jobId, app.username), DistinctKeys);
    forall b | b in kept ensures DistinctKeys(b, app) {
    }
    AppendPairwise(kept, app, DistinctKeys);
  }

  lemma DeletePostsValid(db: Db, keep: JobPost -> bool)
    requires Valid(db)
    ensures Valid(DeletePosts(db, keep).db)
  {
    var r := DeletePosts(db, keep).db;
    FilterPairwise(db.posts, keep, IdsIncrease);
    FilterPairwise(db.apps, OutsideJobs(RemovedIds(db.posts, keep)), DistinctKeys);
    forall a | a in r.apps ensures a.jobId in PostIds(r.posts) {
      var p :| p in db.posts && p.id == a.jobId;
      assert keep(p);
    }
  }

  lemma DeleteApplicationValid(db: Db, jobId: int, user: string)
    requires Valid(db)
    ensures Valid(DeleteApplication(db, jobId, user).db)
  {
    FilterPairwise(db.apps, LacksKey(jobId, user), DistinctKeys);
  }

  lemma DeleteAccountValid(db: Db, user: string)
    requires Valid(db)
    ensures Valid(DeleteAccount(db, user))
  {
    var step1 := db.(apps := Filter(db.apps, NotAppliedBy(user)));
    FilterPairwise(db.apps, NotAppliedBy(user), DistinctKeys);
    assert Valid(step1);
    var step2 := DeletePosts(step1, NotCreatedBy(user)).db;
    DeletePostsValid(step1, NotCreatedBy(user));
    var users := Filter(step2.users, OtherAccount(user));
    FilterPairwise(step2.users, OtherAccount(user), DistinctNames);
    forall p | p in step2.posts ensures p.creator in Names(users) {
      var a :| a in step2.users && a.name == p.creator;
    }
    forall x | x in step2.apps ensures x.username in Names(users) {
      var a :| a in step2.users && a.name == x.username;
    }
  }

  // ---------------------------------------------------------------------
  // What the statements do, stated on account names as stored
  // ---------------------------------------------------------------------

  /** No two accounts share a name up to letter case, so the case-insensitive
      lookup finds at most one account. */
  lemma AccountUnique(db: Db, a: Account, b: Account)
    requires Valid(db) && a in db.users && b in db.users
    requires NameEq(a.name, b.name)
    ensures a == b
  {
    var i :| 0 <= i < |db.users| && db.users[i] == a;
    var j :| 0 <= j < |db.users| && db.users[j] == b;
    assert i == j;
  }

  /** The login lookup followed by the exact comparisons accepts exactly the
      (name, password) pairs that are stored, with the name in its stored
      letter case. */
  lemma LoginAcceptsIff(db: Db, name: string, password: string)
    requires Valid(db)
    ensures (SelectUser(db.users, name).Some?
             && SelectUser(db.users, name).value.name == name
             && SelectUser(db.users, name).value.password == password)
            <==> Account(name, password) in db.users
  {
    var r := SelectUser(db.users, name);
    if Account(name, password) in db.users {
      assert r.Some?;
      AccountUnique(db, r.value, Account(name, password));
    }
  }

  /** Usernames in applications are account names, for which the store's
      comparison is exact. */
  lemma ApplicantNamesExact(db: Db, user: string)
    requires Valid(db) && user in Names(db.users)
    ensures forall a :: a in db.apps ==> (NameEq(a.username, user) <==> a.username == user)
  {
    forall a | a in db.apps ensures NameEq(a.username, user) <==> a.username == user {
      StoredNamesExact(db, a.username, user);
    }
  }

  /** Creator names in job posts are account names, for which the store's
      comparison is exact. */
  lemma CreatorNamesExact(db: Db, user: string)
    requires Valid(db) && user in Names(db.users)
    ensures forall p :: p in db.posts ==> (NameEq(p.creator, user) <==> p.creator == user)
  {
    forall p | p in db.posts ensures NameEq(p.creator, user) <==> p.creator == user {
      StoredNamesExact(db, p.creator, user);
    }
  }

  /** The application lookup finds the user's application to the job when
      there is one, and only that row. */
  lemma SelectApplicationExact(db: Db, jobId: int, user: string)
    requires Valid(db) && user in Names(db.users)
    ensures forall a :: a in db.apps && a.jobId == jobId && a.username == user ==>
              SelectApplication(db, jobId, user) == [a]
    ensures (forall a :: a in db.apps ==> !(a.jobId == jobId && a.username == user)) ==>
              SelectApplication(db, jobId, user) == []
  {
    ApplicantNamesExact(db, user);
    var has := HasKey(jobId, user);
    forall a | a in db.apps && a.jobId == jobId && a.username == user
      ensures SelectApplication(db, jobId, user) == [a]
    {
      forall i, j | 0 <= i < j < |db.apps| ensures !(has(db.apps[i]) && has(db.apps[j])) {
        assert DistinctKeys(db.apps[i], db.apps[j]);
      }
      FilterSingle(db.apps, has, a);
    }
    if forall a :: a in db.apps ==> !(a.jobId == jobId && a.username == user) {
      FilterNone(db.apps, has);
    }
  }

  /** A new job post gets a positive id that no existing post has. */
  lemma NewPostIdFresh(db: Db, fields: JobFields, creator: string)
    requires Valid(db)
    ensures var r := InsertPost(db, fields, creator);
            r.posts[|r.posts| - 1].id > 0 && r.posts[|r.posts| - 1].id !in PostIds(db.posts)
  {
  }

  /** After `REPLACE INTO` there is exactly one application for the key, the
      one just written; every application under another key is kept. */
  lemma ReplaceLeavesOne(db: Db, app: Application)
    requires ReplaceApplication(db, app).Some?
    ensures SelectApplication(ReplaceApplication(db, app).value, app.jobId, app.username) == [app]
    ensures forall b :: !SameKey(b, app) ==>
              (b in ReplaceApplication(db, app).value.apps <==> b in db.apps)
  {
    var kept := Filter(db.apps, LacksKey(app.jobId, app.username));
    FilterAppend(kept, [app], HasKey(app.jobId, app.username));
    FilterNone(kept, HasKey(app.jobId, app.username));
    assert Filter([app], HasKey(app.jobId, app.username)) == [app];
  }

  /** Submitting again for the same key overwrites the first submission
      completely: the result is as if only the latest had been submitted. */
  lemma ReplaceOverwrites(db: Db, first: Application, latest: Application)
    requires ReplaceApplication(db, first).Some?
    requires latest.jobId == first.jobId && latest.username == first.username
    ensures ReplaceApplication(ReplaceApplication(db, first).value, latest) == ReplaceApplication(db, latest)
  {
    var lacks := LacksKey(first.jobId, first.username);
    var kept := Filter(db.apps, lacks);
    FilterAppend(kept, [first], lacks);
    FilterKeepsAll(kept, lacks);
    assert Filter([first], lacks) == [];
    assert Filter(kept + [first], lacks) == kept;
    assert ReplaceApplication(db, first).value.apps == kept + [first];
  }

  /** Withdrawing an application removes exactly the row for (`jobId`,
      `user`); zero rows affected means there was none and nothing changed. */
  lemma DeleteApplicationEffect(db: Db, jobId: int, user: string)
    requires Valid(db) && user in Names(db.users)
    ensures var r := DeleteApplication(db, jobId, user);
            && r.affected <= 1
            && (r.affected == 1 <==> exists a :: a in db.apps && a.jobId == jobId && a.username == user)
            && (r.affected == 0 ==> r.db == db)
            && (forall a :: a in r.db.apps <==> a in db.apps && !(a.jobId == jobId && a.username == user))
            && r.db.users == db.users && r.db.posts == db.posts
  {
    ApplicantNamesExact(db, user);
    SelectApplicationExact(db, jobId, user);
    if !exists a :: a in db.apps && a.jobId == jobId && a.username == user {
      FilterKeepsAll(db.apps, LacksKey(jobId, user));
    }
  }

  /** The rows `DELETE FROM job_posts WHERE id = ? AND creator_username = ?` removes. */
  function PostOf(id: int, user: string): JobPost -> bool {
    (p: JobPost) => p.id == id && NameEq(p.creator, user)
  }

  /** Deleting a job post removes it only when the user created it, and then
      removes every application to it; zero rows affected means the post
      does not exist or belongs to someone else, and nothing changed. */
  lemma DeleteJobPostEffect(db: Db, id: int, user: string)
    requires Valid(db) && user in Names(db.users)
    ensures var r := DeleteJobPost(db, id, user);
            && r.affected <= 1
            && (r.affected == 1 <==> exists p :: p in db.posts && p.id == id && p.creator == user)
            && (r.affected == 0 ==> r.db == db)
            && (forall p :: p in r.db.posts <==> p in db.posts && !(p.id == id && p.creator == user))
            && (r.affected == 1 ==> forall a :: a in r.db.apps <==> a in db.apps && a.jobId != id)
            && r.db.users == db.users
  {
    CreatorNamesExact(db, user);
    FilterComplement(db.posts, PostOf(id, user), NotPostOf(id, user));
    if p :| p in db.posts && p.id == id && p.creator == user {
      DeleteOwnedPost(db, p, user);
    } else {
      DeleteNoOwnedPost(db, id, user);
    }
  }

  /** The post the user owns is the only row the delete matches (ids are
      unique), so exactly its id is removed. */
  lemma DeleteOwnedPost(db: Db, p: JobPost, user: string)
    requires Valid(db) && p in db.posts && NameEq(p.creator, user)
    ensures Filter(db.posts, PostOf(p.id, user)) == [p]
    ensures RemovedIds(db.posts, NotPostOf(p.id, user)) == {p.id}
  {
    forall i, j | 0 <= i < j < |db.posts|
      ensures !(PostOf(p.id, user)(db.posts[i]) && PostOf(p.id, user)(db.posts[j]))
    {
      assert IdsIncrease(db.posts[i], db.posts[j]);
    }
    FilterSingle(db.posts, PostOf(p.id, user), p);
  }

  /** Without a post of the user's with that id, the delete matches nothing
      and the tables stay as they were. */
  lemma DeleteNoOwnedPost(db: Db, id: int, user: string)
    requires forall p :: p in db.posts ==> !PostOf(id, user)(p)
    ensures DeleteJobPost(db, id, user).db == db
  {
    var keep := NotPostOf(id, user);
    FilterKeepsAll(db.posts, keep);
    assert RemovedIds(db.posts, keep) == {};
    FilterKeepsAll(db.apps, OutsideJobs(RemovedIds(db.posts, keep)));
  }

  /** The ids of the job posts `user` created. */
  function CreatedIds(db: Db, user: string): set<int> {
    set p | p in db.posts && p.creator == user :: p.id
  }

  /** Deleting an account removes the account, every post it created, every
      application it submitted and every application to its posts; all other
      rows stay, and the constraints still hold. */
  lemma DeleteAccountEffect(db: Db, user: string)
    requires Valid(db) && user in Names(db.users)
    ensures var r := DeleteAccount(db, user);
            && (forall a :: a in r.users <==> a in db.users && a.name != user)
            && (forall p :: p in r.posts <==> p in db.posts && p.creator != user)
            && (forall a :: a in r.apps <==>
                  a in db.apps && a.username != user && a.jobId !in CreatedIds(db, user))
            && r.nextId == db.nextId
            && Valid(r)
  {
    DeleteAccountValid(db, user);
    ApplicantNamesExact(db, user);
    CreatorNamesExact(db, user);
    forall a | a in db.users ensures NameEq(a.name, user) <==> a.name == user {
      StoredNamesExact(db, a.name, user);
    }
    var step1 := db.(apps := Filter(db.apps, NotAppliedBy(user)));
    assert RemovedIds(step1.posts, NotCreatedBy(user)) == CreatedIds(db, user);
  }

  /** With every application pointing at an existing post, the join keeps
      every application, in order. */
  lemma {:induction false} JoinTotal(apps: seq<Application>, posts: seq<JobPost>)
    requires forall a :: a in apps ==> a.jobId in PostIds(posts)
    ensures |Join(apps, posts)| == |apps|
    ensures forall k :: 0 <= k < |apps| ==> Join(apps, posts)[k].0 == apps[k]
  {
    if apps != [] {
      assert forall a :: a in apps[1..] ==> a in apps;
      JoinTotal(apps[1..], posts);
    }
  }
}
