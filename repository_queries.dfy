/**
 * The repository endpoints of `APIRepositoryController`: the branches and
 * members of a stored repository, and starting a populate run.
 *
 * A repository is looked up before these queries run; the lookup's answer
 * is the `repo` argument, where `None` (repository not found) selects the
 * rows whose repository is null, as a derived query does with a null
 * argument.
 */
module RepositoryQueries {
  import opened Common
  import opened GitUsers
  import opened Commits
  import opened PullRequests
  import opened Store
  import opened FetchProgress
  import opened PopulateData

  // ---------------------------------------------------------------------
  // Branches

  /** The branch names carried by the repository's commits. */
  function Branches(commits: seq<GHCommit>, repo: Option<RepoId>): set<string>
  {
    if commits == [] then {}
    else
      var c := commits[|commits| - 1];
      Branches(commits[..|commits| - 1], repo) + (if c.repository == repo then c.branches else {})
  }

  /** A name is a branch of the repository iff some commit of the repository carries it. */
  lemma {:induction false} BranchesAreUnionOfCommitBranches(commits: seq<GHCommit>, repo: Option<RepoId>, b: string)
    ensures b in Branches(commits, repo) <==>
      exists i :: 0 <= i < |commits| && commits[i].repository == repo && b in commits[i].branches
    decreases |commits|
  {
    if commits != [] {
      var prefix := commits[..|commits| - 1];
      BranchesAreUnionOfCommitBranches(prefix, repo, b);
      if exists i :: 0 <= i < |commits| && commits[i].repository == repo && b in commits[i].branches {
        var i :| 0 <= i < |commits| && commits[i].repository == repo && b in commits[i].branches;
        if i < |prefix| {
          assert prefix[i] == commits[i];
        }
      }
      if exists i :: 0 <= i < |prefix| && prefix[i].repository == repo && b in prefix[i].branches {
        var i :| 0 <= i < |prefix| && prefix[i].repository == repo && b in prefix[i].branches;
        assert commits[i] == prefix[i];
      }
    }
  }

  // ---------------------------------------------------------------------
  // Members

  /** The authors of the repository's commits; `None` stands for a null author. */
  function Authors(commits: seq<GHCommit>, repo: Option<RepoId>): set<Option<UserId>>
  {
    set i | 0 <= i < |commits| && commits[i].repository == repo :: commits[i].author
  }

  /** The openers of the repository's pull requests. */
  function Openers(prs: seq<GHPullRequest>, repo: Option<RepoId>): set<Option<UserId>>
  {
    set i | 0 <= i < |prs| && prs[i].repository == repo :: prs[i].openedBy
  }

  /** The commenters on the repository's pull requests. */
  function Commenters(prs: seq<GHPullRequest>, repo: Option<RepoId>): set<Option<UserId>>
  {
    set i, j | 0 <= i < |prs| && prs[i].repository == repo && 0 <= j < |prs[i].comments| :: prs[i].comments[j].commenter
  }

  /** Everyone who took part in the repository. */
  function Candidates(db: Database, repo: Option<RepoId>): set<Option<UserId>>
    reads db
  {
    Authors(db.commits, repo) + Openers(db.pullRequests, repo) + Commenters(db.pullRequests, repo)
  }

  /** Every stored user reference names a stored user. */
  predicate ReferencesValid(db: Database)
    reads db
  {
    && (forall i :: 0 <= i < |db.commits| && db.commits[i].author.Some? ==> db.commits[i].author.value < |db.users|)
    && (forall i :: 0 <= i < |db.pullRequests| && db.pullRequests[i].openedBy.Some? ==>
          db.pullRequests[i].openedBy.value < |db.users|)
    && (forall i, j ::
          0 <= i < |db.pullRequests| && 0 <= j < |db.pullRequests[i].comments| && db.pullRequests[i].comments[j].commenter.Some?
          ==> db.pullRequests[i].comments[j].commenter.value < |db.users|)
  }

  datatype MembersError = NullMember

  /**
   * `getRepositoryMembers`: the commit authors, pull-request openers and
   * commenters of the repository, less the excluded users. A null among
   * them makes the exclusion filter fail.
   */
  method Members(db: Database, repo: Option<RepoId>) returns (r: Result<set<UserId>, MembersError>)
    requires db.Valid() && ReferencesValid(db)
    ensures r.Err? <==> None in Candidates(db, repo)
    ensures r.Ok? ==> forall u :: u in r.value ==> u < |db.users| && !db.users[u].excluded
    ensures r.Ok? ==> forall u :: u in r.value <==> Some(u) in Candidates(db, repo) && !db.users[u].excluded
  {
    var authors := CollectAuthors(db.commits, repo);
    var others := CollectPullRequestUsers(db.pullRequests, repo);
    var users := authors + others;
    if None in users {
      return Err(NullMember);
    }
    var members := RemoveExcluded(db, repo, users);
    return Ok(members);
  }

  /** The commit-author stream of `getRepositoryMembers`. */
  method CollectAuthors(commits: seq<GHCommit>, repo: Option<RepoId>) returns (users: set<Option<UserId>>)
    ensures users == Authors(commits, repo)
  {
    users := {};
    var i := 0;
    while i < |commits|
      invariant 0 <= i <= |commits|
      invariant users == Authors(commits[..i], repo)
    {
      assert commits[..i + 1][..i] == commits[..i];
      if commits[i].repository == repo {
        users := users + {commits[i].author};
      }
      i := i + 1;
    }
    assert commits[..i] == commits;
  }

  /** The openers and commenters added to the members. */
  method CollectPullRequestUsers(prs: seq<GHPullRequest>, repo: Option<RepoId>) returns (users: set<Option<UserId>>)
    ensures users == Openers(prs, repo) + Commenters(prs, repo)
  {
    users := {};
    var k := 0;
    while k < |prs|
      invariant 0 <= k <= |prs|
      invariant users == Openers(prs[..k], repo) + Commenters(prs[..k], repo)
    {
      if prs[k].repository == repo {
        users := users + {prs[k].openedBy} + CommentersOf(prs[k]);
      }
      OpenersStep(prs, k, repo);
      CommentersStep(prs, k, repo);
      k := k + 1;
    }
    assert prs[..k] == prs;
  }

  /** The stored, non-excluded users among `s`. */
  function Kept(users: seq<GitUser>, s: set<Option<UserId>>): set<UserId>
  {
    set u: UserId | Some(u) in s && u < |users| && !users[u].excluded
  }

  lemma KeptStep(users: seq<GitUser>, done: set<Option<UserId>>, u: UserId)
    requires u < |users|
    ensures Kept(users, done + {Some(u)}) == Kept(users, done) + (if users[u].excluded then {} else {u})
  {
  }

  /** The `removeIf` dropping excluded users from a null-free candidate set. */
  method RemoveExcluded(db: Database, repo: Option<RepoId>, users: set<Option<UserId>>) returns (members: set<UserId>)
    requires ReferencesValid(db) && users == Candidates(db, repo) && None !in users
    ensures forall u :: u in members ==> u < |db.users| && !db.users[u].excluded
    ensures forall u :: u in members <==> Some(u) in users && !db.users[u].excluded
  {
    forall u | u in users
      ensures u.Some? && u.value < |db.users|
    {
      CandidateIsStored(db, repo, u.value);
    }
    members := KeepIncluded(db.users, users);
  }

  /** The loop of `removeIf` over stored users. */
  method KeepIncluded(stored: seq<GitUser>, users: set<Option<UserId>>) returns (members: set<UserId>)
    requires forall u :: u in users ==> u.Some? && u.value < |stored|
    ensures members == Kept(stored, users)
  {
    members := {};
    var rest := users;
    while rest != {}
      invariant rest <= users
      invariant members == Kept(stored, users - rest)
      decreases |rest|
    {
      var u :| u in rest;
      KeptStep(stored, users - rest, u.value);
      if !stored[u.value].excluded {
        members := members + {u.value};
      }
      assert users - (rest - {u}) == (users - rest) + {u};
      rest := rest - {u};
    }
    assert users - rest == users;
  }

  /** The commenters on one pull request. */
  function CommentersOf(p: GHPullRequest): set<Option<UserId>>
  {
    set j | 0 <= j < |p.comments| :: p.comments[j].commenter
  }

  lemma OpenersStep(prs: seq<GHPullRequest>, k: nat, repo: Option<RepoId>)
    requires k < |prs|
    ensures Openers(prs[..k + 1], repo) == Openers(prs[..k], repo) + (if prs[k].repository == repo then {prs[k].openedBy} else {})
  {
    var next := prs[..k + 1];
    assert forall i :: 0 <= i < k ==> next[i] == prs[..k][i];
  }

  lemma CommentersStep(prs: seq<GHPullRequest>, k: nat, repo: Option<RepoId>)
    requires k < |prs|
    ensures Commenters(prs[..k + 1], repo) == Commenters(prs[..k], repo) + (if prs[k].repository == repo then CommentersOf(prs[k]) else {})
  {
    var next := prs[..k + 1];
    assert forall i :: 0 <= i < k ==> next[i] == prs[..k][i];
    assert next[k] == prs[k];
  }

  /** Any candidate named by id is a stored user. */
  lemma CandidateIsStored(db: Database, repo: Option<RepoId>, u: UserId)
    requires ReferencesValid(db) && Some(u) in Candidates(db, repo)
    ensures u < |db.users|
  {
    if Some(u) in Authors(db.commits, repo) {
      var i :| 0 <= i < |db.commits| && db.commits[i].repository == repo && db.commits[i].author == Some(u);
    } else if Some(u) in Openers(db.pullRequests, repo) {
      var i :| 0 <= i < |db.pullRequests| && db.pullRequests[i].repository == repo && db.pullRequests[i].openedBy == Some(u);
    } else {
      var i, j :| 0 <= i < |db.pullRequests| && db.pullRequests[i].repository == repo && 0 <= j < |db.pullRequests[i].comments|
        && db.pullRequests[i].comments[j].commenter == Some(u);
    }
  }

  // ---------------------------------------------------------------------
  // Starting a populate run

  /**
   * `populateRepositories`: saves one fresh progress record, runs the
   * populate service on it and answers its id with OK.
   */
  method PopulateRepositories(form: PopulateDataForm, store: ProgressStore, gh: GitHubView, isExcluded: UserId -> bool)
    returns (id: Option<nat>, status: HttpStatus, progress: DataFetchProgress)
    requires store.Valid()
    modifies store
    ensures store.Valid()
    ensures fresh(progress) && store.records == old(store.records) + [progress]
    ensures id == Some(|old(store.records)|) && progress.id == id && status == OK
  {
    progress := new DataFetchProgress();
    store.Save(progress);
    Populate(form, progress, gh, isExcluded);
    return progress.id, OK, progress;
  }
}
