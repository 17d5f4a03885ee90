/**
 * Turning a commit reported by the GitHub API into a stored commit
 * (`GHCommitService.forCommit` and the API constructor of `GHCommit`).
 */
module CommitIngestion {
  import opened Common
  import opened GitUsers
  import opened Commits
  import opened Store
  import opened UserDirectory

  /** The line statistics of one changed file. */
  datatype FileStat = FileStat(fileName: string, linesAdded: int, linesDeleted: int, linesChanged: int)

  /**
   * A commit as the API reports it. `files` is `None` when the file list
   * cannot be fetched, `date` when the date cannot be read, `parents` when
   * the parent list cannot be fetched.
   */
  datatype ApiCommit = ApiCommit(
    author: AuthorInfo,
    committer: AuthorInfo,
    message: Option<string>,
    sha: Option<string>,
    files: Option<seq<FileStat>>,
    date: Option<int>,
    parents: Option<seq<string>>,
    htmlUrl: string)

  /**
   * Why a commit cannot be converted: its file list cannot be fetched, or a
   * user lookup fails; `forCommit` rethrows either.
   */
  datatype IngestError = FilesUnavailable | UserLookupFailed

  function Added(files: seq<FileStat>): seq<int>
  {
    seq(|files|, i requires 0 <= i < |files| => files[i].linesAdded)
  }

  function Deleted(files: seq<FileStat>): seq<int>
  {
    seq(|files|, i requires 0 <= i < |files| => files[i].linesDeleted)
  }

  function Changed(files: seq<FileStat>): seq<int>
  {
    seq(|files|, i requires 0 <= i < |files| => files[i].linesChanged)
  }

  predicate IsModified(f: FileStat)
  {
    !(f.linesAdded == 0 && f.linesDeleted == 0 && f.linesChanged == 0)
  }

  /** A copy of the file list with the untouched files removed (`removeIf` on a copy). */
  function Modified(files: seq<FileStat>): (r: seq<FileStat>)
    ensures |r| <= |files|
    ensures forall f :: f in r <==> f in files && IsModified(f)
    ensures |r| == |files| <==> forall i :: 0 <= i < |files| ==> IsModified(files[i])
    decreases |files|
  {
    if files == [] then []
    else
      var rest := Modified(files[..|files| - 1]);
      var last := files[|files| - 1];
      assert files == files[..|files| - 1] + [last];
      if IsModified(last) then rest + [last] else rest
  }

  /**
   * The fields read from the API once the author and committer are resolved:
   * line counts are sums over the files, `filesChanged` counts the modified
   * files, the merge flag means exactly two parents, the parent is recorded
   * only for exactly one, an unreadable date leaves the date unset, and a
   * null branch name is not recorded. A file list that cannot be fetched
   * aborts the conversion.
   */
  function FromApi(api: ApiCommit, author: UserId, committer: UserId, branch: Option<string>): (r: Result<GHCommit, IngestError>)
    ensures r.Err? <==> api.files.None?
    ensures r.Ok? ==>
      var c := r.value;
      var files := api.files.value;
      && c.author == Some(author) && c.committer == Some(committer)
      && c.sha1 == api.sha && c.message == api.message && c.url == Some(api.htmlUrl)
      && c.linesAdded == Sum(Added(files))
      && c.linesRemoved == Sum(Deleted(files))
      && c.linesChanged == Sum(Changed(files))
      && c.filesChanged == |Modified(files)| <= |files|
      && c.commitDate == api.date
      && (c.isMergeCommit <==> api.parents.Some? && |api.parents.value| == 2)
      && (c.parent.Some? <==> api.parents.Some? && |api.parents.value| == 1)
      && (c.parent.Some? ==> c.parent.value == api.parents.value[0])
      && c.branches == (if branch.Some? then {branch.value} else {})
      && c.repository.None?
  {
    if api.files.None? then Err(FilesUnavailable)
    else
      var files := api.files.value;
      var c := NewCommit().(
        author := Some(author),
        committer := Some(committer),
        message := api.message,
        sha1 := api.sha,
        linesAdded := Sum(Added(files)),
        linesRemoved := Sum(Deleted(files)),
        linesChanged := Sum(Changed(files)),
        filesChanged := |Modified(files)|,
        commitDate := api.date,
        isMergeCommit := api.parents.Some? && |api.parents.value| == 2,
        parent := if api.parents.Some? && |api.parents.value| == 1 then Some(api.parents.value[0]) else None,
        url := Some(api.htmlUrl));
      Ok(AddBranch(c, branch))
  }

  /** Converting for a branch is converting without one and then adding the branch. */
  lemma FromApiForBranch(api: ApiCommit, author: UserId, committer: UserId, branch: Option<string>)
    requires api.files.Some?
    ensures FromApi(api, author, committer, branch).value == AddBranch(FromApi(api, author, committer, None).value, branch)
  {
  }

  /** A commit whose files all have non-negative statistics has non-negative totals. */
  lemma NonNegativeStatistics(api: ApiCommit, author: UserId, committer: UserId, branch: Option<string>)
    requires api.files.Some?
    requires forall f :: f in api.files.value ==> f.linesAdded >= 0 && f.linesDeleted >= 0 && f.linesChanged >= 0
    ensures var c := FromApi(api, author, committer, branch).value;
      c.linesAdded >= 0 && c.linesRemoved >= 0 && c.linesChanged >= 0
  {
    var files := api.files.value;
    assert forall i :: 0 <= i < |files| ==> files[i] in files;
    SumOfNaturals(Added(files));
    SumOfNaturals(Deleted(files));
    SumOfNaturals(Changed(files));
  }

  class CommitService {
    const users: Directory

    constructor (users: Directory)
      ensures this.users == users
    {
      this.users := users;
    }

    /**
     * `GHCommitService.forCommit`: the author and then the committer are
     * resolved through the user service (which may save new users) before
     * the rest of the commit is read. A failed lookup aborts the conversion;
     * users saved before it stay saved.
     */
    method ForCommit(api: ApiCommit, branch: Option<string>, weak: bool, domain: string) returns (r: Result<GHCommit, IngestError>)
      requires users.db.Valid()
      modifies users.db`users
      ensures users.db.Valid()
      ensures var ra := ResolveAuthor(old(users.db.users), api.author, weak, domain);
        if ra.Err? then r == Err(UserLookupFailed) && users.db.users == old(users.db.users)
        else
          var rc := ResolveAuthor(ra.value.1, api.committer, weak, domain);
          if rc.Err? then r == Err(UserLookupFailed) && users.db.users == ra.value.1
          else users.db.users == rc.value.1 && r == FromApi(api, ra.value.0, rc.value.0, branch)
    {
      var a := users.ForAuthor(api.author, weak, domain);
      if a.Err? {
        return Err(UserLookupFailed);
      }
      var c := users.ForAuthor(api.committer, weak, domain);
      if c.Err? {
        return Err(UserLookupFailed);
      }
      r := FromApi(api, a.value, c.value, branch);
    }

    /** The API constructor of `GHCommit`: the same conversion with the cache-backed `GitUser.forUser`. */
    method ForCommitCached(api: ApiCommit, branch: Option<string>) returns (r: Result<GHCommit, IngestError>)
      requires users.db.Valid()
      modifies users.db`users, users.db`userCache
      ensures users.db.Valid()
      ensures var (a, users1, cache1) := CachedAuthor(old(users.db.users), old(users.db.userCache), api.author);
        var (c, users2, cache2) := CachedAuthor(users1, cache1, api.committer);
        users.db.users == users2 && users.db.userCache == cache2 && r == FromApi(api, a, c, branch)
    {
      var a := users.CachedForAuthor(api.author);
      var c := users.CachedForAuthor(api.committer);
      r := FromApi(api, a, c, branch);
    }
  }
}
