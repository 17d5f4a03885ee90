/**
 * The relational store behind AutoVCS, as tables held by one object:
 * users (a user's id is its row index), commits, pull requests (which own
 * their comments) and the process-wide user cache of `GitUser.forUser`.
 */
module Store {
  import opened Common
  import opened GitUsers
  import opened Commits
  import opened PullRequests

  datatype SaveError = MissingAuthorAndCommitter

  class Database {
    var users: seq<GitUser>
    var userCache: map<string, UserId>
    var commits: seq<GHCommit>
    var pullRequests: seq<GHPullRequest>

    /** Ids are row indices, and the cache only refers to stored users. */
    predicate Valid()
      reads this
    {
      && (forall i :: 0 <= i < |users| ==> users[i].id == i)
      && (forall k :: k in userCache ==> userCache[k] < |users|)
    }

    constructor ()
      ensures Valid()
      ensures users == [] && userCache == map[] && commits == [] && pullRequests == []
    {
      users := [];
      userCache := map[];
      commits := [];
      pullRequests := [];
    }

    /** `findById`: the user row with that id, if any. */
    function FindUser(id: int): (r: Option<GitUser>)
      reads this
      requires Valid()
      ensures r.Some? <==> 0 <= id < |users|
      ensures r.Some? ==> r.value.id == id && r.value in users
    {
      if 0 <= id < |users| then Some(users[id]) else None
    }

    /**
     * `GHCommitService.save` and `GHCommit.save`: a commit with neither an
     * author nor a committer is refused and nothing is stored; any other
     * commit is appended.
     */
    method SaveCommit(c: GHCommit) returns (r: Result<(), SaveError>)
      modifies this`commits
      ensures r.Ok? <==> CanSave(c)
      ensures r.Ok? ==> commits == old(commits) + [c]
      ensures r.Err? ==> commits == old(commits)
    {
      if c.author.None? && c.committer.None? {
        return Err(MissingAuthorAndCommitter);
      }
      commits := commits + [c];
      return Ok(());
    }
  }
}
