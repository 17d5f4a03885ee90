/**
 * Pull requests and their comments (`GHPullRequest`, `GHComment`).
 */
module PullRequests {
  import opened Common
  import opened GitUsers
  import opened Commits

  /** A comment row; it has no equality of its own, so two comments are never merged. */
  datatype GHComment = GHComment(commenter: Option<UserId>, comment: Option<string>, timestamp: Option<int>)

  datatype GHPullRequest = GHPullRequest(
    repository: Option<RepoId>,
    comments: seq<GHComment>,
    openedAt: int,
    closedAt: Option<int>,
    number: int,
    mergedBy: Option<UserId>,
    openedBy: Option<UserId>,
    title: Option<string>,
    body: Option<string>,
    url: string)

  /**
   * A pull request as the GitHub API reports it, with its users already
   * resolved to rows. `None` marks a value that was absent or whose request
   * failed; a comment list that failed to load is `None` as well.
   */
  datatype ApiPullRequest = ApiPullRequest(
    repository: Option<RepoId>,
    number: int,
    createdAt: Option<int>,
    closedAt: Option<int>,
    issueComments: Option<seq<GHComment>>,
    reviewComments: Option<seq<GHComment>>,
    mergedBy: Option<UserId>,
    openedBy: Option<UserId>,
    title: Option<string>,
    body: Option<string>,
    htmlUrl: string)

  datatype PullRequestError = OpeningDateUnavailable | OpenerUnavailable

  function OrEmpty(l: Option<seq<GHComment>>): seq<GHComment>
  {
    if l.None? then [] else l.value
  }

  /**
   * The API constructor. A missing opening date or opener aborts the
   * conversion; a missing close date or merger leaves that field unset; the
   * comments are the issue comments followed by the review comments, a list
   * that failed to load contributing none.
   */
  function FromApi(p: ApiPullRequest): (r: Result<GHPullRequest, PullRequestError>)
    ensures p.createdAt.None? ==> r == Err(OpeningDateUnavailable)
    ensures p.createdAt.Some? && p.openedBy.None? ==> r == Err(OpenerUnavailable)
    ensures r.Ok? <==> p.createdAt.Some? && p.openedBy.Some?
    ensures r.Ok? ==>
      && r.value.openedAt == p.createdAt.value
      && r.value.openedBy == p.openedBy
      && r.value.closedAt == p.closedAt
      && r.value.mergedBy == p.mergedBy
      && r.value.comments == OrEmpty(p.issueComments) + OrEmpty(p.reviewComments)
      && r.value.number == p.number && r.value.repository == p.repository
      && r.value.title == p.title && r.value.body == p.body && r.value.url == p.htmlUrl
  {
    if p.createdAt.None? then Err(OpeningDateUnavailable)
    else if p.openedBy.None? then Err(OpenerUnavailable)
    else
      Ok(GHPullRequest(p.repository, OrEmpty(p.issueComments) + OrEmpty(p.reviewComments),
                       p.createdAt.value, p.closedAt, p.number, p.mergedBy, p.openedBy,
                       p.title, p.body, p.htmlUrl))
  }

  /** Every fetched comment is kept, and only those. */
  lemma FromApiKeepsEveryComment(p: ApiPullRequest, c: GHComment)
    requires FromApi(p).Ok?
    ensures c in FromApi(p).value.comments <==>
      (p.issueComments.Some? && c in p.issueComments.value) || (p.reviewComments.Some? && c in p.reviewComments.value)
  {
  }

  /** `equals`: same number and the same repository. */
  predicate Equals(a: GHPullRequest, b: GHPullRequest)
  {
    a.number == b.number && a.repository == b.repository
  }

  /**
   * `hashCode`: `Objects.hash(number, repository)` in 32-bit arithmetic;
   * `repoHash` is the repository's identity hash (0 for null).
   */
  function HashCode(p: GHPullRequest, repoHash: RepoId -> int): int
  {
    Wrap32(31 * (31 + p.number) + (if p.repository.None? then 0 else repoHash(p.repository.value)))
  }

  /** Equal pull requests hash alike, whatever the repository hash. */
  lemma EqualPullRequestsHashAlike(a: GHPullRequest, b: GHPullRequest, repoHash: RepoId -> int)
    requires Equals(a, b)
    ensures HashCode(a, repoHash) == HashCode(b, repoHash)
  {
  }

  /** What the UI shows of a pull request (`DisplayPullRequest`). */
  datatype DisplayPullRequest = DisplayPullRequest(repository: string, number: int, title: Option<string>, body: Option<string>, url: string)

  /** `format()`: number, title, body and url copied; `repositoryText` is the repository's `toString()`. */
  function Display(p: GHPullRequest, repositoryText: string): (d: DisplayPullRequest)
    ensures d.number == p.number && d.title == p.title && d.body == p.body && d.url == p.url
    ensures d.repository == repositoryText
  {
    DisplayPullRequest(repositoryText, p.number, p.title, p.body, p.url)
  }
}
