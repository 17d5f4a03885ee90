/**
 * A tracked GitHub repository (`GHRepository`): its names and the sets of
 * commits and pull requests that belong to it.
 */
module Repositories {
  import opened Common
  import opened Commits
  import opened PullRequests

  /** The commit set after `addCommit(c)`: a commit with a known SHA is ignored. */
  function WithCommit(m: map<Option<string>, GHCommit>, c: GHCommit, id: RepoId): (r: map<Option<string>, GHCommit>)
    ensures c.sha1 in m ==> r == m
    ensures c.sha1 !in m ==> r == m[c.sha1 := c.(repository := Some(id))]
  {
    if c.sha1 in m then m else m[c.sha1 := c.(repository := Some(id))]
  }

  /** Adding a commit twice is adding it once, and the set grows by at most one. */
  lemma WithCommitIdempotent(m: map<Option<string>, GHCommit>, c: GHCommit, id: RepoId)
    ensures WithCommit(WithCommit(m, c, id), c, id) == WithCommit(m, c, id)
    ensures |m| <= |WithCommit(m, c, id)| <= |m| + 1
    ensures WithCommit(m, c, id).Keys == m.Keys + {c.sha1}
  {
  }

  /** The commit set after adding each commit of `cs` in order. */
  function WithCommits(m: map<Option<string>, GHCommit>, cs: seq<GHCommit>, id: RepoId): map<Option<string>, GHCommit>
  {
    if cs == [] then m else WithCommit(WithCommits(m, cs[..|cs| - 1], id), cs[|cs| - 1], id)
  }

  /** After adding a list, the SHAs present are the earlier ones and the listed ones. */
  lemma {:induction false} WithCommitsKeys(m: map<Option<string>, GHCommit>, cs: seq<GHCommit>, id: RepoId)
    ensures WithCommits(m, cs, id).Keys == m.Keys + set i | 0 <= i < |cs| :: cs[i].sha1
    decreases |cs|
  {
    if cs != [] {
      var prefix := cs[..|cs| - 1];
      WithCommitsKeys(m, prefix, id);
      assert (set i | 0 <= i < |cs| :: cs[i].sha1) == (set i | 0 <= i < |prefix| :: prefix[i].sha1) + {cs[|cs| - 1].sha1};
    }
  }

  /** A SHA already present keeps its commit. */
  lemma {:induction false} WithCommitsKeepsPresent(m: map<Option<string>, GHCommit>, cs: seq<GHCommit>, id: RepoId, k: Option<string>)
    requires k in m
    ensures k in WithCommits(m, cs, id) && WithCommits(m, cs, id)[k] == m[k]
    decreases |cs|
  {
    if cs != [] {
      WithCommitsKeepsPresent(m, cs[..|cs| - 1], id, k);
    }
  }

  /** A new SHA holds the first listed commit with that SHA. */
  lemma {:induction false} WithCommitsKeepsFirst(m: map<Option<string>, GHCommit>, cs: seq<GHCommit>, id: RepoId, i: int)
    requires 0 <= i < |cs| && cs[i].sha1 !in m
    requires forall j :: 0 <= j < i ==> cs[j].sha1 != cs[i].sha1
    ensures cs[i].sha1 in WithCommits(m, cs, id)
    ensures WithCommits(m, cs, id)[cs[i].sha1] == cs[i].(repository := Some(id))
    decreases |cs|
  {
    var prefix := cs[..|cs| - 1];
    var prev := WithCommits(m, prefix, id);
    if i < |cs| - 1 {
      WithCommitsKeepsFirst(m, prefix, id, i);
    } else {
      WithCommitsKeys(m, prefix, id);
      assert cs[i].sha1 !in prev;
    }
  }

  /** The pull-request set after `addPullRequest(p)`: one equal to a present request is ignored. */
  function WithPullRequest(s: seq<GHPullRequest>, p: GHPullRequest, id: RepoId): (r: seq<GHPullRequest>)
    ensures (exists q :: q in s && PullRequests.Equals(q, p)) ==> r == s
    ensures !(exists q :: q in s && PullRequests.Equals(q, p)) ==> r == s + [p.(repository := Some(id))]
  {
    if exists q :: q in s && PullRequests.Equals(q, p) then s else s + [p.(repository := Some(id))]
  }

  /** No two stored requests are equal. */
  predicate DistinctRequests(s: seq<GHPullRequest>)
  {
    forall i, j :: 0 <= i < j < |s| ==> !PullRequests.Equals(s[i], s[j])
  }

  /**
   * Adding keeps the requests distinct provided the request is already
   * attached to this repository, and adding it twice is adding it once.
   */
  lemma WithPullRequestKeepsDistinct(s: seq<GHPullRequest>, p: GHPullRequest, id: RepoId)
    requires DistinctRequests(s)
    requires p.repository == Some(id)
    ensures DistinctRequests(WithPullRequest(s, p, id))
    ensures WithPullRequest(WithPullRequest(s, p, id), p, id) == WithPullRequest(s, p, id)
  {
    var r := WithPullRequest(s, p, id);
    if r != s {
      assert r[|s|] == p;
      assert p in r;
    } else {
      var q :| q in s && PullRequests.Equals(q, p);
      assert q in r;
    }
  }

  /** The pull-request set after `addPullRequests(ps)`. */
  function WithPullRequests(s: seq<GHPullRequest>, ps: seq<GHPullRequest>, id: RepoId): seq<GHPullRequest>
  {
    if ps == [] then s else WithPullRequest(WithPullRequests(s, ps[..|ps| - 1], id), ps[|ps| - 1], id)
  }

  /** `getByNameAndOrganisation`'s cache key. */
  function CacheKey(repoName: Option<string>, organisationName: Option<string>): string
  {
    Show(organisationName) + ":" + Show(repoName)
  }

  /** The flat JSON form (`GithubRepository`). */
  datatype GithubRepository = GithubRepository(name: Option<string>, organisation: Option<string>, display: string)

  class GHRepository {
    const id: RepoId
    var repositoryName: Option<string>
    var organisationName: Option<string>
    /** The commit set, keyed by the SHA its equality uses. */
    var commits: map<Option<string>, GHCommit>
    var pullRequests: seq<GHPullRequest>

    /** Each commit is filed under its own SHA and belongs here. */
    predicate Valid()
      reads this
    {
      forall k :: k in commits ==> commits[k].sha1 == k && commits[k].repository == Some(id)
    }

    /** A new repository has no names and empty commit and pull-request sets. */
    constructor (id: RepoId)
      ensures Valid()
      ensures this.id == id && repositoryName.None? && organisationName.None?
      ensures commits == map[] && pullRequests == []
    {
      this.id := id;
      repositoryName := None;
      organisationName := None;
      commits := map[];
      pullRequests := [];
    }

    method SetRepositoryName(name: Option<string>) returns (r: GHRepository)
      modifies this`repositoryName
      ensures r == this && repositoryName == name
    {
      repositoryName := name;
      r := this;
    }

    method SetOrganisationName(name: Option<string>) returns (r: GHRepository)
      modifies this`organisationName
      ensures r == this && organisationName == name
    {
      organisationName := name;
      r := this;
    }

    /** `addCommit`: no-op for a known SHA, otherwise the commit joins and is attached here. */
    method AddCommit(c: GHCommit)
      requires Valid()
      modifies this`commits
      ensures Valid()
      ensures commits == WithCommit(old(commits), c, id)
    {
      if c.sha1 in commits {
        return;
      }
      commits := commits[c.sha1 := c.(repository := Some(id))];
    }

    /**
     * `addCommits`: the set is first reloaded from the stored commits of this
     * repository (`stored`), then each commit is added in order.
     */
    method AddCommits(stored: seq<GHCommit>, cs: seq<GHCommit>)
      requires forall c :: c in stored ==> c.repository == Some(id)
      modifies this`commits
      ensures Valid()
      ensures commits == WithCommits(WithCommits(map[], stored, id), cs, id)
    {
      commits := map[];
      var i := 0;
      while i < |stored|
        invariant 0 <= i <= |stored|
        invariant Valid()
        invariant commits == WithCommits(map[], stored[..i], id)
      {
        assert stored[..i + 1][..i] == stored[..i];
        AddCommit(stored[i]);
        i := i + 1;
      }
      assert stored[..i] == stored;
      i := 0;
      while i < |cs|
        invariant 0 <= i <= |cs|
        invariant Valid()
        invariant commits == WithCommits(WithCommits(map[], stored, id), cs[..i], id)
      {
        assert cs[..i + 1][..i] == cs[..i];
        AddCommit(cs[i]);
        i := i + 1;
      }
      assert cs[..i] == cs;
    }

    /** `addPullRequest`: no-op when an equal request is present, otherwise it joins and is attached here. */
    method AddPullRequest(p: GHPullRequest)
      modifies this`pullRequests
      ensures pullRequests == WithPullRequest(old(pullRequests), p, id)
    {
      var i := 0;
      while i < |pullRequests|
        invariant 0 <= i <= |pullRequests|
        invariant forall j :: 0 <= j < i ==> !PullRequests.Equals(pullRequests[j], p)
      {
        if PullRequests.Equals(pullRequests[i], p) {
          assert pullRequests[i] in pullRequests;
          return;
        }
        i := i + 1;
      }
      pullRequests := pullRequests + [p.(repository := Some(id))];
    }

    /** `addPullRequests`: each request in order. */
    method AddPullRequests(ps: seq<GHPullRequest>)
      modifies this`pullRequests
      ensures pullRequests == WithPullRequests(old(pullRequests), ps, id)
    {
      var i := 0;
      while i < |ps|
        invariant 0 <= i <= |ps|
        invariant pullRequests == WithPullRequests(old(pullRequests), ps[..i], id)
      {
        assert ps[..i + 1][..i] == ps[..i];
        AddPullRequest(ps[i]);
        i := i + 1;
      }
      assert ps[..i] == ps;
    }

    /** `getKey()`: `org:repo`, the key `getByNameAndOrganisation` caches under. */
    function Key(): (k: string)
      reads this
      ensures k == CacheKey(repositoryName, organisationName)
      ensures StartsWith(k, Show(organisationName) + ":")
    {
      Show(organisationName) + ":" + Show(repositoryName)
    }

    /** `format()`: the names copied and displayed as `org -- name`. */
    function Format(): (g: GithubRepository)
      reads this
      ensures g.name == repositoryName && g.organisation == organisationName
      ensures g.display == Show(organisationName) + " -- " + Show(repositoryName)
    {
      GithubRepository(repositoryName, organisationName, Show(organisationName) + " -- " + Show(repositoryName))
    }
  }
}
