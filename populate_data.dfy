/**
 * The background fetch (`PopulateDataService`): which repositories are
 * fetched, how the progress record advances, how commits listed on several
 * branches are merged, and the check for repository authors missing from
 * the organisation team of the same name.
 */
module PopulateData {
  import opened Common
  import opened GitUsers
  import opened Commits
  import opened CommitIngestion
  import opened FetchProgress

  datatype PopulateDataForm = PopulateDataForm(
    organisation: Option<string>,
    repository: Option<string>,
    isUser: bool,
    commit: bool,
    pr: bool,
    checkDuplicates: bool,
    fetchAllHistory: bool)

  /** Looking up the organisation team named after a repository. */
  datatype TeamLookup = TeamLookupFails(message: Option<string>) | NoTeam | Team(members: set<UserId>)

  /**
   * A repository as one run sees it: its name, whether fetching its owner,
   * commits and pull requests succeeds, the authors of its stored commits
   * once fetched, and its team.
   */
  datatype ApiRepository = ApiRepository(name: string, fetchSucceeds: bool, authors: set<Option<UserId>>, team: TeamLookup)

  /** What GitHub answers: `None` where the request fails. */
  datatype GitHubView = GitHubView(
    singleRepository: Option<ApiRepository>,
    organisation: Option<Option<seq<ApiRepository>>>,
    rateLimitReadable: bool)

  // ---------------------------------------------------------------------
  // Which repositories are processed

  /** The repositories whose name starts with the prefix, in listing order. */
  function Matching(repos: seq<ApiRepository>, prefix: string): (r: seq<ApiRepository>)
    ensures |r| <= |repos|
    ensures forall x :: x in r <==> x in repos && StartsWith(x.name, prefix)
    decreases |repos|
  {
    if repos == [] then []
    else
      var rest := Matching(repos[..|repos| - 1], prefix);
      var last := repos[|repos| - 1];
      assert repos == repos[..|repos| - 1] + [last];
      if StartsWith(last.name, prefix) then rest + [last] else rest
  }

  /** How many repositories are processed before a fetch failure stops the run. */
  function ProcessedCount(repos: seq<ApiRepository>): (k: nat)
    ensures k <= |repos|
    ensures forall i :: 0 <= i < k ==> repos[i].fetchSucceeds
    ensures k < |repos| ==> !repos[k].fetchSucceeds
  {
    if repos == [] then 0
    else if !repos[0].fetchSucceeds then 0
    else 1 + ProcessedCount(repos[1..])
  }

  // ---------------------------------------------------------------------
  // The duplicate-member check

  const TeamMissingMessage := "A matching team could not be found"

  /** The message of the exception thrown when a repository author is null. */
  const NullAuthorMessage := "Cannot invoke \"edu.ncsu.csc.autovcs.models.persistent.GitUser.isExcluded()\" because \"e\" is null"

  /** Some non-excluded author is not a member of the team. */
  predicate HasOutsider(authors: set<Option<UserId>>, members: set<UserId>, isExcluded: UserId -> bool)
  {
    exists a :: a in authors && a.Some? && !isExcluded(a.value) && a.value !in members
  }

  /**
   * `checkForDuplicateMembers` before its exception wrapping: the team must
   * exist; then it is true iff some non-excluded author of the repository is
   * not a team member.
   */
  function DuplicateCheck(repo: ApiRepository, isExcluded: UserId -> bool): (r: Result<bool, string>)
    ensures repo.team == NoTeam ==> r == Err(TeamMissingMessage)
    ensures repo.team.Team? && None !in repo.authors ==>
      r == Ok(HasOutsider(repo.authors, repo.team.members, isExcluded))
  {
    match repo.team
    case TeamLookupFails(m) => Err(Show(m))
    case NoTeam => Err(TeamMissingMessage)
    case Team(members) =>
      if None in repo.authors then Err(NullAuthorMessage)
      else Ok(HasOutsider(repo.authors, members, isExcluded))
  }

  /** The message recorded under a repository whose check failed. */
  function UnableMessage(name: string, inner: string): string
  {
    "Error occurred while checking for duplicate members on repository " + name + ": " + inner
  }

  /** The duplicates list and the unable-to-check map built while a run checks its repositories. */
  datatype CheckRecord = CheckRecord(duplicates: seq<string>, unable: map<string, string>)

  /** Recording one repository's check. */
  function CheckStep(rec: CheckRecord, repo: ApiRepository, isExcluded: UserId -> bool): CheckRecord
  {
    match DuplicateCheck(repo, isExcluded)
    case Ok(true) => rec.(duplicates := rec.duplicates + [repo.name])
    case Ok(false) => rec
    case Err(m) => rec.(unable := rec.unable[repo.name := UnableMessage(repo.name, m)])
  }

  /** The record after checking `repos` in order. */
  function Checks(repos: seq<ApiRepository>, isExcluded: UserId -> bool): (r: CheckRecord)
    ensures |r.duplicates| <= |repos|
  {
    if repos == [] then CheckRecord([], map[])
    else CheckStep(Checks(repos[..|repos| - 1], isExcluded), repos[|repos| - 1], isExcluded)
  }

  predicate HasDuplicates(repo: ApiRepository, n: string, isExcluded: UserId -> bool)
  {
    repo.name == n && DuplicateCheck(repo, isExcluded) == Ok(true)
  }

  predicate CheckFails(repo: ApiRepository, n: string, isExcluded: UserId -> bool)
  {
    repo.name == n && DuplicateCheck(repo, isExcluded).Err?
  }

  /** A step adds the repository to the duplicates or to the unable map, as its check answers. */
  lemma StepRecords(rec: CheckRecord, repo: ApiRepository, isExcluded: UserId -> bool)
    ensures forall n :: n in CheckStep(rec, repo, isExcluded).duplicates <==>
      n in rec.duplicates || HasDuplicates(repo, n, isExcluded)
    ensures forall n :: n in CheckStep(rec, repo, isExcluded).unable <==>
      n in rec.unable || CheckFails(repo, n, isExcluded)
  {
  }

  /** A repository is listed as having duplicates iff its check answered true. */
  lemma {:induction false} ChecksListDuplicates(repos: seq<ApiRepository>, isExcluded: UserId -> bool)
    ensures forall n :: n in Checks(repos, isExcluded).duplicates <==>
      exists i :: 0 <= i < |repos| && HasDuplicates(repos[i], n, isExcluded)
    decreases |repos|
  {
    if repos != [] {
      var prefix := repos[..|repos| - 1];
      var last := repos[|repos| - 1];
      ChecksListDuplicates(prefix, isExcluded);
      StepRecords(Checks(prefix, isExcluded), last, isExcluded);
      forall n
        ensures n in Checks(repos, isExcluded).duplicates <==>
          exists i :: 0 <= i < |repos| && HasDuplicates(repos[i], n, isExcluded)
      {
        if exists i :: 0 <= i < |repos| && HasDuplicates(repos[i], n, isExcluded) {
          var i :| 0 <= i < |repos| && HasDuplicates(repos[i], n, isExcluded);
          if i < |prefix| {
            assert HasDuplicates(prefix[i], n, isExcluded);
          }
        }
        if exists i :: 0 <= i < |prefix| && HasDuplicates(prefix[i], n, isExcluded) {
          var i :| 0 <= i < |prefix| && HasDuplicates(prefix[i], n, isExcluded);
          assert HasDuplicates(repos[i], n, isExcluded);
        }
      }
    }
  }

  /** A repository is recorded as unable-to-check iff its check failed. */
  lemma {:induction false} ChecksRecordFailures(repos: seq<ApiRepository>, isExcluded: UserId -> bool)
    ensures forall n :: n in Checks(repos, isExcluded).unable <==>
      exists i :: 0 <= i < |repos| && CheckFails(repos[i], n, isExcluded)
    decreases |repos|
  {
    if repos != [] {
      var prefix := repos[..|repos| - 1];
      var last := repos[|repos| - 1];
      ChecksRecordFailures(prefix, isExcluded);
      StepRecords(Checks(prefix, isExcluded), last, isExcluded);
      forall n
        ensures n in Checks(repos, isExcluded).unable <==>
          exists i :: 0 <= i < |repos| && CheckFails(repos[i], n, isExcluded)
      {
        if exists i :: 0 <= i < |repos| && CheckFails(repos[i], n, isExcluded) {
          var i :| 0 <= i < |repos| && CheckFails(repos[i], n, isExcluded);
          if i < |prefix| {
            assert CheckFails(prefix[i], n, isExcluded);
          }
        }
        if exists i :: 0 <= i < |prefix| && CheckFails(prefix[i], n, isExcluded) {
          var i :| 0 <= i < |prefix| && CheckFails(prefix[i], n, isExcluded);
          assert CheckFails(repos[i], n, isExcluded);
        }
      }
    }
  }

  /** Whether a run checks for duplicate members: only for an organisation, and only when asked. */
  predicate ChecksDuplicates(form: PopulateDataForm)
  {
    !form.isUser && form.checkDuplicates
  }

  /** What a run records for the repositories it processed. */
  function Recorded(processed: seq<ApiRepository>, form: PopulateDataForm, isExcluded: UserId -> bool): CheckRecord
  {
    if ChecksDuplicates(form) then Checks(processed, isExcluded) else CheckRecord([], map[])
  }

  /** The final status: SUCCESS iff nothing was recorded. */
  function FinalStatus(dups: seq<string>, unable: map<string, string>): (s: CompletionStatus)
    ensures s == SUCCESS <==> dups == [] && unable == map[]
    ensures s != FAILURE
  {
    if dups == [] && unable == map[] then SUCCESS else DUPLICATES
  }

  /** The repositories a run lists, or the failure message that ends it at once. */
  function Listing(form: PopulateDataForm, gh: GitHubView): Result<seq<ApiRepository>, string>
  {
    if form.isUser then
      if gh.singleRepository.None? then Err("Repository not found") else Ok([gh.singleRepository.value])
    else if gh.organisation.None? then Err("Organisation requested not found")
    else if gh.organisation.value.None? then Err("No repositories found")
    else Ok(gh.organisation.value.value)
  }

  /**
   * `populateData`. A failed lookup of the repository, the organisation or
   * its repositories records FAILURE with its message and processes nothing.
   * A null repository prefix stops the run before anything is counted when
   * there are repositories to filter. Otherwise the matching repositories
   * are processed as `ProcessRepositories` states.
   */
  method Populate(form: PopulateDataForm, progress: DataFetchProgress, gh: GitHubView, isExcluded: UserId -> bool)
    modifies progress
    ensures progress.id == old(progress.id)
    ensures Listing(form, gh).Err? ==>
      && progress.completionMessage == Some(Listing(form, gh).error)
      && progress.isComplete && progress.status == Some(FAILURE)
      && progress.howManyFetched == old(progress.howManyFetched)
      && progress.howManyToFetch == old(progress.howManyToFetch)
      && progress.duplicates == old(progress.duplicates)
      && progress.unableToCheckDuplicates == old(progress.unableToCheckDuplicates)
    ensures Listing(form, gh).Ok? ==> progress.completionMessage == old(progress.completionMessage)
    ensures Listing(form, gh).Ok? && form.repository.None? && Listing(form, gh).value != [] ==>
      && progress.howManyFetched == old(progress.howManyFetched)
      && progress.howManyToFetch == old(progress.howManyToFetch)
      && progress.isComplete == old(progress.isComplete) && progress.status == old(progress.status)
      && progress.duplicates == old(progress.duplicates)
      && progress.unableToCheckDuplicates == old(progress.unableToCheckDuplicates)
    ensures Listing(form, gh).Ok? && (form.repository.Some? || Listing(form, gh).value == []) ==>
      Processed(Matching(Listing(form, gh).value, Show(form.repository)), form, isExcluded, gh.rateLimitReadable,
                progress, old(progress.isComplete), old(progress.status), old(progress.duplicates), old(progress.unableToCheckDuplicates))
  {
    var listing := Listing(form, gh);
    if listing.Err? {
      progress.SetFailure(listing.error);
      return;
    }
    var repos := listing.value;
    if form.repository.None? && repos != [] {
      return;
    }
    var matching := Matching(repos, Show(form.repository));
    ProcessRepositories(matching, form, progress, isExcluded, gh.rateLimitReadable);
  }

  /**
   * The state of the progress record after processing `matching`: the total
   * is the number of matching repositories and the fetched count the number
   * processed before a fetch failure. A run that processed them all and
   * could read the rate limit is complete, with the duplicates, the
   * unable-to-check map and SUCCESS iff both are empty, else DUPLICATES; any
   * other run leaves the completion fields as they were.
   */
  ghost predicate Processed(matching: seq<ApiRepository>, form: PopulateDataForm, isExcluded: UserId -> bool, rateLimitReadable: bool,
                            progress: DataFetchProgress, wasComplete: bool, oldStatus: Option<CompletionStatus>,
                            oldDuplicates: Option<seq<string>>, oldUnable: Option<map<string, string>>)
    reads progress
  {
    var k := ProcessedCount(matching);
    var rec := Recorded(matching[..k], form, isExcluded);
    && progress.howManyToFetch == |matching|
    && progress.howManyFetched == k
    && (if k == |matching| && rateLimitReadable then
          && progress.isComplete
          && progress.duplicates == Some(rec.duplicates)
          && progress.unableToCheckDuplicates == Some(rec.unable)
          && progress.status == Some(FinalStatus(rec.duplicates, rec.unable))
        else
          && progress.isComplete == wasComplete && progress.status == oldStatus
          && progress.duplicates == oldDuplicates && progress.unableToCheckDuplicates == oldUnable)
  }

  lemma RecordedStep(repos: seq<ApiRepository>, i: nat, form: PopulateDataForm, isExcluded: UserId -> bool)
    requires i < |repos|
    ensures Recorded(repos[..i + 1], form, isExcluded) ==
      if ChecksDuplicates(form) then CheckStep(Recorded(repos[..i], form, isExcluded), repos[i], isExcluded)
      else Recorded(repos[..i], form, isExcluded)
  {
    assert repos[..i + 1][..i] == repos[..i];
  }

  /** The loop of `populateData` over the matching repositories, and the completion after it. */
  method ProcessRepositories(matching: seq<ApiRepository>, form: PopulateDataForm, progress: DataFetchProgress,
                             isExcluded: UserId -> bool, rateLimitReadable: bool)
    modifies progress
    ensures progress.id == old(progress.id) && progress.completionMessage == old(progress.completionMessage)
    ensures Processed(matching, form, isExcluded, rateLimitReadable, progress, old(progress.isComplete),
                      old(progress.status), old(progress.duplicates), old(progress.unableToCheckDuplicates))
  {
    progress.SetHowManyToFetch(|matching|);
    progress.SetHowManyFetched(0);
    var saved, rec := FetchRepositories(matching, form, progress, isExcluded);
    if saved < |matching| || !rateLimitReadable {
      return;
    }
    assert matching[..saved] == matching;
    progress.SetIsComplete(true);
    progress.SetDuplicates(Some(rec.duplicates));
    progress.SetUnableToCheckDuplicates(Some(rec.unable));
    progress.SetStatus(Some(FinalStatus(rec.duplicates, rec.unable)));
  }

  /**
   * The loop of `populateData`: fetches the repositories in order until one
   * fails, counting each one fetched and checking it for duplicates.
   */
  method FetchRepositories(matching: seq<ApiRepository>, form: PopulateDataForm, progress: DataFetchProgress,
                           isExcluded: UserId -> bool)
    returns (saved: nat, rec: CheckRecord)
    requires progress.howManyFetched == 0
    modifies progress`howManyFetched
    ensures saved == ProcessedCount(matching) && progress.howManyFetched == saved
    ensures rec == Recorded(matching[..saved], form, isExcluded)
  {
    rec := CheckRecord([], map[]);
    saved := 0;
    while saved < |matching| && matching[saved].fetchSucceeds
      invariant saved <= ProcessedCount(matching)
      invariant progress.howManyFetched == saved
      invariant rec == Recorded(matching[..saved], form, isExcluded)
    {
      RecordedStep(matching, saved, form, isExcluded);
      rec := CheckRepository(rec, matching[saved], form, isExcluded);
      saved := saved + 1;
      progress.SetHowManyFetched(saved);
    }
  }

  /**
   * One repository of the loop of `populateData`, once fetched: when
   * duplicates are checked, a repository with an outside author is added to
   * the duplicates and one that cannot be checked to the unable map.
   */
  method CheckRepository(rec: CheckRecord, repo: ApiRepository, form: PopulateDataForm, isExcluded: UserId -> bool)
    returns (rec': CheckRecord)
    ensures rec' == if ChecksDuplicates(form) then CheckStep(rec, repo, isExcluded) else rec
  {
    rec' := rec;
    if ChecksDuplicates(form) {
      var check := DuplicateCheck(repo, isExcluded);
      match check
      case Ok(true) => rec' := rec'.(duplicates := rec'.duplicates + [repo.name]);
      case Ok(false) =>
      case Err(m) => rec' := rec'.(unable := rec'.unable[repo.name := UnableMessage(repo.name, m)]);
    }
  }

  // ---------------------------------------------------------------------
  // getCommitsOnRepo

  datatype ApiBranch = ApiBranch(name: string, head: string)

  /** The latest date among the stored commits, if any has one. */
  function LatestDate(stored: seq<GHCommit>): (r: Option<int>)
    ensures r.Some? ==> exists i :: 0 <= i < |stored| && stored[i].commitDate == r
    ensures r.Some? ==> forall i :: 0 <= i < |stored| && stored[i].commitDate.Some? ==> stored[i].commitDate.value <= r.value
    ensures r.None? ==> forall i :: 0 <= i < |stored| ==> stored[i].commitDate.None?
  {
    if stored == [] then None
    else
      var rest := LatestDate(stored[..|stored| - 1]);
      var d := stored[|stored| - 1].commitDate;
      if d.None? then rest
      else if rest.None? || rest.value < d.value then d
      else rest
  }

  /**
   * The date from which commits are listed: the most recent stored commit's
   * date, or the epoch when nothing is stored. When the most recent row has
   * no date (all stored dates are null; nulls sort last) the conversion
   * fails with `None`.
   */
  function LowerBound(stored: seq<GHCommit>): (r: Option<int>)
    ensures stored == [] ==> r == Some(0)
    ensures stored != [] ==> r == LatestDate(stored)
  {
    if stored == [] then Some(0) else LatestDate(stored)
  }

  /** One branch's commits, each tagged with the branch name. */
  function Tagged(name: string, cs: seq<ApiCommit>): (r: seq<(string, ApiCommit)>)
    ensures |r| == |cs| && forall i :: 0 <= i < |cs| ==> r[i] == (name, cs[i])
  {
    seq(|cs|, i requires 0 <= i < |cs| => (name, cs[i]))
  }

  /** The (branch name, commit) pairs the listing yields, branch by branch. */
  function Flatten(branches: seq<ApiBranch>, list: (string, Option<int>) -> seq<ApiCommit>, since: Option<int>): seq<(string, ApiCommit)>
  {
    if branches == [] then []
    else
      var b := branches[|branches| - 1];
      Flatten(branches[..|branches| - 1], list, since) + Tagged(b.name, list(b.head, since))
  }

  /** One step of the merge: a known SHA gains the branch, a new SHA is converted for that branch. */
  function MergeOne(m: map<Option<string>, GHCommit>, p: (string, ApiCommit), convert: ApiCommit -> GHCommit): map<Option<string>, GHCommit>
  {
    var sha := p.1.sha;
    if sha in m then m[sha := AddBranch(m[sha], Some(p.0))]
    else m[sha := AddBranch(convert(p.1), Some(p.0))]
  }

  function Merge(pairs: seq<(string, ApiCommit)>, convert: ApiCommit -> GHCommit): map<Option<string>, GHCommit>
  {
    if pairs == [] then map[] else MergeOne(Merge(pairs[..|pairs| - 1], convert), pairs[|pairs| - 1], convert)
  }

  /** The SHAs listed. */
  function Shas(pairs: seq<(string, ApiCommit)>): set<Option<string>>
  {
    set i | 0 <= i < |pairs| :: pairs[i].1.sha
  }

  /** The branches listing a SHA. */
  function BranchesListing(pairs: seq<(string, ApiCommit)>, sha: Option<string>): set<string>
  {
    set i | 0 <= i < |pairs| && pairs[i].1.sha == sha :: pairs[i].0
  }

  /** Whether pair `i` is the first listing of its SHA. */
  predicate FirstListing(pairs: seq<(string, ApiCommit)>, i: int)
    requires 0 <= i < |pairs|
  {
    forall j :: 0 <= j < i ==> pairs[j].1.sha != pairs[i].1.sha
  }

  /** The merged map holds exactly one entry per listed SHA. */
  lemma {:induction false} MergeKeys(pairs: seq<(string, ApiCommit)>, convert: ApiCommit -> GHCommit)
    ensures Merge(pairs, convert).Keys == Shas(pairs)
    decreases |pairs|
  {
    if pairs != [] {
      var prefix := pairs[..|pairs| - 1];
      MergeKeys(prefix, convert);
      assert Shas(pairs) == Shas(prefix) + {pairs[|pairs| - 1].1.sha};
    }
  }

  /** The entry of a SHA is the conversion of its first listing, carrying every branch that lists it. */
  lemma {:induction false} MergeValue(pairs: seq<(string, ApiCommit)>, i: nat, convert: ApiCommit -> GHCommit)
    requires i < |pairs| && FirstListing(pairs, i)
    ensures pairs[i].1.sha in Merge(pairs, convert)
    ensures var first := convert(pairs[i].1);
      Merge(pairs, convert)[pairs[i].1.sha] == first.(branches := first.branches + BranchesListing(pairs, pairs[i].1.sha))
    decreases |pairs|
  {
    var prefix := pairs[..|pairs| - 1];
    var last := pairs[|pairs| - 1];
    var sha := pairs[i].1.sha;
    MergeKeys(prefix, convert);
    if i == |prefix| {
      assert sha !in Shas(prefix);
      assert BranchesListing(prefix, sha) == {};
      assert BranchesListing(pairs, sha) == {last.0};
    } else {
      assert prefix[i] == pairs[i];
      MergeValue(prefix, i, convert);
      if sha == last.1.sha {
        assert BranchesListing(pairs, sha) == BranchesListing(prefix, sha) + {last.0};
      } else {
        assert BranchesListing(pairs, sha) == BranchesListing(prefix, sha);
      }
    }
  }

  /**
   * One commit per SHA: the merged map's keys are the listed SHAs, and each
   * maps to the conversion of its first listing carrying every branch that
   * lists it.
   */
  lemma MergeOneCommitPerSha(pairs: seq<(string, ApiCommit)>, convert: ApiCommit -> GHCommit)
    ensures Merge(pairs, convert).Keys == Shas(pairs)
    ensures forall i :: 0 <= i < |pairs| && FirstListing(pairs, i) ==>
      var first := convert(pairs[i].1);
      Merge(pairs, convert)[pairs[i].1.sha] == first.(branches := first.branches + BranchesListing(pairs, pairs[i].1.sha))
  {
    MergeKeys(pairs, convert);
    forall i | 0 <= i < |pairs| && FirstListing(pairs, i)
      ensures var first := convert(pairs[i].1);
        Merge(pairs, convert)[pairs[i].1.sha] == first.(branches := first.branches + BranchesListing(pairs, pairs[i].1.sha))
    {
      MergeValue(pairs, i, convert);
    }
  }

  lemma MergeAppend(pairs: seq<(string, ApiCommit)>, p: (string, ApiCommit), convert: ApiCommit -> GHCommit)
    ensures Merge(pairs + [p], convert) == MergeOne(Merge(pairs, convert), p, convert)
  {
    assert (pairs + [p])[..|pairs|] == pairs;
  }

  lemma FlattenStep(branches: seq<ApiBranch>, b: nat, list: (string, Option<int>) -> seq<ApiCommit>, since: Option<int>)
    requires b < |branches|
    ensures Flatten(branches[..b + 1], list, since) == Flatten(branches[..b], list, since) + Tagged(branches[b].name, list(branches[b].head, since))
  {
    assert branches[..b + 1][..b] == branches[..b];
  }

  /** The inner loop of `getCommitsOnRepo`: merges one branch's commits into `m`. */
  method MergeBranch(m: map<Option<string>, GHCommit>, name: string, commits: seq<ApiCommit>,
                     ghost done: seq<(string, ApiCommit)>, convert: ApiCommit -> GHCommit)
    returns (m': map<Option<string>, GHCommit>)
    requires m == Merge(done, convert)
    ensures m' == Merge(done + Tagged(name, commits), convert)
  {
    ghost var added := Tagged(name, commits);
    m' := m;
    var j := 0;
    assert done + added[..0] == done;
    while j < |commits|
      invariant 0 <= j <= |commits|
      invariant m' == Merge(done + added[..j], convert)
    {
      MergeAppend(done + added[..j], added[j], convert);
      assert done + added[..j + 1] == (done + added[..j]) + [added[j]];
      var sha := commits[j].sha;
      if sha in m' {
        m' := m'[sha := AddBranch(m'[sha], Some(name))];
      } else {
        m' := m'[sha := AddBranch(convert(commits[j]), Some(name))];
      }
      j := j + 1;
    }
    assert added[..j] == added;
  }

  /**
   * `getCommitsOnRepo`: lists each branch's commits (from the lower bound,
   * or all of them when the whole history is requested) and merges them by
   * SHA. `convert` stands for `forCommit` without a branch.
   */
  method GetCommitsOnRepo(branches: seq<ApiBranch>, stored: seq<GHCommit>, includeAll: bool,
                          list: (string, Option<int>) -> seq<ApiCommit>, convert: ApiCommit -> GHCommit)
    returns (r: Option<map<Option<string>, GHCommit>>)
    ensures r.None? <==> LowerBound(stored).None?
    ensures r.Some? ==> r.value == Merge(Flatten(branches, list, if includeAll then None else LowerBound(stored)), convert)
  {
    var bound := LowerBound(stored);
    if bound.None? {
      return None;
    }
    var since := if includeAll then None else bound;
    var m: map<Option<string>, GHCommit> := map[];
    var b := 0;
    while b < |branches|
      invariant 0 <= b <= |branches|
      invariant m == Merge(Flatten(branches[..b], list, since), convert)
    {
      var branch := branches[b];
      FlattenStep(branches, b, list, since);
      m := MergeBranch(m, branch.name, list(branch.head, since), Flatten(branches[..b], list, since), convert);
      b := b + 1;
    }
    assert branches[..b] == branches;
    r := Some(m);
  }
}
