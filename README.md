# AutoVCS contribution analysis in Dafny

AutoVCS measures how much each developer contributed to a Java project
hosted on GitHub. It fetches a repository's commits and pull requests into
a local store, resolves every author to a stored `GitUser`, and then
analyses the commits. Merge commits and root commits are skipped, and an
inclusive date window can be applied. For each remaining commit it diffs
every changed Java file against the commit's parent. It sums the weighted
structural changes per commit, per author and per file, and reports each
author's share as a percentage and each file's split among its authors.

This project models that core and proves what it promises:

- `ContributionAnalysis`, `Contributions` and `Aggregation` model the
  analysis. They cover commit selection, the file filter, the
  `FileContributions` accumulator, `createUnaggregatedDiffs` and
  `aggregateByUser`. The loops are methods over the source's own maps and
  objects, proved against reference functions. Lemmas prove that totals are
  sums, that percentages add up to 100 and that file shares add up to 1.
- `JGit` models the unsafe-file-name handling of `JGitService`:
  `nameIsIllegal`, `correct`, `containsUnsafeFile`, the `safeCheckout`
  dispatch and the `partialCheckout` loop over an abstract tree.
- `Commits`, `CommitIngestion` and `PullRequests` model the stored commit
  and pull request. This covers identity by SHA, branch sets, the display
  forms, grouping by day, and conversion from the GitHub API.
- `GitUsers`, `UserDirectory`, `UserAdmin` and `Store` model user
  identity, find-or-create resolution and the user administration
  endpoints. The store is held as tables in one `Database` object.
- `Repositories`, `RepositoryQueries`, `PopulateData`, `FetchProgress` and
  `Forms` cover:
  - the repository sets that deduplicate on insert;
  - the branch and member queries;
  - the background fetch with its progress record and duplicate-member check;
  - the batch options that become an analysis request.
- `Common` and `Ordering` hold shared vocabulary:
  - nullable values as `Option`;
  - exceptions as `Result`;
  - Java string predicates and `compareTo` on strings;
  - sums over sequences and maps.

Time and I/O are parameters. Dates are integers. Parsing an ISO-8601 bound
is a function `parse`. The structural diff of a file is a function
`extract`. What GitHub answers is a value (`ApiCommit`,
`ApiPullRequest`, `GitHubView`).

## Model

All paths below are under `AutoVCS/src/main/java/edu/ncsu/csc/autovcs/`
in the repository; each source cell gives that path.

| member | source | states |
|---|---|---|
| GitUsers.EqualsIsSameNameAndEmail | AutoVCS/src/main/java/edu/ncsu/csc/autovcs/models/persistent/GitUser.java:239-268 | Two users are equal iff their names are equal and their emails are equal, null-safely; id and excluded flag play no part |
| GitUsers.EqualsIsEquivalence | AutoVCS/src/main/java/edu/ncsu/csc/autovcs/models/persistent/GitUser.java:239-268 | User equality is reflexive, symmetric and transitive |
| GitUsers.Key | AutoVCS/src/main/java/edu/ncsu/csc/autovcs/models/persistent/GitUser.java:57-60 | The key is the printed name, a colon, then the printed email (`null` for a null field) |
| GitUsers.KeyDeterminesFields | AutoVCS/src/main/java/edu/ncsu/csc/autovcs/models/persistent/GitUser.java:57-60 | While names hold no colon, two keys are equal iff the printed names and printed emails are |
| GitUsers.KeyCollidesOnColonInName | AutoVCS/src/main/java/edu/ncsu/csc/autovcs/models/persistent/GitUser.java:57-60 | A colon in a name lets two users that are not equal share one key |
| GitUsers.KeyCollidesOnNullName | AutoVCS/src/main/java/edu/ncsu/csc/autovcs/models/persistent/GitUser.java:57-60 | A null name and the literal name "null" share a key |
| GitUsers.Display | AutoVCS/src/main/java/edu/ncsu/csc/autovcs/models/persistent/GitUser.java:224-227 | `toString` is "Overall" for a null name, otherwise starts with the name and ends with the email in parentheses |
| GitUsers.BuildEmail | AutoVCS/src/main/java/edu/ncsu/csc/autovcs/models/persistent/GitUser.java:138-140 | The built email starts with the login and ends with `@` and the configured domain |
| GitUsers.FromAuthor | AutoVCS/src/main/java/edu/ncsu/csc/autovcs/models/persistent/GitUser.java:62-65 | A user built from a commit author copies name and email and is not excluded |
| GitUsers.FromAccount | AutoVCS/src/main/java/edu/ncsu/csc/autovcs/models/persistent/GitUser.java:67-82 | A user built from an account takes the login as name; an absent email is built from the login, a failed email request leaves it null |
| GitUsers.SetExcluded | AutoVCS/src/main/java/edu/ncsu/csc/autovcs/models/persistent/GitUser.java:212-214 | Only the excluded flag changes; the result equals the input user |
| UserDirectory.FindExcluded | AutoVCS/src/main/java/edu/ncsu/csc/autovcs/services/GitUserService.java:42-44 | Exactly the stored users whose excluded flag is set |
| UserDirectory.FindByNameContaining | AutoVCS/src/main/java/edu/ncsu/csc/autovcs/services/GitUserService.java:46-48 | Exactly the stored users whose non-null name contains the argument |
| UserDirectory.FindByEmailContaining | AutoVCS/src/main/java/edu/ncsu/csc/autovcs/services/GitUserService.java:50-52 | Exactly the stored users whose non-null email contains the argument |
| UserDirectory.Find | AutoVCS/src/main/java/edu/ncsu/csc/autovcs/services/GitUserService.java:33-39 | Weak lookup is the lowest-id user with the email; strict lookup fails exactly when two users share the name and email, and otherwise finds the one match or reports none |
| UserDirectory.ResolveFindsOrCreates | AutoVCS/src/main/java/edu/ncsu/csc/autovcs/services/GitUserService.java:82-96 | Find-or-create: strict mode fails exactly when two users share the name and email; otherwise an existing match (name and email when strict, email alone when weak) is returned with nothing saved, else exactly one user is appended; the returned user matches and no lower id does |
| UserDirectory.ResolveIsIdempotent | AutoVCS/src/main/java/edu/ncsu/csc/autovcs/services/GitUserService.java:86-95 | A successful resolution, repeated on the store it leaves, returns the same user and saves nothing |
| UserDirectory.AuthorWithoutEmailDuplicatedAsWritten | AutoVCS/src/main/java/edu/ncsu/csc/autovcs/services/GitUserService.java:82-96 | As written, resolving an author without an email twice creates two users |
| UserDirectory.AccountWithUnreadableEmailDuplicatedAsWritten | AutoVCS/src/main/java/edu/ncsu/csc/autovcs/services/GitUserService.java:54-76 | As written, resolving an account whose email cannot be read twice creates two users |
| UserDirectory.CachedAuthorIsIdempotent | AutoVCS/src/main/java/edu/ncsu/csc/autovcs/models/persistent/GitUser.java:147-172 | After one cache-backed lookup the key is cached; a second call returns the same user and changes nothing; at most one user was created |
| UserDirectory.CacheConflatesCollidingKeys | AutoVCS/src/main/java/edu/ncsu/csc/autovcs/models/persistent/GitUser.java:147-150 | Two different authors whose keys collide get the same cached user |
| UserDirectory.CachedAccountCreatesWithDefaultEmail | AutoVCS/src/main/java/edu/ncsu/csc/autovcs/models/persistent/GitUser.java:84-128 | An account without an email resolves to a user carrying its login and `login@domain` |
| UserDirectory.Directory.ForAuthor | AutoVCS/src/main/java/edu/ncsu/csc/autovcs/services/GitUserService.java:82-96 | The store after `forUser(GHAuthor)` is the corrected find-or-create of the author, keeping the store valid; a failed strict lookup changes nothing |
| UserDirectory.Directory.ForAuthorAsWritten | AutoVCS/src/main/java/edu/ncsu/csc/autovcs/services/GitUserService.java:82-96 | The store after `forUser(GHAuthor)` as written: a new user is saved with the author's own, possibly null, email; a failed strict lookup changes nothing |
| UserDirectory.Directory.ForAccount | AutoVCS/src/main/java/edu/ncsu/csc/autovcs/services/GitUserService.java:54-76 | The store after `forUser(GHUser)` is the corrected find-or-create of the account, email defaulted to `login@domain`; a failed strict lookup changes nothing |
| UserDirectory.Directory.ForAccountAsWritten | AutoVCS/src/main/java/edu/ncsu/csc/autovcs/services/GitUserService.java:54-76 | The store after `forUser(GHUser)` as written: a new user is saved with the email the account gives, null when it cannot be read; a failed strict lookup changes nothing |
| UserDirectory.Directory.CachedForAuthor | AutoVCS/src/main/java/edu/ncsu/csc/autovcs/models/persistent/GitUser.java:147-172 | Cache hit, else first stored match on the criteria, else a new user; users and cache updated accordingly |
| UserDirectory.Directory.CachedForAccount | AutoVCS/src/main/java/edu/ncsu/csc/autovcs/models/persistent/GitUser.java:84-128 | As above keyed by `login:email`; an unreadable email aborts with nothing changed |
| Store.Database.FindUser | AutoVCS/src/main/java/edu/ncsu/csc/autovcs/controllers/api/APIUserController.java:123-126 | `findById` finds a user iff the id is stored, and returns the row with that id |
| Store.Database.SaveCommit | AutoVCS/src/main/java/edu/ncsu/csc/autovcs/services/GHCommitService.java:80-88 | A commit with neither author nor committer is refused and nothing stored; any other is appended |
| Commits.NewCommit | AutoVCS/src/main/java/edu/ncsu/csc/autovcs/models/persistent/GHCommit.java:173-175 | The no-argument commit has no SHA, author, committer, date or parent, an empty branch set, and is not a merge |
| Commits.AddBranch | AutoVCS/src/main/java/edu/ncsu/csc/autovcs/models/persistent/GHCommit.java:238-242 | A null branch changes nothing; otherwise the name joins the branch set and nothing else changes |
| Commits.AddBranchIdempotentAndCommutative | AutoVCS/src/main/java/edu/ncsu/csc/autovcs/models/persistent/GHCommit.java:238-242 | Adding a branch twice is adding it once; the order of additions does not matter |
| Commits.Key | AutoVCS/src/main/java/edu/ncsu/csc/autovcs/models/persistent/GHCommit.java:288-291 | The key is the SHA: another commit is equal to this one iff it has that SHA |
| Commits.EqualsIsSameSha | AutoVCS/src/main/java/edu/ncsu/csc/autovcs/models/persistent/GHCommit.java:257-286 | Equal iff same SHA (null equal to null), and equal commits hash alike |
| Commits.Display | AutoVCS/src/main/java/edu/ncsu/csc/autovcs/models/persistent/GHCommit.java:374-381 | The display form copies date, message, url and the three line counts unchanged |
| Commits.Insert | AutoVCS/src/main/java/edu/ncsu/csc/autovcs/models/persistent/GHCommit.java:347-354 | Inserting into the reversed day map keeps days strictly descending and buckets non-empty |
| Commits.InsertAppends | AutoVCS/src/main/java/edu/ncsu/csc/autovcs/models/persistent/GHCommit.java:347-354 | Inserting appends the commit to its own day's bucket and leaves every other day alone |
| Commits.EachCommitInOneBucket | AutoVCS/src/main/java/edu/ncsu/csc/autovcs/models/persistent/GHCommit.java:337-358 | In the grouping every commit has the bucket of its day, and no day has two buckets |
| Commits.FormatByDay | AutoVCS/src/main/java/edu/ncsu/csc/autovcs/models/persistent/GHCommit.java:337-358 | Succeeds iff every commit has a date, and then yields the commits grouped by day, most recent day first, input order kept per day |
| CommitIngestion.Modified | AutoVCS/src/main/java/edu/ncsu/csc/autovcs/services/GHCommitService.java:136-141 | Exactly the files with a nonzero statistic, at most as many as the input |
| CommitIngestion.FromApi | AutoVCS/src/main/java/edu/ncsu/csc/autovcs/services/GHCommitService.java:110-174 | Fails iff the file list cannot be fetched; line counts are per-file sums, merge iff two parents, parent only for exactly one, unreadable date left unset, null branch not recorded |
| CommitIngestion.FromApiForBranch | AutoVCS/src/main/java/edu/ncsu/csc/autovcs/services/GHCommitService.java:171 | Converting for a branch is converting without one and then adding the branch |
| CommitIngestion.NonNegativeStatistics | AutoVCS/src/main/java/edu/ncsu/csc/autovcs/services/GHCommitService.java:127-141 | Non-negative per-file statistics give non-negative line totals |
| CommitIngestion.CommitService.ForCommit | AutoVCS/src/main/java/edu/ncsu/csc/autovcs/services/GHCommitService.java:110-142 | Author then committer are resolved through the user service before the commit is converted; a failed lookup aborts the conversion, keeping users saved before it |
| CommitIngestion.CommitService.ForCommitCached | AutoVCS/src/main/java/edu/ncsu/csc/autovcs/models/persistent/GHCommit.java:85-144 | The API constructor: the same conversion with the cache-backed user lookup |
| PullRequests.FromApi | AutoVCS/src/main/java/edu/ncsu/csc/autovcs/models/persistent/GHPullRequest.java:69-126 | A missing opening date or opener aborts; a missing close date or merger leaves the field unset; comments are issue then review comments |
| PullRequests.FromApiKeepsEveryComment | AutoVCS/src/main/java/edu/ncsu/csc/autovcs/models/persistent/GHPullRequest.java:87-107 | A comment is kept iff it was in a list that loaded |
| PullRequests.EqualPullRequestsHashAlike | AutoVCS/src/main/java/edu/ncsu/csc/autovcs/models/persistent/GHPullRequest.java:226-243 | Pull requests equal by number and repository have equal hash codes |
| PullRequests.Display | AutoVCS/src/main/java/edu/ncsu/csc/autovcs/models/persistent/GHPullRequest.java:261-267 | The display form copies number, title, body and url, and shows the repository's text |
| Repositories.WithCommit | AutoVCS/src/main/java/edu/ncsu/csc/autovcs/models/persistent/GHRepository.java:93-99 | A commit with a known SHA is ignored; otherwise it joins, attached to this repository |
| Repositories.WithCommitIdempotent | AutoVCS/src/main/java/edu/ncsu/csc/autovcs/models/persistent/GHRepository.java:93-99 | Adding a commit twice is adding it once; the set grows by at most one and gains exactly its SHA |
| Repositories.WithCommitsKeys | AutoVCS/src/main/java/edu/ncsu/csc/autovcs/models/persistent/GHRepository.java:88-91 | After adding a list, the SHAs are the earlier ones plus the listed ones |
| Repositories.WithCommitsKeepsPresent | AutoVCS/src/main/java/edu/ncsu/csc/autovcs/models/persistent/GHRepository.java:88-91 | A SHA already present keeps its commit |
| Repositories.WithCommitsKeepsFirst | AutoVCS/src/main/java/edu/ncsu/csc/autovcs/models/persistent/GHRepository.java:88-91 | A new SHA holds the first listed commit with that SHA |
| Repositories.WithPullRequest | AutoVCS/src/main/java/edu/ncsu/csc/autovcs/models/persistent/GHRepository.java:112-118 | A request equal to a present one is ignored; otherwise it joins, attached to this repository |
| Repositories.WithPullRequestKeepsDistinct | AutoVCS/src/main/java/edu/ncsu/csc/autovcs/models/persistent/GHRepository.java:112-118 | Adding an attached request keeps the set free of equal pairs, and adding it twice is adding it once |
| Repositories.GHRepository.constructor | AutoVCS/src/main/java/edu/ncsu/csc/autovcs/models/persistent/GHRepository.java:56-59 | A new repository has no names and empty commit and pull-request sets |
| Repositories.GHRepository.SetRepositoryName | AutoVCS/src/main/java/edu/ncsu/csc/autovcs/models/persistent/GHRepository.java:70-73 | Returns this and changes only the repository name |
| Repositories.GHRepository.SetOrganisationName | AutoVCS/src/main/java/edu/ncsu/csc/autovcs/models/persistent/GHRepository.java:79-82 | Returns this and changes only the organisation name |
| Repositories.GHRepository.AddCommit | AutoVCS/src/main/java/edu/ncsu/csc/autovcs/models/persistent/GHRepository.java:93-99 | The commit set becomes `WithCommit` of the old one; every commit stays filed under its SHA |
| Repositories.GHRepository.AddCommits | AutoVCS/src/main/java/edu/ncsu/csc/autovcs/models/persistent/GHRepository.java:88-91 | The set is reloaded from the stored commits, then each new commit is added in order |
| Repositories.GHRepository.AddPullRequest | AutoVCS/src/main/java/edu/ncsu/csc/autovcs/models/persistent/GHRepository.java:112-118 | The request set becomes `WithPullRequest` of the old one |
| Repositories.GHRepository.AddPullRequests | AutoVCS/src/main/java/edu/ncsu/csc/autovcs/models/persistent/GHRepository.java:108-110 | Each request is added in order |
| Repositories.GHRepository.Key | AutoVCS/src/main/java/edu/ncsu/csc/autovcs/models/persistent/GHRepository.java:195-198 | `org:repo`, the same key `getByNameAndOrganisation` caches under |
| Repositories.GHRepository.Format | AutoVCS/src/main/java/edu/ncsu/csc/autovcs/models/persistent/GHRepository.java:176-180 | Names copied, display `org -- name` |
| FetchProgress.DataFetchProgress.constructor | AutoVCS/src/main/java/edu/ncsu/csc/autovcs/models/persistent/DataFetchProgress.java:40-45 | Counters at -1, not complete, no status, message or records |
| FetchProgress.DataFetchProgress.SetHowManyFetched | AutoVCS/src/main/java/edu/ncsu/csc/autovcs/models/persistent/DataFetchProgress.java:62-64 | Sets only its field |
| FetchProgress.DataFetchProgress.SetHowManyToFetch | AutoVCS/src/main/java/edu/ncsu/csc/autovcs/models/persistent/DataFetchProgress.java:76-78 | Sets only its field |
| FetchProgress.DataFetchProgress.SetCompletionMessage | AutoVCS/src/main/java/edu/ncsu/csc/autovcs/models/persistent/DataFetchProgress.java:90-92 | Sets only its field |
| FetchProgress.DataFetchProgress.SetIsComplete | AutoVCS/src/main/java/edu/ncsu/csc/autovcs/models/persistent/DataFetchProgress.java:112-114 | Sets only its field |
| FetchProgress.DataFetchProgress.SetStatus | AutoVCS/src/main/java/edu/ncsu/csc/autovcs/models/persistent/DataFetchProgress.java:120-122 | Sets only its field |
| FetchProgress.DataFetchProgress.SetDuplicates | AutoVCS/src/main/java/edu/ncsu/csc/autovcs/models/persistent/DataFetchProgress.java:136-138 | Sets only its field |
| FetchProgress.DataFetchProgress.SetUnableToCheckDuplicates | AutoVCS/src/main/java/edu/ncsu/csc/autovcs/models/persistent/DataFetchProgress.java:152-154 | Sets only its field |
| FetchProgress.DataFetchProgress.SetFailure | AutoVCS/src/main/java/edu/ncsu/csc/autovcs/models/persistent/DataFetchProgress.java:94-100 | Message set, complete, status FAILURE; counters untouched |
| FetchProgress.ProgressStore.Save | AutoVCS/src/main/java/edu/ncsu/csc/autovcs/controllers/api/APIRepositoryController.java:91-93 | A new record gets the next id and is stored; a stored one keeps its id |
| Forms.ToForm | AutoVCS/src/main/java/edu/ncsu/csc/autovcs/batch/RepositoryOptions.java:57-68 | Fails iff `excludeGUI` is null; otherwise a BY_USER, non-initialising form copying organisation, name, GUI flag and dates |
| Forms.ToFormNamed | AutoVCS/src/main/java/edu/ncsu/csc/autovcs/batch/RepositoryOptions.java:70-74 | The same form, differing only in the repository being the full name |
| PopulateData.Matching | AutoVCS/src/main/java/edu/ncsu/csc/autovcs/services/PopulateDataService.java:116-120 | Exactly the repositories whose name starts with the prefix, in listing order |
| PopulateData.ProcessedCount | AutoVCS/src/main/java/edu/ncsu/csc/autovcs/services/PopulateDataService.java:125-135 | The repositories before the first whose fetch fails, which ends the run |
| PopulateData.DuplicateCheck | AutoVCS/src/main/java/edu/ncsu/csc/autovcs/services/PopulateDataService.java:219-254 | A missing team fails with its message; with a team and no null author, true iff some non-excluded author is not on the team |
| PopulateData.ChecksListDuplicates | AutoVCS/src/main/java/edu/ncsu/csc/autovcs/services/PopulateDataService.java:182-192 | A repository is listed with duplicates iff its check answered true |
| PopulateData.ChecksRecordFailures | AutoVCS/src/main/java/edu/ncsu/csc/autovcs/services/PopulateDataService.java:182-192 | A repository is recorded as unable-to-check iff its check failed |
| PopulateData.FinalStatus | AutoVCS/src/main/java/edu/ncsu/csc/autovcs/services/PopulateDataService.java:213 | SUCCESS iff both records are empty, else DUPLICATES, never FAILURE |
| PopulateData.Populate | AutoVCS/src/main/java/edu/ncsu/csc/autovcs/services/PopulateDataService.java:52-216 | A failed repository, organisation or listing lookup sets FAILURE with its message and changes no counter; a null prefix over a non-empty listing stops before counting; otherwise `ProcessRepositories` |
| PopulateData.ProcessRepositories | AutoVCS/src/main/java/edu/ncsu/csc/autovcs/services/PopulateDataService.java:111-215 | To-fetch is the number matching, fetched the number processed before a failure; a full run with a readable rate limit completes with the records and SUCCESS iff both are empty |
| PopulateData.FetchRepositories | AutoVCS/src/main/java/edu/ncsu/csc/autovcs/services/PopulateDataService.java:125-197 | The loop stops at the first fetch failure; the fetched count and the records are those of the processed prefix |
| PopulateData.CheckRepository | AutoVCS/src/main/java/edu/ncsu/csc/autovcs/services/PopulateDataService.java:182-192 | Checks only for an organisation run that asks for it, recording one repository's outcome |
| PopulateData.LatestDate | AutoVCS/src/main/java/edu/ncsu/csc/autovcs/services/PopulateDataService.java:283-284 | The latest date among the stored commits, or none when no stored commit has a date |
| PopulateData.LowerBound | AutoVCS/src/main/java/edu/ncsu/csc/autovcs/services/PopulateDataService.java:283-291 | The epoch when nothing is stored, else the latest stored date, which fails when no stored commit has a date |
| PopulateData.MergeKeys | AutoVCS/src/main/java/edu/ncsu/csc/autovcs/services/PopulateDataService.java:316-327 | The merged map holds exactly the listed SHAs |
| PopulateData.MergeValue | AutoVCS/src/main/java/edu/ncsu/csc/autovcs/services/PopulateDataService.java:316-327 | A SHA's entry is the conversion of its first listing carrying every branch that lists it |
| PopulateData.MergeOneCommitPerSha | AutoVCS/src/main/java/edu/ncsu/csc/autovcs/services/PopulateDataService.java:316-327 | One commit per SHA, carrying every branch that lists it |
| PopulateData.MergeBranch | AutoVCS/src/main/java/edu/ncsu/csc/autovcs/services/PopulateDataService.java:316-327 | Merging one branch's commits extends the merge by that branch's tagged commits |
| PopulateData.GetCommitsOnRepo | AutoVCS/src/main/java/edu/ncsu/csc/autovcs/services/PopulateDataService.java:274-334 | Fails iff the lower bound fails; otherwise the merge of every branch's listing since the lower bound, or of all history when requested |
| RepositoryQueries.BranchesAreUnionOfCommitBranches | AutoVCS/src/main/java/edu/ncsu/csc/autovcs/controllers/api/APIRepositoryController.java:117-127 | A name is a branch iff some commit of the repository carries it |
| RepositoryQueries.Members | AutoVCS/src/main/java/edu/ncsu/csc/autovcs/controllers/api/APIRepositoryController.java:129-148 | Fails iff a null user is among the participants; otherwise exactly the non-excluded authors, openers and commenters |
| RepositoryQueries.CollectAuthors | AutoVCS/src/main/java/edu/ncsu/csc/autovcs/controllers/api/APIRepositoryController.java:135-136 | The authors of the repository's commits |
| RepositoryQueries.CollectPullRequestUsers | AutoVCS/src/main/java/edu/ncsu/csc/autovcs/controllers/api/APIRepositoryController.java:138-143 | The openers and commenters of the repository's pull requests |
| RepositoryQueries.RemoveExcluded | AutoVCS/src/main/java/edu/ncsu/csc/autovcs/controllers/api/APIRepositoryController.java:145 | Exactly the candidates that are not excluded |
| RepositoryQueries.KeepIncluded | AutoVCS/src/main/java/edu/ncsu/csc/autovcs/controllers/api/APIRepositoryController.java:145 | The loop of `removeIf` keeps exactly the stored, non-excluded users |
| RepositoryQueries.PopulateRepositories | AutoVCS/src/main/java/edu/ncsu/csc/autovcs/controllers/api/APIRepositoryController.java:87-98 | One fresh record is saved and its id answered with OK |
| Selection.Window | AutoVCS/src/main/java/edu/ncsu/csc/autovcs/services/ContributionAnalysisService.java:281-289 | A window applies only when both bounds are given; a bound that does not parse fails |
| Selection.InsertByDate | AutoVCS/src/main/java/edu/ncsu/csc/autovcs/services/ContributionAnalysisService.java:206 | Inserting a dated commit into a newest-first list keeps it newest first and one longer |
| Selection.InsertByDateAdds | AutoVCS/src/main/java/edu/ncsu/csc/autovcs/services/ContributionAnalysisService.java:206 | Inserting by date adds exactly the one commit |
| Selection.SortNewestFirst | AutoVCS/src/main/java/edu/ncsu/csc/autovcs/services/ContributionAnalysisService.java:206 | The sort yields newest first and a permutation of its input |
| Selection.FileFilterMonotone | AutoVCS/src/main/java/edu/ncsu/csc/autovcs/services/ContributionAnalysisService.java:348-359 | Without GUI exclusion only the `java` suffix counts; with it, only files analysed without it can be |
| Selection.GuiTestMatchesInsideWords | AutoVCS/src/main/java/edu/ncsu/csc/autovcs/services/ContributionAnalysisService.java:354 | The GUI test is a case-sensitive substring test: `src/BuildTool.java` counts as GUI |
| Selection.AfterLastSlash | AutoVCS/src/main/java/edu/ncsu/csc/autovcs/services/ContributionAnalysisService.java:366 | The trimmed name is the slash-free suffix after the last `/`, or the whole name without one |
| Contributions.Share | AutoVCS/src/main/java/edu/ncsu/csc/autovcs/services/ContributionAnalysisService.java:163 | NaN iff the whole is 0; otherwise share times whole is the part |
| Contributions.SharesOf | AutoVCS/src/main/java/edu/ncsu/csc/autovcs/services/ContributionAnalysisService.java:161-167 | One share per user, each that user's part over the whole |
| Contributions.SharesSumToOne | AutoVCS/src/main/java/edu/ncsu/csc/autovcs/services/ContributionAnalysisService.java:159-167 | Shares of a nonzero whole that is the sum of the parts add up to 1 |
| Contributions.ShareBounds | AutoVCS/src/main/java/edu/ncsu/csc/autovcs/services/ContributionAnalysisService.java:163 | A part no larger than the whole has a share in [0, 1] |
| Contributions.FileContributions.constructor | AutoVCS/src/main/java/edu/ncsu/csc/autovcs/services/ContributionAnalysisService.java:483-487 | Empty per-user map, overall score 0 |
| Contributions.FileContributions.AddContribution | AutoVCS/src/main/java/edu/ncsu/csc/autovcs/services/ContributionAnalysisService.java:489-495 | Adds the score to that user's entry only (created at 0) and to the overall score, which stays the sum of the entries |
| ContributionAnalysis.Sorted | AutoVCS/src/main/java/edu/ncsu/csc/autovcs/services/ContributionAnalysisService.java:206 | The processing order is a permutation of the commits, newest first when all are dated |
| ContributionAnalysis.Keep | AutoVCS/src/main/java/edu/ncsu/csc/autovcs/services/ContributionAnalysisService.java:272-295 | Exactly the eligible commits inside the window, if one applies |
| ContributionAnalysis.ChosenCommitsAreSelected | AutoVCS/src/main/java/edu/ncsu/csc/autovcs/services/ContributionAnalysisService.java:272-295 | Every chosen commit is a non-merge commit with a parent, inside the inclusive window when both bounds are given, and one of the repository's |
| ContributionAnalysis.FileScoresMembers | AutoVCS/src/main/java/edu/ncsu/csc/autovcs/services/ContributionAnalysisService.java:344-384 | The scored files are exactly the analysed files whose extraction succeeded |
| ContributionAnalysis.FoldNames | AutoVCS/src/main/java/edu/ncsu/csc/autovcs/services/ContributionAnalysisService.java:366-371 | A trimmed name has a per-file entry iff something was filed under it |
| ContributionAnalysis.FoldEntries | AutoVCS/src/main/java/edu/ncsu/csc/autovcs/services/ContributionAnalysisService.java:366-371 | A user has an entry under a name iff something was filed for them there, and it holds everything filed for them there, excluded or not |
| ContributionAnalysis.FoldTotals | AutoVCS/src/main/java/edu/ncsu/csc/autovcs/services/ContributionAnalysisService.java:489-495 | A file's entries add up to everything filed under it |
| ContributionAnalysis.PerCommitEntries | AutoVCS/src/main/java/edu/ncsu/csc/autovcs/services/ContributionAnalysisService.java:385 | Every chosen commit has an entry under its SHA, whose author is that of a chosen commit with that SHA |
| ContributionAnalysis.PerCommitEmpty | AutoVCS/src/main/java/edu/ncsu/csc/autovcs/services/ContributionAnalysisService.java:385-390 | The per-commit table is empty iff no commit was chosen |
| ContributionAnalysis.PerCommitDistinctShas | AutoVCS/src/main/java/edu/ncsu/csc/autovcs/services/ContributionAnalysisService.java:385 | With distinct SHAs, each commit's entry is its own author and its changes |
| ContributionAnalysis.UserCommits | AutoVCS/src/main/java/edu/ncsu/csc/autovcs/services/ContributionAnalysisService.java:299-302 | An author's list holds exactly the display forms of their chosen commits |
| ContributionAnalysis.CommitsPerUser | AutoVCS/src/main/java/edu/ncsu/csc/autovcs/services/ContributionAnalysisService.java:299-302 | The keys are exactly the authors of the chosen commits, excluded or scoring nothing included, each with `UserCommits` of them |
| ContributionAnalysis.Locate | AutoVCS/src/main/java/edu/ncsu/csc/autovcs/services/ContributionAnalysisService.java:367-369 | The accumulator of a name, created empty and added when new; others untouched |
| ContributionAnalysis.AddTo | AutoVCS/src/main/java/edu/ncsu/csc/autovcs/services/ContributionAnalysisService.java:370-371 | Adding to one accumulator adds the filed score to the table and changes no other |
| ContributionAnalysis.Record | AutoVCS/src/main/java/edu/ncsu/csc/autovcs/services/ContributionAnalysisService.java:366-371 | One scored file adds its score under its trimmed name for the author |
| ContributionAnalysis.ScoreFile | AutoVCS/src/main/java/edu/ncsu/csc/autovcs/services/ContributionAnalysisService.java:346-382 | One file of a commit extends the commit's changes and the per-file table as the reference says |
| ContributionAnalysis.ProcessFiles | AutoVCS/src/main/java/edu/ncsu/csc/autovcs/services/ContributionAnalysisService.java:342-384 | A commit's changes are the summaries of its scored files, and the table gains their filed scores |
| ContributionAnalysis.Outcome | AutoVCS/src/main/java/edu/ncsu/csc/autovcs/services/ContributionAnalysisService.java:389-397 | A selection error passes through; an empty selection fails with no data; success only for a non-empty selection under BY_USER |
| ContributionAnalysis.AnalyseCommit | AutoVCS/src/main/java/edu/ncsu/csc/autovcs/services/ContributionAnalysisService.java:299-385 | One chosen commit: the three tables then summarise the chosen commits plus this one |
| ContributionAnalysis.StoppedWalk | AutoVCS/src/main/java/edu/ncsu/csc/autovcs/services/ContributionAnalysisService.java:281-291 | Where the walk stops on an unparsable bound or an undated commit, the choice fails with that error |
| ContributionAnalysis.Visit | AutoVCS/src/main/java/edu/ncsu/csc/autovcs/services/ContributionAnalysisService.java:272-295 | One turn of the loop either stops with its error or extends the walk and the summaries |
| ContributionAnalysis.WalkedAll | AutoVCS/src/main/java/edu/ncsu/csc/autovcs/services/ContributionAnalysisService.java:272-387 | A walk over all sorted commits chose exactly what `ChosenFrom` chooses |
| ContributionAnalysis.AnalyseInOrder | AutoVCS/src/main/java/edu/ncsu/csc/autovcs/services/ContributionAnalysisService.java:272-387 | The loop either stops at a commit with its error or summarises the chosen commits in fresh accumulators |
| ContributionAnalysis.CreateUnaggregatedDiffs | AutoVCS/src/main/java/edu/ncsu/csc/autovcs/services/ContributionAnalysisService.java:176-399 | Fails exactly as `Outcome` does; otherwise the tables summarise the chosen commits |
| Aggregation.AuthorChangesAdd | AutoVCS/src/main/java/edu/ncsu/csc/autovcs/services/ContributionAnalysisService.java:91-96 | A further commit adds its changes to its own author's changes alone |
| Aggregation.Regroup | AutoVCS/src/main/java/edu/ncsu/csc/autovcs/services/ContributionAnalysisService.java:76-97 | Fails iff a commit has no author; otherwise one list per non-excluded author, holding exactly the changes of that author's commits (as a multiset), whose score is the author's total |
| Aggregation.UserScoreAdd | AutoVCS/src/main/java/edu/ncsu/csc/autovcs/services/ContributionAnalysisService.java:96 | A commit adds its score to its author's score and to no one else's |
| Aggregation.SumScores | AutoVCS/src/main/java/edu/ncsu/csc/autovcs/services/ContributionAnalysisService.java:108-110 | The total is the sum of the users' scores |
| Aggregation.Percent | AutoVCS/src/main/java/edu/ncsu/csc/autovcs/services/ContributionAnalysisService.java:115 | NaN iff the total is 0; otherwise percent times total is 100 times the score |
| Aggregation.PercentsSumToHundred | AutoVCS/src/main/java/edu/ncsu/csc/autovcs/services/ContributionAnalysisService.java:113-116 | Percentages of a nonzero total that is the sum of the scores add up to 100 |
| Aggregation.PercentBounds | AutoVCS/src/main/java/edu/ncsu/csc/autovcs/services/ContributionAnalysisService.java:115 | A score no larger than the total is between 0 and 100 percent |
| Aggregation.SoleContributor | AutoVCS/src/main/java/edu/ncsu/csc/autovcs/services/ContributionAnalysisService.java:115 | A sole contributor with a positive score gets 100 |
| Aggregation.SortedNames | AutoVCS/src/main/java/edu/ncsu/csc/autovcs/services/ContributionAnalysisService.java:147-150 | The file names, each once, in ascending `compareTo` order |
| Ordering.InsertName | AutoVCS/src/main/java/edu/ncsu/csc/autovcs/services/ContributionAnalysisService.java:150 | Inserting a new name into an ascending list keeps it ascending and adds exactly that name |
| Aggregation.RowsShared | AutoVCS/src/main/java/edu/ncsu/csc/autovcs/services/ContributionAnalysisService.java:147-171 | The rows of the names in ascending order form the per-file table |
| Aggregation.ShareFiles | AutoVCS/src/main/java/edu/ncsu/csc/autovcs/services/ContributionAnalysisService.java:147-171 | Every file once, in ascending name order, with each user's contribution over the file's overall score |
| Aggregation.FileSharesSumToOne | AutoVCS/src/main/java/edu/ncsu/csc/autovcs/services/ContributionAnalysisService.java:159-167 | A file with a positive overall score has shares adding up to 1 |
| Aggregation.SummariseUsers | AutoVCS/src/main/java/edu/ncsu/csc/autovcs/services/ContributionAnalysisService.java:99-123 | One summary per included author whose changes are the regrouped list, so exactly the author's changes, with its score, its percentage of the total and its commits |
| Aggregation.Aggregate | AutoVCS/src/main/java/edu/ncsu/csc/autovcs/services/ContributionAnalysisService.java:67-173 | Fails iff a commit has no author; otherwise the per-user table (each author's exact changes, score, percentage and commits) and the per-file table as above |
| Aggregation.PercentagesOfUsersBounded | AutoVCS/src/main/java/edu/ncsu/csc/autovcs/services/ContributionAnalysisService.java:113-116 | With a positive total every user's percentage is in [0, 100] |
| Aggregation.PercentagesAreOfScores | AutoVCS/src/main/java/edu/ncsu/csc/autovcs/services/ContributionAnalysisService.java:113-116 | Each user's percentage is 100 times their score over the total |
| Aggregation.PercentagesOfUsersSumToHundred | AutoVCS/src/main/java/edu/ncsu/csc/autovcs/services/ContributionAnalysisService.java:108-116 | With a positive total the users' percentages add up to 100 |
| Aggregation.IncludedAuthorsHaveCommits | AutoVCS/src/main/java/edu/ncsu/csc/autovcs/services/ContributionAnalysisService.java:119-123 | Every included author has a commit list |
| Aggregation.AggregateByUser | AutoVCS/src/main/java/edu/ncsu/csc/autovcs/services/ContributionAnalysisService.java:63-174 | The error of either step, or the aggregation of the chosen commits' tables |
| Aggregation.NullAuthorOfChosen | AutoVCS/src/main/java/edu/ncsu/csc/autovcs/services/ContributionAnalysisService.java:79-85 | With distinct SHAs, aggregation fails iff some chosen commit has no author |
| JGit.NameIsIllegalChars | AutoVCS/src/main/java/edu/ncsu/csc/autovcs/services/JGitService.java:151-153 | Illegal iff the name holds `:` or starts or ends with a space |
| JGit.ReplaceChar | AutoVCS/src/main/java/edu/ncsu/csc/autovcs/services/JGitService.java:159-160 | Every occurrence of the character is replaced, all else kept in place |
| JGit.Underscored | AutoVCS/src/main/java/edu/ncsu/csc/autovcs/services/JGitService.java:159-160 | Every colon and every pipe becomes `_` |
| JGit.Correct | AutoVCS/src/main/java/edu/ncsu/csc/autovcs/services/JGitService.java:155-171 | The result holds neither a colon nor a pipe and loses at most two characters |
| JGit.CorrectKeepsOtherCharacters | AutoVCS/src/main/java/edu/ncsu/csc/autovcs/services/JGitService.java:155-171 | Apart from the replacements, every character stays, shifted by one if a leading space was dropped |
| JGit.CorrectChangesExactly | AutoVCS/src/main/java/edu/ncsu/csc/autovcs/services/JGitService.java:155-171 | `correct` changes a name iff it is illegal or holds a pipe |
| JGit.CorrectTrailingSpace | AutoVCS/src/main/java/edu/ncsu/csc/autovcs/services/JGitService.java:162-167 | `invalid_file.txt ` is illegal and corrected to `invalid_file.txt` |
| JGit.LegalNameKept | AutoVCS/src/main/java/edu/ncsu/csc/autovcs/services/JGitService.java:155-171 | `valid_file.txt` is legal and kept |
| JGit.PipeNameIsNotRenamed | AutoVCS/src/main/java/edu/ncsu/csc/autovcs/services/JGitService.java:114-117 | A name like `a` + pipe + `b` is not illegal, so it keeps its name on disk, although `correct` would replace the pipe with `_` |
| JGit.CorrectedNameMayStayIllegal | AutoVCS/src/main/java/edu/ncsu/csc/autovcs/services/JGitService.java:162-167 | Two leading spaces leave an illegal corrected name |
| JGit.ContainsUnsafeFile | AutoVCS/src/main/java/edu/ncsu/csc/autovcs/services/JGitService.java:142-149 | True iff some changed file is illegal; false for none |
| JGit.Target | AutoVCS/src/main/java/edu/ncsu/csc/autovcs/services/JGitService.java:112-117 | The written name holds no `:` and differs from the path only for an illegal path, as its correction |
| JGit.FirstUnwritable | AutoVCS/src/main/java/edu/ncsu/csc/autovcs/services/JGitService.java:108-119 | The loop writes every path before the first whose target cannot be written |
| JGit.WrittenNames | AutoVCS/src/main/java/edu/ncsu/csc/autovcs/services/JGitService.java:108-134 | Every path is written under its target name, and no other name is written |
| JGit.WrittenContents | AutoVCS/src/main/java/edu/ncsu/csc/autovcs/services/JGitService.java:108-134 | Without target clashes each written name holds its own path's content |
| JGit.RenamedNames | AutoVCS/src/main/java/edu/ncsu/csc/autovcs/services/JGitService.java:127-132 | Only renamed paths gain an extra index entry, under their corrected name |
| JGit.PartialCheckoutCompleted | AutoVCS/src/main/java/edu/ncsu/csc/autovcs/services/JGitService.java:79-140 | A completed partial checkout has every tree path on disk under its target, no written name with `:`, and the index gains the staged and renamed entries |
| JGit.PartialCheckoutLocked | AutoVCS/src/main/java/edu/ncsu/csc/autovcs/services/JGitService.java:89-91 | Without the index lock nothing is written and the index is unchanged |
| JGit.WorkingCopy.StageTree | AutoVCS/src/main/java/edu/ncsu/csc/autovcs/services/JGitService.java:213-223 | One index edit per tree path the index accepts |
| JGit.WorkingCopy.PartialCheckout | AutoVCS/src/main/java/edu/ncsu/csc/autovcs/services/JGitService.java:79-140 | The directory and index end as `PartialOutcome` says |
| JGit.WorkingCopy.WriteAll | AutoVCS/src/main/java/edu/ncsu/csc/autovcs/services/JGitService.java:108-134 | The loop stops at the first unwritable path, having written the paths before it; the edits gain the renamed entries when all were written |
| JGit.WorkingCopy.WriteFile | AutoVCS/src/main/java/edu/ncsu/csc/autovcs/services/JGitService.java:110-132 | One path is written under its target if writable, with an index edit for a renamed path |
| JGit.WorkingCopy.SafeCheckout | AutoVCS/src/main/java/edu/ncsu/csc/autovcs/services/JGitService.java:58-77 | Partial at once iff on Windows with an illegal changed file; otherwise forced, falling back to partial only when the forced checkout fails |
| UserAdmin.Ref | AutoVCS/src/main/java/edu/ncsu/csc/autovcs/controllers/api/APIUserController.java:56-58 | `findById` yields a reference iff the id is stored |
| UserAdmin.ReassignCommits | AutoVCS/src/main/java/edu/ncsu/csc/autovcs/controllers/api/APIUserController.java:61-62 | Each commit's author moves from the old user to the new one; nothing else changes |
| UserAdmin.CountAuthoredBy | AutoVCS/src/main/java/edu/ncsu/csc/autovcs/controllers/api/APIUserController.java:61-64 | The count of commits found for the old user is at most the number of commits |
| UserAdmin.ReassignComments | AutoVCS/src/main/java/edu/ncsu/csc/autovcs/controllers/api/APIUserController.java:69-71 | Each comment's commenter moves; nothing else changes |
| UserAdmin.ReassignPullRequests | AutoVCS/src/main/java/edu/ncsu/csc/autovcs/controllers/api/APIUserController.java:75-79 | Each pull request's comments, opener and merger move |
| UserAdmin.SecondCommentPassIsNoOp | AutoVCS/src/main/java/edu/ncsu/csc/autovcs/controllers/api/APIUserController.java:81-84 | The repeated comment pass changes nothing |
| UserAdmin.RemapAll | AutoVCS/src/main/java/edu/ncsu/csc/autovcs/controllers/api/APIUserController.java:55-91 | Remapping keeps the number of commits and pull requests |
| UserAdmin.RemapAllMovesEachField | AutoVCS/src/main/java/edu/ncsu/csc/autovcs/controllers/api/APIUserController.java:55-91 | Every author, opener and merger follows the remappings in order; nothing else changes |
| UserAdmin.MoveAllWithoutChains | AutoVCS/src/main/java/edu/ncsu/csc/autovcs/controllers/api/APIUserController.java:55-91 | Without chains, a source's field ends at its target and any other field is unchanged |
| UserAdmin.Moves | AutoVCS/src/main/java/edu/ncsu/csc/autovcs/controllers/api/APIUserController.java:55-58 | One (old, new) reference pair per request entry, in iteration order |
| UserAdmin.RemapMovesAuthorship | AutoVCS/src/main/java/edu/ncsu/csc/autovcs/controllers/api/APIUserController.java:55-66 | With stored, unchained users, a commit of an old user is authored by its new user afterwards, and any other keeps its author |
| UserAdmin.DistinctKeysCount | AutoVCS/src/main/java/edu/ncsu/csc/autovcs/controllers/api/APIUserController.java:49 | An order listing each key once has the map's size |
| UserAdmin.Selection | AutoVCS/src/main/java/edu/ncsu/csc/autovcs/controllers/api/APIUserController.java:143-159 | Defined iff the type is name, email or both, and then selects by name, email or their union |
| UserAdmin.ExcludeMultipleUsersSearch | AutoVCS/src/main/java/edu/ncsu/csc/autovcs/controllers/api/APIUserController.java:171-189 | The same selection as stored users, empty for an unknown type |
| UserAdmin.UserController.RemapUsers | AutoVCS/src/main/java/edu/ncsu/csc/autovcs/controllers/api/APIUserController.java:44-96 | Answers the map size and the number of commits moved, and rewrites the tables as `RemapAll` |
| UserAdmin.UserController.SetExcludedFlag | AutoVCS/src/main/java/edu/ncsu/csc/autovcs/controllers/api/APIUserController.java:121-141 | NOT_FOUND with nothing changed for an unknown id; otherwise OK and only that user's flag is set |
| UserAdmin.UserController.ExcludeMultipleUsers | AutoVCS/src/main/java/edu/ncsu/csc/autovcs/controllers/api/APIUserController.java:143-169 | BAD_REQUEST for an unknown type, NOT_FOUND for an empty selection, otherwise exactly the selected users become excluded |
| UserAdmin.UserController.CreateUser | AutoVCS/src/main/java/edu/ncsu/csc/autovcs/controllers/api/APIUserController.java:98-109 | BAD_REQUEST with nothing stored when the save fails; otherwise CREATED, with a stored id overwritten and anything else appended |

## Left out

- Cloning, checking out, deleting directories, removing index locks and the fixed sleeps of the analysis are left out. What the checked-out snapshots give the change extractor is folded into the parameter `extract`.
- The analysis loop uses a plain checkout, not `safeCheckout`. The model keeps the two apart.
- The structural diff engine and its weights are external. A change summary is a list of natural weights, and its score is their sum.
- GitHub API calls, rate-limit reads, `Thread` and `@Async` behaviour, printing and JSON serialisation are left out. GitHub's answers are values, and whether the rate limit can be read is a boolean.
- Hibernate and Spring Data persistence are held as in-memory tables. A user's id is its row index. `findTop1ByEmailOrderById` is the first match in id order.
- Floating point is modelled as `real`, with NaN as an explicit case. IEEE rounding is not modelled.
- Contributions.Share: a positive part over a zero whole would be Infinity in Java, not NaN. This cannot happen, since scores are non-negative and the whole is their sum.
- Aggregation.Percent: `100 * score` is 32-bit `int` arithmetic in Java and can overflow. The model uses unbounded integers, as it does for every score and line-count sum.
- Strings are sequences of characters. UTF-16 surrogates and the time zone behind `LocalDate.ofInstant` are not modelled; the calendar day is the parameter `dayOf`.
- The order of a user's change list follows `HashMap` iteration. The model proves the contents of the list as a multiset, and its score, but not the order of its elements.
- PullRequests.Equals and PullRequests.HashCode: repository identity is modelled as equality of repository ids. Java compares and hashes repository instances, since neither `GHRepository` nor `DomainObject` overrides `equals` or `hashCode`; ids and instances agree only within one persistence context. `GHRepository.addPullRequest` also sets a request's repository, part of its hash, after adding it to the `HashSet`; the model's sets are not hash-based and do not capture that.
- Aggregation.SortedNames and Selection.SortNewestFirst model the result of `List.sort`, not its algorithm.
- When the repository is unknown and must be initialised, the populate run is abstracted. The analysis receives the commits found afterwards.
- In `partialCheckout`, whether `DirCacheEntry` accepts a path and whether a name can be written are parameters.
- JGit.WorkingCopy.PartialCheckout: a failed write is an error, and the lock is not released, as in the source. Reading content (`getContent`) is assumed to succeed.
- JGit.WorkingCopy.PartialCheckout: the blob length read through a path relative to the process directory is not modelled. Index entries carry the written content.
- JGit.WorkingCopy.SafeCheckout: a forced checkout is modelled as materialising the whole tree in the directory and the index.
- Later index edits for the same name win.
- `filesOnCommit` is only used by the dispatch; `partialCheckout` ignores it, as in the source.
- PopulateData.Populate: fetching a repository's commits and pull requests, and saving it, are abstracted. Each is one success flag per repository (`fetchSucceeds`); a failure ends the run.
- The duplicate-member check takes its inputs as values: the team lookup and the authors of the repository's stored commits.
- `GitUser.hashCode` includes the id, while `equals` ignores it. Hash sets of users are modelled as sets of ids, so two stored rows with the same name and email stay distinct, as they do in the source when their ids differ.
- An empty selection makes `createUnaggregatedDiffs` throw not-found. This follows the code: a REST-level test of the analysis expects OK with an empty result instead.
- The description of the system says any leading or trailing whitespace makes a path illegal and is stripped. The code tests and drops a single space character at each end of the whole path, and the model follows the code.
- The description also says one identity exists per resolution key. The code breaks this for authors without an email; see Findings.
- UserDirectory.Directory.ForAuthor: models the corrected lookup of the Findings row, saving the email the author was looked up by; the code saves the author's null email, which UserDirectory.Directory.ForAuthorAsWritten models.
- UserDirectory.Directory.ForAccount: models the corrected lookup of the Findings row, saving the email the account was looked up by; the code saves a null email when the email cannot be read, which UserDirectory.Directory.ForAccountAsWritten models.
- CommitIngestion.CommitService.ForCommit: resolves users through the corrected `UserDirectory.Directory.ForAuthor`, so an author without an email is saved with `name@domain` rather than null.
- CommitIngestion.CommitService.ForCommit: `GHCommitService` is `@Transactional`, so a rethrown exception may roll back users saved before it when the call opens its own transaction. The model keeps them; transactions are not modelled.
- UserDirectory.FindByNameContaining, UserDirectory.FindByEmailContaining and UserAdmin.Selection: the model matches substrings case-sensitively. The derived `Containing` queries are SQL `LIKE`, whose case sensitivity follows the database collation, case-insensitive by default on MySQL.
- UserDirectory.CachedAuthor, UserDirectory.CachedAccount, UserDirectory.Directory.CachedForAuthor and UserDirectory.Directory.CachedForAccount: the criteria query has no ordering, so which of several matching rows comes first is unspecified. The model takes the lowest id.

## Findings

| source | as written | input that shows it | evidently intended | confidence | as-written member | corrected member |
|---|---|---|---|---|---|---|
| AutoVCS/src/main/java/edu/ncsu/csc/autovcs/services/GitUserService.java:82-96 | `forUser(GHAuthor)` looks an author up by `name@domain` when the email is null, but saves a user built from the author, whose email stays null. The next lookup does not find that user. `forUser(GHUser)` does the same when the email cannot be read. | An author named `alice` with no email, resolved twice into an empty store, yields two users | The created user carries the email it was looked up by, so a second resolution returns it | not executed | UserDirectory.AuthorWithoutEmailDuplicatedAsWritten | UserDirectory.ResolveIsIdempotent |
