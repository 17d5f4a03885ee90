/**
 * `ContributionAnalysisService.aggregateByUser`: the per-commit changes are
 * regrouped per author (excluded authors left out), each author's score is
 * turned into a percentage of the total, and each file's per-user scores
 * into shares of that file's overall score, files in name order.
 */
module Aggregation {
  import opened Common
  import opened GitUsers
  import opened Commits
  import opened Forms
  import opened Contributions
  import opened ContributionAnalysis
  import opened Ordering

  /** A user's `ChangeSummariesList`: their changes, its score, its percentage and their commits. */
  datatype UserSummary = UserSummary(changes: seq<ChangeSummary>, score: int, percent: Ratio, commits: Option<seq<DisplayCommit>>)

  /** One file of the per-file table: each user's share of the file's overall score. */
  datatype FileShares = FileShares(fileName: string, shares: map<Option<UserId>, Ratio>)

  /** `ContributionsSummariesAPIData`. */
  datatype APIData = APIData(changesPerUser: map<UserId, UserSummary>, changesPerFile: seq<FileShares>)

  // ---------------------------------------------------------------------
  // Regrouping per author

  /** The entries of the commits whose SHA is in `keys`. */
  function Restrict(pc: map<Option<string>, CommitEntry>, keys: set<Option<string>>): map<Option<string>, CommitEntry>
  {
    map k | k in keys && k in pc :: pc[k]
  }

  predicate HasNullAuthor(pc: map<Option<string>, CommitEntry>)
  {
    exists k :: k in pc && pc[k].author.None?
  }

  /** The authors whose contributions are counted: present and not excluded. */
  function IncludedAuthors(pc: map<Option<string>, CommitEntry>, excluded: UserId -> bool): set<UserId>
  {
    set k | k in pc && pc[k].author.Some? && !excluded(pc[k].author.value) :: pc[k].author.value
  }

  /** The score of each of `u`'s commits. */
  ghost function EntryScores(pc: map<Option<string>, CommitEntry>, u: UserId): map<Option<string>, int>
  {
    map k | k in pc && pc[k].author == Some(u) :: ListScore(pc[k].changes)
  }

  /** `u`'s score: the sum of the scores of all of `u`'s commits. */
  ghost function UserScore(pc: map<Option<string>, CommitEntry>, u: UserId): int
  {
    SumValues(EntryScores(pc, u))
  }

  lemma UserScoreNonNegative(pc: map<Option<string>, CommitEntry>, u: UserId)
    ensures UserScore(pc, u) >= 0
  {
    SumValuesNonNegative(EntryScores(pc, u));
  }

  lemma RestrictAdd(pc: map<Option<string>, CommitEntry>, done: set<Option<string>>, k: Option<string>)
    requires k in pc
    ensures Restrict(pc, done + {k}) == Restrict(pc, done)[k := pc[k]]
  {
  }

  lemma IncludedAuthorsAdd(m: map<Option<string>, CommitEntry>, k: Option<string>, e: CommitEntry, excluded: UserId -> bool)
    requires k !in m && e.author.Some?
    ensures IncludedAuthors(m[k := e], excluded) == IncludedAuthors(m, excluded) + (if excluded(e.author.value) then {} else {e.author.value})
  {
    var m' := m[k := e];
    forall u | u in IncludedAuthors(m, excluded)
      ensures u in IncludedAuthors(m', excluded)
    {
      var j :| j in m && m[j].author.Some? && !excluded(m[j].author.value) && m[j].author.value == u;
      assert m'[j] == m[j];
    }
    if !excluded(e.author.value) {
      assert m'[k] == e;
    }
  }

  lemma EntryScoresAdd(m: map<Option<string>, CommitEntry>, k: Option<string>, e: CommitEntry, u: UserId)
    requires k !in m
    ensures EntryScores(m[k := e], u) == if e.author == Some(u) then EntryScores(m, u)[k := ListScore(e.changes)] else EntryScores(m, u)
  {
  }

  /** A user with no commit has score 0. */
  lemma UserScoreAbsent(m: map<Option<string>, CommitEntry>, u: UserId)
    requires forall k :: k in m ==> m[k].author != Some(u)
    ensures UserScore(m, u) == 0
  {
    assert EntryScores(m, u) == map[];
  }

  /** Adding a commit adds its score to its author's score and leaves every other score alone. */
  lemma UserScoreAdd(m: map<Option<string>, CommitEntry>, k: Option<string>, e: CommitEntry, u: UserId)
    requires k !in m
    ensures UserScore(m[k := e], u) == UserScore(m, u) + (if e.author == Some(u) then ListScore(e.changes) else 0)
  {
    EntryScoresAdd(m, k, e, u);
    if e.author == Some(u) {
      assert k !in EntryScores(m, u);
      SumValuesAdd(EntryScores(m, u), k, ListScore(e.changes));
    }
  }

  /** The changes of each of `u`'s commits. */
  ghost function EntryChanges(pc: map<Option<string>, CommitEntry>, u: UserId): map<Option<string>, multiset<ChangeSummary>>
  {
    map k | k in pc && pc[k].author == Some(u) :: multiset(pc[k].changes)
  }

  /** Every change of every one of `u`'s commits, counted once per commit it appears in. */
  ghost function AuthorChanges(pc: map<Option<string>, CommitEntry>, u: UserId): multiset<ChangeSummary>
  {
    UnionValues(EntryChanges(pc, u))
  }

  lemma EntryChangesAdd(m: map<Option<string>, CommitEntry>, k: Option<string>, e: CommitEntry, u: UserId)
    requires k !in m
    ensures EntryChanges(m[k := e], u) == if e.author == Some(u) then EntryChanges(m, u)[k := multiset(e.changes)] else EntryChanges(m, u)
  {
  }

  /** Adding a commit adds its changes to its author's changes and leaves everyone else's alone. */
  lemma AuthorChangesAdd(m: map<Option<string>, CommitEntry>, k: Option<string>, e: CommitEntry, u: UserId)
    requires k !in m
    ensures AuthorChanges(m[k := e], u) == AuthorChanges(m, u) + (if e.author == Some(u) then multiset(e.changes) else multiset{})
  {
    EntryChangesAdd(m, k, e, u);
    if e.author == Some(u) {
      var before := EntryChanges(m, u);
      var after := before[k := multiset(e.changes)];
      UnionValuesPick(after, k);
      assert k !in before;
      assert after - {k} == before;
    }
  }

  /** A user with no commit has no changes. */
  lemma AuthorChangesAbsent(m: map<Option<string>, CommitEntry>, u: UserId)
    requires forall k :: k in m ==> m[k].author != Some(u)
    ensures AuthorChanges(m, u) == multiset{}
  {
    assert EntryChanges(m, u) == map[];
  }

  /** What the regrouping holds after the commits in `done`. */
  ghost predicate Regrouped(pc: map<Option<string>, CommitEntry>, done: set<Option<string>>, excluded: UserId -> bool,
                            remapped: map<UserId, seq<ChangeSummary>>)
  {
    && !HasNullAuthor(Restrict(pc, done))
    && remapped.Keys == IncludedAuthors(Restrict(pc, done), excluded)
    && (forall u :: u in remapped ==> ListScore(remapped[u]) == UserScore(Restrict(pc, done), u))
    && forall u :: u in remapped ==> multiset(remapped[u]) == AuthorChanges(Restrict(pc, done), u)
  }

  /** The contents of the regrouped lists after one more commit. */
  lemma RegroupChanges(m: map<Option<string>, CommitEntry>, k: Option<string>, e: CommitEntry, excluded: UserId -> bool,
                       remapped: map<UserId, seq<ChangeSummary>>, remapped': map<UserId, seq<ChangeSummary>>)
    requires k !in m && e.author.Some?
    requires remapped.Keys == IncludedAuthors(m, excluded)
    requires forall u :: u in remapped ==> multiset(remapped[u]) == AuthorChanges(m, u)
    requires var u := e.author.value;
      remapped' == if excluded(u) then remapped
                   else remapped[u := (if u in remapped then remapped[u] else []) + e.changes]
    ensures forall u :: u in remapped' ==> multiset(remapped'[u]) == AuthorChanges(m[k := e], u)
  {
    var author := e.author.value;
    forall u | u in remapped'
      ensures multiset(remapped'[u]) == AuthorChanges(m[k := e], u)
    {
      AuthorChangesAdd(m, k, e, u);
      if u == author && u !in remapped {
        AuthorChangesAbsent(m, u);
        assert [] + e.changes == e.changes;
      }
    }
  }

  /** The scores of the regrouped lists after one more commit. */
  lemma RegroupScores(m: map<Option<string>, CommitEntry>, k: Option<string>, e: CommitEntry, excluded: UserId -> bool,
                      remapped: map<UserId, seq<ChangeSummary>>, remapped': map<UserId, seq<ChangeSummary>>)
    requires k !in m && e.author.Some?
    requires remapped.Keys == IncludedAuthors(m, excluded)
    requires forall u :: u in remapped ==> ListScore(remapped[u]) == UserScore(m, u)
    requires var u := e.author.value;
      remapped' == if excluded(u) then remapped
                   else remapped[u := (if u in remapped then remapped[u] else []) + e.changes]
    ensures forall u :: u in remapped' ==> ListScore(remapped'[u]) == UserScore(m[k := e], u)
  {
    var author := e.author.value;
    forall u | u in remapped'
      ensures ListScore(remapped'[u]) == UserScore(m[k := e], u)
    {
      UserScoreAdd(m, k, e, u);
      if u == author {
        if u in remapped {
          ListScoreAppend(remapped[u], e.changes);
        } else {
          UserScoreAbsent(m, u);
          ListScoreAppend([], e.changes);
          assert [] + e.changes == e.changes;
        }
      }
    }
  }

  lemma RegroupStep(pc: map<Option<string>, CommitEntry>, done: set<Option<string>>, excluded: UserId -> bool,
                    remapped: map<UserId, seq<ChangeSummary>>, k: Option<string>, remapped': map<UserId, seq<ChangeSummary>>)
    requires k in pc && k !in done && pc[k].author.Some?
    requires Regrouped(pc, done, excluded, remapped)
    requires var u := pc[k].author.value;
      remapped' == if excluded(u) then remapped
                   else remapped[u := (if u in remapped then remapped[u] else []) + pc[k].changes]
    ensures Regrouped(pc, done + {k}, excluded, remapped')
  {
    var m := Restrict(pc, done);
    var e := pc[k];
    RestrictAdd(pc, done, k);
    IncludedAuthorsAdd(m, k, e, excluded);
    var m' := m[k := e];
    assert Restrict(pc, done + {k}) == m';
    assert !HasNullAuthor(m') by {
      forall j | j in m'
        ensures m'[j].author.Some?
      {
        if j != k {
          assert m'[j] == m[j];
        }
      }
    }
    assert remapped'.Keys == IncludedAuthors(m', excluded);
    RegroupScores(m, k, e, excluded, remapped, remapped');
    RegroupChanges(m, k, e, excluded, remapped, remapped');
  }

  /**
   * The first loop of `aggregateByUser`: every commit's changes are appended
   * to its author's list unless the author is excluded; a commit without an
   * author stops it, since asking whether a null author is excluded throws.
   * Each list holds exactly its author's changes, and its score is the
   * author's total score.
   */
  method Regroup(pc: map<Option<string>, CommitEntry>, excluded: UserId -> bool)
    returns (r: Result<map<UserId, seq<ChangeSummary>>, AnalysisError>)
    ensures r.Err? <==> HasNullAuthor(pc)
    ensures r.Err? ==> r.error == NullAuthor
    ensures r.Ok? ==> r.value.Keys == IncludedAuthors(pc, excluded)
    ensures r.Ok? ==> forall u :: u in r.value ==> ListScore(r.value[u]) == UserScore(pc, u)
    ensures r.Ok? ==> forall u :: u in r.value ==> multiset(r.value[u]) == AuthorChanges(pc, u)
  {
    var remapped: map<UserId, seq<ChangeSummary>> := map[];
    var remaining := pc.Keys;
    ghost var done: set<Option<string>> := {};
    assert Restrict(pc, {}) == map[];
    while remaining != {}
      invariant remaining <= pc.Keys && done == pc.Keys - remaining
      invariant Regrouped(pc, done, excluded, remapped)
      decreases |remaining|
    {
      var k :| k in remaining;
      var entry := pc[k];
      if entry.author.None? {
        return Err(NullAuthor);
      }
      var author := entry.author.value;
      ghost var before := remapped;
      if !excluded(author) {
        var prior := if author in remapped then remapped[author] else [];
        remapped := remapped[author := prior + entry.changes];
      }
      RegroupStep(pc, done, excluded, before, k, remapped);
      remaining := remaining - {k};
      done := done + {k};
    }
    assert Restrict(pc, done) == pc;
    return Ok(remapped);
  }

  // ---------------------------------------------------------------------
  // Totals and percentages

  /** The second loop of `aggregateByUser`: the total of the users' scores. */
  method SumScores(scores: map<UserId, int>) returns (total: int)
    ensures total == SumValues(scores)
  {
    total := 0;
    var rest := scores;
    while rest != map[]
      invariant total + SumValues(rest) == SumValues(scores)
      decreases |rest|
    {
      var u :| u in rest;
      SumValuesPick(rest, u);
      total := total + rest[u];
      rest := rest - {u};
    }
  }

  /** `100 * score / total` in double arithmetic: NaN when the total is 0. */
  function Percent(score: int, total: int): (p: Ratio)
    ensures total == 0 <==> p.NaN?
    ensures p.Value? ==> p.r * (total as real) == 100.0 * (score as real)
  {
    Share(100 * score, total)
  }

  lemma PercentIsScaled(score: int, total: int)
    requires total != 0
    ensures Percent(score, total).r == Scaled(score, 100.0 / (total as real))
  {
  }

  lemma HundredPercentOfTotal(total: int)
    requires total != 0
    ensures Scaled(total, 100.0 / (total as real)) == 100.0
  {
  }

  /** Each score as a percentage of the total. */
  function PercentsOf<K>(scores: map<K, int>, total: int): (r: map<K, Ratio>)
    ensures r.Keys == scores.Keys
  {
    map k | k in scores :: Percent(scores[k], total)
  }

  /** Percentages of a positive total that is the sum of the scores add up to 100. */
  lemma PercentsSumToHundred<K>(scores: map<K, int>, total: int)
    requires total == SumValues(scores) && total != 0
    ensures forall k :: k in scores ==> PercentsOf(scores, total)[k].Value?
    ensures SumReals(Values(PercentsOf(scores, total))) == 100.0
  {
    var percents := PercentsOf(scores, total);
    var f := 100.0 / (total as real);
    forall k | k in scores
      ensures Values(percents)[k] == Scaled(scores[k], f)
    {
      PercentIsScaled(scores[k], total);
    }
    SumOfScaledShares(scores, Values(percents), f);
    HundredPercentOfTotal(total);
  }

  /** A non-negative score no larger than the total is between 0 and 100 percent of it. */
  lemma PercentBounds(score: int, total: int)
    requires 0 <= score <= total && total != 0
    ensures 0.0 <= Percent(score, total).r <= 100.0
  {
    ShareBounds(score, total);
    assert Percent(score, total).r == 100.0 * Share(score, total).r;
  }

  /** A sole contributor with a positive score gets 100 percent. */
  lemma SoleContributor<K>(k: K, score: int)
    requires score > 0
    ensures Percent(score, SumValues(map[k := score])) == Value(100.0)
  {
    var scores := map[k := score];
    SumValuesPick(scores, k);
    assert scores - {k} == map[];
    var p := Percent(score, score).r;
    if p > 100.0 {
      ProductGrows(p, 100.0, score as real);
    } else if p < 100.0 {
      ProductGrows(100.0, p, score as real);
    }
  }

  // ---------------------------------------------------------------------
  // Per-file shares

  /** The file names in ascending order: `sortedContributions.sort` by key. */
  method SortedNames(names: set<string>) returns (sorted: seq<string>)
    ensures Ascending(sorted) && |sorted| == |names|
    ensures forall x :: x in sorted <==> x in names
  {
    sorted := [];
    var rest := names;
    while rest != {}
      invariant rest <= names && Ascending(sorted)
      invariant forall x :: x in sorted <==> x in names - rest
      invariant |sorted| == |names - rest|
      decreases |rest|
    {
      var name :| name in rest;
      assert names - (rest - {name}) == (names - rest) + {name};
      sorted := InsertName(sorted, name);
      rest := rest - {name};
    }
  }

  /** The file names of a per-file table, in its order. */
  function FileNames(table: seq<FileShares>): (r: seq<string>)
    ensures |r| == |table| && forall i :: 0 <= i < |table| ==> r[i] == table[i].fileName
  {
    seq(|table|, i requires 0 <= i < |table| => table[i].fileName)
  }

  /** The per-file table lists every file once, in ascending order, with its users' shares. */
  ghost predicate FilesShared(table: seq<FileShares>, scores: Table)
  {
    && Ascending(FileNames(table))
    && (forall name :: name in scores <==> exists i :: 0 <= i < |table| && table[i].fileName == name)
    && forall i :: 0 <= i < |table| ==>
         table[i].fileName in scores &&
         table[i].shares == SharesOf(scores[table[i].fileName], SumValues(scores[table[i].fileName]))
  }

  /** The table's row for each name of `names`, in that order. */
  ghost function Rows(scores: Table, names: seq<string>): (r: seq<FileShares>)
    requires forall n :: n in names ==> n in scores
    ensures |r| == |names|
  {
    if names == [] then []
    else
      var last := names[|names| - 1];
      Rows(scores, names[..|names| - 1]) + [FileShares(last, SharesOf(scores[last], SumValues(scores[last])))]
  }

  lemma RowsStep(scores: Table, names: seq<string>, i: nat)
    requires forall n :: n in names ==> n in scores
    requires i < |names|
    ensures Rows(scores, names[..i + 1]) ==
      Rows(scores, names[..i]) + [FileShares(names[i], SharesOf(scores[names[i]], SumValues(scores[names[i]])))]
  {
    assert names[..i + 1][..i] == names[..i];
  }

  /** Row `j` is the row of the `j`-th name. */
  lemma {:induction false} RowAt(scores: Table, names: seq<string>, j: nat)
    requires forall n :: n in names ==> n in scores
    requires j < |names|
    ensures Rows(scores, names)[j] == FileShares(names[j], SharesOf(scores[names[j]], SumValues(scores[names[j]])))
  {
    if j < |names| - 1 {
      RowAt(scores, names[..|names| - 1], j);
    }
  }

  /** Row `j` names the `j`-th file and holds its shares. */
  lemma RowsAt(scores: Table, names: seq<string>)
    requires forall n :: n in names ==> n in scores
    ensures forall j :: 0 <= j < |names| ==> Rows(scores, names)[j].fileName == names[j]
    ensures forall j :: 0 <= j < |names| ==>
      Rows(scores, names)[j].shares == SharesOf(scores[names[j]], SumValues(scores[names[j]]))
  {
    forall j | 0 <= j < |names|
      ensures Rows(scores, names)[j] == FileShares(names[j], SharesOf(scores[names[j]], SumValues(scores[names[j]])))
    {
      RowAt(scores, names, j);
    }
  }

  /** The rows of the file names in ascending order are the per-file table. */
  lemma RowsShared(scores: Table, names: seq<string>)
    requires Ascending(names)
    requires forall n :: n in names <==> n in scores
    ensures FilesShared(Rows(scores, names), scores)
  {
    var table := Rows(scores, names);
    RowsAt(scores, names);
    assert FileNames(table) == names;
    forall name | name in scores
      ensures exists i :: 0 <= i < |table| && table[i].fileName == name
    {
      var i :| 0 <= i < |names| && names[i] == name;
      assert table[i].fileName == name;
    }
  }

  /**
   * The last part of `aggregateByUser`: files in ascending name order, each
   * with every user's contribution divided by the file's overall score.
   */
  method ShareFiles(perFile: map<string, FileContributions>) returns (table: seq<FileShares>)
    requires AllValid(perFile)
    ensures FilesShared(table, TableOf(perFile))
  {
    var names := SortedNames(perFile.Keys);
    ghost var scores := TableOf(perFile);
    table := [];
    var i := 0;
    while i < |names|
      invariant 0 <= i <= |names|
      invariant table == Rows(scores, names[..i])
    {
      var fileContribs := perFile[names[i]];
      assert fileContribs.Valid();
      RowsStep(scores, names, i);
      table := table + [FileShares(names[i], SharesOf(fileContribs.contributionPerUser, fileContribs.overallScore))];
      i := i + 1;
    }
    assert names[..i] == names;
    RowsShared(scores, names);
  }

  /** Every user's shares of a file with a positive overall score add up to one. */
  lemma FileSharesSumToOne(table: seq<FileShares>, scores: Table, i: int)
    requires FilesShared(table, scores) && 0 <= i < |table|
    requires SumValues(scores[table[i].fileName]) != 0
    ensures forall u :: u in table[i].shares ==> table[i].shares[u].Value?
    ensures SumReals(Values(table[i].shares)) == 1.0
  {
    var row := scores[table[i].fileName];
    SharesSumToOne(row, SumValues(row));
  }

  // ---------------------------------------------------------------------
  // The whole aggregation

  /** Each included author's score. */
  ghost function Scores(pc: map<Option<string>, CommitEntry>, excluded: UserId -> bool): map<UserId, int>
  {
    map u | u in IncludedAuthors(pc, excluded) :: UserScore(pc, u)
  }

  /** The sum of the included authors' scores. */
  ghost function TotalScore(pc: map<Option<string>, CommitEntry>, excluded: UserId -> bool): int
  {
    SumValues(Scores(pc, excluded))
  }

  /**
   * The per-user table: one summary per included author, whose changes are
   * exactly the author's changes, whose score is the
   * author's total score, whose percentage is that score over the total of
   * all included authors, and whose commits are the author's listed commits.
   */
  ghost predicate UsersSummarised(users: map<UserId, UserSummary>, pc: map<Option<string>, CommitEntry>,
                                  commitsPerUser: map<Option<UserId>, seq<DisplayCommit>>, excluded: UserId -> bool)
  {
    && users.Keys == IncludedAuthors(pc, excluded)
    && forall u :: u in users ==>
         && multiset(users[u].changes) == AuthorChanges(pc, u)
         && users[u].score == ListScore(users[u].changes) == UserScore(pc, u)
         && users[u].percent == Percent(users[u].score, TotalScore(pc, excluded))
         && users[u].commits == (if Some(u) in commitsPerUser then Some(commitsPerUser[Some(u)]) else None)
  }

  /**
   * `aggregateByUser` applied to the tables `createUnaggregatedDiffs`
   * built: a commit without an author throws; otherwise the per-user and
   * per-file tables.
   */
  method Aggregate(s: ContributionsSummaries, excluded: UserId -> bool) returns (r: Result<APIData, AnalysisError>)
    requires AllValid(s.perFile)
    ensures r.Err? <==> HasNullAuthor(s.perCommit)
    ensures r.Err? ==> r.error == NullAuthor
    ensures r.Ok? ==> UsersSummarised(r.value.changesPerUser, s.perCommit, s.commitsPerUser, excluded)
    ensures r.Ok? ==> FilesShared(r.value.changesPerFile, TableOf(s.perFile))
  {
    var regrouped := Regroup(s.perCommit, excluded);
    if regrouped.Err? {
      return Err(regrouped.error);
    }
    var users := SummariseUsers(regrouped.value, s.commitsPerUser, s.perCommit, excluded);
    var files := ShareFiles(s.perFile);
    r := Ok(APIData(users, files));
  }

  /**
   * The per-user part of `aggregateByUser`: each author's score, the total
   * over all authors, and one summary per author.
   */
  method SummariseUsers(remapped: map<UserId, seq<ChangeSummary>>, commitsPerUser: map<Option<UserId>, seq<DisplayCommit>>,
                        ghost pc: map<Option<string>, CommitEntry>, excluded: UserId -> bool)
    returns (users: map<UserId, UserSummary>)
    requires remapped.Keys == IncludedAuthors(pc, excluded)
    requires forall u :: u in remapped ==> ListScore(remapped[u]) == UserScore(pc, u)
    requires forall u :: u in remapped ==> multiset(remapped[u]) == AuthorChanges(pc, u)
    ensures users.Keys == remapped.Keys && forall u :: u in users ==> users[u].changes == remapped[u]
    ensures UsersSummarised(users, pc, commitsPerUser, excluded)
  {
    var scores := map u | u in remapped :: ListScore(remapped[u]);
    assert scores == Scores(pc, excluded);
    var total := SumScores(scores);
    users := map u | u in remapped ::
      UserSummary(remapped[u], scores[u], Percent(scores[u], total),
                  if Some(u) in commitsPerUser then Some(commitsPerUser[Some(u)]) else None);
  }

  /** With a positive total, every user's percentage lies between 0 and 100. */
  lemma PercentagesOfUsersBounded(users: map<UserId, UserSummary>, pc: map<Option<string>, CommitEntry>,
                                  commitsPerUser: map<Option<UserId>, seq<DisplayCommit>>, excluded: UserId -> bool)
    requires UsersSummarised(users, pc, commitsPerUser, excluded)
    requires TotalScore(pc, excluded) != 0
    ensures forall u :: u in users ==> users[u].percent.Value? && 0.0 <= users[u].percent.r <= 100.0
  {
    var scores := Scores(pc, excluded);
    forall u | u in scores
      ensures scores[u] >= 0
    {
      UserScoreNonNegative(pc, u);
    }
    forall u | u in users
      ensures users[u].percent.Value? && 0.0 <= users[u].percent.r <= 100.0
    {
      SumValuesBoundsEntry(scores, u);
      PercentBounds(scores[u], TotalScore(pc, excluded));
    }
  }

  /** The users' percentages, keyed by user. */
  function Percentages(users: map<UserId, UserSummary>): (r: map<UserId, Ratio>)
    ensures r.Keys == users.Keys
  {
    map u | u in users :: users[u].percent
  }

  lemma PercentagesAreOfScores(users: map<UserId, UserSummary>, pc: map<Option<string>, CommitEntry>,
                               commitsPerUser: map<Option<UserId>, seq<DisplayCommit>>, excluded: UserId -> bool)
    requires UsersSummarised(users, pc, commitsPerUser, excluded)
    ensures Percentages(users) == PercentsOf(Scores(pc, excluded), TotalScore(pc, excluded))
  {
    var scores := Scores(pc, excluded);
    var total := TotalScore(pc, excluded);
    var a, b := Percentages(users), PercentsOf(scores, total);
    assert a.Keys == b.Keys;
    forall u | u in a
      ensures a[u] == b[u]
    {
    }
  }

  /** With a positive total, the users' percentages add up to exactly 100. */
  lemma PercentagesOfUsersSumToHundred(users: map<UserId, UserSummary>, pc: map<Option<string>, CommitEntry>,
                                       commitsPerUser: map<Option<UserId>, seq<DisplayCommit>>, excluded: UserId -> bool)
    requires UsersSummarised(users, pc, commitsPerUser, excluded)
    requires TotalScore(pc, excluded) != 0
    ensures forall u :: u in users ==> Percentages(users)[u].Value?
    ensures SumReals(Values(Percentages(users))) == 100.0
  {
    PercentsSumToHundred(Scores(pc, excluded), TotalScore(pc, excluded));
    PercentagesAreOfScores(users, pc, commitsPerUser, excluded);
  }

  /** Every author of an analysed commit has a list of commits in the result. */
  lemma IncludedAuthorsHaveCommits(cs: seq<GHCommit>, excludeGUI: bool,
                                   filesOf: GHCommit -> seq<string>, extract: (GHCommit, string) -> Option<ChangeSummary>,
                                   excluded: UserId -> bool, u: UserId)
    requires u in IncludedAuthors(PerCommit(cs, filesOf, excludeGUI, extract), excluded)
    ensures Some(u) in CommitsPerUser(cs)
  {
    var pc := PerCommit(cs, filesOf, excludeGUI, extract);
    PerCommitEntries(cs, filesOf, excludeGUI, extract);
    var k :| k in pc && pc[k].author == Some(u);
    var i :| 0 <= i < |cs| && cs[i].sha1 == k && cs[i].author == pc[k].author;
    assert cs[i].author in AuthorsOf(cs);
  }

  /**
   * `aggregateByUser(csf)`: the unaggregated tables are built for the form,
   * then aggregated; an error of either step is the result.
   */
  method AggregateByUser(form: ContributionsSummaryForm, found: bool, commits: seq<GHCommit>, parse: string -> Option<int>,
                         filesOf: GHCommit -> seq<string>, extract: (GHCommit, string) -> Option<ChangeSummary>,
                         excluded: UserId -> bool)
    returns (r: Result<APIData, AnalysisError>)
    ensures Outcome(form, found, commits, parse).Err? ==> r == Err(Outcome(form, found, commits, parse).error)
    ensures Outcome(form, found, commits, parse).Ok? ==>
      var cs := Outcome(form, found, commits, parse).value;
      var pc := PerCommit(cs, filesOf, form.excludeGUI, extract);
      && (r.Err? <==> HasNullAuthor(pc))
      && (r.Err? ==> r.error == NullAuthor)
      && (r.Ok? ==> UsersSummarised(r.value.changesPerUser, pc, CommitsPerUser(cs), excluded))
      && (r.Ok? ==> FilesShared(r.value.changesPerFile, Fold(Flat(cs, filesOf, form.excludeGUI, extract))))
  {
    var diffs := CreateUnaggregatedDiffs(form, found, commits, parse, filesOf, extract);
    if diffs.Err? {
      return Err(diffs.error);
    }
    r := Aggregate(diffs.value, excluded);
  }

  /**
   * When the analysed commits have distinct SHAs, aggregation fails exactly
   * when one of them has no author.
   */
  lemma NullAuthorOfChosen(cs: seq<GHCommit>, filesOf: GHCommit -> seq<string>, excludeGUI: bool,
                           extract: (GHCommit, string) -> Option<ChangeSummary>)
    requires forall i, j :: 0 <= i < j < |cs| ==> cs[i].sha1 != cs[j].sha1
    ensures HasNullAuthor(PerCommit(cs, filesOf, excludeGUI, extract)) <==> exists c :: c in cs && c.author.None?
  {
    var pc := PerCommit(cs, filesOf, excludeGUI, extract);
    PerCommitEntries(cs, filesOf, excludeGUI, extract);
    PerCommitDistinctShas(cs, filesOf, excludeGUI, extract);
    if c :| c in cs && c.author.None? {
      var i :| 0 <= i < |cs| && cs[i] == c;
      assert pc[cs[i].sha1].author.None?;
    }
  }
}
