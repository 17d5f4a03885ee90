/**
 * `ContributionAnalysisService.createUnaggregatedDiffs`: choosing the
 * commits of a repository, scoring the changes each one made to its Java
 * files, and filing the scores per commit, per author and per file.
 *
 * Cloning the repository and checking out each commit and its parent are
 * not modelled; what a checkout would give the change extractor is folded
 * into `extract`, which returns the summary of one file's changes in one
 * commit, or `None` when the extractor returns null or throws.
 */
module ContributionAnalysis {
  import opened Common
  import opened GitUsers
  import opened Commits
  import opened Selection
  import opened Forms
  import opened Contributions

  /** One file's structural changes: a weight per change (class 100, method 25, ...). */
  datatype ChangeSummary = ChangeSummary(weights: seq<nat>)

  /** A summary's score: the sum of its weights. */
  function Score(s: ChangeSummary): (r: int)
    ensures r >= 0
  {
    SumOfNaturals(s.weights);
    Sum(s.weights)
  }

  /** `getContributionsScore` of a list of summaries. */
  function ListScore(l: seq<ChangeSummary>): (r: int)
    ensures r >= 0
  {
    if l == [] then 0 else ListScore(l[..|l| - 1]) + Score(l[|l| - 1])
  }

  lemma {:induction false} ListScoreAppend(a: seq<ChangeSummary>, b: seq<ChangeSummary>)
    ensures ListScore(a + b) == ListScore(a) + ListScore(b)
    decreases |b|
  {
    if b != [] {
      assert (a + b)[..|a + b| - 1] == a + b[..|b| - 1];
      assert (a + b)[|a + b| - 1] == b[|b| - 1];
      ListScoreAppend(a, b[..|b| - 1]);
    } else {
      assert a + b == a;
    }
  }

  datatype AnalysisError = RepositoryNotFound | UndatedCommit | InvalidDate | NoMatchingData | UnknownAggregation | NullAuthor

  // ---------------------------------------------------------------------
  // Which commits are analysed

  /** The commits in processing order: `commits.sort` compares dates only when there are two or more. */
  function Sorted(commits: seq<GHCommit>): (r: seq<GHCommit>)
    requires |commits| >= 2 ==> AllDated(commits)
    ensures multiset(r) == multiset(commits) && |r| == |commits|
    ensures AllDated(r) ==> NewestFirst(r)
  {
    if |commits| < 2 then commits else SortNewestFirst(commits)
  }

  /** The analysed commits among `sorted`, in order, for an already parsed window. */
  function Keep(sorted: seq<GHCommit>, window: Option<(int, int)>): (r: seq<GHCommit>)
    requires window.Some? ==> forall i :: 0 <= i < |sorted| && Eligible(sorted[i]) ==> sorted[i].commitDate.Some?
    ensures |r| <= |sorted|
    ensures forall c :: c in r <==> c in sorted && Selects(c, window)
  {
    if sorted == [] then []
    else
      var last := sorted[|sorted| - 1];
      var rest := Keep(sorted[..|sorted| - 1], window);
      assert sorted == sorted[..|sorted| - 1] + [last];
      if Selects(last, window) then rest + [last] else rest
  }

  predicate HasBounds(form: ContributionsSummaryForm)
  {
    form.startDate.Some? && form.endDate.Some?
  }

  predicate SomeEligible(sorted: seq<GHCommit>)
  {
    exists i :: 0 <= i < |sorted| && Eligible(sorted[i])
  }

  /**
   * The commits a request analyses, newest first, or the error that stops
   * it first: an unknown repository that is not to be initialised; a commit
   * without a date once two or more are sorted; a window bound that does not
   * parse, met at the first eligible commit; an eligible undated commit
   * compared with the window.
   */
  function Chosen(form: ContributionsSummaryForm, found: bool, commits: seq<GHCommit>, parse: string -> Option<int>): Result<seq<GHCommit>, AnalysisError>
  {
    if !found && !form.initialiseUnknown then Err(RepositoryNotFound)
    else if |commits| >= 2 && !AllDated(commits) then Err(UndatedCommit)
    else ChosenFrom(form, Sorted(commits), parse)
  }

  /** The commits chosen from the sorted ones, or the error met while walking them. */
  function ChosenFrom(form: ContributionsSummaryForm, sorted: seq<GHCommit>, parse: string -> Option<int>): Result<seq<GHCommit>, AnalysisError>
  {
    var w := Window(form.startDate, form.endDate, parse);
    if HasBounds(form) && SomeEligible(sorted) && w.None? then Err(InvalidDate)
    else if HasBounds(form) && exists i :: 0 <= i < |sorted| && Eligible(sorted[i]) && sorted[i].commitDate.None? then Err(UndatedCommit)
    else if w.None? then Ok([])
    else Ok(Keep(sorted, w.value))
  }

  /**
   * A chosen commit is eligible, inside the window when both bounds are
   * given, and one of the repository's commits; chosen commits come newest
   * first.
   */
  lemma ChosenCommitsAreSelected(form: ContributionsSummaryForm, found: bool, commits: seq<GHCommit>, parse: string -> Option<int>)
    requires Chosen(form, found, commits, parse).Ok?
    ensures forall c :: c in Chosen(form, found, commits, parse).value ==>
      && c in commits && Eligible(c)
      && (HasBounds(form) ==>
            c.commitDate.Some? && InWindow(c.commitDate.value, (parse(form.startDate.value).value, parse(form.endDate.value).value)))
  {
    var sorted := Sorted(commits);
    forall c | c in Chosen(form, found, commits, parse).value
      ensures c in commits
    {
      assert c in multiset(sorted);
    }
  }

  // ---------------------------------------------------------------------
  // What one commit contributes

  datatype FileScore = FileScore(fileName: string, summary: ChangeSummary)

  /** The analysed files of a commit whose changes could be extracted, in file order. */
  function FileScores(c: GHCommit, files: seq<string>, excludeGUI: bool, extract: (GHCommit, string) -> Option<ChangeSummary>): (r: seq<FileScore>)
    ensures |r| <= |files|
  {
    if files == [] then []
    else
      var f := files[|files| - 1];
      var rest := FileScores(c, files[..|files| - 1], excludeGUI, extract);
      if Analysed(f, excludeGUI) && extract(c, f).Some? then rest + [FileScore(f, extract(c, f).value)] else rest
  }

  /** The scored files are exactly the analysed files whose changes could be extracted. */
  lemma {:induction false} FileScoresMembers(c: GHCommit, files: seq<string>, excludeGUI: bool, extract: (GHCommit, string) -> Option<ChangeSummary>)
    ensures forall x :: x in FileScores(c, files, excludeGUI, extract) <==>
      x.fileName in files && Analysed(x.fileName, excludeGUI) && extract(c, x.fileName) == Some(x.summary)
    decreases |files|
  {
    if files != [] {
      var init := files[..|files| - 1];
      FileScoresMembers(c, init, excludeGUI, extract);
      assert files == init + [files[|files| - 1]];
    }
  }

  function SummariesOf(fs: seq<FileScore>): (r: seq<ChangeSummary>)
    ensures |r| == |fs| && forall i :: 0 <= i < |fs| ==> r[i] == fs[i].summary
  {
    seq(|fs|, i requires 0 <= i < |fs| => fs[i].summary)
  }

  /** A score filed under a file name for a user. */
  datatype Filed = Filed(name: string, who: Option<UserId>, score: int)

  /** A scored file as filed under its trimmed name, for the commit's author. */
  function FiledOf(c: GHCommit, x: FileScore): Filed
  {
    Filed(AfterLastSlash(x.fileName), c.author, Score(x.summary))
  }

  function FiledScores(c: GHCommit, fs: seq<FileScore>): (r: seq<Filed>)
    ensures |r| == |fs|
  {
    if fs == [] then [] else FiledScores(c, fs[..|fs| - 1]) + [FiledOf(c, fs[|fs| - 1])]
  }

  /** Everything filed for a sequence of chosen commits, in processing order. */
  function Flat(cs: seq<GHCommit>, filesOf: GHCommit -> seq<string>, excludeGUI: bool, extract: (GHCommit, string) -> Option<ChangeSummary>): seq<Filed>
  {
    if cs == [] then []
    else
      var c := cs[|cs| - 1];
      Flat(cs[..|cs| - 1], filesOf, excludeGUI, extract) + FiledScores(c, FileScores(c, filesOf(c), excludeGUI, extract))
  }

  // ---------------------------------------------------------------------
  // The per-file table

  type Table = map<string, map<Option<UserId>, int>>

  /** `contributionsPerFile.get(name).addContribution(who, score)`, creating the entry when absent. */
  function AddScore(t: Table, x: Filed): Table
  {
    var row := if x.name in t then t[x.name] else map[];
    t[x.name := row[x.who := x.score + (if x.who in row then row[x.who] else 0)]]
  }

  function Fold(xs: seq<Filed>): Table
  {
    if xs == [] then map[] else AddScore(Fold(xs[..|xs| - 1]), xs[|xs| - 1])
  }

  /** The total score filed under a name, and the part of it filed for one user. */
  function Total(xs: seq<Filed>, name: string): int
  {
    if xs == [] then 0
    else Total(xs[..|xs| - 1], name) + (if xs[|xs| - 1].name == name then xs[|xs| - 1].score else 0)
  }

  function UserTotal(xs: seq<Filed>, name: string, who: Option<UserId>): int
  {
    if xs == [] then 0
    else UserTotal(xs[..|xs| - 1], name, who) + (if xs[|xs| - 1].name == name && xs[|xs| - 1].who == who then xs[|xs| - 1].score else 0)
  }

  /** A name has an entry in the per-file table iff something was filed under it. */
  lemma {:induction false} FoldNames(xs: seq<Filed>)
    ensures forall name :: name in Fold(xs) <==> exists i :: 0 <= i < |xs| && xs[i].name == name
    decreases |xs|
  {
    if xs != [] {
      var prefix := xs[..|xs| - 1];
      FoldNames(prefix);
      forall name
        ensures name in Fold(xs) <==> exists i :: 0 <= i < |xs| && xs[i].name == name
      {
        if exists i :: 0 <= i < |prefix| && prefix[i].name == name {
          var i :| 0 <= i < |prefix| && prefix[i].name == name;
          assert xs[i] == prefix[i];
        }
        if exists i :: 0 <= i < |xs| && xs[i].name == name {
          var i :| 0 <= i < |xs| && xs[i].name == name;
          if i < |prefix| {
            assert prefix[i] == xs[i];
          }
        }
      }
    }
  }

  /**
   * A user has an entry under a name iff something was filed for them
   * there, and the entry is everything filed for them there: scores go to
   * the given user's entry only.
   */
  lemma {:induction false} FoldEntries(xs: seq<Filed>, name: string, who: Option<UserId>)
    requires name in Fold(xs)
    ensures who in Fold(xs)[name] <==> exists i :: 0 <= i < |xs| && xs[i].name == name && xs[i].who == who
    ensures who in Fold(xs)[name] ==> Fold(xs)[name][who] == UserTotal(xs, name, who)
    decreases |xs|
  {
    var prefix := xs[..|xs| - 1];
    var x := xs[|xs| - 1];
    if name in Fold(prefix) {
      FoldEntries(prefix, name, who);
      if who !in Fold(prefix)[name] {
        NothingFiledFor(prefix, name, who);
      }
    } else {
      FoldNames(prefix);
      NothingFiledFor(prefix, name, who);
    }
    if exists i :: 0 <= i < |prefix| && prefix[i].name == name && prefix[i].who == who {
      var i :| 0 <= i < |prefix| && prefix[i].name == name && prefix[i].who == who;
      assert xs[i] == prefix[i];
    }
    if exists i :: 0 <= i < |xs| && xs[i].name == name && xs[i].who == who {
      var i :| 0 <= i < |xs| && xs[i].name == name && xs[i].who == who;
      if i < |prefix| {
        assert prefix[i] == xs[i];
      }
    }
  }

  lemma {:induction false} NothingFiledFor(xs: seq<Filed>, name: string, who: Option<UserId>)
    requires forall i :: 0 <= i < |xs| ==> !(xs[i].name == name && xs[i].who == who)
    ensures UserTotal(xs, name, who) == 0
    decreases |xs|
  {
    if xs != [] {
      NothingFiledFor(xs[..|xs| - 1], name, who);
    }
  }

  lemma {:induction false} NothingFiled(xs: seq<Filed>, name: string)
    requires forall i :: 0 <= i < |xs| ==> xs[i].name != name
    ensures Total(xs, name) == 0
    decreases |xs|
  {
    if xs != [] {
      NothingFiled(xs[..|xs| - 1], name);
    }
  }

  /** The entries under a name add up to the total filed under it: the overall score of the file. */
  lemma {:induction false} FoldTotals(xs: seq<Filed>, name: string)
    requires name in Fold(xs)
    ensures SumValues(Fold(xs)[name]) == Total(xs, name)
    decreases |xs|
  {
    var prefix := xs[..|xs| - 1];
    var x := xs[|xs| - 1];
    var t := Fold(prefix);
    if name in t {
      FoldTotals(prefix, name);
    } else {
      FoldNames(prefix);
      NothingFiled(prefix, name);
    }
    if x.name == name {
      var row := if name in t then t[name] else map[];
      SumValuesAdd(row, x.who, x.score);
      assert Fold(xs)[name] == row[x.who := (if x.who in row then row[x.who] else 0) + x.score];
    }
  }

  // ---------------------------------------------------------------------
  // Per commit and per author

  function ChangesOf(c: GHCommit, filesOf: GHCommit -> seq<string>, excludeGUI: bool, extract: (GHCommit, string) -> Option<ChangeSummary>): seq<ChangeSummary>
  {
    SummariesOf(FileScores(c, filesOf(c), excludeGUI, extract))
  }

  /** A commit's entry: the commit kept as the key (represented by its author) and its change summaries. */
  datatype CommitEntry = CommitEntry(author: Option<UserId>, changes: seq<ChangeSummary>)

  /**
   * `contributionsPerCommit.put(commit, changes)`: commits are keys by SHA,
   * so a commit equal to one already present leaves the stored key (and its
   * author) in place and replaces the changes.
   */
  function PutEntry(m: map<Option<string>, CommitEntry>, c: GHCommit, changes: seq<ChangeSummary>): map<Option<string>, CommitEntry>
  {
    m[c.sha1 := CommitEntry(if c.sha1 in m then m[c.sha1].author else c.author, changes)]
  }

  function PerCommit(cs: seq<GHCommit>, filesOf: GHCommit -> seq<string>, excludeGUI: bool, extract: (GHCommit, string) -> Option<ChangeSummary>): map<Option<string>, CommitEntry>
  {
    if cs == [] then map[]
    else
      var c := cs[|cs| - 1];
      PutEntry(PerCommit(cs[..|cs| - 1], filesOf, excludeGUI, extract), c, ChangesOf(c, filesOf, excludeGUI, extract))
  }

  /**
   * Every chosen commit has an entry under its SHA, and every entry's
   * author is the author of a chosen commit with that SHA.
   */
  lemma {:induction false} PerCommitEntries(cs: seq<GHCommit>, filesOf: GHCommit -> seq<string>, excludeGUI: bool, extract: (GHCommit, string) -> Option<ChangeSummary>)
    ensures PerCommit(cs, filesOf, excludeGUI, extract).Keys == set i | 0 <= i < |cs| :: cs[i].sha1
    ensures forall k :: k in PerCommit(cs, filesOf, excludeGUI, extract) ==>
      exists i :: 0 <= i < |cs| && cs[i].sha1 == k && cs[i].author == PerCommit(cs, filesOf, excludeGUI, extract)[k].author
    decreases |cs|
  {
    if cs != [] {
      var prefix := cs[..|cs| - 1];
      PerCommitEntries(prefix, filesOf, excludeGUI, extract);
      assert (set i | 0 <= i < |cs| :: cs[i].sha1) == (set i | 0 <= i < |prefix| :: prefix[i].sha1) + {cs[|cs| - 1].sha1};
      forall k | k in PerCommit(cs, filesOf, excludeGUI, extract)
        ensures exists i :: 0 <= i < |cs| && cs[i].sha1 == k && cs[i].author == PerCommit(cs, filesOf, excludeGUI, extract)[k].author
      {
        var m := PerCommit(prefix, filesOf, excludeGUI, extract);
        if k in m {
          var i :| 0 <= i < |prefix| && prefix[i].sha1 == k && prefix[i].author == m[k].author;
          assert cs[i] == prefix[i];
        } else {
          assert cs[|cs| - 1].sha1 == k;
        }
      }
    }
  }

  /** There is an entry as soon as one commit is chosen. */
  lemma PerCommitEmpty(cs: seq<GHCommit>, filesOf: GHCommit -> seq<string>, excludeGUI: bool, extract: (GHCommit, string) -> Option<ChangeSummary>)
    ensures PerCommit(cs, filesOf, excludeGUI, extract) == map[] <==> cs == []
  {
    if cs != [] {
      PerCommitEntries(cs, filesOf, excludeGUI, extract);
      assert cs[0].sha1 in PerCommit(cs, filesOf, excludeGUI, extract);
    }
  }

  /** When the chosen commits have distinct SHAs, each one's entry is its own author and changes. */
  lemma {:induction false} PerCommitDistinctShas(cs: seq<GHCommit>, filesOf: GHCommit -> seq<string>, excludeGUI: bool, extract: (GHCommit, string) -> Option<ChangeSummary>)
    requires forall i, j :: 0 <= i < j < |cs| ==> cs[i].sha1 != cs[j].sha1
    ensures forall i :: 0 <= i < |cs| ==>
      cs[i].sha1 in PerCommit(cs, filesOf, excludeGUI, extract) &&
      PerCommit(cs, filesOf, excludeGUI, extract)[cs[i].sha1] == CommitEntry(cs[i].author, ChangesOf(cs[i], filesOf, excludeGUI, extract))
    decreases |cs|
  {
    if cs != [] {
      var prefix, last := cs[..|cs| - 1], cs[|cs| - 1];
      var m := PerCommit(prefix, filesOf, excludeGUI, extract);
      var pc := PerCommit(cs, filesOf, excludeGUI, extract);
      assert pc == PutEntry(m, last, ChangesOf(last, filesOf, excludeGUI, extract));
      PerCommitDistinctShas(prefix, filesOf, excludeGUI, extract);
      PerCommitEntries(prefix, filesOf, excludeGUI, extract);
      forall i | 0 <= i < |prefix|
        ensures prefix[i].sha1 != last.sha1
      {
        assert cs[i] == prefix[i];
      }
      assert last.sha1 !in m;
      forall i | 0 <= i < |cs|
        ensures cs[i].sha1 in pc && pc[cs[i].sha1] == CommitEntry(cs[i].author, ChangesOf(cs[i], filesOf, excludeGUI, extract))
      {
        if i < |prefix| {
          assert prefix[i] == cs[i];
        }
      }
    }
  }

  /** An author's chosen commits, in processing order, as displayed. */
  function UserCommits(cs: seq<GHCommit>, who: Option<UserId>): (r: seq<DisplayCommit>)
    ensures |r| <= |cs|
    ensures forall d :: d in r <==> exists i :: 0 <= i < |cs| && cs[i].author == who && Commits.Display(cs[i]) == d
  {
    if cs == [] then []
    else
      var c := cs[|cs| - 1];
      var rest := UserCommits(cs[..|cs| - 1], who);
      assert forall i :: 0 <= i < |cs| - 1 ==> cs[..|cs| - 1][i] == cs[i];
      if c.author == who then rest + [Commits.Display(c)] else rest
  }

  function AuthorsOf(cs: seq<GHCommit>): set<Option<UserId>>
  {
    set i | 0 <= i < |cs| :: cs[i].author
  }

  /**
   * `commitsPerUser`: every author of a chosen commit, excluded or not and
   * whether or not anything was scored, with their commits in processing
   * order.
   */
  function CommitsPerUser(cs: seq<GHCommit>): (r: map<Option<UserId>, seq<DisplayCommit>>)
    ensures r.Keys == AuthorsOf(cs)
    ensures forall u :: u in r ==> r[u] == UserCommits(cs, u)
  {
    map u | u in AuthorsOf(cs) :: UserCommits(cs, u)
  }

  lemma CommitsPerUserStep(cs: seq<GHCommit>, c: GHCommit)
    ensures CommitsPerUser(cs + [c]) ==
      CommitsPerUser(cs)[c.author := (if c.author in CommitsPerUser(cs) then CommitsPerUser(cs)[c.author] else []) + [Commits.Display(c)]]
  {
    var next := cs + [c];
    assert next[..|next| - 1] == cs;
    forall u | u in AuthorsOf(next)
      ensures u in AuthorsOf(cs) + {c.author}
    {
      var i :| 0 <= i < |next| && next[i].author == u;
      if i < |cs| {
        assert next[i] == cs[i];
      }
    }
    forall u | u in AuthorsOf(cs)
      ensures u in AuthorsOf(next)
    {
      var i :| 0 <= i < |cs| && cs[i].author == u;
      assert next[i] == cs[i];
    }
    assert next[|cs|] == c;
    assert AuthorsOf(next) == AuthorsOf(cs) + {c.author};
    forall u | u in AuthorsOf(cs) && u != c.author
      ensures UserCommits(next, u) == UserCommits(cs, u)
    {
    }
    if c.author !in AuthorsOf(cs) {
      NoUserCommits(cs, c.author);
    }
  }

  lemma {:induction false} NoUserCommits(cs: seq<GHCommit>, who: Option<UserId>)
    requires who !in AuthorsOf(cs)
    ensures UserCommits(cs, who) == []
    decreases |cs|
  {
    if cs != [] {
      var prefix := cs[..|cs| - 1];
      assert AuthorsOf(prefix) <= AuthorsOf(cs) by {
        forall u | u in AuthorsOf(prefix)
          ensures u in AuthorsOf(cs)
        {
          var i :| 0 <= i < |prefix| && prefix[i].author == u;
          assert cs[i] == prefix[i];
        }
      }
      NoUserCommits(prefix, who);
      assert cs[|cs| - 1].author in AuthorsOf(cs);
    }
  }

  // ---------------------------------------------------------------------
  // The imperative pass

  /** The per-file accumulators are distinct objects. */
  ghost predicate Distinct(m: map<string, FileContributions>)
  {
    forall a, b :: a in m && b in m && a != b ==> m[a] != m[b]
  }

  ghost predicate AllValid(m: map<string, FileContributions>)
    reads m.Values
  {
    forall k :: k in m ==> m[k].Valid()
  }

  /** The scores the accumulators hold, per file name and user. */
  ghost function TableOf(m: map<string, FileContributions>): Table
    reads m.Values
  {
    map k | k in m :: m[k].contributionPerUser
  }

  lemma FiledStep(c: GHCommit, fs: seq<FileScore>, x: FileScore)
    ensures FiledScores(c, fs + [x]) == FiledScores(c, fs) + [FiledOf(c, x)]
  {
    assert (fs + [x])[..|fs|] == fs;
  }

  lemma SummariesStep(fs: seq<FileScore>, x: FileScore)
    ensures SummariesOf(fs + [x]) == SummariesOf(fs) + [x.summary]
  {
    var a, b := SummariesOf(fs + [x]), SummariesOf(fs) + [x.summary];
    forall i | 0 <= i < |a|
      ensures a[i] == b[i]
    {
      if i < |fs| {
        assert (fs + [x])[i] == fs[i];
      }
    }
  }

  lemma FileScoresStep(c: GHCommit, files: seq<string>, j: nat, excludeGUI: bool, extract: (GHCommit, string) -> Option<ChangeSummary>)
    requires j < |files|
    ensures FileScores(c, files[..j + 1], excludeGUI, extract) ==
      FileScores(c, files[..j], excludeGUI, extract) + Scored(c, files[j], excludeGUI, extract)
  {
    assert files[..j + 1][..j] == files[..j];
  }

  /** The score of one file, if it is analysed and its changes can be extracted. */
  function Scored(c: GHCommit, fileName: string, excludeGUI: bool, extract: (GHCommit, string) -> Option<ChangeSummary>): seq<FileScore>
  {
    if Analysed(fileName, excludeGUI) && extract(c, fileName).Some? then [FileScore(fileName, extract(c, fileName).value)] else []
  }

  lemma AppendLast<T>(a: seq<T>, b: seq<T>, x: T)
    ensures a + (b + [x]) == (a + b) + [x]
  {
  }

  /** One more scored file adds its filed score to the table. */
  lemma ScoredStep(c: GHCommit, done: seq<Filed>, before: seq<FileScore>, scored: FileScore)
    ensures Fold(done + FiledScores(c, before + [scored])) == AddScore(Fold(done + FiledScores(c, before)), FiledOf(c, scored))
  {
    var filed := FiledOf(c, scored);
    FiledStep(c, before, scored);
    AppendLast(done, FiledScores(c, before), filed);
    FoldAppend(done + FiledScores(c, before), filed);
  }

  lemma FoldAppend(xs: seq<Filed>, x: Filed)
    ensures Fold(xs + [x]) == AddScore(Fold(xs), x)
  {
    assert (xs + [x])[..|xs|] == xs;
  }

  /** The accumulator for `name`, created and added when the name is new. */
  method Locate(perFile: map<string, FileContributions>, name: string) returns (out: map<string, FileContributions>, target: FileContributions)
    requires Distinct(perFile) && AllValid(perFile)
    ensures name in out && out[name] == target
    ensures Distinct(out) && AllValid(out)
    ensures TableOf(out) == TableOf(perFile)[name := if name in perFile then perFile[name].contributionPerUser else map[]]
    ensures forall k :: k in out ==> (k in perFile && out[k] == perFile[k]) || fresh(out[k])
  {
    out := perFile;
    if name !in out {
      target := new FileContributions();
      out := out[name := target];
    } else {
      target := out[name];
    }
  }

  /** Adds a score to one accumulator; the others are distinct objects and keep their scores. */
  method AddTo(perFile: map<string, FileContributions>, name: string, target: FileContributions, who: Option<UserId>, score: int)
    requires name in perFile && perFile[name] == target
    requires Distinct(perFile) && AllValid(perFile)
    modifies target
    ensures AllValid(perFile)
    ensures TableOf(perFile) == AddScore(old(TableOf(perFile)), Filed(name, who, score))
  {
    ghost var table := TableOf(perFile);
    target.AddContribution(who, score);
    forall k | k in perFile && k != name
      ensures perFile[k].contributionPerUser == table[k] && perFile[k].Valid()
    {
      assert perFile[k] != target;
    }
    assert TableOf(perFile) == table[name := target.contributionPerUser];
  }

  /**
   * One scored file: its accumulator is found by trimmed name, or created
   * and added when the name is new, and the author's score is added to it.
   */
  method Record(perFile: map<string, FileContributions>, x: Filed) returns (out: map<string, FileContributions>)
    requires Distinct(perFile) && AllValid(perFile)
    modifies perFile.Values
    ensures Distinct(out) && AllValid(out)
    ensures TableOf(out) == AddScore(old(TableOf(perFile)), x)
    ensures forall k :: k in out ==> (k in perFile && out[k] == perFile[k]) || fresh(out[k])
  {
    ghost var before := TableOf(perFile);
    var target;
    out, target := Locate(perFile, x.name);
    ghost var located := TableOf(out);
    AddTo(out, x.name, target, x.who, x.score);
    AddScoreLocated(before, located, x);
  }

  /** Creating an empty row for a name before adding a score to it changes nothing. */
  lemma AddScoreLocated(t: Table, located: Table, x: Filed)
    requires located == t[x.name := if x.name in t then t[x.name] else map[]]
    ensures AddScore(located, x) == AddScore(t, x)
  {
  }

  /** The changes gathered from the files `fs` of a commit. */
  function ChangesAfter(c: GHCommit, fs: seq<string>, excludeGUI: bool, extract: (GHCommit, string) -> Option<ChangeSummary>): seq<ChangeSummary>
  {
    SummariesOf(FileScores(c, fs, excludeGUI, extract))
  }

  /** The per-file table after the files `fs` of a commit are filed on top of `done`. */
  function TableAfter(c: GHCommit, fs: seq<string>, excludeGUI: bool, extract: (GHCommit, string) -> Option<ChangeSummary>, done: seq<Filed>): Table
  {
    Fold(done + FiledScores(c, FileScores(c, fs, excludeGUI, extract)))
  }

  /** The body of the loop over a commit's files, for the file at index `j`. */
  method ScoreFile(c: GHCommit, files: seq<string>, j: nat, excludeGUI: bool, extract: (GHCommit, string) -> Option<ChangeSummary>,
                   changes: seq<ChangeSummary>, perFile: map<string, FileContributions>, ghost done: seq<Filed>)
    returns (changes': seq<ChangeSummary>, out: map<string, FileContributions>)
    requires j < |files|
    requires changes == ChangesAfter(c, files[..j], excludeGUI, extract)
    requires Distinct(perFile) && AllValid(perFile)
    requires TableOf(perFile) == TableAfter(c, files[..j], excludeGUI, extract, done)
    modifies perFile.Values
    ensures changes' == ChangesAfter(c, files[..j + 1], excludeGUI, extract)
    ensures Distinct(out) && AllValid(out)
    ensures TableOf(out) == TableAfter(c, files[..j + 1], excludeGUI, extract, done)
    ensures forall k :: k in out ==> (k in perFile && out[k] == perFile[k]) || fresh(out[k])
  {
    ghost var scores := FileScores(c, files[..j], excludeGUI, extract);
    FileScoresStep(c, files, j, excludeGUI, extract);
    var fileName := files[j];
    changes', out := changes, perFile;
    if !Analysed(fileName, excludeGUI) {
      assert scores + Scored(c, fileName, excludeGUI, extract) == scores;
    } else {
      var changesInFile := extract(c, fileName);
      if changesInFile.None? {
        assert scores + Scored(c, fileName, excludeGUI, extract) == scores;
      } else {
        var scored := FileScore(fileName, changesInFile.value);
        ScoredStep(c, done, scores, scored);
        SummariesStep(scores, scored);
        changes' := changes + [changesInFile.value];
        out := Record(perFile, FiledOf(c, scored));
      }
    }
  }

  /**
   * The loop over one commit's files: each analysed file whose changes can
   * be extracted adds its summary to the commit's changes and its score to
   * the accumulator of its trimmed name, for the commit's author.
   */
  method ProcessFiles(c: GHCommit, files: seq<string>, excludeGUI: bool, extract: (GHCommit, string) -> Option<ChangeSummary>,
                      perFile: map<string, FileContributions>, ghost done: seq<Filed>)
    returns (changes: seq<ChangeSummary>, out: map<string, FileContributions>)
    requires Distinct(perFile) && AllValid(perFile) && TableOf(perFile) == Fold(done)
    modifies perFile.Values
    ensures changes == SummariesOf(FileScores(c, files, excludeGUI, extract))
    ensures Distinct(out) && AllValid(out)
    ensures TableOf(out) == Fold(done + FiledScores(c, FileScores(c, files, excludeGUI, extract)))
    ensures forall k :: k in out ==> (k in perFile && out[k] == perFile[k]) || fresh(out[k])
  {
    changes := [];
    out := perFile;
    var j := 0;
    assert files[..0] == [];
    assert done + FiledScores(c, []) == done;
    while j < |files|
      invariant 0 <= j <= |files|
      invariant changes == ChangesAfter(c, files[..j], excludeGUI, extract)
      invariant Distinct(out) && AllValid(out)
      invariant TableOf(out) == TableAfter(c, files[..j], excludeGUI, extract, done)
      invariant forall k :: k in out ==> (k in perFile && out[k] == perFile[k]) || fresh(out[k])
    {
      changes, out := ScoreFile(c, files, j, excludeGUI, extract, changes, out, done);
      j := j + 1;
    }
    assert files[..j] == files;
  }

  // ---------------------------------------------------------------------
  // The whole pass

  /** The three tables `createUnaggregatedDiffs` returns. */
  datatype ContributionsSummaries = ContributionsSummaries(
    perCommit: map<Option<string>, CommitEntry>,
    commitsPerUser: map<Option<UserId>, seq<DisplayCommit>>,
    perFile: map<string, FileContributions>)

  /** The tables hold what the commits `cs`, processed in order, contribute. */
  ghost predicate Summarises(s: ContributionsSummaries, cs: seq<GHCommit>, excludeGUI: bool,
                             filesOf: GHCommit -> seq<string>, extract: (GHCommit, string) -> Option<ChangeSummary>)
    reads s.perFile.Values
  {
    && s.perCommit == PerCommit(cs, filesOf, excludeGUI, extract)
    && s.commitsPerUser == CommitsPerUser(cs)
    && Distinct(s.perFile) && AllValid(s.perFile)
    && TableOf(s.perFile) == Fold(Flat(cs, filesOf, excludeGUI, extract))
  }

  /**
   * What a request yields: the chosen commits, or the first error. After the
   * chosen commits, an empty selection is refused, and then any aggregation
   * other than BY_USER.
   */
  function Outcome(form: ContributionsSummaryForm, found: bool, commits: seq<GHCommit>, parse: string -> Option<int>): (r: Result<seq<GHCommit>, AnalysisError>)
    ensures r.Ok? ==> r == Chosen(form, found, commits, parse) && r.value != [] && form.aggregation == Some("BY_USER")
    ensures Chosen(form, found, commits, parse).Err? ==> r == Chosen(form, found, commits, parse)
    ensures Chosen(form, found, commits, parse) == Ok([]) ==> r == Err(NoMatchingData)
  {
    var chosen := Chosen(form, found, commits, parse);
    if chosen.Err? then chosen
    else if chosen.value == [] then Err(NoMatchingData)
    else if form.aggregation != Some("BY_USER") then Err(UnknownAggregation)
    else chosen
  }

  lemma KeepStep(sorted: seq<GHCommit>, i: nat, window: Option<(int, int)>)
    requires i < |sorted|
    requires window.Some? ==> forall j :: 0 <= j <= i && Eligible(sorted[j]) ==> sorted[j].commitDate.Some?
    ensures Keep(sorted[..i + 1], window) == Keep(sorted[..i], window) + (if Selects(sorted[i], window) then [sorted[i]] else [])
  {
    assert sorted[..i + 1][..i] == sorted[..i];
  }

  lemma FlatStep(cs: seq<GHCommit>, c: GHCommit, filesOf: GHCommit -> seq<string>, excludeGUI: bool, extract: (GHCommit, string) -> Option<ChangeSummary>)
    ensures Flat(cs + [c], filesOf, excludeGUI, extract) == Flat(cs, filesOf, excludeGUI, extract) + FiledScores(c, FileScores(c, filesOf(c), excludeGUI, extract))
    ensures PerCommit(cs + [c], filesOf, excludeGUI, extract) == PutEntry(PerCommit(cs, filesOf, excludeGUI, extract), c, ChangesOf(c, filesOf, excludeGUI, extract))
  {
    assert (cs + [c])[..|cs|] == cs;
  }

  /**
   * One chosen commit: its display form is appended to its author's list,
   * its files are scored, and its entry is put under its SHA.
   */
  method AnalyseCommit(c: GHCommit, s: ContributionsSummaries, ghost chosen: seq<GHCommit>, excludeGUI: bool,
                       filesOf: GHCommit -> seq<string>, extract: (GHCommit, string) -> Option<ChangeSummary>)
    returns (s': ContributionsSummaries)
    requires Summarises(s, chosen, excludeGUI, filesOf, extract)
    modifies s.perFile.Values
    ensures Summarises(s', chosen + [c], excludeGUI, filesOf, extract)
    ensures forall o :: o in s'.perFile.Values ==> o in s.perFile.Values || fresh(o)
  {
    CommitsPerUserStep(chosen, c);
    FlatStep(chosen, c, filesOf, excludeGUI, extract);
    var users := s.commitsPerUser;
    var commitsOfAuthor := if c.author in users then users[c.author] else [];
    users := users[c.author := commitsOfAuthor + [Commits.Display(c)]];
    var changes, perFile := ProcessFiles(c, filesOf(c), excludeGUI, extract, s.perFile, Flat(chosen, filesOf, excludeGUI, extract));
    s' := ContributionsSummaries(PutEntry(s.perCommit, c, changes), users, perFile);
  }

  /**
   * After the first `i` sorted commits: every eligible one met so far had a
   * date and a window that parsed, and `chosen` holds those selected.
   */
  ghost predicate Walked(form: ContributionsSummaryForm, sorted: seq<GHCommit>, i: nat, parse: string -> Option<int>, chosen: seq<GHCommit>)
    requires i <= |sorted|
  {
    var w := Window(form.startDate, form.endDate, parse);
    && (HasBounds(form) ==> forall j :: 0 <= j < i && Eligible(sorted[j]) ==> w.Some? && sorted[j].commitDate.Some?)
    && (w.Some? ==> chosen == Keep(sorted[..i], w.value))
    && (w.None? ==> chosen == [])
  }

  /**
   * The walk stops at the `i`th sorted commit with `err`: with both bounds
   * given, an eligible commit meets a window that does not parse, or has
   * no date.
   */
  ghost predicate StopsAt(form: ContributionsSummaryForm, sorted: seq<GHCommit>, i: nat, parse: string -> Option<int>, err: AnalysisError)
    requires i < |sorted|
  {
    && HasBounds(form) && Eligible(sorted[i])
    && if Window(form.startDate, form.endDate, parse).None? then err == InvalidDate
       else sorted[i].commitDate.None? && err == UndatedCommit
  }

  /** Where the walk stops, the choice fails with the same error. */
  lemma StoppedWalk(form: ContributionsSummaryForm, sorted: seq<GHCommit>, i: nat, parse: string -> Option<int>, err: AnalysisError)
    requires i < |sorted| && StopsAt(form, sorted, i, parse, err)
    ensures ChosenFrom(form, sorted, parse) == Err(err)
  {
    assert SomeEligible(sorted) by {
      assert Eligible(sorted[i]);
    }
  }

  /**
   * One turn of the loop of `createUnaggregatedDiffs`: a merge or root
   * commit is skipped; with both bounds given, a window that does not parse
   * or a commit without a date stops the walk, and a commit outside the
   * window is skipped; any other commit is analysed.
   */
  method Visit(form: ContributionsSummaryForm, sorted: seq<GHCommit>, i: nat, parse: string -> Option<int>,
               s: ContributionsSummaries, ghost chosen: seq<GHCommit>,
               filesOf: GHCommit -> seq<string>, extract: (GHCommit, string) -> Option<ChangeSummary>)
    returns (stop: Option<AnalysisError>, s': ContributionsSummaries, ghost chosen': seq<GHCommit>)
    requires i < |sorted| && Walked(form, sorted, i, parse, chosen)
    requires Summarises(s, chosen, form.excludeGUI, filesOf, extract)
    modifies s.perFile.Values
    ensures stop.Some? ==> StopsAt(form, sorted, i, parse, stop.value)
    ensures stop.None? ==> Walked(form, sorted, i + 1, parse, chosen') && Summarises(s', chosen', form.excludeGUI, filesOf, extract)
    ensures forall o :: o in s'.perFile.Values ==> o in s.perFile.Values || fresh(o)
  {
    ghost var w := Window(form.startDate, form.endDate, parse);
    stop, s', chosen' := None, s, chosen;
    var commit := sorted[i];
    if Eligible(commit) {
      var inWindow := true;
      if form.startDate.Some? && form.endDate.Some? {
        var window := Window(form.startDate, form.endDate, parse);
        if window.None? {
          return Some(InvalidDate), s, chosen;
        }
        if commit.commitDate.None? {
          return Some(UndatedCommit), s, chosen;
        }
        inWindow := InWindow(commit.commitDate.value, window.value.value);
      }
      if w.Some? {
        KeepStep(sorted, i, w.value);
      }
      if inWindow {
        s' := AnalyseCommit(commit, s, chosen, form.excludeGUI, filesOf, extract);
        chosen' := chosen + [commit];
      }
    } else if w.Some? {
      KeepStep(sorted, i, w.value);
    }
  }

  /** A walk over all the sorted commits that did not stop chose what `ChosenFrom` chooses. */
  lemma WalkedAll(form: ContributionsSummaryForm, sorted: seq<GHCommit>, parse: string -> Option<int>, chosen: seq<GHCommit>)
    requires Walked(form, sorted, |sorted|, parse, chosen)
    ensures ChosenFrom(form, sorted, parse) == Ok(chosen)
  {
    assert sorted[..|sorted|] == sorted;
  }

  /** Empty tables summarise an empty selection. */
  lemma SummarisesNothing(s: ContributionsSummaries, excludeGUI: bool,
                          filesOf: GHCommit -> seq<string>, extract: (GHCommit, string) -> Option<ChangeSummary>)
    requires s == ContributionsSummaries(map[], map[], map[])
    ensures Summarises(s, [], excludeGUI, filesOf, extract)
  {
  }

  /**
   * The loop of `createUnaggregatedDiffs` over the sorted commits: it either
   * stops at some commit, or walks them all and summarises those chosen.
   */
  method AnalyseInOrder(form: ContributionsSummaryForm, sorted: seq<GHCommit>, parse: string -> Option<int>,
                        filesOf: GHCommit -> seq<string>, extract: (GHCommit, string) -> Option<ChangeSummary>)
    returns (stop: Option<AnalysisError>, summaries: ContributionsSummaries, ghost chosen: seq<GHCommit>, at: nat)
    ensures stop.Some? ==> at < |sorted| && StopsAt(form, sorted, at, parse, stop.value)
    ensures stop.None? ==> Walked(form, sorted, |sorted|, parse, chosen)
    ensures stop.None? ==> Summarises(summaries, chosen, form.excludeGUI, filesOf, extract)
    ensures fresh(summaries.perFile.Values)
  {
    summaries := ContributionsSummaries(map[], map[], map[]);
    SummarisesNothing(summaries, form.excludeGUI, filesOf, extract);
    chosen := [];
    at := 0;
    assert sorted[..0] == [];
    while at < |sorted|
      invariant 0 <= at <= |sorted|
      invariant Walked(form, sorted, at, parse, chosen)
      invariant Summarises(summaries, chosen, form.excludeGUI, filesOf, extract)
      invariant fresh(summaries.perFile.Values)
    {
      stop, summaries, chosen := Visit(form, sorted, at, parse, summaries, chosen, filesOf, extract);
      if stop.Some? {
        return;
      }
      at := at + 1;
    }
    stop := None;
  }

  /**
   * `createUnaggregatedDiffs`: an unknown repository is refused unless it
   * is to be initialised; the commits are sorted newest first and walked;
   * an empty result is refused, and so is any aggregation but BY_USER.
   */
  method CreateUnaggregatedDiffs(form: ContributionsSummaryForm, found: bool, commits: seq<GHCommit>, parse: string -> Option<int>,
                                 filesOf: GHCommit -> seq<string>, extract: (GHCommit, string) -> Option<ChangeSummary>)
    returns (r: Result<ContributionsSummaries, AnalysisError>)
    ensures r.Err? <==> Outcome(form, found, commits, parse).Err?
    ensures r.Err? ==> r.error == Outcome(form, found, commits, parse).error
    ensures r.Ok? ==> Summarises(r.value, Outcome(form, found, commits, parse).value, form.excludeGUI, filesOf, extract)
    ensures r.Ok? ==> fresh(r.value.perFile.Values)
  {
    if !found && !form.initialiseUnknown {
      return Err(RepositoryNotFound);
    }
    if |commits| >= 2 && !AllDated(commits) {
      return Err(UndatedCommit);
    }
    var sorted := Sorted(commits);
    assert Chosen(form, found, commits, parse) == ChosenFrom(form, sorted, parse);
    var stop, summaries, chosen, at := AnalyseInOrder(form, sorted, parse, filesOf, extract);
    if stop.Some? {
      StoppedWalk(form, sorted, at, parse, stop.value);
      return Err(stop.value);
    }
    WalkedAll(form, sorted, parse, chosen);
    PerCommitEmpty(chosen, filesOf, form.excludeGUI, extract);
    if summaries.perCommit == map[] {
      return Err(NoMatchingData);
    }
    if form.aggregation != Some("BY_USER") {
      return Err(UnknownAggregation);
    }
    r := Ok(summaries);
  }
}
