/**
 * A stored commit (`GHCommit`): identity by SHA, the branch set, the
 * display form and the grouping of commits by calendar day.
 */
module Commits {
  import opened Common
  import opened GitUsers

  /** The database id of a repository. */
  type RepoId = nat

  /**
   * A commit row. Author and committer refer to user rows by id; the
   * Integer statistics, which Java leaves null after the no-argument
   * constructor, start at 0 here.
   */
  datatype GHCommit = GHCommit(
    sha1: Option<string>,
    author: Option<UserId>,
    committer: Option<UserId>,
    message: Option<string>,
    repository: Option<RepoId>,
    branches: set<string>,
    commitDate: Option<int>,
    isMergeCommit: bool,
    linesAdded: int,
    linesRemoved: int,
    linesChanged: int,
    filesChanged: int,
    url: Option<string>,
    parent: Option<string>)

  /** The no-argument constructor: no fields set and an empty branch set. */
  function NewCommit(): (c: GHCommit)
    ensures c.branches == {} && c.sha1.None? && c.author.None? && c.committer.None?
    ensures c.commitDate.None? && c.parent.None? && !c.isMergeCommit
  {
    GHCommit(None, None, None, None, None, {}, None, false, 0, 0, 0, 0, None, None)
  }

  /** `addBranch(b)`: a null name is ignored, otherwise the name joins the set. */
  function AddBranch(c: GHCommit, b: Option<string>): (r: GHCommit)
    ensures b.None? ==> r == c
    ensures b.Some? ==> r.branches == c.branches + {b.value}
    ensures r.(branches := c.branches) == c
  {
    if b.None? then c else c.(branches := c.branches + {b.value})
  }

  /** Adding a branch twice is adding it once, and order of additions does not matter. */
  lemma AddBranchIdempotentAndCommutative(c: GHCommit, a: Option<string>, b: Option<string>)
    ensures AddBranch(AddBranch(c, a), a) == AddBranch(c, a)
    ensures AddBranch(AddBranch(c, a), b) == AddBranch(AddBranch(c, b), a)
  {
  }

  /** `equals`: the SHA decides, null equal to null. */
  predicate Equals(a: GHCommit, b: GHCommit)
  {
    if a.sha1.None? then b.sha1.None?
    else b.sha1.Some? && a.sha1.value == b.sha1.value
  }

  /** `hashCode`: `31 * 1 + sha1.hashCode()` (0 for a null SHA) in 32-bit arithmetic. */
  function HashCode(c: GHCommit): int
  {
    Wrap32(31 + (if c.sha1.None? then 0 else StringHash(c.sha1.value)))
  }

  /** `getKey()`: the SHA. */
  function Key(c: GHCommit): (k: Option<string>)
    ensures forall d: GHCommit :: Equals(c, d) <==> d.sha1 == k
  {
    c.sha1
  }

  /** Equality is by SHA alone, and equal commits hash alike. */
  lemma EqualsIsSameSha(a: GHCommit, b: GHCommit)
    ensures Equals(a, b) <==> a.sha1 == b.sha1
    ensures Equals(a, b) ==> HashCode(a) == HashCode(b)
  {
  }

  /** `save()` refuses a commit with neither an author nor a committer. */
  predicate CanSave(c: GHCommit)
  {
    !(c.author.None? && c.committer.None?)
  }

  /** What the UI shows of a commit (`DisplayCommit`). */
  datatype DisplayCommit = DisplayCommit(
    date: Option<int>,
    linesAdded: int,
    linesRemoved: int,
    message: Option<string>,
    url: Option<string>,
    linesChanged: int)

  /** `format()`: the display form copies its six fields unchanged. */
  function Display(c: GHCommit): (d: DisplayCommit)
    ensures d.date == c.commitDate && d.message == c.message && d.url == c.url
    ensures d.linesAdded == c.linesAdded && d.linesRemoved == c.linesRemoved && d.linesChanged == c.linesChanged
  {
    DisplayCommit(c.commitDate, c.linesAdded, c.linesRemoved, c.message, c.url, c.linesChanged)
  }

  /** One entry of the day map: a calendar day and the commits made on it. */
  datatype DayBucket = DayBucket(day: int, commits: seq<DisplayCommit>)

  /** Every commit carries a date. */
  predicate AllDated(cs: seq<GHCommit>)
  {
    forall i :: 0 <= i < |cs| ==> cs[i].commitDate.Some?
  }

  /** The display forms of the commits made on `day`, in input order: the reference grouping. */
  function OnDay(cs: seq<GHCommit>, day: int, dayOf: int -> int): seq<DisplayCommit>
    requires AllDated(cs)
  {
    if cs == [] then []
    else
      var last := cs[|cs| - 1];
      OnDay(cs[..|cs| - 1], day, dayOf) + (if dayOf(last.commitDate.value) == day then [Display(last)] else [])
  }

  /** Days strictly decrease along the buckets: the reversed TreeMap's iteration order. */
  predicate Descending(b: seq<DayBucket>)
  {
    forall i, j :: 0 <= i < j < |b| ==> b[i].day > b[j].day
  }

  /** The commits stored for `day` (empty when the day has no entry). */
  function BucketOf(b: seq<DayBucket>, day: int): seq<DisplayCommit>
  {
    if b == [] then [] else if b[0].day == day then b[0].commits else BucketOf(b[1..], day)
  }

  /** The buckets are exactly the grouping of `cs` by day: ordered, non-empty and complete. */
  ghost predicate GroupsByDay(b: seq<DayBucket>, cs: seq<GHCommit>, dayOf: int -> int)
    requires AllDated(cs)
  {
    && Descending(b)
    && (forall i :: 0 <= i < |b| ==> b[i].commits != [])
    && (forall day :: BucketOf(b, day) == OnDay(cs, day, dayOf))
  }

  /** `computeIfAbsent(day).add(x)` on the reversed TreeMap. */
  function Insert(b: seq<DayBucket>, day: int, x: DisplayCommit): (r: seq<DayBucket>)
    requires Descending(b)
    ensures Descending(r)
    ensures r != [] && r[0].day == (if b == [] || b[0].day < day then day else b[0].day)
    ensures (forall i :: 0 <= i < |b| ==> b[i].commits != []) ==> (forall i :: 0 <= i < |r| ==> r[i].commits != [])
  {
    if b == [] then [DayBucket(day, [x])]
    else if b[0].day == day then
      [b[0].(commits := b[0].commits + [x])] + b[1..]
    else if b[0].day < day then
      [DayBucket(day, [x])] + b
    else
      var rest := Insert(b[1..], day, x);
      [b[0]] + rest
  }

  /** Inserting appends the commit to its day's bucket and leaves every other day alone. */
  lemma {:induction false} InsertAppends(b: seq<DayBucket>, day: int, x: DisplayCommit)
    requires Descending(b)
    ensures forall d :: BucketOf(Insert(b, day, x), d) == BucketOf(b, d) + (if d == day then [x] else [])
    decreases |b|
  {
    if b == [] {
    } else if b[0].day == day {
      assert forall d :: d != day ==> BucketOf(b, d) == BucketOf(b[1..], d);
    } else if b[0].day < day {
      AbsentAfterHead(b, day);
    } else {
      InsertAppends(b[1..], day, x);
    }
  }

  /** A day larger than the first day of a descending list has no bucket. */
  lemma {:induction false} AbsentAfterHead(b: seq<DayBucket>, day: int)
    requires Descending(b)
    requires b == [] || b[0].day < day
    ensures BucketOf(b, day) == []
    decreases |b|
  {
    if b != [] {
      if |b| > 1 {
        assert b[1].day < b[0].day;
      }
      AbsentAfterHead(b[1..], day);
    }
  }

  /** Every commit lands in exactly one bucket: the one of its day. */
  lemma {:induction false} EachCommitInOneBucket(b: seq<DayBucket>, cs: seq<GHCommit>, dayOf: int -> int, k: int)
    requires AllDated(cs) && GroupsByDay(b, cs, dayOf)
    requires 0 <= k < |cs|
    ensures exists i :: 0 <= i < |b| && b[i].day == dayOf(cs[k].commitDate.value)
    ensures forall i, j :: 0 <= i < j < |b| ==> b[i].day != b[j].day
  {
    var d := dayOf(cs[k].commitDate.value);
    OnDayHasCommit(cs, dayOf, k);
    BucketPresent(b, d);
  }

  lemma {:induction false} OnDayHasCommit(cs: seq<GHCommit>, dayOf: int -> int, k: int)
    requires AllDated(cs) && 0 <= k < |cs|
    ensures OnDay(cs, dayOf(cs[k].commitDate.value), dayOf) != []
    decreases |cs|
  {
    if k < |cs| - 1 {
      OnDayHasCommit(cs[..|cs| - 1], dayOf, k);
    }
  }

  lemma {:induction false} BucketPresent(b: seq<DayBucket>, day: int)
    requires BucketOf(b, day) != []
    ensures exists i :: 0 <= i < |b| && b[i].day == day
    decreases |b|
  {
    if b[0].day != day {
      BucketPresent(b[1..], day);
      var i :| 0 <= i < |b[1..]| && b[1..][i].day == day;
      assert b[i + 1].day == day;
    }
  }

  /**
   * Static `format(List)`: the commits grouped by the calendar day of their
   * date (`dayOf` fixes the time zone), most recent day first, each day
   * keeping input order. A commit without a date makes the grouping fail.
   */
  method FormatByDay(cs: seq<GHCommit>, dayOf: int -> int) returns (r: Option<seq<DayBucket>>)
    ensures r.Some? <==> AllDated(cs)
    ensures r.Some? ==> GroupsByDay(r.value, cs, dayOf)
  {
    var b: seq<DayBucket> := [];
    var i := 0;
    while i < |cs|
      invariant 0 <= i <= |cs|
      invariant AllDated(cs[..i])
      invariant GroupsByDay(b, cs[..i], dayOf)
    {
      if cs[i].commitDate.None? {
        return None;
      }
      var day := dayOf(cs[i].commitDate.value);
      InsertAppends(b, day, Display(cs[i]));
      b := Insert(b, day, Display(cs[i]));
      assert cs[..i + 1][..i] == cs[..i];
      i := i + 1;
    }
    assert cs[..i] == cs;
    r := Some(b);
  }
}
