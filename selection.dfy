/**
 * What the contribution analysis looks at: which commits are selected, in
 * which order they are processed, which changed files are analysed and
 * under which name their scores are filed.
 */
module Selection {
  import opened Common
  import opened Commits

  // ---------------------------------------------------------------------
  // Commits

  /** Merge commits and the first commit (no parent) are never analysed. */
  predicate Eligible(c: GHCommit)
  {
    !c.isMergeCommit && c.parent.Some?
  }

  /** An inclusive date window: neither before its start nor after its end. */
  predicate InWindow(date: int, window: (int, int))
  {
    window.0 <= date <= window.1
  }

  /**
   * The window a request asks for: only when both bounds are given, each
   * read as an ISO-8601 instant by `parse`. A bound that does not parse is
   * `None`.
   */
  function Window(startDate: Option<string>, endDate: Option<string>, parse: string -> Option<int>): (r: Option<Option<(int, int)>>)
    ensures startDate.None? || endDate.None? ==> r == Some(None)
    ensures startDate.Some? && endDate.Some? ==>
      (r.Some? <==> parse(startDate.value).Some? && parse(endDate.value).Some?)
    ensures r.Some? && r.value.Some? ==>
      r.value.value == (parse(startDate.value).value, parse(endDate.value).value)
  {
    if startDate.None? || endDate.None? then Some(None)
    else
      var s := parse(startDate.value);
      var e := parse(endDate.value);
      if s.None? || e.None? then None else Some(Some((s.value, e.value)))
  }

  /** Whether the analysis keeps a dated-enough commit: eligible, and inside the window if one applies. */
  predicate Selects(c: GHCommit, window: Option<(int, int)>)
    requires window.Some? && Eligible(c) ==> c.commitDate.Some?
  {
    Eligible(c) && (window.None? || InWindow(c.commitDate.value, window.value))
  }

  /** Dates never increase along the sequence. */
  predicate NewestFirst(cs: seq<GHCommit>)
    requires AllDated(cs)
  {
    forall i, j :: 0 <= i < j < |cs| ==> cs[i].commitDate.value >= cs[j].commitDate.value
  }

  /**
   * Placing a commit before the first one that is not newer than it; an
   * earlier commit of the same date stays in front of later ones, as the
   * stable `List.sort` keeps them.
   */
  function InsertByDate(x: GHCommit, s: seq<GHCommit>): (r: seq<GHCommit>)
    requires x.commitDate.Some? && AllDated(s) && NewestFirst(s)
    ensures AllDated(r) && NewestFirst(r)
    ensures |r| == |s| + 1 && (r[0] == x || (s != [] && r[0] == s[0]))
  {
    if s == [] || s[0].commitDate.value <= x.commitDate.value then
      PrependNewest(x, s);
      [x] + s
    else
      var rest := InsertByDate(x, s[1..]);
      PrependNewest(s[0], rest);
      [s[0]] + rest
  }

  /** Inserting adds exactly the one commit. */
  lemma {:induction false} InsertByDateAdds(x: GHCommit, s: seq<GHCommit>)
    requires x.commitDate.Some? && AllDated(s) && NewestFirst(s)
    ensures multiset(InsertByDate(x, s)) == multiset(s) + multiset{x}
  {
    if s != [] && s[0].commitDate.value > x.commitDate.value {
      InsertByDateAdds(x, s[1..]);
      assert s == [s[0]] + s[1..];
    }
  }

  /** A commit no older than the head of a newest-first sequence can go in front of it. */
  lemma PrependNewest(h: GHCommit, s: seq<GHCommit>)
    requires h.commitDate.Some? && AllDated(s) && NewestFirst(s)
    requires s == [] || s[0].commitDate.value <= h.commitDate.value
    ensures AllDated([h] + s) && NewestFirst([h] + s)
  {
    var r := [h] + s;
    assert AllDated(r) by {
      assert forall i :: 0 < i < |r| ==> r[i] == s[i - 1];
    }
    forall i, j | 0 <= i < j < |r|
      ensures r[i].commitDate.value >= r[j].commitDate.value
    {
      if i == 0 && j > 1 {
        assert r[j] == s[j - 1] && s[0] == r[1];
      }
    }
  }

  /** `commits.sort` by descending date: newest first, and a permutation of its input. */
  function SortNewestFirst(cs: seq<GHCommit>): (r: seq<GHCommit>)
    requires AllDated(cs)
    ensures AllDated(r) && NewestFirst(r)
    ensures multiset(r) == multiset(cs) && |r| == |cs|
  {
    if cs == [] then []
    else
      assert cs == [cs[0]] + cs[1..];
      InsertByDateAdds(cs[0], SortNewestFirst(cs[1..]));
      InsertByDate(cs[0], SortNewestFirst(cs[1..]))
  }

  // ---------------------------------------------------------------------
  // Files

  /**
   * Only Java sources are analysed (the path ends with `java`), and with
   * `excludeGUI` set none whose path contains `ui` or `view`.
   */
  predicate Analysed(fileName: string, excludeGUI: bool)
  {
    EndsWith(fileName, "java") && !((Contains(fileName, "ui") || Contains(fileName, "view")) && excludeGUI)
  }

  /** Excluding GUI files only ever removes files; without it only the suffix counts. */
  lemma FileFilterMonotone(f: string)
    ensures Analysed(f, true) ==> Analysed(f, false)
    ensures Analysed(f, false) <==> EndsWith(f, "java")
  {
  }

  /**
   * The GUI test is a plain case-sensitive substring test on the whole path:
   * `src/BuildTool.java` counts as a GUI file.
   */
  lemma GuiTestMatchesInsideWords()
    ensures !Analysed("src/BuildTool.java", true) && Analysed("src/BuildTool.java", false)
  {
    var b := "src/BuildTool.java";
    assert b[5..7] == "ui";
    ContainsAt(b, "ui", 5);
    assert b[|b| - 4..] == "java";
  }

  /** An occurrence at a given position makes the substring test succeed. */
  lemma {:induction false} ContainsAt(s: string, p: string, i: nat)
    requires i + |p| <= |s| && s[i..i + |p|] == p
    ensures Contains(s, p)
    decreases i
  {
    if i == 0 {
      assert s[..|p|] == p;
    } else {
      assert s[1..][i - 1..i - 1 + |p|] == s[i..i + |p|];
      ContainsAt(s[1..], p, i - 1);
    }
  }

  /** The name a file's score is filed under: the text after its last `/`. */
  function AfterLastSlash(s: string): (r: string)
    ensures '/' !in r && |r| <= |s| && s[|s| - |r|..] == r
    ensures '/' !in s ==> r == s
    ensures '/' in s ==> s[|s| - |r| - 1] == '/'
  {
    if s == [] then []
    else if s[|s| - 1] == '/' then []
    else
      var init := s[..|s| - 1];
      var r := AfterLastSlash(init);
      assert s == init + [s[|s| - 1]];
      r + [s[|s| - 1]]
  }
}
