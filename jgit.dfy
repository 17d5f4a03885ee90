/**
 * Checking out a commit whose file names the host filesystem may refuse:
 * the illegal-name test, the renaming of such names, the choice between a
 * forced and a partial checkout, and the partial checkout that writes every
 * path of the commit's tree under a legal name.
 *
 * A commit's tree is a map from path to content (the blob an object id
 * names); the working directory and the Git index are maps of the same kind.
 */
module JGit {
  import opened Common

  // ---------------------------------------------------------------------
  // File names

  /**
   * `nameIsIllegal`: the name contains ':' (checked twice), or ends or
   * starts with a space. '|' is not checked.
   */
  predicate NameIsIllegal(f: string)
  {
    Contains(f, ":") || Contains(f, ":") || EndsWith(f, " ") || StartsWith(f, " ")
  }

  /** A name is illegal exactly when it holds ':' or has a space at either end. */
  lemma NameIsIllegalChars(f: string)
    ensures NameIsIllegal(f) <==> ':' in f || (f != [] && (f[0] == ' ' || f[|f| - 1] == ' '))
  {
    ContainsChar(f, ':');
  }

  /** `s.replaceAll("\\c", d)` for a single literal character `c`. */
  function ReplaceChar(s: string, c: char, d: char): (r: string)
    ensures |r| == |s|
    ensures forall i :: 0 <= i < |s| ==> r[i] == if s[i] == c then d else s[i]
    decreases |s|
  {
    if s == [] then []
    else ReplaceChar(s[..|s| - 1], c, d) + [if s[|s| - 1] == c then d else s[|s| - 1]]
  }

  /** Both replacements of `correct`: every ':' and every '|' becomes '_'. */
  function Underscored(f: string): (r: string)
    ensures |r| == |f| && ':' !in r && '|' !in r
    ensures forall i :: 0 <= i < |f| ==> r[i] == if f[i] in {':', '|'} then '_' else f[i]
  {
    ReplaceChar(ReplaceChar(f, ':', '_'), '|', '_')
  }

  /**
   * `correct`: replaces ':' and '|' by '_', then drops one leading space
   * and then one trailing space.
   */
  function Correct(f: string): (r: string)
    ensures ':' !in r && '|' !in r
    ensures |f| - 2 <= |r| <= |f|
  {
    var replaced := Underscored(f);
    var front := if StartsWith(replaced, " ") then replaced[1..] else replaced;
    if EndsWith(front, " ") then front[..|front| - 1] else front
  }

  /**
   * Apart from the two replacements, `correct` keeps every character in
   * place, shifted by one when a leading space was dropped.
   */
  lemma CorrectKeepsOtherCharacters(f: string)
    ensures var lo := if StartsWith(f, " ") then 1 else 0;
      && lo + |Correct(f)| <= |f|
      && forall i :: 0 <= i < |Correct(f)| ==>
           Correct(f)[i] == if f[i + lo] in {':', '|'} then '_' else f[i + lo]
  {
    var replaced := Underscored(f);
    assert StartsWith(replaced, " ") <==> StartsWith(f, " ") by {
      if |f| > 0 {
        assert replaced[..1] == [replaced[0]] && f[..1] == [f[0]];
      }
    }
    var lo := if StartsWith(f, " ") then 1 else 0;
    var front := replaced[lo..];
    var r := Correct(f);
    assert r == front[..|r|];
    forall i | 0 <= i < |r|
      ensures r[i] == if f[i + lo] in {':', '|'} then '_' else f[i + lo]
    {
      assert r[i] == front[i] == replaced[i + lo];
    }
  }

  /**
   * `correct` changes a name exactly when the name is illegal or holds a
   * '|': the names it leaves alone are the clean ones.
   */
  lemma CorrectChangesExactly(f: string)
    ensures Correct(f) != f <==> NameIsIllegal(f) || '|' in f
  {
    NameIsIllegalChars(f);
    var r := Correct(f);
    var replaced := Underscored(f);
    if ':' in f || '|' in f {
      var i :| 0 <= i < |f| && f[i] in {':', '|'};
      if |r| == |f| {
        assert r[i] != f[i];
      }
    } else if f != [] && (f[0] == ' ' || f[|f| - 1] == ' ') {
      assert replaced[0] == f[0] && replaced[|f| - 1] == f[|f| - 1];
      assert replaced[..1] == [replaced[0]];
      assert replaced[|f| - 1..] == [replaced[|f| - 1]];
      assert |r| < |f|;
    } else {
      assert replaced == f;
      if f != [] {
        assert f[..1] == [f[0]] && f[|f| - 1..] == [f[|f| - 1]];
      }
    }
  }

  /** A trailing space makes a name illegal, and the renaming drops it. */
  lemma CorrectTrailingSpace()
    ensures NameIsIllegal("invalid_file.txt ")
    ensures Correct("invalid_file.txt ") == "invalid_file.txt"
  {
    var replaced := Underscored("invalid_file.txt ");
    assert replaced == "invalid_file.txt ";
    assert replaced[0] == 'i';
    assert !StartsWith(replaced, " ");
    assert EndsWith(replaced, " ");
  }

  /** A name with no ':' , no '|' and no edge space is legal and kept as it is. */
  lemma LegalNameKept()
    ensures !NameIsIllegal("valid_file.txt") && Correct("valid_file.txt") == "valid_file.txt"
  {
    var f := "valid_file.txt";
    assert forall i :: 0 <= i < |f| ==> f[i] != ':' && f[i] != '|';
    assert f[0] == 'v' && f[|f| - 1] == 't';
    NameIsIllegalChars(f);
    CorrectChangesExactly(f);
  }

  /**
   * A name whose only unusual character is '|' is not illegal, so a
   * partial checkout writes it unchanged although `correct` would rename it.
   */
  lemma PipeNameIsNotRenamed()
    ensures !NameIsIllegal("a|b")
    ensures Correct("a|b") == "a_b"
  {
    NameIsIllegalChars("a|b");
    assert Underscored("a|b") == "a_b";
  }

  /** One space is dropped at each end, so two leading spaces leave an illegal name. */
  lemma CorrectedNameMayStayIllegal()
    ensures NameIsIllegal("  a") && Correct("  a") == " a" && NameIsIllegal(Correct("  a"))
  {
    NameIsIllegalChars("  a");
    NameIsIllegalChars(" a");
    var replaced := Underscored("  a");
    assert replaced == "  a";
    assert StartsWith(replaced, " ");
    assert replaced[1..] == " a";
  }

  /**
   * `containsUnsafeFile`: whether some changed file has an illegal name;
   * false for no files.
   */
  method ContainsUnsafeFile(filesOnCommit: seq<string>) returns (b: bool)
    ensures b <==> exists i :: 0 <= i < |filesOnCommit| && NameIsIllegal(filesOnCommit[i])
  {
    for i := 0 to |filesOnCommit|
      invariant forall j :: 0 <= j < i ==> !NameIsIllegal(filesOnCommit[j])
    {
      if NameIsIllegal(filesOnCommit[i]) {
        return true;
      }
    }
    return false;
  }

  // ---------------------------------------------------------------------
  // Partial checkout, specified on values

  /** `order` is the iteration order of the tree's key set: each path once. */
  predicate Enumerates(order: seq<string>, tree: map<string, string>)
  {
    && (forall i, j :: 0 <= i < j < |order| ==> order[i] != order[j])
    && (forall p :: p in order ==> p in tree)
    && (forall p :: p in tree ==> p in order)
  }

  /** The name a path is written under: its correction when it is illegal. */
  function Target(p: string): (t: string)
    ensures ':' !in t
    ensures t != p ==> NameIsIllegal(p) && t == Correct(p)
  {
    NameIsIllegalChars(p);
    if NameIsIllegal(p) then Correct(p) else p
  }

  /** The files written for the paths `ps`, in that order: a later write to a name wins. */
  function Written(tree: map<string, string>, ps: seq<string>): map<string, string>
    requires forall p :: p in ps ==> p in tree
  {
    if ps == [] then map[]
    else
      var last := ps[|ps| - 1];
      Written(tree, ps[..|ps| - 1])[Target(last) := tree[last]]
  }

  /** The index entries staged for the whole tree, one per path the index accepts. */
  function Staged(tree: map<string, string>, accepts: string -> bool): map<string, string>
  {
    map p | p in tree && accepts(p) :: tree[p]
  }

  /** The extra index entries for the renamed paths among `ps` whose new name the index accepts. */
  function Renamed(tree: map<string, string>, ps: seq<string>, accepts: string -> bool): map<string, string>
    requires forall p :: p in ps ==> p in tree
  {
    if ps == [] then map[]
    else
      var last := ps[|ps| - 1];
      var rest := Renamed(tree, ps[..|ps| - 1], accepts);
      if NameIsIllegal(last) && accepts(Correct(last)) then rest[Correct(last) := tree[last]] else rest
  }

  /** The position of the first path whose target name cannot be written, or `|ps|`. */
  function FirstUnwritable(ps: seq<string>, writable: string -> bool): (k: nat)
    ensures k <= |ps|
    ensures forall j :: 0 <= j < k ==> writable(Target(ps[j]))
    ensures k < |ps| ==> !writable(Target(ps[k]))
  {
    if ps == [] then 0
    else if !writable(Target(ps[0])) then 0
    else 1 + FirstUnwritable(ps[1..], writable)
  }

  /** Why a checkout stopped: `IOException` on the index lock, or a write refused. */
  datatype CheckoutError = LockFailed | WriteFailed(name: string)

  /** The state a partial checkout leaves: its error, the directory, the index. */
  datatype Checkout = Checkout(error: Option<CheckoutError>, disk: map<string, string>, index: map<string, string>)

  /**
   * `partialCheckout` from the given directory and index: nothing happens
   * without the lock; otherwise the paths are written in order until one
   * cannot be, and the index is committed only when all were written.
   */
  function PartialOutcome(disk: map<string, string>, index: map<string, string>, tree: map<string, string>,
                          order: seq<string>, lockFree: bool, accepts: string -> bool,
                          writable: string -> bool): Checkout
    requires forall p :: p in order ==> p in tree
  {
    if !lockFree then Checkout(Some(LockFailed), disk, index)
    else
      var k := FirstUnwritable(order, writable);
      if k < |order| then Checkout(Some(WriteFailed(Target(order[k]))), disk + Written(tree, order[..k]), index)
      else Checkout(None, disk + Written(tree, order), index + (Staged(tree, accepts) + Renamed(tree, order, accepts)))
  }

  /** Updating a union updates its right operand. */
  lemma UnionUpdate(a: map<string, string>, b: map<string, string>, k: string, v: string)
    ensures (a + b)[k := v] == a + b[k := v]
  {
  }

  lemma WrittenStep(tree: map<string, string>, ps: seq<string>, i: nat)
    requires forall p :: p in ps ==> p in tree
    requires i < |ps|
    ensures Written(tree, ps[..i + 1]) == Written(tree, ps[..i])[Target(ps[i]) := tree[ps[i]]]
  {
    assert ps[..i + 1][..i] == ps[..i];
  }

  /** Writing the next path extends the directory by that path's write. */
  lemma DiskStep(disk: map<string, string>, tree: map<string, string>, ps: seq<string>, i: nat)
    requires forall p :: p in ps ==> p in tree
    requires i < |ps|
    ensures (disk + Written(tree, ps[..i]))[Target(ps[i]) := tree[ps[i]]] == disk + Written(tree, ps[..i + 1])
  {
    WrittenStep(tree, ps, i);
    UnionUpdate(disk, Written(tree, ps[..i]), Target(ps[i]), tree[ps[i]]);
  }

  /** Staging the next path's corrected name extends the edits by that path's entry. */
  lemma EditsStep(staged: map<string, string>, tree: map<string, string>, ps: seq<string>, accepts: string -> bool, i: nat)
    requires forall p :: p in ps ==> p in tree
    requires i < |ps|
    ensures staged + Renamed(tree, ps[..i + 1], accepts) ==
      if NameIsIllegal(ps[i]) && accepts(Correct(ps[i]))
      then (staged + Renamed(tree, ps[..i], accepts))[Correct(ps[i]) := tree[ps[i]]]
      else staged + Renamed(tree, ps[..i], accepts)
  {
    RenamedStep(tree, ps, accepts, i);
    if NameIsIllegal(ps[i]) && accepts(Correct(ps[i])) {
      UnionUpdate(staged, Renamed(tree, ps[..i], accepts), Correct(ps[i]), tree[ps[i]]);
    }
  }

  lemma RenamedStep(tree: map<string, string>, ps: seq<string>, accepts: string -> bool, i: nat)
    requires forall p :: p in ps ==> p in tree
    requires i < |ps|
    ensures Renamed(tree, ps[..i + 1], accepts) ==
      if NameIsIllegal(ps[i]) && accepts(Correct(ps[i]))
      then Renamed(tree, ps[..i], accepts)[Correct(ps[i]) := tree[ps[i]]]
      else Renamed(tree, ps[..i], accepts)
  {
    assert ps[..i + 1][..i] == ps[..i];
  }

  /** Every path is written under its target name, and no other name is written. */
  lemma {:induction false} WrittenNames(tree: map<string, string>, ps: seq<string>)
    requires forall p :: p in ps ==> p in tree
    ensures forall t :: t in Written(tree, ps) <==> exists p :: p in ps && Target(p) == t
  {
    if ps != [] {
      var init := ps[..|ps| - 1];
      WrittenNames(tree, init);
      assert ps == init + [ps[|ps| - 1]];
    }
  }

  /** When no two paths share a target name, each name holds its own path's content. */
  lemma {:induction false} WrittenContents(tree: map<string, string>, ps: seq<string>, p: string)
    requires forall q :: q in ps ==> q in tree
    requires forall i, j :: 0 <= i < j < |ps| ==> Target(ps[i]) != Target(ps[j])
    requires p in ps
    ensures Target(p) in Written(tree, ps) && Written(tree, ps)[Target(p)] == tree[p]
  {
    var init := ps[..|ps| - 1];
    var last := ps[|ps| - 1];
    if p != last {
      assert p in init by {
        assert ps == init + [last];
      }
      var i :| 0 <= i < |init| && init[i] == p;
      assert Target(p) != Target(last) by {
        assert ps[i] == p;
      }
      WrittenContents(tree, init, p);
    }
  }

  /** Only renamed paths gain an extra index entry, under their corrected name. */
  lemma {:induction false} RenamedNames(tree: map<string, string>, ps: seq<string>, accepts: string -> bool)
    requires forall p :: p in ps ==> p in tree
    ensures forall t :: t in Renamed(tree, ps, accepts) <==>
      exists p :: p in ps && NameIsIllegal(p) && Correct(p) == t && accepts(t)
  {
    if ps != [] {
      var init := ps[..|ps| - 1];
      RenamedNames(tree, init, accepts);
      assert ps == init + [ps[|ps| - 1]];
    }
  }

  /**
   * What a completed partial checkout guarantees: every path of the tree
   * is on disk under its target name, no written name holds ':', and the
   * index gains the accepted paths and the accepted corrected names.
   */
  lemma PartialCheckoutCompleted(disk: map<string, string>, index: map<string, string>, tree: map<string, string>,
                                 order: seq<string>, accepts: string -> bool, writable: string -> bool)
    requires Enumerates(order, tree)
    requires PartialOutcome(disk, index, tree, order, true, accepts, writable).error == None
    ensures var c := PartialOutcome(disk, index, tree, order, true, accepts, writable);
      && (forall p :: p in tree ==> Target(p) in c.disk)
      && (forall t :: t in c.disk ==> t in disk || ':' !in t)
      && (forall t :: t in c.index <==>
            || t in index
            || (t in tree && accepts(t))
            || exists p :: p in tree && NameIsIllegal(p) && Correct(p) == t && accepts(t))
  {
    WrittenNames(tree, order);
    RenamedNames(tree, order, accepts);
  }

  /** Without the lock nothing is written and the index is unchanged. */
  lemma PartialCheckoutLocked(disk: map<string, string>, index: map<string, string>, tree: map<string, string>,
                              order: seq<string>, accepts: string -> bool, writable: string -> bool)
    requires Enumerates(order, tree)
    ensures PartialOutcome(disk, index, tree, order, false, accepts, writable) == Checkout(Some(LockFailed), disk, index)
  {
  }

  // ---------------------------------------------------------------------
  // The working copy

  /** How `safeCheckout` went: forced, partial straight away, or partial after a failed forced checkout. */
  datatype Route = Forced | Partial | ForcedThenPartial

  /** A repository's working directory and Git index. */
  class WorkingCopy {
    var disk: map<string, string>
    var index: map<string, string>

    constructor (disk: map<string, string>, index: map<string, string>)
      ensures this.disk == disk && this.index == index
    {
      this.disk := disk;
      this.index := index;
    }

    /** `createTemporaryIndexForContent`: one index edit per tree path the index accepts. */
    static method StageTree(tree: map<string, string>, order: seq<string>, accepts: string -> bool)
      returns (edits: map<string, string>)
      requires Enumerates(order, tree)
      ensures edits == Staged(tree, accepts)
    {
      edits := map[];
      for i := 0 to |order|
        invariant edits == map p | p in order[..i] && accepts(p) :: tree[p]
      {
        var path := order[i];
        if accepts(path) {
          edits := edits[path := tree[path]];
        }
        assert order[..i + 1] == order[..i] + [path];
      }
      assert order[..|order|] == order;
    }

    /**
     * `partialCheckout`: takes the index lock, stages the whole tree, writes
     * each path in turn under its target name (adding an index entry for
     * each renamed one), and commits the index.
     */
    method PartialCheckout(tree: map<string, string>, order: seq<string>, lockFree: bool,
                           accepts: string -> bool, writable: string -> bool)
      returns (r: Option<CheckoutError>)
      requires Enumerates(order, tree)
      modifies this
      ensures Checkout(r, disk, index) ==
        PartialOutcome(old(disk), old(index), tree, order, lockFree, accepts, writable)
    {
      if !lockFree {
        return Some(LockFailed);
      }
      var staged := StageTree(tree, order, accepts);
      var k, edits := WriteAll(tree, order, accepts, writable, staged);
      if k < |order| {
        r := Some(WriteFailed(Target(order[k])));
        return;
      }
      assert order[..k] == order;
      index := index + edits;
      r := None;
    }

    /**
     * The loop of `partialCheckout`: writes the paths in order and stops at
     * the first whose target name cannot be written; `k` is where it stopped.
     */
    method WriteAll(tree: map<string, string>, order: seq<string>, accepts: string -> bool,
                    writable: string -> bool, staged: map<string, string>)
      returns (k: nat, edits: map<string, string>)
      requires Enumerates(order, tree)
      modifies this
      ensures k == FirstUnwritable(order, writable)
      ensures disk == old(disk) + Written(tree, order[..k])
      ensures index == old(index)
      ensures k == |order| ==> edits == staged + Renamed(tree, order, accepts)
    {
      edits := staged;
      k := 0;
      while k < |order|
        invariant 0 <= k <= FirstUnwritable(order, writable)
        invariant disk == old(disk) + Written(tree, order[..k])
        invariant edits == staged + Renamed(tree, order[..k], accepts)
        invariant index == old(index)
      {
        var written: bool;
        DiskStep(old(disk), tree, order, k);
        EditsStep(staged, tree, order, accepts, k);
        written, edits := WriteFile(tree, order, k, accepts, writable, edits);
        if !written {
          return;
        }
        k := k + 1;
      }
      assert order[..|order|] == order;
    }

    /**
     * One turn of the loop of `partialCheckout`: writes the path under its
     * target name unless that name cannot be written, and stages an index
     * entry for the corrected name of an illegal path.
     */
    method WriteFile(tree: map<string, string>, order: seq<string>, i: nat, accepts: string -> bool,
                     writable: string -> bool, edits: map<string, string>)
      returns (written: bool, edits': map<string, string>)
      requires Enumerates(order, tree) && i < |order|
      modifies this
      ensures written == writable(Target(order[i]))
      ensures index == old(index)
      ensures !written ==> disk == old(disk) && edits' == edits
      ensures written ==> disk == old(disk)[Target(order[i]) := tree[order[i]]]
      ensures written ==>
        edits' == if NameIsIllegal(order[i]) && accepts(Correct(order[i])) then edits[Correct(order[i]) := tree[order[i]]] else edits
    {
      var file := order[i];
      var newContents := tree[file];
      var newFileName := file;
      var added := false;
      if NameIsIllegal(file) {
        newFileName := Correct(file);
        added := true;
      }
      edits' := edits;
      if !writable(newFileName) {
        return false, edits';
      }
      disk := disk[newFileName := newContents];
      if added && accepts(newFileName) {
        edits' := edits'[newFileName := newContents];
      }
      written := true;
    }

    /**
     * `safeCheckout`: on Windows with an illegal changed file, a partial
     * checkout; otherwise a forced checkout of the tree, falling back to a
     * partial checkout when that fails with a path or Git error.
     */
    method SafeCheckout(osName: string, filesOnCommit: seq<string>, forcedFails: bool,
                        tree: map<string, string>, order: seq<string>, lockFree: bool,
                        accepts: string -> bool, writable: string -> bool)
      returns (route: Route, r: Option<CheckoutError>)
      requires Enumerates(order, tree)
      modifies this
      ensures route == Partial <==>
        Contains(osName, "Windows") && exists i :: 0 <= i < |filesOnCommit| && NameIsIllegal(filesOnCommit[i])
      ensures route == ForcedThenPartial <==> route != Partial && forcedFails
      ensures route == Forced ==> r == None && disk == old(disk) + tree && index == old(index) + tree
      ensures route != Forced ==>
        Checkout(r, disk, index) == PartialOutcome(old(disk), old(index), tree, order, lockFree, accepts, writable)
    {
      var unsafe := false;
      if Contains(osName, "Windows") {
        unsafe := ContainsUnsafeFile(filesOnCommit);
      }
      if unsafe {
        route := Partial;
        r := PartialCheckout(tree, order, lockFree, accepts, writable);
      } else if forcedFails {
        route := ForcedThenPartial;
        r := PartialCheckout(tree, order, lockFree, accepts, writable);
      } else {
        route := Forced;
        disk := disk + tree;
        index := index + tree;
        r := None;
      }
    }
  }
}
