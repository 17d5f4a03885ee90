/**
 * The user administration endpoints (`APIUserController`): remapping one
 * user's authorship onto another, including and excluding users, and
 * creating a user.
 */
module UserAdmin {
  import opened Common
  import opened GitUsers
  import opened Commits
  import opened PullRequests
  import opened Store
  import opened UserDirectory

  // ---------------------------------------------------------------------
  // Remapping. A user reference is `Some(id)` for a stored user and `None`
  // for a missing one: `findById` answers null for an unknown id, and the
  // derived queries then select the rows whose user IS NULL.

  /** The reference `findById(id)` yields. */
  function Ref(users: seq<GitUser>, id: int): (r: Option<UserId>)
    ensures r.Some? <==> 0 <= id < |users|
    ensures r.Some? ==> r.value == id
  {
    if 0 <= id < |users| then Some(id) else None
  }

  /** One user field after `from` is remapped to `to`. */
  function Move(r: Option<UserId>, from: Option<UserId>, to: Option<UserId>): Option<UserId>
  {
    if r == from then to else r
  }

  /** A user field after the whole sequence of remappings, in order. */
  function MoveAll(r: Option<UserId>, moves: seq<(Option<UserId>, Option<UserId>)>): Option<UserId>
  {
    if moves == [] then r
    else
      var last := moves[|moves| - 1];
      Move(MoveAll(r, moves[..|moves| - 1]), last.0, last.1)
  }

  function ReassignCommits(cs: seq<GHCommit>, from: Option<UserId>, to: Option<UserId>): (r: seq<GHCommit>)
    ensures |r| == |cs|
    ensures forall i :: 0 <= i < |cs| ==> r[i] == cs[i].(author := Move(cs[i].author, from, to))
  {
    seq(|cs|, i requires 0 <= i < |cs| => cs[i].(author := Move(cs[i].author, from, to)))
  }

  /** How many commits `findByAuthor(from)` returns. */
  function CountAuthoredBy(cs: seq<GHCommit>, from: Option<UserId>): (n: nat)
    ensures n <= |cs|
  {
    if cs == [] then 0
    else CountAuthoredBy(cs[..|cs| - 1], from) + (if cs[|cs| - 1].author == from then 1 else 0)
  }

  function ReassignComments(cms: seq<GHComment>, from: Option<UserId>, to: Option<UserId>): (r: seq<GHComment>)
    ensures |r| == |cms|
    ensures forall i :: 0 <= i < |cms| ==> r[i] == cms[i].(commenter := Move(cms[i].commenter, from, to))
  {
    seq(|cms|, i requires 0 <= i < |cms| => cms[i].(commenter := Move(cms[i].commenter, from, to)))
  }

  /** A pull request's comments, opener and merger after one remapping. */
  function ReassignPullRequest(p: GHPullRequest, from: Option<UserId>, to: Option<UserId>): GHPullRequest
  {
    p.(comments := ReassignComments(p.comments, from, to),
       openedBy := Move(p.openedBy, from, to),
       mergedBy := Move(p.mergedBy, from, to))
  }

  function ReassignPullRequests(ps: seq<GHPullRequest>, from: Option<UserId>, to: Option<UserId>): (r: seq<GHPullRequest>)
    ensures |r| == |ps|
    ensures forall i :: 0 <= i < |ps| ==> r[i] == ReassignPullRequest(ps[i], from, to)
  {
    seq(|ps|, i requires 0 <= i < |ps| => ReassignPullRequest(ps[i], from, to))
  }

  /** The repeated comment pass of `remapUsers` changes nothing the first pass left. */
  lemma SecondCommentPassIsNoOp(cms: seq<GHComment>, from: Option<UserId>, to: Option<UserId>)
    ensures ReassignComments(ReassignComments(cms, from, to), from, to) == ReassignComments(cms, from, to)
  {
    var once := ReassignComments(cms, from, to);
    var twice := ReassignComments(once, from, to);
    forall i | 0 <= i < |cms|
      ensures twice[i] == once[i]
    {
      if from != to {
        assert once[i].commenter != from;
      }
    }
  }

  /** The tables `remapUsers` rewrites. */
  datatype Authorship = Authorship(commits: seq<GHCommit>, pullRequests: seq<GHPullRequest>)

  /** Applying the remappings in order: the reference for the controller's loop. */
  function RemapAll(a: Authorship, moves: seq<(Option<UserId>, Option<UserId>)>): (r: Authorship)
    ensures |r.commits| == |a.commits| && |r.pullRequests| == |a.pullRequests|
  {
    if moves == [] then a
    else
      var prev := RemapAll(a, moves[..|moves| - 1]);
      var (from, to) := moves[|moves| - 1];
      Authorship(ReassignCommits(prev.commits, from, to), ReassignPullRequests(prev.pullRequests, from, to))
  }

  /** The commits reassigned, summed over the remappings (the `NUM_COMMITS` count). */
  function CountMoved(a: Authorship, moves: seq<(Option<UserId>, Option<UserId>)>): nat
  {
    if moves == [] then 0
    else
      var prev := RemapAll(a, moves[..|moves| - 1]);
      CountMoved(a, moves[..|moves| - 1]) + CountAuthoredBy(prev.commits, moves[|moves| - 1].0)
  }

  /** Every commit's author and every opener and merger follow `MoveAll`; nothing else changes. */
  lemma {:induction false} RemapAllMovesEachField(a: Authorship, moves: seq<(Option<UserId>, Option<UserId>)>)
    ensures var r := RemapAll(a, moves);
      && |r.commits| == |a.commits| && |r.pullRequests| == |a.pullRequests|
      && (forall i :: 0 <= i < |a.commits| ==>
            r.commits[i] == a.commits[i].(author := MoveAll(a.commits[i].author, moves)))
      && (forall i :: 0 <= i < |a.pullRequests| ==>
            && r.pullRequests[i].openedBy == MoveAll(a.pullRequests[i].openedBy, moves)
            && r.pullRequests[i].mergedBy == MoveAll(a.pullRequests[i].mergedBy, moves)
            && r.pullRequests[i].number == a.pullRequests[i].number
            && r.pullRequests[i].repository == a.pullRequests[i].repository)
    decreases |moves|
  {
    if moves != [] {
      RemapAllMovesEachField(a, moves[..|moves| - 1]);
    }
  }

  /**
   * When no remapping's target is another remapping's source and the sources
   * are distinct, the order does not matter: a field held by a source ends
   * up holding that source's target, and any other field is unchanged.
   */
  lemma {:induction false} MoveAllWithoutChains(r: Option<UserId>, moves: seq<(Option<UserId>, Option<UserId>)>)
    requires forall i, j :: 0 <= i < |moves| && 0 <= j < |moves| ==> moves[i].1 != moves[j].0
    requires forall i, j :: 0 <= i < j < |moves| ==> moves[i].0 != moves[j].0
    ensures forall i :: 0 <= i < |moves| && moves[i].0 == r ==> MoveAll(r, moves) == moves[i].1
    ensures (forall i :: 0 <= i < |moves| ==> moves[i].0 != r) ==> MoveAll(r, moves) == r
    decreases |moves|
  {
    if moves != [] {
      var prefix := moves[..|moves| - 1];
      MoveAllWithoutChains(r, prefix);
    }
  }

  /** The (old, new) references of the request's entries, in iteration order. */
  function Moves(users: seq<GitUser>, usersMap: map<int, int>, order: seq<int>): (m: seq<(Option<UserId>, Option<UserId>)>)
    requires forall k :: k in order ==> k in usersMap
    ensures |m| == |order|
    ensures forall i :: 0 <= i < |order| ==> m[i] == (Ref(users, order[i]), Ref(users, usersMap[order[i]]))
  {
    seq(|order|, i requires 0 <= i < |order| => (Ref(users, order[i]), Ref(users, usersMap[order[i]])))
  }

  /**
   * With stored, distinct users where no new user is also an old one, every
   * commit authored by an old user is authored by its new user afterwards,
   * every other commit keeps its author, and `NUM_COMMITS` counts exactly the
   * commits that moved.
   */
  lemma RemapMovesAuthorship(users: seq<GitUser>, a: Authorship, usersMap: map<int, int>, order: seq<int>, x: int)
    requires forall k :: k in order ==> k in usersMap
    requires forall i, j :: 0 <= i < j < |order| ==> order[i] != order[j]
    requires forall k :: k in usersMap ==> 0 <= k < |users| && 0 <= usersMap[k] < |users|
    requires forall k, l :: k in usersMap && l in usersMap ==> usersMap[k] != l
    requires 0 <= x < |a.commits|
    ensures var r := RemapAll(a, Moves(users, usersMap, order));
      var old_author := a.commits[x].author;
      && (old_author.Some? && old_author.value in order ==>
            r.commits[x].author == Some(usersMap[old_author.value]))
      && (old_author.None? || old_author.value !in order ==> r.commits[x].author == old_author)
  {
    var moves := Moves(users, usersMap, order);
    RemapAllMovesEachField(a, moves);
    MoveAllWithoutChains(a.commits[x].author, moves);
    var old_author := a.commits[x].author;
    if old_author.Some? && old_author.value in order {
      var i :| 0 <= i < |order| && order[i] == old_author.value;
      assert moves[i].0 == old_author;
    }
  }

  // ---------------------------------------------------------------------
  // The endpoints

  /** A request body for `createUser`: a user whose id may be given. */
  datatype UserRequest = UserRequest(id: Option<int>, name: Option<string>, email: Option<string>, excluded: bool)

  /** How `users/{name}/{type}/exclude` selects users; `None` for an unknown type. */
  function Selection(users: seq<GitUser>, name: string, kind: string): (r: Option<set<UserId>>)
    ensures r.Some? <==> kind in {"name", "email", "both"}
    ensures r.Some? ==> forall id :: id in r.value <==>
      exists u :: u in users && u.id == id &&
        ((kind != "email" && u.name.Some? && Contains(u.name.value, name)) ||
         (kind != "name" && u.email.Some? && Contains(u.email.value, name)))
  {
    var byName := set u | u in FindByNameContaining(users, name) :: u.id;
    var byEmail := set u | u in FindByEmailContaining(users, name) :: u.id;
    if kind == "name" then Some(byName)
    else if kind == "email" then Some(byEmail)
    else if kind == "both" then Some(byName + byEmail)
    else None
  }

  /** `excludeMultipleUsersSearch`: the users the exclusion would select; empty for an unknown type. */
  function ExcludeMultipleUsersSearch(users: seq<GitUser>, name: string, kind: string): (r: set<GitUser>)
    ensures kind !in {"name", "email", "both"} ==> r == {}
    ensures Selection(users, name, kind).Some? ==> forall u :: u in users ==> (u in r <==> u.id in Selection(users, name, kind).value)
    ensures forall u :: u in r ==> u in users
  {
    var sel := Selection(users, name, kind);
    if sel.None? then {} else set u | u in users && u.id in sel.value
  }

  /** The users with the ids in `ids` marked excluded, every other field kept. */
  function ExcludedAll(users: seq<GitUser>, ids: set<UserId>): seq<GitUser>
  {
    seq(|users|, i requires 0 <= i < |users| => users[i].(excluded := users[i].excluded || i in ids))
  }

  /** Marking one more id extends the marked set by that id. */
  lemma ExcludeStep(users: seq<GitUser>, done: set<UserId>, id: UserId)
    ensures var now := ExcludedAll(users, done);
      ExcludedAll(users, done + {id}) == if id < |now| then now[id := SetExcluded(now[id], true)] else now
  {
  }

  class UserController {
    const db: Database

    constructor (db: Database)
      ensures this.db == db
    {
      this.db := db;
    }

    /**
     * `remapUsers`: each entry of `usersMap`, in the iteration order `order`,
     * moves commit authorship, comments, and pull-request openers and mergers
     * from the old user to the new one. Answers the number of entries and the
     * number of commits moved.
     */
    method RemapUsers(usersMap: map<int, int>, order: seq<int>) returns (numUsers: nat, numCommits: nat)
      requires db.Valid()
      requires forall k :: k in order <==> k in usersMap
      requires forall i, j :: 0 <= i < j < |order| ==> order[i] != order[j]
      modifies db`commits, db`pullRequests
      ensures numUsers == |usersMap|
      ensures var moves := Moves(db.users, usersMap, order);
        && Authorship(db.commits, db.pullRequests) == RemapAll(Authorship(old(db.commits), old(db.pullRequests)), moves)
        && numCommits == CountMoved(Authorship(old(db.commits), old(db.pullRequests)), moves)
    {
      ghost var start := Authorship(db.commits, db.pullRequests);
      ghost var moves := Moves(db.users, usersMap, order);
      DistinctKeysCount(usersMap, order);
      numUsers := |usersMap|;
      numCommits := 0;
      var i := 0;
      while i < |order|
        invariant 0 <= i <= |order|
        invariant Authorship(db.commits, db.pullRequests) == RemapAll(start, moves[..i])
        invariant numCommits == CountMoved(start, moves[..i])
      {
        var from := Ref(db.users, order[i]);
        var to := Ref(db.users, usersMap[order[i]]);
        RemapStep(start, moves, i);
        numCommits := numCommits + CountAuthoredBy(db.commits, from);
        db.commits := ReassignCommits(db.commits, from, to);
        db.pullRequests := ReassignPullRequests(db.pullRequests, from, to);
        i := i + 1;
      }
      assert moves[..i] == moves;
    }

    /**
     * `includeUser` and `excludeUser`: an unknown id answers NOT_FOUND and
     * changes nothing; otherwise only that user's flag is set.
     */
    method SetExcludedFlag(id: int, flag: bool) returns (status: HttpStatus)
      requires db.Valid()
      modifies db`users
      ensures db.Valid()
      ensures status == (if 0 <= id < |old(db.users)| then OK else NOT_FOUND)
      ensures status == NOT_FOUND ==> db.users == old(db.users)
      ensures status == OK ==> db.users == old(db.users)[id := SetExcluded(old(db.users)[id], flag)]
    {
      var user := db.FindUser(id);
      if user.None? {
        return NOT_FOUND;
      }
      db.users := db.users[id := SetExcluded(user.value, flag)];
      return OK;
    }

    /**
     * `excludeMultipleUsers`: an unknown type answers BAD_REQUEST and an empty
     * selection NOT_FOUND, both changing nothing; otherwise exactly the
     * selected users become excluded.
     */
    method ExcludeMultipleUsers(name: string, kind: string) returns (status: HttpStatus)
      requires db.Valid()
      modifies db`users
      ensures db.Valid()
      ensures var sel := Selection(old(db.users), name, kind);
        && (sel.None? ==> status == BAD_REQUEST)
        && (sel.Some? && sel.value == {} ==> status == NOT_FOUND)
        && (sel.Some? && sel.value != {} ==> status == OK)
        && |db.users| == |old(db.users)|
        && (forall i :: 0 <= i < |db.users| ==>
              db.users[i] == old(db.users)[i].(excluded := old(db.users)[i].excluded || (status == OK && i in sel.value)))
    {
      var sel := Selection(db.users, name, kind);
      if sel.None? {
        return BAD_REQUEST;
      }
      if sel.value == {} {
        return NOT_FOUND;
      }
      ghost var before := db.users;
      var todo := sel.value;
      while todo != {}
        invariant todo <= sel.value
        invariant db.users == ExcludedAll(before, sel.value - todo)
        decreases todo
      {
        var id :| id in todo;
        ExcludeStep(before, sel.value - todo, id);
        if id < |db.users| {
          db.users := db.users[id := SetExcluded(db.users[id], true)];
        }
        assert sel.value - (todo - {id}) == (sel.value - todo) + {id};
        todo := todo - {id};
      }
      status := OK;
    }

    /**
     * `createUser`: a failing save answers BAD_REQUEST and stores nothing.
     * Otherwise the user is merged: a request naming a stored id overwrites
     * that row, any other request becomes a new row.
     */
    method CreateUser(req: UserRequest, saveFails: bool) returns (status: HttpStatus)
      requires db.Valid()
      modifies db`users
      ensures db.Valid()
      ensures status == (if saveFails then BAD_REQUEST else CREATED)
      ensures saveFails ==> db.users == old(db.users)
      ensures !saveFails && req.id.Some? && 0 <= req.id.value < |old(db.users)| ==>
        db.users == old(db.users)[req.id.value := GitUser(req.id.value, req.name, req.email, req.excluded)]
      ensures !saveFails && !(req.id.Some? && 0 <= req.id.value < |old(db.users)|) ==>
        db.users == old(db.users) + [GitUser(|old(db.users)|, req.name, req.email, req.excluded)]
    {
      if saveFails {
        return BAD_REQUEST;
      }
      if req.id.Some? && 0 <= req.id.value < |db.users| {
        db.users := db.users[req.id.value := GitUser(req.id.value, req.name, req.email, req.excluded)];
      } else {
        db.users := db.users + [GitUser(|db.users|, req.name, req.email, req.excluded)];
      }
      return CREATED;
    }
  }

  /** One more remapping extends the fold by one step. */
  lemma RemapStep(start: Authorship, moves: seq<(Option<UserId>, Option<UserId>)>, i: int)
    requires 0 <= i < |moves|
    ensures var prev := RemapAll(start, moves[..i]);
      var (from, to) := moves[i];
      && RemapAll(start, moves[..i + 1]) == Authorship(ReassignCommits(prev.commits, from, to), ReassignPullRequests(prev.pullRequests, from, to))
      && CountMoved(start, moves[..i + 1]) == CountMoved(start, moves[..i]) + CountAuthoredBy(prev.commits, from)
  {
    assert moves[..i + 1][..i] == moves[..i];
  }

  /** A sequence enumerating a map's keys without repetition has the map's size. */
  lemma DistinctKeysCount(usersMap: map<int, int>, order: seq<int>)
    requires forall k :: k in order <==> k in usersMap
    requires forall i, j :: 0 <= i < j < |order| ==> order[i] != order[j]
    ensures |order| == |usersMap|
  {
    var keys := set i | 0 <= i < |order| :: order[i];
    forall k | k in usersMap
      ensures k in keys
    {
      var i :| 0 <= i < |order| && order[i] == k;
    }
    forall k | k in keys
      ensures k in usersMap
    {
      var i :| 0 <= i < |order| && order[i] == k;
      assert order[i] in order;
    }
    assert keys == usersMap.Keys;
    SeqToSetSize(order);
  }

  lemma {:induction false} SeqToSetSize(s: seq<int>)
    requires forall i, j :: 0 <= i < j < |s| ==> s[i] != s[j]
    ensures |set i | 0 <= i < |s| :: s[i]| == |s|
    decreases |s|
  {
    if s != [] {
      var prefix := s[..|s| - 1];
      SeqToSetSize(prefix);
      var a := set i | 0 <= i < |prefix| :: prefix[i];
      var b := set i | 0 <= i < |s| :: s[i];
      assert b == a + {s[|s| - 1]};
      assert s[|s| - 1] !in a;
    }
  }
}
