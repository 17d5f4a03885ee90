/**
 * Resolving GitHub identities to stored users: the find-or-create of
 * `GitUserService.forUser`, the cache-backed `GitUser.forUser`, and the
 * user finders.
 */
module UserDirectory {
  import opened Common
  import opened GitUsers
  import opened Store

  /** The index of the first (lowest-id) user satisfying `p`. */
  function First(users: seq<GitUser>, p: GitUser -> bool): (r: Option<nat>)
    ensures r.Some? ==> r.value < |users| && p(users[r.value])
    ensures r.Some? ==> forall j :: 0 <= j < r.value ==> !p(users[j])
    ensures r.None? ==> forall j :: 0 <= j < |users| ==> !p(users[j])
    decreases |users|
  {
    if users == [] then None
    else
      var r := First(users[..|users| - 1], p);
      if r.Some? then r
      else if p(users[|users| - 1]) then Some(|users| - 1)
      else None
  }

  /** The users satisfying `p`, in id order. */
  function Where(users: seq<GitUser>, p: GitUser -> bool): (r: seq<GitUser>)
    ensures forall u :: u in r <==> u in users && p(u)
    ensures |r| <= |users|
    decreases |users|
  {
    if users == [] then []
    else
      var rest := Where(users[..|users| - 1], p);
      var last := users[|users| - 1];
      assert users == users[..|users| - 1] + [last];
      if p(last) then rest + [last] else rest
  }

  /** `findExcluded`: exactly the excluded users. */
  function FindExcluded(users: seq<GitUser>): (r: seq<GitUser>)
    ensures forall u :: u in r <==> u in users && u.excluded
  {
    Where(users, (u: GitUser) => u.excluded)
  }

  /** `findByNameContaining`: exactly the users whose (non-null) name contains `s`. */
  function FindByNameContaining(users: seq<GitUser>, s: string): (r: seq<GitUser>)
    ensures forall u :: u in r <==> u in users && u.name.Some? && Contains(u.name.value, s)
  {
    Where(users, (u: GitUser) => u.name.Some? && Contains(u.name.value, s))
  }

  /** `findByEmailContaining`: exactly the users whose (non-null) email contains `s`. */
  function FindByEmailContaining(users: seq<GitUser>, s: string): (r: seq<GitUser>)
    ensures forall u :: u in r <==> u in users && u.email.Some? && Contains(u.email.value, s)
  {
    Where(users, (u: GitUser) => u.email.Some? && Contains(u.email.value, s))
  }

  // ---------------------------------------------------------------------
  // GitUserService.forUser

  /** The email an author is looked up by: its own, or `name@domain` when absent. */
  function AuthorEmail(a: AuthorInfo, domain: string): string
  {
    if a.email.None? then BuildEmail(a.name, domain) else a.email.value
  }

  /** The email an account is looked up by: its own, or `login@domain` when absent or unreadable. */
  function AccountEmail(acct: AccountInfo, domain: string): string
  {
    if acct.email.EmailIs? && acct.email.address.Some? then acct.email.address.value
    else BuildEmail(acct.login, domain)
  }

  /**
   * Strict equivalence matches name and email, weak equivalence the email
   * alone. A null name only matches a null name (Spring's `IS NULL`).
   */
  predicate Matches(u: GitUser, name: Option<string>, email: string, weak: bool)
  {
    u.email == Some(email) && (weak || u.name == name)
  }

  /** Two different users match the identity: a single-result query over them fails. */
  predicate Ambiguous(users: seq<GitUser>, name: Option<string>, email: string)
  {
    exists i, j :: 0 <= i < j < |users| && Matches(users[i], name, email, false) && Matches(users[j], name, email, false)
  }

  /** Why a lookup fails: `findByNameAndEmail` returns a single user and fails on two. */
  datatype UserError = NonUniqueResult

  /**
   * The lookup of `forUser`: weak equivalence takes the lowest-id user with
   * the email (`findTop1ByEmailOrderById`); strict equivalence asks for the
   * single user with name and email and fails when there are two.
   */
  function Find(users: seq<GitUser>, name: Option<string>, email: string, weak: bool): (r: Result<Option<UserId>, UserError>)
    ensures r.Err? <==> !weak && Ambiguous(users, name, email)
    ensures r == Ok(None) <==> forall j :: 0 <= j < |users| ==> !Matches(users[j], name, email, weak)
    ensures r.Ok? && r.value.Some? ==>
      && r.value.value < |users| && Matches(users[r.value.value], name, email, weak)
      && forall j :: 0 <= j < r.value.value ==> !Matches(users[j], name, email, weak)
  {
    var p := (u: GitUser) => Matches(u, name, email, weak);
    var found := First(users, p);
    if found.None? then Ok(None)
    else
      var rest := First(users[found.value + 1..], p);
      if !weak && rest.Some? then
        var j := found.value + 1 + rest.value;
        assert users[j] == users[found.value + 1..][rest.value];
        assert Matches(users[found.value], name, email, false) && Matches(users[j], name, email, false);
        Err(NonUniqueResult)
      else
        assert !weak ==> forall j :: found.value < j < |users| ==> users[j] == users[found.value + 1..][j - found.value - 1];
        Ok(found)
  }

  /**
   * Find-or-create with the user that is created carrying the email it was
   * looked up by, so that the next lookup finds it. A failed lookup saves
   * nothing.
   */
  function Resolve(users: seq<GitUser>, name: Option<string>, email: string, weak: bool): (r: Result<(UserId, seq<GitUser>), UserError>)
  {
    match Find(users, name, email, weak)
    case Err(e) => Err(e)
    case Ok(found) =>
      if found.Some? then Ok((found.value, users))
      else Ok((|users|, users + [GitUser(|users|, name, Some(email), false)]))
  }

  /**
   * The lookup fails exactly when strict equivalence finds two users.
   * Otherwise an existing match is returned and nothing is saved, or exactly
   * one user is appended; either way the returned user matches the identity
   * and no earlier user does.
   */
  lemma ResolveFindsOrCreates(users: seq<GitUser>, name: Option<string>, email: string, weak: bool)
    ensures Resolve(users, name, email, weak).Err? <==> !weak && Ambiguous(users, name, email)
    ensures Resolve(users, name, email, weak).Ok? ==>
      var (id, after) := Resolve(users, name, email, weak).value;
      && (after == users || (after == users + [after[|users|]] && id == |users|))
      && id < |after| && Matches(after[id], name, email, weak)
      && (forall j :: 0 <= j < id ==> !Matches(after[j], name, email, weak))
      && (after == users <==> exists j :: 0 <= j < |users| && Matches(users[j], name, email, weak))
  {
    var r := Resolve(users, name, email, weak);
    if r.Ok? {
      var (id, after) := r.value;
      if after != users {
        assert after[|users|] == GitUser(|users|, name, Some(email), false);
        assert forall j :: 0 <= j < id ==> after[j] == users[j];
      }
    }
  }

  /** A second resolution of the same identity returns the same user and saves nothing. */
  lemma {:induction false} ResolveIsIdempotent(users: seq<GitUser>, name: Option<string>, email: string, weak: bool)
    ensures Resolve(users, name, email, weak).Ok? ==>
      var (id, after) := Resolve(users, name, email, weak).value;
      Resolve(after, name, email, weak) == Ok((id, after))
  {
    var r := Resolve(users, name, email, weak);
    if r.Ok? && Find(users, name, email, weak) == Ok(None) {
      var (id, after) := r.value;
      assert after[..|users|] == users;
      assert Matches(after[|users|], name, email, weak);
      assert forall i :: 0 <= i < |users| ==> after[i] == users[i];
    }
  }

  /** `forUser(GHAuthor)` with the correction above. */
  function ResolveAuthor(users: seq<GitUser>, a: AuthorInfo, weak: bool, domain: string): Result<(UserId, seq<GitUser>), UserError>
  {
    Resolve(users, a.name, AuthorEmail(a, domain), weak)
  }

  /** `forUser(GHUser)` with the correction above. */
  function ResolveAccount(users: seq<GitUser>, acct: AccountInfo, weak: bool, domain: string): Result<(UserId, seq<GitUser>), UserError>
  {
    Resolve(users, acct.login, AccountEmail(acct, domain), weak)
  }

  /**
   * `forUser(GHAuthor)` as written: the user it creates is built from the
   * author, so a missing email stays null although the lookup used `name@domain`.
   */
  function ResolveAuthorAsWritten(users: seq<GitUser>, a: AuthorInfo, weak: bool, domain: string): Result<(UserId, seq<GitUser>), UserError>
  {
    match Find(users, a.name, AuthorEmail(a, domain), weak)
    case Err(e) => Err(e)
    case Ok(found) =>
      if found.Some? then Ok((found.value, users))
      else Ok((|users|, users + [FromAuthor(|users|, a)]))
  }

  /**
   * `forUser(GHUser)` as written: the user it creates is built from the
   * account, so an email that cannot be read stays null although the lookup
   * used `login@domain`.
   */
  function ResolveAccountAsWritten(users: seq<GitUser>, acct: AccountInfo, weak: bool, domain: string): Result<(UserId, seq<GitUser>), UserError>
  {
    match Find(users, acct.login, AccountEmail(acct, domain), weak)
    case Err(e) => Err(e)
    case Ok(found) =>
      if found.Some? then Ok((found.value, users))
      else Ok((|users|, users + [FromAccount(|users|, acct, domain)]))
  }

  /** As written, an author without an email gets a new user on every call. */
  lemma AuthorWithoutEmailDuplicatedAsWritten()
    ensures var a := AuthorInfo(Some("alice"), None);
      var first := ResolveAuthorAsWritten([], a, false, "example.com");
      && first.Ok?
      && var second := ResolveAuthorAsWritten(first.value.1, a, false, "example.com");
      && second.Ok? && first.value.0 != second.value.0 && |second.value.1| == 2
  {
    var a := AuthorInfo(Some("alice"), None);
    var first := ResolveAuthorAsWritten([], a, false, "example.com");
    assert first.value.1 == [GitUser(0, Some("alice"), None, false)];
    assert !Matches(first.value.1[0], a.name, AuthorEmail(a, "example.com"), false);
  }

  /** As written, an account whose email cannot be read gets a new user on every call. */
  lemma AccountWithUnreadableEmailDuplicatedAsWritten()
    ensures var acct := AccountInfo(Some("alice"), EmailFails);
      var first := ResolveAccountAsWritten([], acct, false, "example.com");
      && first.Ok?
      && var second := ResolveAccountAsWritten(first.value.1, acct, false, "example.com");
      && second.Ok? && first.value.0 != second.value.0 && |second.value.1| == 2
  {
    var acct := AccountInfo(Some("alice"), EmailFails);
    var first := ResolveAccountAsWritten([], acct, false, "example.com");
    assert first.value.1 == [GitUser(0, Some("alice"), None, false)];
    assert !Matches(first.value.1[0], acct.login, AccountEmail(acct, "example.com"), false);
  }

  // ---------------------------------------------------------------------
  // GitUser.forUser: the criteria queries compare with SQL `=`, so a null
  // name never matches; the email criterion is dropped for a null email.

  predicate CriteriaMatchAuthor(u: GitUser, a: AuthorInfo)
  {
    a.name.Some? && u.name == a.name && (a.email.None? || u.email == a.email)
  }

  /** Cache hit, else first stored match, else a new user; the result is cached under `name:email`. */
  function CachedAuthor(users: seq<GitUser>, cache: map<string, UserId>, a: AuthorInfo): (r: (UserId, seq<GitUser>, map<string, UserId>))
  {
    var key := Key(a.name, a.email);
    if key in cache then (cache[key], users, cache)
    else
      var found := First(users, (u: GitUser) => CriteriaMatchAuthor(u, a));
      if found.Some? then (found.value, users, cache[key := found.value])
      else (|users|, users + [FromAuthor(|users|, a)], cache[key := |users|])
  }

  /**
   * After one call the author's key is cached: a second call returns the
   * same user and changes nothing; the first call created at most one user.
   */
  lemma CachedAuthorIsIdempotent(users: seq<GitUser>, cache: map<string, UserId>, a: AuthorInfo)
    ensures var (id, users', cache') := CachedAuthor(users, cache, a);
      && CachedAuthor(users', cache', a) == (id, users', cache')
      && Key(a.name, a.email) in cache' && cache'[Key(a.name, a.email)] == id
      && |users| <= |users'| <= |users| + 1
  {
  }

  /** Two distinct authors whose keys collide share the user cached for the first. */
  lemma CacheConflatesCollidingKeys()
    ensures var u := AuthorInfo(Some("a:b"), Some("c"));
      var v := AuthorInfo(Some("a"), Some("b:c"));
      var (idU, users1, cache1) := CachedAuthor([], map[], u);
      var (idV, users2, cache2) := CachedAuthor(users1, cache1, v);
      idU == idV && users1[idV].name != v.name
  {
    var u := AuthorInfo(Some("a:b"), Some("c"));
    var v := AuthorInfo(Some("a"), Some("b:c"));
    assert Key(u.name, u.email) == "a:b:c" == Key(v.name, v.email);
  }

  predicate CriteriaMatchAccount(u: GitUser, login: Option<string>, email: string)
  {
    login.Some? && u.name == login && u.email == Some(email)
  }

  /**
   * `GitUser.forUser(GHUser)`: an unreadable email aborts (`None`, nothing
   * changes); otherwise the same cache-then-query-then-create scheme, keyed
   * by `login:email` with the email defaulted to `login@domain`.
   */
  function CachedAccount(users: seq<GitUser>, cache: map<string, UserId>, acct: AccountInfo, domain: string): (r: Option<(UserId, seq<GitUser>, map<string, UserId>)>)
  {
    if acct.email.EmailFails? then None
    else
      var email := AccountEmail(acct, domain);
      var key := Show(acct.login) + ":" + email;
      if key in cache then Some((cache[key], users, cache))
      else
        var found := First(users, (u: GitUser) => CriteriaMatchAccount(u, acct.login, email));
        if found.Some? then Some((found.value, users, cache[key := found.value]))
        else Some((|users|, users + [FromAccount(|users|, acct, domain)], cache[key := |users|]))
  }

  /** An account's user carries its login as name and its defaulted email. */
  lemma CachedAccountCreatesWithDefaultEmail(users: seq<GitUser>, cache: map<string, UserId>, acct: AccountInfo, domain: string)
    requires acct.email == EmailIs(None)
    requires CachedAccount(users, cache, acct, domain).Some?
    ensures var (id, users', cache') := CachedAccount(users, cache, acct, domain).value;
      |users'| > |users| ==> users'[id].name == acct.login && users'[id].email == Some(BuildEmail(acct.login, domain))
  {
  }

  // ---------------------------------------------------------------------
  // The operations on the store

  class Directory {
    const db: Database

    constructor (db: Database)
      ensures this.db == db
    {
      this.db := db;
    }

    /** `GitUserService.forUser(GHAuthor)`, saving the user with the email it was looked up by. */
    method ForAuthor(a: AuthorInfo, weak: bool, domain: string) returns (r: Result<UserId, UserError>)
      requires db.Valid()
      modifies db`users
      ensures db.Valid()
      ensures var res := ResolveAuthor(old(db.users), a, weak, domain);
        if res.Err? then r == Err(res.error) && db.users == old(db.users)
        else r == Ok(res.value.0) && db.users == res.value.1
    {
      var res := ResolveAuthor(db.users, a, weak, domain);
      ResolveFindsOrCreates(db.users, a.name, AuthorEmail(a, domain), weak);
      if res.Err? {
        return Err(res.error);
      }
      r := Ok(res.value.0);
      db.users := res.value.1;
    }

    /** `GitUserService.forUser(GHUser)`, saving the user with the email it was looked up by. */
    method ForAccount(acct: AccountInfo, weak: bool, domain: string) returns (r: Result<UserId, UserError>)
      requires db.Valid()
      modifies db`users
      ensures db.Valid()
      ensures var res := ResolveAccount(old(db.users), acct, weak, domain);
        if res.Err? then r == Err(res.error) && db.users == old(db.users)
        else r == Ok(res.value.0) && db.users == res.value.1
    {
      var res := ResolveAccount(db.users, acct, weak, domain);
      ResolveFindsOrCreates(db.users, acct.login, AccountEmail(acct, domain), weak);
      if res.Err? {
        return Err(res.error);
      }
      r := Ok(res.value.0);
      db.users := res.value.1;
    }

    /** `GitUserService.forUser(GHAuthor)` as written: a new user keeps the author's own email. */
    method ForAuthorAsWritten(a: AuthorInfo, weak: bool, domain: string) returns (r: Result<UserId, UserError>)
      requires db.Valid()
      modifies db`users
      ensures db.Valid()
      ensures var res := ResolveAuthorAsWritten(old(db.users), a, weak, domain);
        if res.Err? then r == Err(res.error) && db.users == old(db.users)
        else r == Ok(res.value.0) && db.users == res.value.1
    {
      var res := ResolveAuthorAsWritten(db.users, a, weak, domain);
      if res.Err? {
        return Err(res.error);
      }
      r := Ok(res.value.0);
      db.users := res.value.1;
    }

    /** `GitUserService.forUser(GHUser)` as written: a new user keeps the account's own email. */
    method ForAccountAsWritten(acct: AccountInfo, weak: bool, domain: string) returns (r: Result<UserId, UserError>)
      requires db.Valid()
      modifies db`users
      ensures db.Valid()
      ensures var res := ResolveAccountAsWritten(old(db.users), acct, weak, domain);
        if res.Err? then r == Err(res.error) && db.users == old(db.users)
        else r == Ok(res.value.0) && db.users == res.value.1
    {
      var res := ResolveAccountAsWritten(db.users, acct, weak, domain);
      if res.Err? {
        return Err(res.error);
      }
      r := Ok(res.value.0);
      db.users := res.value.1;
    }

    /** `GitUser.forUser(GHAuthor)`. */
    method CachedForAuthor(a: AuthorInfo) returns (id: UserId)
      requires db.Valid()
      modifies db`users, db`userCache
      ensures db.Valid()
      ensures (id, db.users, db.userCache) == CachedAuthor(old(db.users), old(db.userCache), a)
    {
      var r := CachedAuthor(db.users, db.userCache, a);
      id, db.users, db.userCache := r.0, r.1, r.2;
    }

    /** `GitUser.forUser(GHUser)`; `None` when the email cannot be read. */
    method CachedForAccount(acct: AccountInfo, domain: string) returns (id: Option<UserId>)
      requires db.Valid()
      modifies db`users, db`userCache
      ensures db.Valid()
      ensures var r := CachedAccount(old(db.users), old(db.userCache), acct, domain);
        if r.None? then id.None? && db.users == old(db.users) && db.userCache == old(db.userCache)
        else id == Some(r.value.0) && db.users == r.value.1 && db.userCache == r.value.2
    {
      var r := CachedAccount(db.users, db.userCache, acct, domain);
      if r.None? {
        return None;
      }
      id := Some(r.value.0);
      db.users, db.userCache := r.value.1, r.value.2;
    }
  }
}
