/**
 * A developer identity as stored by AutoVCS (`GitUser`): a name and an
 * email, plus the `excluded` flag that removes the user from analysis.
 */
module GitUsers {
  import opened Common

  /** The database id of a user; in the store it is the user's row index. */
  type UserId = nat

  datatype GitUser = GitUser(id: UserId, name: Option<string>, email: Option<string>, excluded: bool)

  /** The author block of a git commit as the GitHub API returns it. */
  datatype AuthorInfo = AuthorInfo(name: Option<string>, email: Option<string>)

  /** Reading a GitHub account's public email: it may be absent, or the request may fail. */
  datatype EmailLookup = EmailIs(address: Option<string>) | EmailFails

  /** A GitHub account. */
  datatype AccountInfo = AccountInfo(login: Option<string>, email: EmailLookup)

  /**
   * `GitUser.equals`: email compared first, then name, each null-safe.
   * The database id and the `excluded` flag play no part.
   */
  predicate Equals(a: GitUser, b: GitUser)
  {
    if a.email.None? && b.email.Some? then false
    else if a.email.Some? && (b.email.None? || a.email.value != b.email.value) then false
    else if a.name.None? && b.name.Some? then false
    else if a.name.Some? && (b.name.None? || a.name.value != b.name.value) then false
    else true
  }

  /** Same name and same email is the same user, and nothing else is. */
  lemma EqualsIsSameNameAndEmail(a: GitUser, b: GitUser)
    ensures Equals(a, b) <==> a.name == b.name && a.email == b.email
  {
  }

  /** Equality is an equivalence relation, as the hash-based collections need. */
  lemma EqualsIsEquivalence(a: GitUser, b: GitUser, c: GitUser)
    ensures Equals(a, a)
    ensures Equals(a, b) ==> Equals(b, a)
    ensures Equals(a, b) && Equals(b, c) ==> Equals(a, c)
  {
  }

  /** `getKey()`: `name:email`, with a null field printed as `null`. */
  function Key(name: Option<string>, email: Option<string>): (r: string)
    ensures |r| == |Show(name)| + 1 + |Show(email)|
    ensures r[|Show(name)|] == ':'
  {
    Show(name) + ":" + Show(email)
  }

  /**
   * While the printed names contain no colon, two keys are equal exactly
   * when the printed names and the printed emails are.
   */
  lemma KeyDeterminesFields(n1: Option<string>, e1: Option<string>, n2: Option<string>, e2: Option<string>)
    requires ':' !in Show(n1) && ':' !in Show(n2)
    ensures Key(n1, e1) == Key(n2, e2) <==> Show(n1) == Show(n2) && Show(e1) == Show(e2)
  {
    var a, b := Show(n1), Show(n2);
    if Key(n1, e1) == Key(n2, e2) {
      if |a| != |b| {
        assert false;
      }
      assert a == Key(n1, e1)[..|a|] && b == Key(n2, e2)[..|b|];
      assert Show(e1) == Key(n1, e1)[|a| + 1..] && Show(e2) == Key(n2, e2)[|b| + 1..];
    }
  }

  /** A colon in a name lets two different users share one key. */
  lemma KeyCollidesOnColonInName()
    ensures var u := GitUser(0, Some("a:b"), Some("c"), false);
            var v := GitUser(1, Some("a"), Some("b:c"), false);
            Key(u.name, u.email) == Key(v.name, v.email) && !Equals(u, v)
  {
    var u := GitUser(0, Some("a:b"), Some("c"), false);
    var v := GitUser(1, Some("a"), Some("b:c"), false);
    assert Key(u.name, u.email) == "a:b:c" == Key(v.name, v.email);
    assert u.name != v.name;
  }

  /** A null name and the literal name "null" share a key. */
  lemma KeyCollidesOnNullName()
    ensures Key(None, Some("x")) == Key(Some("null"), Some("x"))
  {
  }

  /** `toString()`: "Overall" for the nameless user, otherwise `name (email)`. */
  function Display(u: GitUser): (r: string)
    ensures u.name.None? ==> r == "Overall"
    ensures u.name.Some? ==> StartsWith(r, u.name.value) && EndsWith(r, Show(u.email) + ")")
  {
    if u.name.None? then "Overall" else u.name.value + " (" + Show(u.email) + ")"
  }

  /** `buildEmail(login)`: `login@<configured email domain>`. */
  function BuildEmail(login: Option<string>, domain: string): (r: string)
    ensures StartsWith(r, Show(login)) && EndsWith(r, "@" + domain)
  {
    Show(login) + "@" + domain
  }

  /** `new GitUser(GHAuthor)`: name and email copied, not excluded. */
  function FromAuthor(id: UserId, a: AuthorInfo): (u: GitUser)
    ensures u.id == id && !u.excluded
    ensures u.name == a.name && u.email == a.email
  {
    GitUser(id, a.name, a.email, false)
  }

  /**
   * `new GitUser(GHUser)`: the login becomes the name; an absent email is
   * built from the login, and a failed email request leaves it null.
   */
  function FromAccount(id: UserId, acct: AccountInfo, domain: string): (u: GitUser)
    ensures u.id == id && !u.excluded && u.name == acct.login
    ensures acct.email == EmailIs(None) ==> u.email == Some(BuildEmail(acct.login, domain))
    ensures acct.email.EmailIs? && acct.email.address.Some? ==> u.email == acct.email.address
    ensures acct.email.EmailFails? ==> u.email.None?
  {
    var email :=
      match acct.email
      case EmailFails => None
      case EmailIs(None) => Some(BuildEmail(acct.login, domain))
      case EmailIs(Some(e)) => Some(e);
    GitUser(id, acct.login, email, false)
  }

  /** `setExcluded(flag)`: only the flag changes. */
  function SetExcluded(u: GitUser, flag: bool): (r: GitUser)
    ensures r.excluded == flag
    ensures r.id == u.id && Equals(r, u)
  {
    u.(excluded := flag)
  }
}
