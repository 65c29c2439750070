/** The slice of ASP.NET Identity the controllers use: the users table, the
    external-logins table, lookups by id, e-mail and linked login, and the
    store operations create, add-login and delete. What the library decides
    internally (password hashes, lockout, validators) reaches the model as
    parameters. */
module Identity {
  import opened Common
  import opened Text
  import opened Seqs
  import opened Data

  /** Identity's lookup normalizer: keys are compared upper-cased. */
  function NormalizeKey(s: string): (r: string)
    ensures |r| == |s| && forall i :: 0 <= i < |s| ==> r[i] == UpperChar(s[i])
  {
    ToUpperInvariant(s)
  }

  /** Keys that differ only in letter case normalize alike. */
  lemma NormalizeIgnoresCase(s: string)
    ensures NormalizeKey(ToLowerInvariant(s)) == NormalizeKey(s)
    ensures NormalizeKey(ToUpperInvariant(s)) == NormalizeKey(s)
  {
    UpperAfterLower(s);
    var upper := ToUpperInvariant(s);
    assert ToUpperInvariant(upper) == upper by {
      assert forall i :: 0 <= i < |s| ==> UpperChar(upper[i]) == upper[i];
    }
  }

  /** `FindByIdAsync`; `GetUserAsync(User)` resolves the caller's
      name-identifier claim (`None` when the request carries none) this way. */
  function FindById(users: seq<ApplicationUser>, id: Option<string>): (r: Option<ApplicationUser>)
    ensures r.Some? ==> id.Some? && r.value in users && r.value.Id == id.value
    ensures r.None? ==> id.None? || forall u :: u in users ==> u.Id != id.value
  {
    if id.None? then None
    else match FirstIndex(users, (u: ApplicationUser) => u.Id == id.value)
      case None => None
      case Some(k) => Some(users[k])
  }

  /** `FindByEmailAsync`: the user whose e-mail equals `email` up to case. */
  function FindByEmail(users: seq<ApplicationUser>, email: string): (r: Option<ApplicationUser>)
    ensures r.Some? ==> r.value in users && NormalizeKey(r.value.Email) == NormalizeKey(email)
    ensures r.None? ==> forall u :: u in users ==> NormalizeKey(u.Email) != NormalizeKey(email)
  {
    match FirstIndex(users, (u: ApplicationUser) => NormalizeKey(u.Email) == NormalizeKey(email))
    case None => None
    case Some(k) => Some(users[k])
  }

  /** No two users share an id (the primary key of the users table). */
  ghost predicate IdsUnique(users: seq<ApplicationUser>)
  {
    forall u, v :: u in users && v in users && u.Id == v.Id ==> u == v
  }

  /** Some login row binds (`provider`, `key`). */
  predicate IsLinked(logins: seq<UserLogin>, provider: string, key: string)
  {
    exists l :: l in logins && l.LoginProvider == provider && l.ProviderKey == key
  }

  /** `FindByLoginAsync`: the owner of the login row for (`provider`, `key`). */
  function FindByLogin(users: seq<ApplicationUser>, logins: seq<UserLogin>, provider: string, key: string)
    : (r: Option<ApplicationUser>)
    ensures r.Some? ==> r.value in users && UserLogin(provider, key, r.value.Id) in logins
    ensures !IsLinked(logins, provider, key) ==> r.None?
    ensures LinksUnique(logins) ==>
              forall u :: u in users && UserLogin(provider, key, u.Id) in logins ==> r.Some? && r.value.Id == u.Id
    ensures LinksUnique(logins) && IdsUnique(users) ==>
              forall u :: u in users && UserLogin(provider, key, u.Id) in logins ==> r == Some(u)
  {
    match FirstIndex(logins, (l: UserLogin) => l.LoginProvider == provider && l.ProviderKey == key)
    case None => None
    case Some(k) => FindById(users, Some(logins[k].UserId))
  }

  /** No two users share an e-mail address, up to case. */
  ghost predicate EmailsUnique(users: seq<ApplicationUser>)
  {
    forall u, v :: u in users && v in users && NormalizeKey(u.Email) == NormalizeKey(v.Email) ==> u == v
  }

  /** No two login rows share a (provider, key) pair. */
  ghost predicate LinksUnique(logins: seq<UserLogin>)
  {
    forall a, b ::
      a in logins && b in logins && a.LoginProvider == b.LoginProvider && a.ProviderKey == b.ProviderKey
      ==> a == b
  }

  /** The users left after deleting the user with id `id`. */
  function WithoutUserId(users: seq<ApplicationUser>, id: string): (r: seq<ApplicationUser>)
    ensures forall u :: u in r <==> u in users && u.Id != id
  {
    if users == [] then []
    else (if users[0].Id == id then [] else [users[0]]) + WithoutUserId(users[1..], id)
  }

  /** The login rows left after deleting the user `id` (the delete cascades). */
  function LoginsWithoutUser(logins: seq<UserLogin>, id: string): (r: seq<UserLogin>)
    ensures forall l :: l in r <==> l in logins && l.UserId != id
  {
    if logins == [] then []
    else (if logins[0].UserId == id then [] else [logins[0]]) + LoginsWithoutUser(logins[1..], id)
  }

  /** Deleting a user that was appended to a table holding no other user with
      its id gives back the table as it was before the append. */
  lemma {:induction false} DeleteUndoesAppend(users: seq<ApplicationUser>, u: ApplicationUser)
    requires forall v :: v in users ==> v.Id != u.Id
    ensures WithoutUserId(users + [u], u.Id) == users
  {
    if users == [] {
      assert WithoutUserId([u], u.Id) == [] + WithoutUserId([], u.Id);
    } else {
      assert (users + [u])[1..] == users[1..] + [u];
      DeleteUndoesAppend(users[1..], u);
      assert users == [users[0]] + users[1..];
    }
  }

  /** Deleting a user that owns no login row leaves the logins table as it is. */
  lemma {:induction false} DeleteKeepsOtherLogins(logins: seq<UserLogin>, id: string)
    requires forall l :: l in logins ==> l.UserId != id
    ensures LoginsWithoutUser(logins, id) == logins
  {
    if logins != [] {
      DeleteKeepsOtherLogins(logins[1..], id);
      assert logins == [logins[0]] + logins[1..];
    }
  }

  /** Adding a user whose e-mail matches no existing user keeps e-mails unique. */
  lemma AppendKeepsEmailsUnique(users: seq<ApplicationUser>, u: ApplicationUser)
    requires EmailsUnique(users)
    requires FindByEmail(users, u.Email).None?
    ensures EmailsUnique(users + [u])
  {
  }

  /** What `ExternalLoginSignInAsync` reports. */
  datatype SignInResult = Succeeded | LockedOut | NotAllowed | Failed

  /** The library's verdict on a found user: lockout, and the confirmed-account
      rule. It is not modelled further. */
  datatype AccountStatus = Active | LockedOutAccount | NotAllowedAccount

  /** `ExternalLoginSignInAsync(provider, key, ...)` with two-factor bypassed:
      it fails unless the pair is linked to a user, and otherwise reports the
      user's status. */
  function ExternalLoginSignIn(users: seq<ApplicationUser>, logins: seq<UserLogin>, provider: string,
                               key: string, status: AccountStatus): (r: SignInResult)
    ensures r != Failed <==> FindByLogin(users, logins, provider, key).Some?
    ensures r == Succeeded <==> FindByLogin(users, logins, provider, key).Some? && status == Active
  {
    match FindByLogin(users, logins, provider, key)
    case None => Failed
    case Some(_) =>
      match status
      case Active => Succeeded
      case LockedOutAccount => LockedOut
      case NotAllowedAccount => NotAllowed
  }

  /** Identity's `UserManager` over the users and external-logins tables. */
  class UserManager {
    var Users: seq<ApplicationUser>
    var UserLogins: seq<UserLogin>

    /** The primary key of the logins table is (provider, key). */
    ghost predicate Valid()
      reads this
    {
      LinksUnique(UserLogins)
    }

    constructor (users: seq<ApplicationUser>)
      ensures Valid() && Users == users && UserLogins == []
    {
      Users := users;
      UserLogins := [];
    }

    /** `CreateAsync(user)`; `accepted` is the verdict of the library's
        validators and of the store. */
    method CreateAsync(user: ApplicationUser, accepted: bool) returns (ok: bool)
      requires Valid()
      requires forall u :: u in Users ==> u.Id != user.Id
      modifies this
      ensures Valid()
      ensures ok == accepted
      ensures Users == if ok then old(Users) + [user] else old(Users)
      ensures UserLogins == old(UserLogins)
    {
      ok := accepted;
      if ok {
        Users := Users + [user];
      }
    }

    /** `AddLoginAsync(user, info)`: refused when the pair is already linked
        (to anyone) or when the store refuses (`accepted` false). */
    method AddLoginAsync(user: ApplicationUser, provider: string, key: string, accepted: bool)
      returns (ok: bool)
      requires Valid()
      modifies this
      ensures Valid()
      ensures ok == (accepted && !IsLinked(old(UserLogins), provider, key))
      ensures UserLogins == if ok then old(UserLogins) + [UserLogin(provider, key, user.Id)]
                            else old(UserLogins)
      ensures Users == old(Users)
    {
      ok := accepted && FirstIndex(UserLogins, (l: UserLogin) => l.LoginProvider == provider && l.ProviderKey == key).None?;
      if ok {
        UserLogins := UserLogins + [UserLogin(provider, key, user.Id)];
      }
    }

    /** `DeleteAsync(user)`: removes the user and, by cascade, its logins. */
    method DeleteAsync(user: ApplicationUser)
      requires Valid()
      modifies this
      ensures Valid()
      ensures Users == WithoutUserId(old(Users), user.Id)
      ensures UserLogins == LoginsWithoutUser(old(UserLogins), user.Id)
    {
      Users := WithoutUserId(Users, user.Id);
      UserLogins := LoginsWithoutUser(UserLogins, user.Id);
    }
  }
}
