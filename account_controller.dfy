/** `AccountController.ExternalLoginCallback`: the cookie-based sign-in with
    an external provider. A login already linked signs its user in; otherwise
    the account is found by e-mail and linked, or created and linked, and a
    newly created account is deleted again when the link is refused. */
module AccountApi {
  import opened Common
  import opened Data
  import opened Identity

  /** What `GetExternalLoginInfoAsync` yields: the provider, the user's subject
      id there, and the e-mail claim (`None` when the provider sent none). */
  datatype ExternalLoginInfo = ExternalLoginInfo(LoginProvider: string, ProviderKey: string, Email: Option<string>)

  /** The action's outcome. */
  datatype CallbackResult =
    | RedirectToLogin(ReturnUrl: Option<string>)         // the /Account/Login page
    | SignedIn(User: ApplicationUser, Target: string)   // cookie issued, local redirect to Target
    | RedirectToLockout                                 // the /Account/Lockout page
    | RedirectToAccessDenied                            // the /Account/AccessDenied page
    | Fault                                             // `FindByEmailAsync(null)` throws

  /** `returnUrl ?? "~/"`: only a null return URL falls back to the site root. */
  function LocalTarget(returnUrl: Option<string>): (r: string)
    ensures returnUrl.Some? ==> r == returnUrl.value
    ensures returnUrl.None? ==> r == "~/"
  {
    if returnUrl.Some? then returnUrl.value else "~/"
  }

  /** The account created for a first external login: e-mail as user name,
      confirmed, no full name. */
  function NewExternalUser(id: string, email: string): (u: ApplicationUser)
    ensures u.Id == id && u.UserName == email && u.Email == email && u.EmailConfirmed
  {
    ApplicationUser(id, email, email, "", true)
  }

  class AccountController {
    const userManager: UserManager

    constructor (userManager: UserManager)
      ensures this.userManager == userManager
    {
      this.userManager := userManager;
    }

    /** `ExternalLoginCallback`. `status` is Identity's verdict on a linked
        user (lockout, confirmation rule); `newUserId` the id a created user
        receives; `createAccepted` and `linkAccepted` the verdicts of the
        store on `CreateAsync` and `AddLoginAsync`. */
    method ExternalLoginCallback(returnUrl: Option<string>, remoteError: Option<string>,
                                 info: Option<ExternalLoginInfo>, status: AccountStatus,
                                 newUserId: string, createAccepted: bool, linkAccepted: bool)
      returns (r: CallbackResult)
      requires userManager.Valid()
      requires forall u :: u in userManager.Users ==> u.Id != newUserId
      requires forall l :: l in userManager.UserLogins ==> l.UserId != newUserId
      modifies userManager
      ensures userManager.Valid()
      // Every outcome but a sign-in through a new link leaves both tables as they were;
      // in particular a refused link never leaves a created account behind.
      ensures !r.SignedIn? ==> userManager.Users == old(userManager.Users)
                               && userManager.UserLogins == old(userManager.UserLogins)
      ensures r.SignedIn? ==> r.Target == LocalTarget(returnUrl) && r.User in userManager.Users
                              && info.Some?
                              && UserLogin(info.value.LoginProvider, info.value.ProviderKey, r.User.Id)
                                 in userManager.UserLogins
      ensures EmailsUnique(old(userManager.Users)) ==> EmailsUnique(userManager.Users)
      ensures remoteError.Some? ==> r == RedirectToLogin(returnUrl)
      ensures remoteError.None? && info.None? ==> r == RedirectToLogin(returnUrl)
      ensures remoteError.None? && info.Some? ==>
                var i := info.value;
                var linked := FindByLogin(old(userManager.Users), old(userManager.UserLogins), i.LoginProvider, i.ProviderKey);
                var byEmail := if i.Email.Some? then FindByEmail(old(userManager.Users), i.Email.value) else None;
                if linked.Some? then
                  && userManager.Users == old(userManager.Users)
                  && userManager.UserLogins == old(userManager.UserLogins)
                  && r == match status
                          case Active => SignedIn(linked.value, LocalTarget(returnUrl))
                          case LockedOutAccount => RedirectToLockout
                          case NotAllowedAccount => RedirectToAccessDenied
                else if i.Email.None? then
                  r == Fault
                else if byEmail.Some? then
                  if linkAccepted && !IsLinked(old(userManager.UserLogins), i.LoginProvider, i.ProviderKey) then
                    && r == SignedIn(byEmail.value, LocalTarget(returnUrl))
                    && userManager.Users == old(userManager.Users)
                    && userManager.UserLogins
                       == old(userManager.UserLogins) + [UserLogin(i.LoginProvider, i.ProviderKey, byEmail.value.Id)]
                  else
                    r == RedirectToLogin(returnUrl)
                else if createAccepted && linkAccepted
                        && !IsLinked(old(userManager.UserLogins), i.LoginProvider, i.ProviderKey) then
                  var u := NewExternalUser(newUserId, i.Email.value);
                  && r == SignedIn(u, LocalTarget(returnUrl))
                  && userManager.Users == old(userManager.Users) + [u]
                  && userManager.UserLogins
                     == old(userManager.UserLogins) + [UserLogin(i.LoginProvider, i.ProviderKey, newUserId)]
                else
                  r == RedirectToLogin(returnUrl)
    {
      if remoteError.Some? {
        return RedirectToLogin(returnUrl);
      }
      if info.None? {
        return RedirectToLogin(returnUrl);
      }
      var i := info.value;
      var result := ExternalLoginSignIn(userManager.Users, userManager.UserLogins, i.LoginProvider, i.ProviderKey, status);
      if result == Succeeded {
        return SignedIn(FindByLogin(userManager.Users, userManager.UserLogins, i.LoginProvider, i.ProviderKey).value,
                        LocalTarget(returnUrl));
      }
      if result == LockedOut {
        return RedirectToLockout;
      }
      if result == NotAllowed {
        return RedirectToAccessDenied;
      }
      if i.Email.None? {
        return Fault;
      }
      var email := i.Email.value;
      var user := FindByEmail(userManager.Users, email);
      if user.Some? {
        var linked := userManager.AddLoginAsync(user.value, i.LoginProvider, i.ProviderKey, linkAccepted);
        if linked {
          return SignedIn(user.value, LocalTarget(returnUrl));
        }
        return RedirectToLogin(returnUrl);
      }
      var newUser := NewExternalUser(newUserId, email);
      var created := userManager.CreateAsync(newUser, createAccepted);
      if !created {
        return RedirectToLogin(returnUrl);
      }
      ghost var loginsBefore := userManager.UserLogins;
      var linked := userManager.AddLoginAsync(newUser, i.LoginProvider, i.ProviderKey, linkAccepted);
      if linked {
        if EmailsUnique(old(userManager.Users)) {
          AppendKeepsEmailsUnique(old(userManager.Users), newUser);
        }
        return SignedIn(newUser, LocalTarget(returnUrl));
      }
      // The compensating delete: the new account goes, and with it nothing else.
      userManager.DeleteAsync(newUser);
      DeleteUndoesAppend(old(userManager.Users), newUser);
      DeleteKeepsOtherLogins(loginsBefore, newUserId);
      return RedirectToLogin(returnUrl);
    }
  }
}
