/** `UserController`: password login, refresh-token rotation, logout, and the
    Google OAuth callback that finds or provisions the local account by
    e-mail. The HTTP calls to Google arrive as optional results; the
    redirect URLs are kept as their parts (the base URL and the error code
    or the token pair), without URL escaping or JSON serialization. */
module UserApi {
  import opened Common
  import opened Text
  import opened Data
  import opened Identity
  import opened Tokens

  /** The fields of Google's user-info response the callback reads. */
  datatype GoogleUserInfo = GoogleUserInfo(Id: string, Email: string, Name: string)

  /** Where the callback sends the browser. */
  datatype CallbackRedirect =
    | LoginError(ReturnUrl: string, Error: string)          // {ReturnUrl}/login?error={Error}
    | TokenHandoff(ReturnUrl: string, Tokens: TokenResponse) // {ReturnUrl}#token={Tokens as JSON}

  /** The frontend origin used when neither `state` nor `ALLOWED_ORIGINS` names one. */
  const DefaultOrigin: string := "http://localhost:3000"

  /** The callback's `returnUrl`: `state` when it is non-empty, else the first
      `;`-separated entry of `ALLOWED_ORIGINS`, else `DefaultOrigin`. */
  function CallbackReturnUrl(state: Option<string>, allowedOrigins: Option<string>): (r: string)
    ensures !IsNullOrEmpty(state) ==> r == state.value
    ensures IsNullOrEmpty(state) && allowedOrigins.None? ==> r == DefaultOrigin
    ensures IsNullOrEmpty(state) && allowedOrigins.Some? ==>
              r <= allowedOrigins.value && ';' !in r
              && (|r| < |allowedOrigins.value| ==> allowedOrigins.value[|r|] == ';')
  {
    if !IsNullOrEmpty(state) then state.value
    else if allowedOrigins.Some? then BeforeFirst(allowedOrigins.value, ';')
    else DefaultOrigin
  }

  /** The full name given to an account provisioned from Google: the display
      name, or else the part of the e-mail before the first `@`. */
  function ProvisionedFullName(info: GoogleUserInfo): (r: string)
    ensures info.Name != "" ==> r == info.Name
    ensures info.Name == "" ==> r <= info.Email && '@' !in r
                                && (|r| < |info.Email| ==> info.Email[|r|] == '@')
  {
    if info.Name != "" then info.Name else BeforeFirst(info.Email, '@')
  }

  /** The account `FindOrCreateUser` provisions; `id` is the fresh id the new
      `ApplicationUser` receives. */
  function ProvisionedUser(id: string, info: GoogleUserInfo): (u: ApplicationUser)
    ensures u.Id == id && u.UserName == u.Email == info.Email && u.EmailConfirmed
    ensures u.FullName == ProvisionedFullName(info)
  {
    ApplicationUser(id, info.Email, info.Email, ProvisionedFullName(info), true)
  }

  /** The user a callback that gets past `FindOrCreateUser` signs in: the
      user already registered under the e-mail, or else the account
      provisioned under `newUserId`. */
  function CallbackUser(users: seq<ApplicationUser>, info: GoogleUserInfo, newUserId: string): (u: ApplicationUser)
    ensures FindByEmail(users, info.Email).Some? ==> u in users && NormalizeKey(u.Email) == NormalizeKey(info.Email)
    ensures FindByEmail(users, info.Email).None? ==> u == ProvisionedUser(newUserId, info)
  {
    match FindByEmail(users, info.Email)
    case Some(existing) => existing
    case None => ProvisionedUser(newUserId, info)
  }

  class UserController {
    const userManager: UserManager
    const tokenService: TokenService

    ghost predicate Valid()
      reads this, userManager, tokenService
    {
      userManager.Valid() && tokenService.Valid()
    }

    constructor (userManager: UserManager, tokenService: TokenService)
      ensures this.userManager == userManager && this.tokenService == tokenService
    {
      this.userManager := userManager;
      this.tokenService := tokenService;
    }

    /** `Login` as written: an unknown e-mail is refused, but a failed password
        check builds a BadRequest that is never returned, so tokens are issued
        whatever `passwordAccepted` says. */
    method Login(email: string, passwordAccepted: bool, now: Instant, newGuid: string)
      returns (r: ActionResult<TokenResponse>)
      requires Valid()
      requires !HasToken(tokenService.UserRefreshTokens, newGuid)
      modifies tokenService
      ensures Valid()
      ensures r.Ok? || r == BadRequest("Invalid credentials")
      ensures r.Ok? <==> FindByEmail(userManager.Users, email).Some?
      ensures r.BadRequest? ==> unchanged(tokenService)
      ensures r.Ok? ==>
                var user := FindByEmail(userManager.Users, email).value;
                && r.value == Respond(user, now, newGuid)
                && tokenService.UserRefreshTokens
                   == Issue(old(tokenService.UserRefreshTokens), NewRefreshRow(old(tokenService.nextId), user, now, newGuid))
    {
      var user := FindByEmail(userManager.Users, email);
      if user.None? {
        return BadRequest("Invalid credentials");
      }
      if !passwordAccepted {
        // `Results.BadRequest(...)` is evaluated and dropped: control falls through.
        var dropped: ActionResult<TokenResponse> := BadRequest("Invalid credentials");
      }
      var token := tokenService.GenerateTokens(user.value, now, newGuid);
      return Ok(token);
    }

    /** `Login` with the failed password check returning its BadRequest, as
        the code evidently intends: a rejected password issues no token. */
    method LoginIntended(email: string, passwordAccepted: bool, now: Instant, newGuid: string)
      returns (r: ActionResult<TokenResponse>)
      requires Valid()
      requires !HasToken(tokenService.UserRefreshTokens, newGuid)
      modifies tokenService
      ensures Valid()
      ensures r.Ok? || r == BadRequest("Invalid credentials")
      ensures r.Ok? <==> FindByEmail(userManager.Users, email).Some? && passwordAccepted
      ensures r.BadRequest? ==> unchanged(tokenService)
      ensures r.Ok? ==>
                var user := FindByEmail(userManager.Users, email).value;
                && r.value == Respond(user, now, newGuid)
                && tokenService.UserRefreshTokens
                   == Issue(old(tokenService.UserRefreshTokens), NewRefreshRow(old(tokenService.nextId), user, now, newGuid))
    {
      var user := FindByEmail(userManager.Users, email);
      if user.None? {
        return BadRequest("Invalid credentials");
      }
      if !passwordAccepted {
        return BadRequest("Invalid credentials");
      }
      var token := tokenService.GenerateTokens(user.value, now, newGuid);
      return Ok(token);
    }

    /** `RefreshToken`: an unknown or expired token is refused and changes
        nothing; a redeemable one re-issues its owner's pair, after which the
        consumed token is never accepted again. */
    method RefreshToken(refreshToken: string, now: Instant, newGuid: string)
      returns (r: ActionResult<TokenResponse>)
      requires Valid()
      requires !HasToken(tokenService.UserRefreshTokens, newGuid)
      modifies tokenService
      ensures Valid()
      ensures r.Ok? || r == BadRequest("Invalid refresh token")
      ensures r.Ok? <==> Redeemable(old(tokenService.UserRefreshTokens), refreshToken, now)
      ensures r.BadRequest? ==> unchanged(tokenService)
      ensures r.Ok? ==>
                var user := Lookup(old(tokenService.UserRefreshTokens), refreshToken, now).value.User;
                && r.value == Respond(user, now, newGuid)
                && tokenService.UserRefreshTokens
                   == Issue(old(tokenService.UserRefreshTokens), NewRefreshRow(old(tokenService.nextId), user, now, newGuid))
      ensures r.Ok? ==> forall later :: !Redeemable(tokenService.UserRefreshTokens, refreshToken, later)
    {
      ghost var rows := tokenService.UserRefreshTokens;
      ghost var id := tokenService.nextId;
      var user := tokenService.ValidateRefreshToken(refreshToken, now);
      if user.None? {
        return BadRequest("Invalid refresh token");
      }
      var tokens := tokenService.GenerateTokens(user.value, now, newGuid);
      forall later ensures !Redeemable(tokenService.UserRefreshTokens, refreshToken, later) {
        RotationConsumesToken(rows, refreshToken, now, NewRefreshRow(id, user.value, now, newGuid), later);
      }
      return Ok(tokens);
    }

    /** `RefreshToken` as written: the token's owner comes from the unloaded
        `User` navigation, so a redeemable token is accepted only when the
        request's context already tracks its owner (`tracked`). Nothing in
        this anonymous request loads a user, so `tracked` is empty there and
        every refresh is refused. */
    method RefreshTokenAsWritten(refreshToken: string, now: Instant, newGuid: string,
                                 tracked: seq<ApplicationUser>)
      returns (r: ActionResult<TokenResponse>)
      requires Valid()
      requires !HasToken(tokenService.UserRefreshTokens, newGuid)
      modifies tokenService
      ensures Valid()
      ensures r.Ok? || r == BadRequest("Invalid refresh token")
      ensures r.Ok? <==> NavigationUser(old(tokenService.UserRefreshTokens), refreshToken, now, tracked).Some?
      ensures tracked == [] ==> r == BadRequest("Invalid refresh token")
      ensures r.BadRequest? ==> unchanged(tokenService)
      ensures r.Ok? ==>
                var user := NavigationUser(old(tokenService.UserRefreshTokens), refreshToken, now, tracked).value;
                && r.value == Respond(user, now, newGuid)
                && tokenService.UserRefreshTokens
                   == Issue(old(tokenService.UserRefreshTokens), NewRefreshRow(old(tokenService.nextId), user, now, newGuid))
      ensures r.Ok? ==> forall later :: !Redeemable(tokenService.UserRefreshTokens, refreshToken, later)
    {
      ghost var rows := tokenService.UserRefreshTokens;
      ghost var id := tokenService.nextId;
      var user := tokenService.ValidateRefreshTokenAsWritten(refreshToken, now, tracked);
      if user.None? {
        return BadRequest("Invalid refresh token");
      }
      var tokens := tokenService.GenerateTokens(user.value, now, newGuid);
      forall later ensures !Redeemable(tokenService.UserRefreshTokens, refreshToken, later) {
        RotationConsumesToken(rows, refreshToken, now, NewRefreshRow(id, user.value, now, newGuid), later);
      }
      return Ok(tokens);
    }

    /** `Logout`: the caller's refresh rows are all deleted, nobody else's. */
    method Logout(principal: Option<string>) returns (r: ActionResult<()>)
      requires Valid()
      modifies tokenService
      ensures Valid()
      ensures r.Ok? || r == BadRequest("User not found")
      ensures r.BadRequest? <==> FindById(userManager.Users, principal).None?
      ensures r.BadRequest? ==> unchanged(tokenService)
      ensures r.Ok? ==>
                var id := FindById(userManager.Users, principal).value.Id;
                && tokenService.UserRefreshTokens == WithoutUser(old(tokenService.UserRefreshTokens), id)
                && RowsOf(tokenService.UserRefreshTokens, id) == []
    {
      var user := FindById(userManager.Users, principal);
      if user.None? {
        return BadRequest("User not found");
      }
      tokenService.RevokeRefreshToken(user.value.Id);
      return Ok(());
    }

    /** `FindOrCreateUser`: matches by e-mail only and records no external
        login. `newUserId` is the id a new `ApplicationUser` receives and
        `createAccepted` the verdict of `CreateAsync`. */
    method FindOrCreateUser(googleUser: GoogleUserInfo, newUserId: string, createAccepted: bool)
      returns (user: Option<ApplicationUser>)
      requires userManager.Valid()
      requires forall u :: u in userManager.Users ==> u.Id != newUserId
      modifies userManager
      ensures userManager.Valid()
      ensures userManager.UserLogins == old(userManager.UserLogins)
      ensures googleUser.Email == "" ==> user.None? && userManager.Users == old(userManager.Users)
      ensures googleUser.Email != "" && FindByEmail(old(userManager.Users), googleUser.Email).Some? ==>
                user == FindByEmail(old(userManager.Users), googleUser.Email)
                && userManager.Users == old(userManager.Users)
      ensures googleUser.Email != "" && FindByEmail(old(userManager.Users), googleUser.Email).None? ==>
                if createAccepted then
                  user == Some(ProvisionedUser(newUserId, googleUser))
                  && userManager.Users == old(userManager.Users) + [user.value]
                else
                  user.None? && userManager.Users == old(userManager.Users)
      ensures user.Some? ==> user.value in userManager.Users
                             && NormalizeKey(user.value.Email) == NormalizeKey(googleUser.Email)
      ensures user.None? ==> userManager.Users == old(userManager.Users)
      ensures EmailsUnique(old(userManager.Users)) ==> EmailsUnique(userManager.Users)
    {
      if googleUser.Email == "" {
        return None;
      }
      var existingUser := FindByEmail(userManager.Users, googleUser.Email);
      if existingUser.Some? {
        return existingUser;
      }
      var fullName := if googleUser.Name != "" then googleUser.Name else BeforeFirst(googleUser.Email, '@');
      var newUser := ApplicationUser(newUserId, googleUser.Email, googleUser.Email, fullName, true);
      if EmailsUnique(userManager.Users) {
        AppendKeepsEmailsUnique(userManager.Users, newUser);
      }
      var created := userManager.CreateAsync(newUser, createAccepted);
      if created {
        return Some(newUser);
      }
      return None;
    }

    /** `GoogleCallback`. The stages run in a fixed order and the first that
        fails names the error: the provider's error, `no_code`,
        `token_exchange_failed`, `user_info_failed`, `user_creation_failed`.
        `exchanged` is the Google access token `ExchangeCodeForTokens` returns
        (or null) and `userInfo` what `GetGoogleUserInfo` returns. */
    method GoogleCallback(code: Option<string>, error: Option<string>, state: Option<string>,
                          allowedOrigins: Option<string>, exchanged: Option<string>,
                          userInfo: Option<GoogleUserInfo>, newUserId: string, createAccepted: bool,
                          now: Instant, newGuid: string)
      returns (r: CallbackRedirect)
      requires Valid()
      requires forall u :: u in userManager.Users ==> u.Id != newUserId
      requires !HasToken(tokenService.UserRefreshTokens, newGuid)
      modifies userManager, tokenService
      ensures Valid()
      ensures r.ReturnUrl == CallbackReturnUrl(state, allowedOrigins)
      ensures !IsNullOrEmpty(error) ==> r.LoginError? && r.Error == error.value
      ensures IsNullOrEmpty(error) && IsNullOrEmpty(code) ==> r.LoginError? && r.Error == "no_code"
      ensures IsNullOrEmpty(error) && !IsNullOrEmpty(code) && exchanged.None? ==>
                r.LoginError? && r.Error == "token_exchange_failed"
      ensures IsNullOrEmpty(error) && !IsNullOrEmpty(code) && exchanged.Some? && userInfo.None? ==>
                r.LoginError? && r.Error == "user_info_failed"
      ensures IsNullOrEmpty(error) && !IsNullOrEmpty(code) && exchanged.Some? && userInfo.Some? && r.LoginError? ==>
                r.Error == "user_creation_failed"
      ensures r.LoginError? ==> userManager.Users == old(userManager.Users)
                                && userManager.UserLogins == old(userManager.UserLogins)
      ensures r.LoginError? ==> unchanged(tokenService)
      ensures (IsNullOrEmpty(error) && !IsNullOrEmpty(code) && exchanged.Some? && userInfo.Some?) ==>
                (r.TokenHandoff? <==>
                   userInfo.value.Email != ""
                   && (FindByEmail(old(userManager.Users), userInfo.value.Email).Some? || createAccepted))
      ensures r.TokenHandoff? ==>
                && IsNullOrEmpty(error) && !IsNullOrEmpty(code) && exchanged.Some? && userInfo.Some?
                && var user := CallbackUser(old(userManager.Users), userInfo.value, newUserId);
                   && r.Tokens == Respond(user, now, newGuid)
                   && tokenService.UserRefreshTokens
                      == Issue(old(tokenService.UserRefreshTokens),
                               NewRefreshRow(old(tokenService.nextId), user, now, newGuid))
                   && userManager.Users
                      == if FindByEmail(old(userManager.Users), userInfo.value.Email).Some? then old(userManager.Users)
                         else old(userManager.Users) + [user]
      ensures userManager.UserLogins == old(userManager.UserLogins)
      ensures EmailsUnique(old(userManager.Users)) ==> EmailsUnique(userManager.Users)
    {
      var returnUrl := CallbackReturnUrl(state, allowedOrigins);
      if !IsNullOrEmpty(error) {
        return LoginError(returnUrl, error.value);
      }
      if IsNullOrEmpty(code) {
        return LoginError(returnUrl, "no_code");
      }
      if exchanged.None? {
        return LoginError(returnUrl, "token_exchange_failed");
      }
      if userInfo.None? {
        return LoginError(returnUrl, "user_info_failed");
      }
      var user := FindOrCreateUser(userInfo.value, newUserId, createAccepted);
      if user.None? {
        return LoginError(returnUrl, "user_creation_failed");
      }
      var token := tokenService.GenerateTokens(user.value, now, newGuid);
      return TokenHandoff(returnUrl, token);
    }
  }

  /** A concrete run of `Login` as written: the only user's e-mail with a
      rejected password still yields a token pair. */
  method WrongPasswordStillLogsIn() returns (r: ActionResult<TokenResponse>)
    ensures r.Ok?
  {
    var alice := ApplicationUser("u1", "alice@example.com", "alice@example.com", "Alice", true);
    var users := new UserManager([alice]);
    var tokens := new TokenService();
    var controller := new UserController(users, tokens);
    r := controller.Login("alice@example.com", false, 0, "g1");
  }

  /** A concrete run of `RefreshToken`: a token issued a moment ago is
      refused as written, with nothing tracked, and accepted by the intended
      action that reads the row's owner. */
  method FreshTokenRefusedAsWritten() returns (asWritten: ActionResult<TokenResponse>, intended: ActionResult<TokenResponse>)
    ensures asWritten == BadRequest("Invalid refresh token")
    ensures intended.Ok? && intended.value.AccessToken.NameIdentifier == "u1"
  {
    var alice := ApplicationUser("u1", "alice@example.com", "alice@example.com", "Alice", true);
    var users := new UserManager([alice]);
    var tokens := new TokenService();
    var controller := new UserController(users, tokens);
    var issued := tokens.GenerateTokens(alice, 0, "g1");
    asWritten := controller.RefreshTokenAsWritten("g1", 60, "g2", []);
    intended := controller.RefreshToken("g1", 60, "g2");
  }
}
