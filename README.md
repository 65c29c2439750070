# WeddingSite API core in Dafny

This project models the server side of a wedding web site (the `WeddingSite.Api`
ASP.NET Core service) and proves properties of that model. It covers these parts:

- **Token issuer.** `TokenService` mints a one-hour access token and an opaque
  refresh token, and keeps refresh tokens in the `UserRefreshTokens` table.
- **Single-active invariant.** The schema does not enforce one refresh row per
  user: the index on `UserId` is not unique. The invariant holds only because
  `GenerateTokens` deletes the user's rows before it inserts the new one.
  `Tokens.TokenService.Valid` carries that invariant, together with token
  uniqueness.
- **Password and refresh flows.** `UserController` handles password login,
  refresh-token rotation and logout.
- **Google sign-in.** `UserController` also runs the Google OAuth callback. The
  callback goes through a fixed chain of stages, and each stage has its own
  error code. It then finds or provisions the local account by e-mail.
- **Cookie sign-in with an external provider.**
  `AccountController.ExternalLoginCallback` proceeds in this order:
  1. A login that is already linked signs its user in.
  2. Otherwise an account with the same e-mail gets the link.
  3. Otherwise a new account is created and linked. If the link is refused, the
     new account is deleted again.
- **Gift registry.** `GiftsController` locks and unlocks gifts. A gift is
  locked while its `UserId` is neither null nor empty. Any signed-in user may
  unlock a gift: the code does not check that the caller is the one who
  locked it.
- **Owner-scoped tables.** Participations (RSVPs), uploaded photos and
  guestbook messages belong to users. Edits and deletes only find the caller's
  own rows, and listings are filtered and ordered.

How the model is built:

- Each database table is a `seq` field of the class that reads or writes it.
  Each action is a method that checks its guards in the source's order, returns
  its HTTP outcome, and states the whole new table.
- The clock, `Guid.NewGuid()`, the id given to a new user, and the verdicts of
  ASP.NET Identity are method parameters. The verdicts cover password check,
  sign-in gate, create, add-login and lockout. The results of the HTTP calls to
  Google and of the storage upload are also parameters.
- E-mail lookups compare keys upper-cased, as Identity's lookup normalizer does.

Files:

- `common.dfy`: optional values, the clock, HTTP outcomes, the .NET string
  operations used, `FirstOrDefault`, and a stable `OrderByDescending`.
- `data.dfy`: the table rows.
- `identity.dfy`: the users and external-logins tables, and Identity's lookups
  and store operations.
- `tokens.dfy`: `TokenService`.
- One file per controller.

## Model

| member | source | states |
|---|---|---|
| Text.BeforeFirst | WeddingSite.Api/Controllers/UserController.cs:324 | `Split('@')[0]` is a prefix of the input with no separator in it, and it stops exactly at the first separator if there is one |
| Text.IsWhiteSpace | WeddingSite.Api/Controllers/MessagesController.cs:59 | A white-space character is never an ASCII letter or digit |
| Text.IsNullOrWhiteSpace | WeddingSite.Api/Controllers/MessagesController.cs:59 | `string.IsNullOrWhiteSpace` holds for the empty string and fails for any string that contains an ASCII letter or digit |
| Text.ToLowerInvariant | WeddingSite.Api/Controllers/PhotosController.cs:188 | Lower-casing keeps the length and maps every character through ASCII lower-casing |
| Seqs.FirstIndex | WeddingSite.Api/Controllers/GiftsController.cs:56 | `FirstOrDefault` finds the first element that satisfies the predicate, and finds nothing only when no element does |
| Seqs.SortDesc | WeddingSite.Api/Controllers/MessagesController.cs:31 | `OrderByDescending` returns a permutation of its input |
| Seqs.SortDescSorted | WeddingSite.Api/Controllers/MessagesController.cs:31 | The result of `OrderByDescending` is ordered by its key, largest first |
| Tokens.Respond | WeddingSite.Api/Services/TokenService.cs:44-49 | The response names the user as the token's subject and carries the new refresh token. `ExpiresIn` is always 3600, and it equals the access token's lifetime |
| Tokens.GenerateAccessToken | WeddingSite.Api/Services/TokenService.cs:52-72 | The access token names the user by id and e-mail, and expires exactly 3600 seconds after it was issued |
| Tokens.NewRefreshRow | WeddingSite.Api/Services/TokenService.cs:30-37 | The inserted row belongs to the user, holds the new token, and expires 30 days after it was created |
| Tokens.RowsOf | WeddingSite.Api/Services/TokenService.cs:26 | `Where(x => x.UserId == id)` holds exactly the user's rows |
| Tokens.WithoutUser | WeddingSite.Api/Services/TokenService.cs:26-27 | After `RemoveRange`, exactly the rows of other users remain |
| Tokens.Lookup | WeddingSite.Api/Services/TokenService.cs:95 | A row is found if and only if some stored row has the token and `ExpiresAt >= now`. The boundary instant is inclusive |
| Tokens.TrackedOwner | WeddingSite.Api/Services/TokenService.cs:97 | The navigation's relationship fix-up finds a tracked user with the row's `UserId`, and finds nobody only when no tracked user has that id |
| Tokens.NavigationUser | WeddingSite.Api/Services/TokenService.cs:95-97 | `token?.User` without `Include`: a user is returned only for a redeemable token whose owner is tracked, and never when nothing is tracked |
| Tokens.WithoutUserKeepsOthers | WeddingSite.Api/Services/TokenService.cs:102-103 | Deleting one user's rows leaves every other user's rows as they were, in order |
| Tokens.NoRowsLeft | WeddingSite.Api/Services/TokenService.cs:100-106 | After the delete, no row of that user is left |
| Tokens.RevokeIdempotent | WeddingSite.Api/Services/TokenService.cs:100-106 | Revoking twice leaves the same table as revoking once |
| Tokens.IssueLeavesOneRow | WeddingSite.Api/Services/TokenService.cs:25-41 | After delete-then-insert, the user has exactly one row: the new one |
| Tokens.IssueKeepsOthers | WeddingSite.Api/Services/TokenService.cs:26-40 | Delete-then-insert leaves every other user's rows unchanged |
| Tokens.WithoutUserKeepsInvariants | WeddingSite.Api/Services/TokenService.cs:100-106 | Deleting rows keeps at most one row per user and keeps tokens distinct |
| Tokens.IssueKeepsInvariants | WeddingSite.Api/Services/TokenService.cs:20-41 | Issuing a token that is not stored yet keeps at most one row per user, keeps tokens distinct, and keeps the owners consistent |
| Tokens.RotationConsumesToken | WeddingSite.Api/Controllers/UserController.cs:97-109 | Once a refresh re-issues the token owner's row under a fresh token, the consumed token is accepted at no instant |
| Tokens.TokenService.GenerateTokens | WeddingSite.Api/Services/TokenService.cs:20-50 | Keeps the table invariant. The user ends with exactly one row, which holds the returned refresh token. Every other user's rows are unchanged. The response is `Respond` |
| Tokens.TokenService.ValidateRefreshToken | WeddingSite.Api/Services/TokenService.cs:92-98 | Intended: returns a user if and only if a stored, unexpired row has the token, and that user is the row's owner. The table is not written. The source as written does not load the owner (see Findings) |
| Tokens.TokenService.ValidateRefreshTokenAsWritten | WeddingSite.Api/Services/TokenService.cs:92-98 | As written: the row is found as above, but the user is read from the `User` navigation without `Include`. A user is returned only when the token is redeemable and its owner is among the users the context tracks. With nothing tracked, no token yields a user |
| Tokens.TokenService.RevokeRefreshToken | WeddingSite.Api/Services/TokenService.cs:100-106 | Deletes exactly the user's rows and keeps the invariant |
| Identity.FindById | WeddingSite.Api/Controllers/UserController.cs:114 | `GetUserAsync(User)` resolves the caller to the user with that id, or to nobody when no such user exists or there is no claim |
| Identity.FindByEmail | WeddingSite.Api/Controllers/UserController.cs:79 | `FindByEmailAsync` returns a user whose e-mail matches up to case, and returns nothing only when none matches |
| Identity.NormalizeKey | WeddingSite.Api/Controllers/UserController.cs:79 | The lookup key of an e-mail: the same length, with every ASCII letter upper-cased and every other character kept |
| Identity.NormalizeIgnoresCase | WeddingSite.Api/Controllers/UserController.cs:79 | Two spellings of an e-mail that differ only in ASCII case normalize to the same key, so `FindByEmailAsync` does not depend on case |
| Identity.FindByLogin | WeddingSite.Api/Controllers/AccountController.cs:71 | A user is found only through a login row that binds this provider and key to that user, and an unlinked pair finds nobody. Conversely, when links are unique, a pair linked to an existing user finds that user's id, and when ids are also unique it finds exactly that user |
| Identity.ExternalLoginSignIn | WeddingSite.Api/Controllers/AccountController.cs:71-91 | Sign-in fails if and only if no existing user is linked to the pair. It succeeds if and only if such a user exists and the account is active |
| Identity.WithoutUserId | WeddingSite.Api/Controllers/AccountController.cs:154 | `DeleteAsync` leaves exactly the other users |
| Identity.LoginsWithoutUser | WeddingSite.Api/Controllers/AccountController.cs:154 | The delete cascades: exactly the other users' login rows remain |
| Identity.DeleteUndoesAppend | WeddingSite.Api/Controllers/AccountController.cs:138-154 | Deleting the user that was just created restores the users table exactly |
| Identity.DeleteKeepsOtherLogins | WeddingSite.Api/Controllers/AccountController.cs:154 | Deleting a user that owns no login leaves the logins table as it was |
| Identity.AppendKeepsEmailsUnique | WeddingSite.Api/Controllers/UserController.cs:314-334 | Creating a user only when no user has that e-mail keeps e-mails unique |
| Identity.UserManager.CreateAsync | WeddingSite.Api/Controllers/AccountController.cs:138 | On success the user is appended; otherwise nothing changes. Logins are never touched |
| Identity.UserManager.AddLoginAsync | WeddingSite.Api/Controllers/AccountController.cs:112 | Succeeds only when the store accepts and the pair is not linked yet. On success exactly that login row is added. The links stay unique |
| Identity.UserManager.DeleteAsync | WeddingSite.Api/Controllers/AccountController.cs:154 | Removes the user and its login rows |
| UserApi.CallbackReturnUrl | WeddingSite.Api/Controllers/UserController.cs:174-175 | `state` if it is non-empty. Otherwise the first `;`-separated entry of `ALLOWED_ORIGINS`. Otherwise `http://localhost:3000` |
| UserApi.ProvisionedFullName | WeddingSite.Api/Controllers/UserController.cs:322-324 | The display name if it is non-empty. Otherwise the part of the e-mail before the first `@` |
| UserApi.ProvisionedUser | WeddingSite.Api/Controllers/UserController.cs:326-332 | The new account has `UserName == Email`, a confirmed e-mail, and the derived full name |
| UserApi.UserController.Login | WeddingSite.Api/Controllers/UserController.cs:77-93 | As written: BadRequest, with no token change, if and only if no user has the e-mail. Otherwise tokens are issued whatever the password check says |
| UserApi.UserController.LoginIntended | WeddingSite.Api/Controllers/UserController.cs:77-93 | Corrected: tokens are issued if and only if the user exists and the password is accepted. Every refusal leaves the token table untouched |
| UserApi.WrongPasswordStillLogsIn | WeddingSite.Api/Controllers/UserController.cs:85-92 | A known e-mail with a rejected password yields Ok with a token pair |
| UserApi.UserController.RefreshToken | WeddingSite.Api/Controllers/UserController.cs:97-109 | Corrected: BadRequest, with no change, if and only if the token is not redeemable now. Otherwise the owner's pair is re-issued, and the consumed token never validates again. The source as written refuses every refresh (see Findings) |
| UserApi.UserController.RefreshTokenAsWritten | WeddingSite.Api/Controllers/UserController.cs:97-109 | As written: Ok if and only if the token is redeemable and its owner is tracked by the context. With nothing tracked, which is the case in this anonymous request, every token gets BadRequest and nothing changes. An accepted token is rotated as in the corrected action |
| UserApi.FreshTokenRefusedAsWritten | WeddingSite.Api/Controllers/UserController.cs:99-104 | A token issued a moment earlier is refused as written, and the corrected action accepts it for its owner |
| UserApi.UserController.Logout | WeddingSite.Api/Controllers/UserController.cs:112-121 | An unresolved caller gets BadRequest and nothing changes. Otherwise all of the caller's refresh rows are deleted, and only those |
| UserApi.UserController.FindOrCreateUser | WeddingSite.Api/Controllers/UserController.cs:305-343 | Empty e-mail: null, nothing created. Known e-mail: that user, table unchanged. Otherwise the provisioned user is appended when the store accepts it. No login row is ever written. E-mails stay unique |
| UserApi.CallbackUser | WeddingSite.Api/Controllers/UserController.cs:305-343 | The callback's user is a stored user with the same e-mail up to case when one exists, and otherwise the provisioned user with the generated id |
| UserApi.UserController.GoogleCallback | WeddingSite.Api/Controllers/UserController.cs:172-239 | The first failing stage names the error: provider error, `no_code`, `token_exchange_failed`, `user_info_failed`, `user_creation_failed`. Failures change nothing. Once every earlier stage has passed, the callback hands off tokens if and only if the e-mail is non-empty and either a user already has it or the store accepts the new user. The handed-off user is exactly the existing user with that e-mail, or else `ProvisionedUser` with the generated id. The response is that user's freshly issued pair, the token table is exactly the one `Issue` gives, and the users table either stays as it was or gains that one user. Login rows are never touched |
| AccountApi.LocalTarget | WeddingSite.Api/Controllers/AccountController.cs:78 | `returnUrl ?? "~/"`: only a null return URL falls back to the root |
| AccountApi.NewExternalUser | WeddingSite.Api/Controllers/AccountController.cs:137 | The new account has `UserName == Email == email` and a confirmed e-mail |
| AccountApi.AccountController.ExternalLoginCallback | WeddingSite.Api/Controllers/AccountController.cs:48-170 | Full decision procedure, summarised in the six notes after this table. Unique e-mails stay unique |
| GiftsApi.FindGift | WeddingSite.Api/Controllers/GiftsController.cs:56 | Finds the first gift with the id, or reports that none has it |
| GiftsApi.GiftsController.LockGift | WeddingSite.Api/Controllers/GiftsController.cs:54-84 | Guards in order: NotFound, then BadRequest if already locked, then Unauthorized. Succeeds if and only if all pass. Success sets only that gift's `UserId` to the caller. Anything else changes nothing |
| GiftsApi.GiftsController.UnlockGift | WeddingSite.Api/Controllers/GiftsController.cs:87-117 | Guards in order: NotFound, then BadRequest if not locked, then Unauthorized. Succeeds for any resolved caller, whoever holds the gift. Success clears only that gift's `UserId` |
| ParticipationsApi.View | WeddingSite.Api/Controllers/ParticipationsController.cs:38-45 | The projection copies `Id` and the four request fields |
| ParticipationsApi.OwnedBy | WeddingSite.Api/Controllers/ParticipationsController.cs:35 | Exactly the caller's rows |
| ParticipationsApi.Project | WeddingSite.Api/Controllers/ParticipationsController.cs:38-45 | One view per row, in order |
| ParticipationsApi.SortKeepsMembers | WeddingSite.Api/Controllers/ParticipationsController.cs:37 | Ordering by id keeps exactly the rows it was given |
| ParticipationsApi.ProjectMembers | WeddingSite.Api/Controllers/ParticipationsController.cs:38-45 | The projected list holds exactly the views of its rows |
| ParticipationsApi.ListingIsOwnRowsByIdDesc | WeddingSite.Api/Controllers/ParticipationsController.cs:34-46 | The listing has one entry per row of the caller, shows every such row and no other, and is ordered by id, largest first |
| ParticipationsApi.FindOwned | WeddingSite.Api/Controllers/ParticipationsController.cs:93 | Only a row that is both the caller's and has that id is found |
| ParticipationsApi.Edited | WeddingSite.Api/Controllers/ParticipationsController.cs:100-103 | Edit replaces the four request fields and keeps `Id`, `CreatedAt` and `UserId` |
| ParticipationsApi.ParticipationsController.GetParticipations | WeddingSite.Api/Controllers/ParticipationsController.cs:26-49 | Unauthorized if and only if the caller is unresolved. Otherwise the caller's listing |
| ParticipationsApi.ParticipationsController.CreateParticipation | WeddingSite.Api/Controllers/ParticipationsController.cs:52-82 | An unresolved caller changes nothing. Otherwise exactly one row is appended: owned by the caller, with the four request fields, a new id and the current time |
| ParticipationsApi.ParticipationsController.EditParticipation | WeddingSite.Api/Controllers/ParticipationsController.cs:85-115 | Unauthorized, then NotFound, both with no change. Otherwise only the found row changes, and only in the four fields |
| ParticipationsApi.ParticipationsController.DeleteParticipation | WeddingSite.Api/Controllers/ParticipationsController.cs:118-138 | Unauthorized, then NotFound, both with no change. Otherwise exactly the found row is removed |
| PhotosApi.GetFileExtensionFromContentType | WeddingSite.Api/Controllers/PhotosController.cs:186-195 | `.jpg`, `.png` and `.webp` each correspond exactly to the lower-cased type `image/jpeg`, `image/png` and `image/webp`. Every other type has no extension |
| PhotosApi.ExtensionIgnoresCase | WeddingSite.Api/Controllers/PhotosController.cs:188 | The lower-cased and upper-cased spellings of a content type get the same extension as the original |
| PhotosApi.PhotoFileName | WeddingSite.Api/Controllers/PhotosController.cs:96-97 | The file name starts with the user id and `-`, and ends with the extension |
| PhotosApi.Info | WeddingSite.Api/Controllers/PhotosController.cs:37-44 | The projection copies the file name, content type, owner and upload time |
| PhotosApi.Infos | WeddingSite.Api/Controllers/PhotosController.cs:37-44 | One projection per record, in order |
| PhotosApi.PhotoListingNewestFirst | WeddingSite.Api/Controllers/PhotosController.cs:37-46 | The listing is a permutation of all records' projections, newest upload first |
| PhotosApi.FindPhoto | WeddingSite.Api/Controllers/PhotosController.cs:163 | Only a record that is both the caller's and has that file name is found |
| PhotosApi.PhotosController.GetPhotos | WeddingSite.Api/Controllers/PhotosController.cs:35-49 | Returns every record once, newest first |
| PhotosApi.PhotosController.Upload | WeddingSite.Api/Controllers/PhotosController.cs:73-146 | Guards in order: no or empty file, then unsupported type, then Unauthorized, then a storage error as a 500. Succeeds if and only if all pass. When every earlier guard passes, a storage error yields exactly `An error occurred while saving the file: ` followed by the error's message. Success appends exactly one record with the generated name and the caller as owner. Anything else changes nothing |
| PhotosApi.PhotosController.DeleteFile | WeddingSite.Api/Controllers/PhotosController.cs:155-179 | Unauthorized, then NotFound, both with no change. Otherwise exactly the caller's record with that file name is removed |
| MessagesApi.AuthorFor | WeddingSite.Api/Controllers/MessagesController.cs:59-61 | The requested author unless it is null or white space, else the user's full name. A blank author can only come from the full name |
| MessagesApi.MessageListingNewestFirst | WeddingSite.Api/Controllers/MessagesController.cs:29-40 | The listing holds every message exactly once, newest first |
| MessagesApi.MessagesController.GetMessages | WeddingSite.Api/Controllers/MessagesController.cs:27-43 | Returns every message once, newest first |
| MessagesApi.MessagesController.CreateMessage | WeddingSite.Api/Controllers/MessagesController.cs:46-83 | BadRequest for an invalid model, then Unauthorized, both inserting nothing. Otherwise exactly one message is appended, owned by the caller, with a new id and the chosen author |

The `ExternalLoginCallback` row covers these outcomes:

- A provider error or missing login info redirects to the login page.
- An already linked pair gives sign-in, Lockout or AccessDenied by account status, and changes nothing.
- A missing e-mail claim is a fault.
- A user with that e-mail gets the link, or the request ends on the login page with nothing changed.
- Otherwise a new user is created and linked.
- A refused link deletes the new user, and both tables end as they began.

## Left out

- Access tokens are not signed or validated (JWT, HMAC-SHA256, issuer and audience). The access token is the record (subject, e-mail, expiry). `GetPrincipalFromExpiredToken` and the bearer configuration are not part of this model.
- Tokens.TokenService.GenerateTokens: uses one clock value. The source reads `DateTime.Now` for `CreatedAt` and `ExpiresAt`, and `DateTime.UtcNow` for the access token's expiry.
- Tokens.TokenService.ValidateRefreshToken: returns the `User` stored with the row, as `Include(x => x.User)` would. The source reads `token?.User` without `Include`, and no lazy loading is configured. At its only call site, the anonymous `RefreshToken` action, nothing loads a user earlier in the request, so the navigation stays null. The source as written therefore refuses every refresh. That behaviour is `ValidateRefreshTokenAsWritten` and `RefreshTokenAsWritten`, listed under Findings. Which entities EF tracks is a parameter, not modelled.
- The HTTP calls to Google (`ExchangeCodeForTokens`, `GetGoogleUserInfo`, `GoogleLogin`) are not modelled. Their results are optional inputs. The configuration check inside `ExchangeCodeForTokens` folds into a `None` result.
- UserApi.UserController.GoogleCallback: leaves out the `catch` that turns any exception into `authentication_failed`. It also leaves out the URL escaping of the error and of the token JSON, and the JSON serialization itself.
- Null strings in Google's user info are modelled as empty strings. The source tests both with `IsNullOrEmpty`.
- ASP.NET Identity's internals are not modelled: password hashing, lockout counting, the confirmed-account rule, user validators, and id generation. Their verdicts are parameters.
- Identity.UserManager.AddLoginAsync: refuses any pair that already has a login row. Identity's `UserManager.AddLoginAsync` returns `LoginAlreadyAssociated` only when `FindByLoginAsync` finds an existing owner. The two differ only for a login row whose owner no longer exists. The cascading delete and the foreign key keep such orphan rows out of the database.
- AccountApi.AccountController.ExternalLoginCallback: does not check that `LocalRedirect` accepts the URL, and does not model the cookie that `SignInAsync` issues. The action's `FullName` for new users is the empty string, because `ApplicationUser`'s property defaults are not part of this model.
- `Register`, `GetUserInfo`, `GoogleLogin`, `ExternalLogin`, `GetWeddingGiftsAsync`, `GetImageAsync` and `GetPhoto` are outside the modelled core. They are listings, redirects or storage downloads.
- Object storage is not modelled: upload, download and delete in the Google Cloud bucket. PhotosApi.PhotosController.Upload takes the upload's `IOException` message as a parameter. PhotosApi.PhotosController.DeleteFile assumes the storage delete succeeds.
- PhotosApi.PhotosController.Upload: the `yyyyMMddHHmmssfff` timestamp is a parameter, not formatted from the clock.
- `UserDBLog` and all logger calls are not modelled (logging side effects).
- String case mapping covers ASCII letters only. This affects `ToLowerInvariant` and the key normalizer below.
- Identity.NormalizeKey: Identity's `UpperInvariantLookupNormalizer` computes `email.Normalize().ToUpperInvariant()`. The model leaves out the Unicode NFC step of `Normalize()`, which can shorten a decomposed e-mail, and upper-cases ASCII letters only. For e-mails that are not in NFC or that hold non-ASCII letters, the model's keys can differ from Identity's. `FindByEmail` and `EmailsUnique` can then give different answers from Identity's.
- Seqs.SortDesc: is stable, but no ordering among equal keys is stated. For messages the order is SQL `ORDER BY`, which leaves ties unspecified.
- Concurrency and async interleaving are not modelled, for example two callbacks for the same user at once.
- Integer ids come from a counter per table. Their 32-bit width is not modelled.

## Findings

| source | as written | input that shows it | evidently intended | confidence | as-written member | corrected member |
|---|---|---|---|---|---|---|
| WeddingSite.Api/Controllers/UserController.cs:85-89 | A failed password check evaluates `Results.BadRequest("Invalid credentials")` and discards it. Control falls through to `GenerateTokens`, and the action returns 200 with a token pair | A registered e-mail with a wrong password | Return `BadRequest("Invalid credentials")` and issue no token | high; not executed | UserApi.WrongPasswordStillLogsIn | UserApi.UserController.LoginIntended |
| WeddingSite.Api/Services/TokenService.cs:95-97 | `FirstOrDefault` loads the row without `Include(x => x.User)`. The context is scoped to the request, and lazy loading is not configured (WeddingSite.Api/Program.cs:35). `User` is not virtual (WeddingSite.Api/Data/UserRefreshToken.cs:15). So `token?.User` is null, and `RefreshToken` answers `BadRequest("Invalid refresh token")` | A refresh token issued by `Login` and presented before it expires | Return the row's owner and rotate the pair | plausible; depends on EF Core's loading at run time, and an `AutoInclude` configured for `UserRefreshTokens` outside the source shown here would load the owner; not executed | UserApi.FreshTokenRefusedAsWritten | UserApi.UserController.RefreshToken |
