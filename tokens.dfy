/** The token issuer (`TokenService`): it mints a short-lived access token and
    an opaque refresh token, keeps the refresh tokens in the
    `UserRefreshTokens` table, validates and revokes them.

    Nothing in the schema keeps a user to one refresh row (the index on
    `UserId` is not unique); `GenerateTokens` keeps that invariant by deleting
    the user's rows before inserting the new one. `SingleActive` below is that
    invariant, and `TokenService.Valid` carries it. */
module Tokens {
  import opened Common
  import opened Data

  /** `DateTime.UtcNow.AddHours(1)` in the signed access token. */
  const AccessTokenLifetime: int := SecondsPerHour

  /** `DateTime.Now.AddDays(30)` in the refresh-token row. */
  const RefreshTokenLifetime: int := 30 * SecondsPerDay

  /** The signed JWT, reduced to the claims the rest of the system trusts. */
  datatype AccessToken = AccessToken(NameIdentifier: string, Email: string, Expires: Instant)

  /** What `GenerateTokens` hands back to the client. */
  datatype TokenResponse = TokenResponse(AccessToken: AccessToken, RefreshToken: string, ExpiresIn: int)

  /** `GenerateAccessToken(user)`: the user's id and e-mail as claims, one hour
      of validity. Signing is not modelled. */
  function GenerateAccessToken(user: ApplicationUser, now: Instant): (t: AccessToken)
    ensures t.NameIdentifier == user.Id && t.Email == user.Email
    ensures t.Expires - now == AccessTokenLifetime == 3600
  {
    AccessToken(user.Id, user.Email, now + AccessTokenLifetime)
  }

  /** The response of `GenerateTokens`: the lifetime it reports matches the
      one written into the access token, whose subject is the user. */
  function Respond(user: ApplicationUser, now: Instant, refreshToken: string): (r: TokenResponse)
    ensures r.AccessToken.NameIdentifier == user.Id && r.RefreshToken == refreshToken
    ensures r.AccessToken.Expires == now + r.ExpiresIn
    ensures r.ExpiresIn == 3600
  {
    TokenResponse(GenerateAccessToken(user, now), refreshToken, 3600)
  }

  /** The row `GenerateTokens` inserts. */
  function NewRefreshRow(id: int, user: ApplicationUser, now: Instant, token: string): (r: UserRefreshToken)
    ensures r.UserId == user.Id == r.User.Id && r.RefreshToken == token && r.Id == id
    ensures r.CreatedAt == now && r.ExpiresAt == r.CreatedAt + 30 * 86400 > r.CreatedAt
  {
    UserRefreshToken(id, token, now, now + RefreshTokenLifetime, user.Id, user)
  }

  /** `Where(x => x.UserId == userId)`. */
  function RowsOf(rows: seq<UserRefreshToken>, userId: string): (r: seq<UserRefreshToken>)
    ensures forall x :: x in r <==> x in rows && x.UserId == userId
  {
    if rows == [] then []
    else (if rows[0].UserId == userId then [rows[0]] else []) + RowsOf(rows[1..], userId)
  }

  /** The table after `RemoveRange(Where(x => x.UserId == userId))`. */
  function WithoutUser(rows: seq<UserRefreshToken>, userId: string): (r: seq<UserRefreshToken>)
    ensures forall x :: x in r <==> x in rows && x.UserId != userId
  {
    if rows == [] then []
    else (if rows[0].UserId == userId then [] else [rows[0]]) + WithoutUser(rows[1..], userId)
  }

  /** The table after `GenerateTokens` stores `row`: the owner's rows are
      deleted, then `row` is added. */
  function Issue(rows: seq<UserRefreshToken>, row: UserRefreshToken): seq<UserRefreshToken>
  {
    WithoutUser(rows, row.UserId) + [row]
  }

  /** Some stored row carries `token` and has not expired at `now` (the
      boundary instant still counts). */
  ghost predicate Redeemable(rows: seq<UserRefreshToken>, token: string, now: Instant)
  {
    exists x :: x in rows && x.RefreshToken == token && x.ExpiresAt >= now
  }

  /** `FirstOrDefault(x => x.RefreshToken == token && x.ExpiresAt >= now)`. */
  function Lookup(rows: seq<UserRefreshToken>, token: string, now: Instant): (r: Option<UserRefreshToken>)
    ensures r.Some? <==> Redeemable(rows, token, now)
    ensures r.Some? ==> r.value in rows && r.value.RefreshToken == token && r.value.ExpiresAt >= now
  {
    if rows == [] then None
    else if rows[0].RefreshToken == token && rows[0].ExpiresAt >= now then Some(rows[0])
    else Lookup(rows[1..], token, now)
  }

  /** The first user in `tracked` whose id is `id`. A navigation property
      that no `Include` loads is filled only from entities the context
      already tracks (relationship fix-up). */
  function TrackedOwner(tracked: seq<ApplicationUser>, id: string): (r: Option<ApplicationUser>)
    ensures r.Some? ==> r.value in tracked && r.value.Id == id
    ensures r.None? <==> forall u :: u in tracked ==> u.Id != id
  {
    if tracked == [] then None
    else if tracked[0].Id == id then Some(tracked[0])
    else TrackedOwner(tracked[1..], id)
  }

  /** `token?.User` as written: the matched row's navigation, which holds the
      owner only when the context tracks that user. */
  function NavigationUser(rows: seq<UserRefreshToken>, token: string, now: Instant,
                          tracked: seq<ApplicationUser>): (r: Option<ApplicationUser>)
    ensures r.Some? ==> Redeemable(rows, token, now) && r.value in tracked
                        && r.value.Id == Lookup(rows, token, now).value.UserId
    ensures r.Some? <==> Redeemable(rows, token, now)
                         && exists u :: u in tracked && u.Id == Lookup(rows, token, now).value.UserId
    ensures tracked == [] ==> r.None?
  {
    match Lookup(rows, token, now)
    case None => None
    case Some(x) => TrackedOwner(tracked, x.UserId)
  }

  /** Some stored row carries `token`, expired or not. */
  ghost predicate HasToken(rows: seq<UserRefreshToken>, token: string)
  {
    exists x :: x in rows && x.RefreshToken == token
  }

  /** At most one refresh row per user. */
  ghost predicate SingleActive(rows: seq<UserRefreshToken>)
  {
    forall i, j :: 0 <= i < j < |rows| ==> rows[i].UserId != rows[j].UserId
  }

  /** No two rows share a refresh token. */
  ghost predicate TokensDistinct(rows: seq<UserRefreshToken>)
  {
    forall i, j :: 0 <= i < j < |rows| ==> rows[i].RefreshToken != rows[j].RefreshToken
  }

  /** Every row's navigation property is its owner. */
  ghost predicate OwnersMatch(rows: seq<UserRefreshToken>)
  {
    forall x :: x in rows ==> x.User.Id == x.UserId
  }

  /** The rows of one user, split over a concatenation. */
  lemma {:induction false} RowsOfAppend(a: seq<UserRefreshToken>, b: seq<UserRefreshToken>, userId: string)
    ensures RowsOf(a + b, userId) == RowsOf(a, userId) + RowsOf(b, userId)
  {
    if a == [] {
      assert a + b == b;
    } else {
      assert (a + b)[1..] == a[1..] + b;
      RowsOfAppend(a[1..], b, userId);
    }
  }

  /** Deleting one user's rows leaves every other user's rows as they were,
      in the same order. */
  lemma {:induction false} WithoutUserKeepsOthers(rows: seq<UserRefreshToken>, userId: string, other: string)
    requires other != userId
    ensures RowsOf(WithoutUser(rows, userId), other) == RowsOf(rows, other)
  {
    if rows != [] {
      WithoutUserKeepsOthers(rows[1..], userId, other);
      var head := if rows[0].UserId == userId then [] else [rows[0]];
      RowsOfAppend(head, WithoutUser(rows[1..], userId), other);
    }
  }

  /** After deleting a user's rows, none of them is left. */
  lemma {:induction false} NoRowsLeft(rows: seq<UserRefreshToken>, userId: string)
    ensures RowsOf(WithoutUser(rows, userId), userId) == []
  {
    if rows != [] {
      NoRowsLeft(rows[1..], userId);
      var rest := WithoutUser(rows[1..], userId);
      if rows[0].UserId != userId {
        assert WithoutUser(rows, userId) == [rows[0]] + rest;
        RowsOfAppend([rows[0]], rest, userId);
        assert RowsOf([rows[0]], userId) == [] + RowsOf([], userId);
      } else {
        assert WithoutUser(rows, userId) == rest by { assert [] + rest == rest; }
      }
    }
  }

  /** `RevokeRefreshToken` is idempotent: deleting a user's rows a second
      time changes nothing. */
  lemma {:induction false} RevokeIdempotent(rows: seq<UserRefreshToken>, userId: string)
    ensures WithoutUser(WithoutUser(rows, userId), userId) == WithoutUser(rows, userId)
  {
    if rows != [] {
      RevokeIdempotent(rows[1..], userId);
      var rest := WithoutUser(rows[1..], userId);
      if rows[0].UserId != userId {
        assert WithoutUser(rows, userId) == [rows[0]] + rest;
        assert ([rows[0]] + rest)[1..] == rest;
      } else {
        assert WithoutUser(rows, userId) == rest by { assert [] + rest == rest; }
      }
    }
  }

  /** After `Issue`, the owner of the new row has exactly that row. */
  lemma IssueLeavesOneRow(rows: seq<UserRefreshToken>, row: UserRefreshToken)
    ensures RowsOf(Issue(rows, row), row.UserId) == [row]
  {
    RowsOfAppend(WithoutUser(rows, row.UserId), [row], row.UserId);
    NoRowsLeft(rows, row.UserId);
    assert RowsOf([row], row.UserId) == [row] + RowsOf([], row.UserId);
  }

  /** `Issue` leaves the rows of every other user untouched. */
  lemma IssueKeepsOthers(rows: seq<UserRefreshToken>, row: UserRefreshToken, other: string)
    requires other != row.UserId
    ensures RowsOf(Issue(rows, row), other) == RowsOf(rows, other)
  {
    RowsOfAppend(WithoutUser(rows, row.UserId), [row], other);
    WithoutUserKeepsOthers(rows, row.UserId, other);
    assert RowsOf([row], other) == [] + RowsOf([], other);
  }

  /** Dropping the first row keeps the table's invariants. */
  lemma TailKeepsInvariants(rows: seq<UserRefreshToken>)
    requires rows != [] && SingleActive(rows) && TokensDistinct(rows)
    ensures SingleActive(rows[1..]) && TokensDistinct(rows[1..])
  {
    var tail := rows[1..];
    forall i, j | 0 <= i < j < |tail|
      ensures tail[i].UserId != tail[j].UserId && tail[i].RefreshToken != tail[j].RefreshToken
    {
      assert tail[i] == rows[i + 1] && tail[j] == rows[j + 1];
    }
  }

  /** A row that shares neither owner nor token with the rows behind it keeps
      the table's invariants when put in front of them. */
  lemma ConsKeepsInvariants(x: UserRefreshToken, rest: seq<UserRefreshToken>)
    requires SingleActive(rest) && TokensDistinct(rest)
    requires forall y :: y in rest ==> y.UserId != x.UserId && y.RefreshToken != x.RefreshToken
    ensures SingleActive([x] + rest) && TokensDistinct([x] + rest)
  {
    var r := [x] + rest;
    forall i, j | 0 <= i < j < |r| ensures r[i].UserId != r[j].UserId && r[i].RefreshToken != r[j].RefreshToken {
      assert r[j] == rest[j - 1] && r[j] in rest;
      if i > 0 {
        assert r[i] == rest[i - 1];
      }
    }
  }

  /** Deleting rows keeps the table's invariants. */
  lemma {:induction false} WithoutUserKeepsInvariants(rows: seq<UserRefreshToken>, userId: string)
    requires SingleActive(rows) && TokensDistinct(rows)
    ensures SingleActive(WithoutUser(rows, userId)) && TokensDistinct(WithoutUser(rows, userId))
  {
    if rows != [] {
      var tail := rows[1..];
      TailKeepsInvariants(rows);
      WithoutUserKeepsInvariants(tail, userId);
      var rest := WithoutUser(tail, userId);
      if rows[0].UserId != userId {
        forall y | y in rest ensures y.UserId != rows[0].UserId && y.RefreshToken != rows[0].RefreshToken {
          var k :| 0 <= k < |tail| && tail[k] == y;
          assert rows[k + 1] == y;
        }
        ConsKeepsInvariants(rows[0], rest);
        assert WithoutUser(rows, userId) == [rows[0]] + rest;
      } else {
        assert WithoutUser(rows, userId) == rest by { assert [] + rest == rest; }
      }
    }
  }

  /** `Issue` keeps the table's invariants when the new token is fresh. */
  lemma IssueKeepsInvariants(rows: seq<UserRefreshToken>, row: UserRefreshToken)
    requires SingleActive(rows) && TokensDistinct(rows) && OwnersMatch(rows)
    requires !HasToken(rows, row.RefreshToken) && row.User.Id == row.UserId
    ensures SingleActive(Issue(rows, row)) && TokensDistinct(Issue(rows, row)) && OwnersMatch(Issue(rows, row))
  {
    var kept := WithoutUser(rows, row.UserId);
    WithoutUserKeepsInvariants(rows, row.UserId);
    var r := kept + [row];
    forall i, j | 0 <= i < j < |r| ensures r[i].UserId != r[j].UserId && r[i].RefreshToken != r[j].RefreshToken {
      assert r[i] == kept[i];
      if j < |kept| {
        assert r[j] == kept[j];
      } else {
        assert r[i] in kept && r[i] in rows;
      }
    }
  }

  /** Rotation: once a refresh with `token` has re-issued its owner's row
      under a fresh token, `token` is accepted at no instant at all. */
  lemma RotationConsumesToken(rows: seq<UserRefreshToken>, token: string, now: Instant,
                              row: UserRefreshToken, later: Instant)
    requires TokensDistinct(rows) && OwnersMatch(rows)
    requires Lookup(rows, token, now).Some?
    requires row.UserId == Lookup(rows, token, now).value.User.Id
    requires row.RefreshToken != token
    ensures Lookup(Issue(rows, row), token, later).None?
  {
  }

  /** The token issuer over the `UserRefreshTokens` table; `nextId` is the
      table's identity column. */
  class TokenService {
    var UserRefreshTokens: seq<UserRefreshToken>
    var nextId: int

    ghost predicate Valid()
      reads this
    {
      && (forall x :: x in UserRefreshTokens ==> x.Id < nextId)
      && SingleActive(UserRefreshTokens)
      && TokensDistinct(UserRefreshTokens)
      && OwnersMatch(UserRefreshTokens)
    }

    constructor ()
      ensures Valid() && UserRefreshTokens == []
    {
      UserRefreshTokens := [];
      nextId := 1;
    }

    /** `GenerateTokens(user)`: `newGuid` is `Guid.NewGuid()`, which no stored
        row carries yet. Afterwards the user has exactly one row, holding the
        returned refresh token, and every other user's rows are unchanged. */
    method GenerateTokens(user: ApplicationUser, now: Instant, newGuid: string) returns (response: TokenResponse)
      requires Valid()
      requires !HasToken(UserRefreshTokens, newGuid)
      modifies this
      ensures Valid()
      ensures UserRefreshTokens == Issue(old(UserRefreshTokens), NewRefreshRow(old(nextId), user, now, newGuid))
      ensures RowsOf(UserRefreshTokens, user.Id) == [NewRefreshRow(old(nextId), user, now, newGuid)]
      ensures forall other :: other != user.Id ==> RowsOf(UserRefreshTokens, other) == RowsOf(old(UserRefreshTokens), other)
      ensures response == Respond(user, now, newGuid)
    {
      var accessToken := GenerateAccessToken(user, now);
      var refreshToken := newGuid;
      var row := UserRefreshToken(nextId, refreshToken, now, now + RefreshTokenLifetime, user.Id, user);
      IssueKeepsInvariants(UserRefreshTokens, row);
      IssueLeavesOneRow(UserRefreshTokens, row);
      forall other | other != user.Id
        ensures RowsOf(Issue(UserRefreshTokens, row), other) == RowsOf(UserRefreshTokens, other)
      {
        IssueKeepsOthers(UserRefreshTokens, row, other);
      }
      UserRefreshTokens := WithoutUser(UserRefreshTokens, user.Id);
      UserRefreshTokens := UserRefreshTokens + [row];
      nextId := nextId + 1;
      response := TokenResponse(accessToken, refreshToken, 3600);
    }

    /** `ValidateRefreshToken(refreshToken)`: the owner of a stored, unexpired
        row with that token, if there is one. The table is only read. */
    method ValidateRefreshToken(refreshToken: string, now: Instant) returns (user: Option<ApplicationUser>)
      ensures user.Some? <==> Redeemable(UserRefreshTokens, refreshToken, now)
      ensures user.Some? ==> exists x :: x in UserRefreshTokens && x.RefreshToken == refreshToken
                                         && x.ExpiresAt >= now && x.User == user.value
      ensures user.Some? ==> user.value == Lookup(UserRefreshTokens, refreshToken, now).value.User
    {
      var token := Lookup(UserRefreshTokens, refreshToken, now);
      user := if token.Some? then Some(token.value.User) else None;
    }

    /** `ValidateRefreshToken` as the source writes it: the row is found as
        above, but its `User` navigation is read without `Include`, so the
        owner is known only if `tracked`, the users the request's context
        already tracks, holds it. */
    method ValidateRefreshTokenAsWritten(refreshToken: string, now: Instant, tracked: seq<ApplicationUser>)
      returns (user: Option<ApplicationUser>)
      ensures user == NavigationUser(UserRefreshTokens, refreshToken, now, tracked)
      ensures user.Some? ==> Redeemable(UserRefreshTokens, refreshToken, now) && user.value in tracked
      ensures tracked == [] ==> user.None?
    {
      var token := Lookup(UserRefreshTokens, refreshToken, now);
      user := if token.Some? then TrackedOwner(tracked, token.value.UserId) else None;
    }

    /** `RevokeRefreshToken(userId)`: deletes every row of the user and no
        other row. */
    method RevokeRefreshToken(userId: string)
      requires Valid()
      modifies this
      ensures Valid()
      ensures UserRefreshTokens == WithoutUser(old(UserRefreshTokens), userId)
      ensures RowsOf(UserRefreshTokens, userId) == []
      ensures forall other :: other != userId ==> RowsOf(UserRefreshTokens, other) == RowsOf(old(UserRefreshTokens), other)
    {
      WithoutUserKeepsInvariants(UserRefreshTokens, userId);
      NoRowsLeft(UserRefreshTokens, userId);
      forall other | other != userId
        ensures RowsOf(WithoutUser(UserRefreshTokens, userId), other) == RowsOf(UserRefreshTokens, other)
      {
        WithoutUserKeepsOthers(UserRefreshTokens, userId, other);
      }
      UserRefreshTokens := WithoutUser(UserRefreshTokens, userId);
    }
  }
}
