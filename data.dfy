/** The rows of the wedding-site database, one datatype per entity.
    A row refers to its owner by `UserId`. Navigation properties are left
    out except `UserRefreshToken.User`, which the token check returns; the
    photo listing's `photo.User.FullName` is modelled as a lookup of the
    owner by `UserId`. */
module Data {
  import opened Common

  /** An Identity user (`ApplicationUser`): the fields the core reads or sets. */
  datatype ApplicationUser = ApplicationUser(
    Id: string,
    UserName: string,
    Email: string,
    FullName: string,
    EmailConfirmed: bool)

  /** A row of Identity's external-login table: `LoginProvider` knows the
      user `UserId` under the subject id `ProviderKey`. */
  datatype UserLogin = UserLogin(LoginProvider: string, ProviderKey: string, UserId: string)

  /** A stored refresh token. `User` is the navigation property, set to the
      owner when the row is inserted. */
  datatype UserRefreshToken = UserRefreshToken(
    Id: int,
    RefreshToken: string,
    CreatedAt: Instant,
    ExpiresAt: Instant,
    UserId: string,
    User: ApplicationUser)

  /** A gift of the registry; it is locked while `UserId` is neither null
      nor empty. */
  datatype WeddingGift = WeddingGift(
    Id: int,
    Title: string,
    Description: string,
    ImageName: string,
    Cost: string,
    UserId: Option<string>)

  /** One guest announced by a user (an RSVP row). */
  datatype WeddingParticipation = WeddingParticipation(
    Id: int,
    CreatedAt: Instant,
    ParticipantFullName: string,
    AgeCategory: int,
    Present: bool,
    Notes: string,
    UserId: string)

  /** The record kept of a photo uploaded to object storage under `FileName`. */
  datatype UserUploadedPhoto = UserUploadedPhoto(
    Id: int,
    FileName: string,
    ContentType: string,
    UploadedAt: Instant,
    UserId: string)

  /** A guestbook message. */
  datatype WeddingMessage = WeddingMessage(
    Id: int,
    AuthorName: string,
    Message: string,
    CreatedAt: Instant,
    UserId: string)
}
