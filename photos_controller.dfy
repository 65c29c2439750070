/** `PhotosController`: signed-in guests upload wedding photos to object
    storage, keeping one record per upload, and may delete their own. The
    storage calls themselves are reduced to their outcome. */
module PhotosApi {
  import opened Common
  import opened Text
  import opened Seqs
  import opened Data
  import opened Identity

  /** The parts of an `IFormFile` the upload reads. */
  datatype UploadedFile = UploadedFile(Length: int, ContentType: string)

  /** `PhotoInfo`: a photo as the API lists it. `Id` is the storage file name;
      `UserName` is null when the owner's row cannot be joined. */
  datatype PhotoInfo = PhotoInfo(Id: string, ContentType: string, UserId: string, CreatedAt: Instant,
                                 UserName: Option<string>)

  /** `GetFileExtensionFromContentType`: the three accepted image types, matched
      after lower-casing; anything else has no extension. */
  function GetFileExtensionFromContentType(contentType: string): (r: Option<string>)
    ensures r == Some(".jpg") <==> ToLowerInvariant(contentType) == "image/jpeg"
    ensures r == Some(".png") <==> ToLowerInvariant(contentType) == "image/png"
    ensures r == Some(".webp") <==> ToLowerInvariant(contentType) == "image/webp"
    ensures r.Some? ==> r.value == ".jpg" || r.value == ".png" || r.value == ".webp"
  {
    match ToLowerInvariant(contentType)
    case "image/jpeg" => Some(".jpg")
    case "image/png" => Some(".png")
    case "image/webp" => Some(".webp")
    case _ => None
  }

  /** The content type is matched without regard to case: lower- and
      upper-cased spellings map to the same extension as the original. */
  lemma ExtensionIgnoresCase(contentType: string)
    ensures GetFileExtensionFromContentType(ToLowerInvariant(contentType)) == GetFileExtensionFromContentType(contentType)
    ensures GetFileExtensionFromContentType(ToUpperInvariant(contentType)) == GetFileExtensionFromContentType(contentType)
  {
    LowerIdempotent(contentType);
    LowerAfterUpper(contentType);
  }

  /** `$"{user.Id}-{timestamp}{fileExtension}"`. */
  function PhotoFileName(userId: string, timestamp: string, extension: string): (r: string)
    ensures |r| == |userId| + 1 + |timestamp| + |extension|
    ensures r[..|userId| + 1] == userId + "-"
    ensures r[|r| - |extension|..] == extension
  {
    userId + "-" + timestamp + extension
  }

  /** `photo.User.FullName`, joined through `UserId`. */
  function Info(photo: UserUploadedPhoto, users: seq<ApplicationUser>): (i: PhotoInfo)
    ensures i.Id == photo.FileName && i.ContentType == photo.ContentType && i.UserId == photo.UserId
            && i.CreatedAt == photo.UploadedAt
  {
    var owner := FindById(users, Some(photo.UserId));
    PhotoInfo(photo.FileName, photo.ContentType, photo.UserId, photo.UploadedAt,
              if owner.Some? then Some(owner.value.FullName) else None)
  }

  function Infos(photos: seq<UserUploadedPhoto>, users: seq<ApplicationUser>): (r: seq<PhotoInfo>)
    ensures |r| == |photos| && forall i :: 0 <= i < |photos| ==> r[i] == Info(photos[i], users)
  {
    seq(|photos|, i requires 0 <= i < |photos| => Info(photos[i], users))
  }

  function CreatedAtKey(p: PhotoInfo): int
  {
    p.CreatedAt
  }

  /** `GetPhotos`' query: every record, projected, newest first. */
  function PhotoListing(photos: seq<UserUploadedPhoto>, users: seq<ApplicationUser>): seq<PhotoInfo>
  {
    SortDesc(Infos(photos, users), CreatedAtKey)
  }

  /** The listing holds one entry per record, no more and no fewer, ordered
      by upload time, newest first. */
  lemma PhotoListingNewestFirst(photos: seq<UserUploadedPhoto>, users: seq<ApplicationUser>)
    ensures multiset(PhotoListing(photos, users)) == multiset(Infos(photos, users))
    ensures |PhotoListing(photos, users)| == |photos|
    ensures forall i, j :: 0 <= i < j < |PhotoListing(photos, users)| ==>
              PhotoListing(photos, users)[i].CreatedAt >= PhotoListing(photos, users)[j].CreatedAt
  {
    var listing := PhotoListing(photos, users);
    SortDescSorted(Infos(photos, users), CreatedAtKey);
    assert |listing| == |multiset(listing)| == |multiset(Infos(photos, users))| == |photos|;
    assert forall i :: 0 <= i < |listing| ==> listing[i].CreatedAt == CreatedAtKey(listing[i]);
  }

  /** `FirstOrDefault(u => u.UserId == userId && u.FileName == photoId)`, as an index. */
  function FindPhoto(photos: seq<UserUploadedPhoto>, userId: string, photoId: string): (r: Option<nat>)
    ensures r.Some? ==> r.value < |photos| && photos[r.value].UserId == userId && photos[r.value].FileName == photoId
    ensures r.None? ==> forall p :: p in photos ==> p.UserId != userId || p.FileName != photoId
  {
    FirstIndex(photos, (p: UserUploadedPhoto) => p.UserId == userId && p.FileName == photoId)
  }

  class PhotosController {
    const userManager: UserManager
    var UserUploadedPhotos: seq<UserUploadedPhoto>
    var nextId: int

    /** The identity column has handed out every id in the table. */
    ghost predicate Valid()
      reads this
    {
      forall p :: p in UserUploadedPhotos ==> p.Id < nextId
    }

    constructor (userManager: UserManager)
      ensures Valid() && this.userManager == userManager && UserUploadedPhotos == []
    {
      this.userManager := userManager;
      UserUploadedPhotos := [];
      nextId := 1;
    }

    /** `GetPhotos`. */
    method GetPhotos() returns (r: ActionResult<seq<PhotoInfo>>)
      ensures r.Ok? && multiset(r.value) == multiset(Infos(UserUploadedPhotos, userManager.Users))
      ensures forall i, j :: 0 <= i < j < |r.value| ==> r.value[i].CreatedAt >= r.value[j].CreatedAt
    {
      var photos := Infos(UserUploadedPhotos, userManager.Users);
      var sorted := SortDesc(photos, CreatedAtKey);
      PhotoListingNewestFirst(UserUploadedPhotos, userManager.Users);
      return Ok(sorted);
    }

    /** `Upload`. Guards in order: a missing or empty file, an unsupported
        content type, an unresolved caller. `timestamp` is the server clock as
        `yyyyMMddHHmmssfff`, `now` the same instant; `storageError` is the
        message of the `IOException` the storage upload raised, if any. */
    method Upload(file: Option<UploadedFile>, principal: Option<string>, timestamp: string, now: Instant,
                  storageError: Option<string>)
      returns (r: ActionResult<PhotoInfo>)
      requires Valid()
      modifies this
      ensures Valid()
      ensures file.None? || file.value.Length == 0 ==> r == BadRequest("No file uploaded.")
      ensures file.Some? && file.value.Length != 0 && GetFileExtensionFromContentType(file.value.ContentType).None? ==>
                r == BadRequest("Unsupported file type.")
      ensures (file.Some? && file.value.Length != 0 && GetFileExtensionFromContentType(file.value.ContentType).Some?
               && FindById(userManager.Users, principal).None?) ==> r == Unauthorized("User not found")
      ensures (file.Some? && file.value.Length != 0 && GetFileExtensionFromContentType(file.value.ContentType).Some?
               && FindById(userManager.Users, principal).Some? && storageError.Some?) ==>
                r == ServerError("An error occurred while saving the file: " + storageError.value)
      ensures r.ServerError? ==> storageError.Some?
                                 && r.message == "An error occurred while saving the file: " + storageError.value
      ensures r.Ok? <==> && file.Some? && file.value.Length != 0
                         && GetFileExtensionFromContentType(file.value.ContentType).Some?
                         && FindById(userManager.Users, principal).Some?
                         && storageError.None?
      ensures !r.Ok? ==> UserUploadedPhotos == old(UserUploadedPhotos) && nextId == old(nextId)
      ensures r.Ok? ==>
                var user := FindById(userManager.Users, principal).value;
                var extension := GetFileExtensionFromContentType(file.value.ContentType).value;
                var row := UserUploadedPhoto(old(nextId), PhotoFileName(user.Id, timestamp, extension),
                                             file.value.ContentType, now, user.Id);
                && UserUploadedPhotos == old(UserUploadedPhotos) + [row]
                && r.value == PhotoInfo(row.FileName, row.ContentType, user.Id, now, Some(user.FullName))
    {
      if file.None? || file.value.Length == 0 {
        return BadRequest("No file uploaded.");
      }
      var fileExtension := GetFileExtensionFromContentType(file.value.ContentType);
      if fileExtension.None? {
        return BadRequest("Unsupported file type.");
      }
      var user := FindById(userManager.Users, principal);
      if user.None? {
        return Unauthorized("User not found");
      }
      var fileName := PhotoFileName(user.value.Id, timestamp, fileExtension.value);
      if storageError.Some? {
        return ServerError("An error occurred while saving the file: " + storageError.value);
      }
      var uploadedPhoto := UserUploadedPhoto(nextId, fileName, file.value.ContentType, now, user.value.Id);
      UserUploadedPhotos := UserUploadedPhotos + [uploadedPhoto];
      nextId := nextId + 1;
      return Ok(PhotoInfo(fileName, file.value.ContentType, user.value.Id, now, Some(user.value.FullName)));
    }

    /** `DeleteFile`: only a record of the caller's with that file name is
        found, and exactly that record is removed. */
    method DeleteFile(principal: Option<string>, photoId: string) returns (r: ActionResult<()>)
      requires Valid()
      modifies this
      ensures Valid() && nextId == old(nextId)
      ensures var caller := FindById(userManager.Users, principal);
              && (caller.None? ==> r == Unauthorized("User not found"))
              && (caller.Some? ==>
                    var k := FindPhoto(old(UserUploadedPhotos), caller.value.Id, photoId);
                    && (k.None? ==> r == NotFound("Photo not found"))
                    && (k.Some? ==>
                          && r == Ok(())
                          && UserUploadedPhotos
                             == old(UserUploadedPhotos)[..k.value] + old(UserUploadedPhotos)[k.value + 1..]
                          && multiset(UserUploadedPhotos) + multiset{old(UserUploadedPhotos)[k.value]}
                             == multiset(old(UserUploadedPhotos))))
      ensures !r.Ok? ==> UserUploadedPhotos == old(UserUploadedPhotos)
    {
      var user := FindById(userManager.Users, principal);
      if user.None? {
        return Unauthorized("User not found");
      }
      var k := FindPhoto(UserUploadedPhotos, user.value.Id, photoId);
      if k.None? {
        return NotFound("Photo not found");
      }
      ghost var before := UserUploadedPhotos;
      UserUploadedPhotos := UserUploadedPhotos[..k.value] + UserUploadedPhotos[k.value + 1..];
      assert before == before[..k.value] + [before[k.value]] + before[k.value + 1..];
      return Ok(());
    }
  }
}
