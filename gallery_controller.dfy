/** The owned-gallery endpoints (`GalleryController`). Owner-scoped actions identify the caller
    by `userId` (`EmptyGuid` when nobody is signed in) and find the gallery by id and owner;
    the two short-code actions are public. New ids, storage-key disambiguators and the clock
    are inputs; the password hasher is the pair of functions `hash` and `verify`. */
module GalleryController {
  import opened Wrappers
  import opened KappiTypes
  import opened Seqs
  import opened Strings
  import opened GalleryModel
  import opened MediaModel
  import opened ObjectStorage
  import opened MediaMetadataService
  import opened MediaListing
  import opened KappiDb
  import GalleryRepository
  import MediaRepository
  import AnonymousGalleryRepository
  import ShortCodeGenerator

  datatype GalleryDto = GalleryDto(
    id: Guid,
    shortCode: string,
    isPublic: bool,
    hasPassword: bool,
    createdAt: Time,
    media: MediaList)

  datatype GalleryList = GalleryList(galleries: seq<GalleryDto>, totalCount: int)

  datatype UploadUrl = UploadUrl(mediaId: Guid, uploadUrl: string, s3Key: string)

  /** `ToGalleryDto`: the gallery's public fields and its media listing. */
  function ToGalleryDto(g: Gallery, items: seq<MediaDto>): (d: GalleryDto)
    reads g
    ensures d.hasPassword <==> g.passwordHash.Some? && g.passwordHash.value != ""
    ensures d.media.items == items && d.media.totalCount == |items|
  {
    GalleryDto(g.id, g.shortCode, g.isPublic, g.HasPassword(), g.createdAt, MediaList(items, |items|))
  }

  // ---------------------------------------------------------------------------------------
  // Access decisions

  datatype Decision = Allow | Deny(status: int, reason: string)

  /** The first two checks of every owner-scoped action. */
  function OwnerAccess(userId: Guid, found: bool): Decision
  {
    if userId == EmptyGuid then Deny(401, "unauthorized")
    else if !found then Deny(404, "gallery_not_found")
    else Allow
  }

  /** `GetByShortCode`: visibility is checked before the password. */
  function PublicRead(found: bool, isPublic: bool, hasPassword: bool): Decision
  {
    if !found then Deny(404, "gallery_not_found")
    else if !isPublic then Deny(401, "gallery_not_public")
    else if hasPassword then Deny(401, "password_required")
    else Allow
  }

  /** `VerifyPassword`; `passwordOk` is the hasher's verdict, consulted only for a gallery
      that has a password. */
  function PasswordRead(found: bool, isPublic: bool, hasPassword: bool, passwordOk: bool): Decision
  {
    if !found then Deny(404, "gallery_not_found")
    else if !isPublic then Deny(401, "gallery_not_public")
    else if !hasPassword then Deny(401, "password_not_required")
    else if !passwordOk then Deny(401, "invalid_password")
    else Allow
  }

  /** Anonymous readers see a gallery through exactly one of the two short-code actions:
      a private gallery through neither, a public one without a password through the plain
      read only, and a public one with a password through the verified read with the right
      password only. */
  lemma ShortCodeReadPaths(found: bool, isPublic: bool, hasPassword: bool, passwordOk: bool)
    ensures !(PublicRead(found, isPublic, hasPassword).Allow? && PasswordRead(found, isPublic, hasPassword, passwordOk).Allow?)
    ensures PublicRead(found, isPublic, hasPassword).Allow? || PasswordRead(found, isPublic, hasPassword, passwordOk).Allow?
        <==> found && isPublic && (!hasPassword || passwordOk)
    ensures found && !isPublic ==>
      PublicRead(found, isPublic, hasPassword) == PasswordRead(found, isPublic, hasPassword, passwordOk) == Deny(401, "gallery_not_public")
  {
  }

  // ---------------------------------------------------------------------------------------
  // Storage keys

  /** The storage key of a file uploaded to an owned gallery. */
  function UserMediaKey(userId: Guid, galleryId: Guid, disambiguator: Guid, fileName: string): string
  {
    "galleries/user/" + userId.text + "/" + galleryId.text + "/" + disambiguator.text + "/" + fileName
  }

  /** The key's path segments give back owner, gallery, disambiguator and file name, as long
      as none of them holds a '/'. */
  lemma UserMediaKeySegments(userId: Guid, galleryId: Guid, disambiguator: Guid, fileName: string)
    requires '/' !in userId.text && '/' !in galleryId.text && '/' !in disambiguator.text && '/' !in fileName
    ensures Split(UserMediaKey(userId, galleryId, disambiguator, fileName), '/')
         == ["galleries", "user", userId.text, galleryId.text, disambiguator.text, fileName]
  {
    var parts := ["galleries", "user", userId.text, galleryId.text, disambiguator.text, fileName];
    UserMediaKeyJoined(userId, galleryId, disambiguator, fileName);
    assert forall i :: 0 <= i < |parts| ==> '/' !in parts[i] by {
      assert '/' !in "galleries" && '/' !in "user";
    }
    SplitOnJoin(parts, "/");
  }

  lemma UserMediaKeyJoined(userId: Guid, galleryId: Guid, disambiguator: Guid, fileName: string)
    ensures Join(["galleries", "user", userId.text, galleryId.text, disambiguator.text, fileName], "/")
         == UserMediaKey(userId, galleryId, disambiguator, fileName)
  {
    var tail := disambiguator.text + "/" + fileName;
    var rest := userId.text + "/" + (galleryId.text + "/" + tail);
    JoinFour(userId.text, galleryId.text, disambiguator.text, fileName, "/");
    JoinCons2("galleries", "user", [userId.text, galleryId.text, disambiguator.text, fileName], "/");
    assert ["galleries", "user"] + [userId.text, galleryId.text, disambiguator.text, fileName]
        == ["galleries", "user", userId.text, galleryId.text, disambiguator.text, fileName];
    assert "galleries" + "/" + ("user" + "/" + rest) == "galleries/user/" + rest;
  }

  /** Four parts joined. */
  lemma JoinFour(a: string, b: string, c: string, d: string, sep: string)
    ensures Join([a, b, c, d], sep) == a + sep + (b + sep + (c + sep + d))
  {
    assert [c, d][1..] == [d];
    assert Join([c, d], sep) == c + sep + d;
    assert [b, c, d][1..] == [c, d];
    assert Join([b, c, d], sep) == b + sep + (c + sep + d);
    assert [a, b, c, d][1..] == [b, c, d];
  }

  /** Two more parts in front. */
  lemma JoinCons2(a: string, b: string, rest: seq<string>, sep: string)
    requires rest != []
    ensures Join([a, b] + rest, sep) == a + sep + (b + sep + Join(rest, sep))
  {
    assert ([a, b] + rest)[1..] == [b] + rest;
    assert ([b] + rest)[1..] == rest;
  }

  // ---------------------------------------------------------------------------------------
  // State-changing actions

  /** `CreateGallery`. */
  method CreateGallery(db: Db, userId: Guid, isPublic: bool, password: string, hash: string -> string,
                       draws: seq<seq<nat>>, newId: Guid, now: Time) returns (r: Response<GalleryDto>)
    requires db.Valid() && ShortCodeGenerator.ValidDraws(draws)
    modifies db
    ensures db.Valid()
    ensures old(db.ShortCodesDisjoint()) ==> db.ShortCodesDisjoint()
    ensures db.anonymousGalleries == old(db.anonymousGalleries) && db.media == old(db.media)
    ensures userId == EmptyGuid ==> r == Failure(401, "unauthorized")
    ensures r.Failure? ==> db.galleries == old(db.galleries)
    ensures r.Failure? && userId != EmptyGuid ==> r == Failure(500, "failed_to_create_gallery")
    ensures var search := ShortCodeGenerator.Search(draws,
              AnonymousGalleryRepository.ShortCodes(old(db.anonymousGalleries)) + GalleryRepository.ShortCodes(old(db.galleries)), 0);
      r.Success? <==> userId != EmptyGuid && search.Code? && newId !in GalleryIds(old(db.galleries))
                      && (password == "" || |hash(password)| <= MaxPasswordHashLength)
    ensures r.Success? ==>
      r.status == 201 && |db.galleries| == |old(db.galleries)| + 1
      && db.galleries[..|old(db.galleries)|] == old(db.galleries)
      && var g := db.galleries[|db.galleries| - 1];
         fresh(g) && g.id == newId && g.userId == userId && g.createdAt == now && g.isPublic == isPublic
         && g.shortCode !in GalleryRepository.ShortCodes(old(db.galleries))
         && g.shortCode !in AnonymousGalleryRepository.ShortCodes(old(db.anonymousGalleries))
         && g.passwordHash == (if password == "" then None else Some(hash(password)))
         && r.body == GalleryDto(newId, g.shortCode, isPublic, g.HasPassword(), now, MediaList([], 0))
  {
    if userId == EmptyGuid {
      return Failure(401, "unauthorized");
    }
    var anonymousCodes := AnonymousGalleryRepository.ShortCodes(db.anonymousGalleries);
    var galleryCodes := GalleryRepository.ShortCodes(db.galleries);
    var code: ShortCodeGenerator.Generated;
    ghost var attempts: nat;
    code, attempts := ShortCodeGenerator.GenerateUniqueShortCode(draws, anonymousCodes, galleryCodes);
    if code.Exhausted? {
      return Failure(500, "failed_to_create_gallery");
    }
    var g := NewGallery(newId, userId, code.code, now, isPublic, password, hash);
    var saved := db.SaveGallery(g);
    if !saved {
      return Failure(500, "failed_to_create_gallery");
    }
    if old(db.ShortCodesDisjoint()) {
      GalleryCodesStayDisjoint(old(db.galleries), db.anonymousGalleries, g);
    }
    return Success(201, ToGalleryDto(g, []));
  }

  /** The new gallery of `CreateGallery`: visibility as requested, and a password hash only
      for a non-empty password. */
  method NewGallery(id: Guid, userId: Guid, shortCode: string, now: Time, isPublic: bool,
                    password: string, hash: string -> string) returns (g: Gallery)
    ensures fresh(g) && g.id == id && g.userId == userId && g.shortCode == shortCode && g.createdAt == now
    ensures g.isPublic == isPublic && g.passwordHash == (if password == "" then None else Some(hash(password)))
  {
    g := new Gallery(id, userId, shortCode, now);
    g.isPublic := isPublic;
    if password != "" {
      g.SetPassword(hash(password));
    }
  }

  /** `ToGalleryDto(gallery, await GetMediaDtosAsync(gallery.Media))`. */
  method DescribeGallery(db: Db, store: ObjectStore, tryParse: string -> Option<int>, g: Gallery) returns (d: GalleryDto)
    requires db.Valid()
    modifies db.media
    ensures d.id == g.id && d.shortCode == g.shortCode && d.isPublic == g.isPublic
    ensures d.hasPassword == g.HasPassword() && d.createdAt == g.createdAt
    ensures d.media.totalCount == |db.GalleryMedia(g.id)|
    ensures Describes(d, g, db, store)
    ensures Listed(db.GalleryMedia(g.id), store, tryParse)
    ensures forall m :: m in db.media && m.galleryId != Some(g.id) ==> m.Meta() == old(m.Meta())
  {
    FilterDistinct(db.media, MediaRepository.InGallery(g.id));
    var items := db.GalleryMedia(g.id);
    var dtos := GetMediaDtos(items, store, tryParse);
    d := ToGalleryDto(g, dtos);
  }

  /** `GetGallery`. */
  method GetGallery(db: Db, store: ObjectStore, tryParse: string -> Option<int>, userId: Guid, id: Guid)
    returns (r: Response<GalleryDto>)
    requires db.Valid()
    modifies db.media
    ensures var found := GalleryRepository.FindByIdAndUserId(db.galleries, id, userId);
      var d := OwnerAccess(userId, found.Some?);
      (d.Deny? ==> r == Failure(d.status, d.reason) && MetadataUnchanged(db.media))
      && (d.Allow? ==> r.Success? && r.status == 200 && r.body.id == id && Describes(r.body, found.value, db, store)
                       && r.body.media.totalCount == |db.GalleryMedia(id)| && Listed(db.GalleryMedia(id), store, tryParse))
    ensures forall m :: m in db.media && m.galleryId != Some(id) ==> m.Meta() == old(m.Meta())
  {
    var found := GalleryRepository.FindByIdAndUserId(db.galleries, id, userId);
    var d := OwnerAccess(userId, found.Some?);
    if d.Deny? {
      return Failure(d.status, d.reason);
    }
    var dto := DescribeGallery(db, store, tryParse, found.value);
    return Success(200, dto);
  }

  /** `UpdateGallery`: visibility from the request; a non-empty password replaces the hash and
      an empty or absent one clears it. */
  method UpdateGallery(db: Db, store: ObjectStore, tryParse: string -> Option<int>, userId: Guid, id: Guid,
                       isPublic: bool, password: string, hash: string -> string) returns (r: Response<GalleryDto>)
    requires db.Valid()
    modifies db.galleries, db.media
    ensures var found := GalleryRepository.FindByIdAndUserId(db.galleries, id, userId);
      var d := OwnerAccess(userId, found.Some?);
      var fits := password == "" || |hash(password)| <= MaxPasswordHashLength;
      (d.Deny? ==> r == Failure(d.status, d.reason))
      && (d.Allow? && !fits ==> r == Failure(500, "failed_to_update_gallery"))
      && (r.Failure? ==> MetadataUnchanged(db.media)
                         && forall g :: g in db.galleries ==> g.isPublic == old(g.isPublic) && g.passwordHash == old(g.passwordHash))
      && (d.Allow? && fits ==>
            found.value.isPublic == isPublic
            && found.value.passwordHash == (if password == "" then None else Some(hash(password)))
            && (forall g :: g in db.galleries && g != found.value ==>
                  g.isPublic == old(g.isPublic) && g.passwordHash == old(g.passwordHash))
            && r.Success? && r.status == 200 && r.body.id == id && r.body.isPublic == isPublic
            && r.body.hasPassword == (password != "" && hash(password) != "")
            && Describes(r.body, found.value, db, store)
            && Listed(db.GalleryMedia(id), store, tryParse))
    ensures db.galleries == old(db.galleries) && db.media == old(db.media)
    ensures forall m :: m in db.media && m.galleryId != Some(id) ==> m.Meta() == old(m.Meta())
  {
    var found := GalleryRepository.FindByIdAndUserId(db.galleries, id, userId);
    var d := OwnerAccess(userId, found.Some?);
    if d.Deny? {
      return Failure(d.status, d.reason);
    }
    if password != "" && |hash(password)| > MaxPasswordHashLength {
      // `SaveChangesAsync` rejects a hash longer than its column: the row keeps its settings.
      return Failure(500, "failed_to_update_gallery");
    }
    var g := found.value;
    ApplySettings(g, isPublic, password, hash);
    assert MetadataUnchanged(db.media);
    var dto := DescribeGallery(db, store, tryParse, g);
    return Success(200, dto);
  }

  /** The settings `UpdateGallery` writes: the visibility, and the password hash, set for a
      non-empty password and cleared otherwise. */
  method ApplySettings(g: Gallery, isPublic: bool, password: string, hash: string -> string)
    modifies g
    ensures g.isPublic == isPublic && g.passwordHash == (if password == "" then None else Some(hash(password)))
  {
    g.isPublic := isPublic;
    if password != "" {
      g.SetPassword(hash(password));
    } else {
      g.ClearPassword();
    }
  }

  /** The storage keys of a media collection (`Select(m => m.S3Key)`). */
  function MediaKeys(ms: seq<Media>): (keys: seq<string>)
    ensures |keys| == |ms| && forall i :: 0 <= i < |ms| ==> keys[i] == ms[i].s3Key
  {
    seq(|ms|, i requires 0 <= i < |ms| => ms[i].s3Key)
  }

  /** `DeleteGallery`: the storage objects of its media (when it has any), then the gallery
      row and, by cascade, its media rows. A storage failure leaves every row in place. */
  method DeleteGallery(db: Db, store: ObjectStore, userId: Guid, id: Guid) returns (r: Response<Done>)
    requires db.Valid()
    modifies db, store
    ensures db.Valid()
    ensures db.anonymousGalleries == old(db.anonymousGalleries)
    ensures var found := GalleryRepository.FindByIdAndUserId(old(db.galleries), id, userId);
      var d := OwnerAccess(userId, found.Some?);
      var keys := MediaKeys(old(db.GalleryMedia(id)));
      (d.Deny? ==> r == Failure(d.status, d.reason))
      && (d.Allow? && (exists k :: k in keys && k in store.faulty) ==> r == Failure(500, "failed_to_delete_gallery"))
      && (r.Failure? ==> db.galleries == old(db.galleries) && db.media == old(db.media) && store.objects == old(store.objects))
      && (r.Success? <==> d.Allow? && forall k :: k in keys ==> k !in store.faulty)
      && (r.Success? ==>
            r == Success(200, Done("success"))
            && store.objects == old(store.objects) - (set k | k in keys)
            && db.galleries == Filter(old(db.galleries), (x: Gallery) => x != found.value)
            && db.media == Filter(old(db.media), (x: Media) => x.galleryId != Some(id)))
  {
    var found := GalleryRepository.FindByIdAndUserId(db.galleries, id, userId);
    var d := OwnerAccess(userId, found.Some?);
    if d.Deny? {
      return Failure(d.status, d.reason);
    }
    var g := found.value;
    var keys := MediaKeys(db.GalleryMedia(g.id));
    if |keys| > 0 {
      var threw := store.DeleteObjects(keys);
      if threw {
        return Failure(500, "failed_to_delete_gallery");
      }
    }
    db.RemoveGallery(g);
    return Success(200, Done("success"));
  }

  /** `RequestUploadUrl`: one new media row of the gallery, then a pre-signed upload URL. The
      row is saved before the URL is minted, so a failure to mint it leaves the row behind. */
  method RequestUploadUrl(db: Db, store: ObjectStore, userId: Guid, id: Guid, fileName: string, contentType: string,
                          disambiguator: Guid, mediaId: Guid, now: Time) returns (r: Response<UploadUrl>)
    requires db.Valid()
    modifies db
    ensures db.Valid()
    ensures db.galleries == old(db.galleries) && db.anonymousGalleries == old(db.anonymousGalleries)
    ensures var d := OwnerAccess(userId, GalleryRepository.FindByIdAndUserId(db.galleries, id, userId).Some?);
      var key := UserMediaKey(userId, id, disambiguator, fileName);
      var saved := d.Allow? && mediaId !in MediaIds(old(db.media)) && key !in S3Keys(old(db.media))
                   && |key| <= MaxS3KeyLength;
      (d.Deny? ==> r == Failure(d.status, d.reason))
      && (d.Allow? && r.Failure? ==> r == Failure(500, "failed_to_generate_upload_url"))
      && (r.Success? <==> saved && key !in store.faulty)
      && (r.Success? ==> r == Success(200, UploadUrl(mediaId, store.uploadUrl(key, contentType), key)))
      && (!saved ==> db.media == old(db.media))
      && (saved ==>
            |db.media| == |old(db.media)| + 1 && db.media[..|old(db.media)|] == old(db.media)
            && var m := db.media[|old(db.media)|];
               fresh(m) && m.id == mediaId && m.galleryId == Some(id) && m.anonymousGalleryId == None
               && m.s3Key == key && m.createdAt == now && m.Meta() == NoMetadata)
  {
    var found := GalleryRepository.FindByIdAndUserId(db.galleries, id, userId);
    var d := OwnerAccess(userId, found.Some?);
    if d.Deny? {
      return Failure(d.status, d.reason);
    }
    var g := found.value;
    var key := UserMediaKey(userId, g.id, disambiguator, fileName);
    var m := new Media.ForGallery(mediaId, g.id, key, now);
    var saved := db.SaveMedia(m);
    if !saved {
      return Failure(500, "failed_to_generate_upload_url");
    }
    var threw, url := store.PresignUpload(key, contentType);
    if threw {
      return Failure(500, "failed_to_generate_upload_url");
    }
    return Success(200, UploadUrl(mediaId, url, key));
  }

  /** The media item `mediaId` when it belongs to the owned gallery `id`; another gallery's
      media item is treated as missing. */
  function MediaOfGallery(ms: seq<Media>, mediaId: Guid, id: Guid): (r: Option<Media>)
    ensures r.Some? ==> r.value in ms && r.value.id == mediaId && r.value.galleryId == Some(id)
    ensures r.None? <==>
      (MediaRepository.FindById(ms, mediaId).None? || MediaRepository.FindById(ms, mediaId).value.galleryId != Some(id))
  {
    var m := MediaRepository.FindById(ms, mediaId);
    if m.None? || m.value.galleryId != Some(id) then None else m
  }

  /** `ConfirmUpload`: checks that the object was uploaded, then backfills its metadata
      (whose outcome does not change the response). */
  method ConfirmUpload(db: Db, store: ObjectStore, tryParse: string -> Option<int>, userId: Guid, id: Guid, mediaId: Guid)
    returns (r: Response<Done>)
    requires db.Valid()
    modifies db.media
    ensures var d := OwnerAccess(userId, GalleryRepository.FindByIdAndUserId(db.galleries, id, userId).Some?);
      var m := MediaOfGallery(db.media, mediaId, id);
      (d.Deny? ==> r == Failure(d.status, d.reason))
      && (d.Allow? && m.None? ==> r == Failure(404, "media_not_found"))
      && (d.Allow? && m.Some? && m.value.s3Key in store.faulty ==> r == Failure(500, "failed_to_confirm_upload"))
      && (d.Allow? && m.Some? && m.value.s3Key !in store.faulty && m.value.s3Key !in store.objects ==>
            r == Failure(404, "media_not_uploaded"))
      && (r.Success? <==> d.Allow? && m.Some? && m.value.s3Key !in store.faulty && m.value.s3Key in store.objects)
      && (r.Failure? ==> MetadataUnchanged(db.media))
      && (r.Success? ==>
            d.Allow? && m.Some? && r == Success(200, Done("success"))
            && m.value.Meta() == Backfill(old(m.value.Meta()), store.TagReplyFor(m.value.s3Key), tryParse).1
            && forall x :: x in db.media && x != m.value ==> x.Meta() == old(x.Meta()))
  {
    var found := GalleryRepository.FindByIdAndUserId(db.galleries, id, userId);
    var d := OwnerAccess(userId, found.Some?);
    if d.Deny? {
      return Failure(d.status, d.reason);
    }
    var m := MediaOfGallery(db.media, mediaId, found.value.id);
    if m.None? {
      return Failure(404, "media_not_found");
    }
    var threw, exists_ := store.KeyExists(m.value.s3Key);
    if threw {
      return Failure(500, "failed_to_confirm_upload");
    }
    if !exists_ {
      return Failure(404, "media_not_uploaded");
    }
    var _ := FetchAndStoreMetadata(m.value, store, tryParse);
    return Success(200, Done("success"));
  }

  /** `DeleteMedia`: the storage object, then the media row. */
  method DeleteMedia(db: Db, store: ObjectStore, userId: Guid, id: Guid, mediaId: Guid) returns (r: Response<Done>)
    requires db.Valid()
    modifies db, store
    ensures db.Valid()
    ensures db.galleries == old(db.galleries) && db.anonymousGalleries == old(db.anonymousGalleries)
    ensures var d := OwnerAccess(userId, GalleryRepository.FindByIdAndUserId(db.galleries, id, userId).Some?);
      var m := MediaOfGallery(old(db.media), mediaId, id);
      (d.Deny? ==> r == Failure(d.status, d.reason))
      && (d.Allow? && m.None? ==> r == Failure(404, "media_not_found"))
      && (d.Allow? && m.Some? && m.value.s3Key in store.faulty ==> r == Failure(500, "failed_to_delete_media"))
      && (r.Success? <==> d.Allow? && m.Some? && m.value.s3Key !in store.faulty)
      && (r.Failure? ==> db.media == old(db.media) && store.objects == old(store.objects))
      && (r.Success? ==>
            d.Allow? && m.Some? && r == Success(200, Done("success"))
            && store.objects == old(store.objects) - {m.value.s3Key}
            && db.media == Filter(old(db.media), (x: Media) => x != m.value))
  {
    var found := GalleryRepository.FindByIdAndUserId(db.galleries, id, userId);
    var d := OwnerAccess(userId, found.Some?);
    if d.Deny? {
      return Failure(d.status, d.reason);
    }
    var m := MediaOfGallery(db.media, mediaId, found.value.id);
    if m.None? {
      return Failure(404, "media_not_found");
    }
    var threw := store.DeleteObject(m.value.s3Key);
    if threw {
      return Failure(500, "failed_to_delete_media");
    }
    db.RemoveMedia(m.value);
    return Success(200, Done("success"));
  }

  /** `GetByShortCode`: a public gallery without a password, for anyone. */
  method GetByShortCode(db: Db, store: ObjectStore, tryParse: string -> Option<int>, shortCode: string)
    returns (r: Response<GalleryDto>)
    requires db.Valid()
    modifies db.media
    ensures var found := GalleryRepository.FindByShortCode(db.galleries, shortCode);
      var d := PublicRead(found.Some?, found.Some? && found.value.isPublic, found.Some? && found.value.HasPassword());
      (d.Deny? ==> r == Failure(d.status, d.reason) && MetadataUnchanged(db.media))
      && (d.Allow? ==>
            r.Success? && r.status == 200 && r.body.shortCode == shortCode && r.body.isPublic && !r.body.hasPassword
            && Describes(r.body, found.value, db, store)
            && r.body.media.totalCount == |db.GalleryMedia(found.value.id)|
            && Listed(db.GalleryMedia(found.value.id), store, tryParse)
            && forall m :: m in db.media && m.galleryId != Some(found.value.id) ==> m.Meta() == old(m.Meta()))
  {
    var found := GalleryRepository.FindByShortCode(db.galleries, shortCode);
    var d := PublicRead(found.Some?, found.Some? && found.value.isPublic, found.Some? && found.value.HasPassword());
    if d.Deny? {
      return Failure(d.status, d.reason);
    }
    var dto := DescribeGallery(db, store, tryParse, found.value);
    return Success(200, dto);
  }

  /** `VerifyPassword`: a public, password-protected gallery for whoever knows the password;
      `verify(hash, password)` is the hasher's verdict. */
  method VerifyPassword(db: Db, store: ObjectStore, tryParse: string -> Option<int>, shortCode: string,
                        password: string, verify: (string, string) -> bool) returns (r: Response<GalleryDto>)
    requires db.Valid()
    modifies db.media
    ensures var found := GalleryRepository.FindByShortCode(db.galleries, shortCode);
      var protected := found.Some? && found.value.HasPassword();
      var d := PasswordRead(found.Some?, found.Some? && found.value.isPublic, protected,
                            protected && verify(found.value.passwordHash.value, password));
      (d.Deny? ==> r == Failure(d.status, d.reason) && MetadataUnchanged(db.media))
      && (d.Allow? ==>
            r.Success? && r.status == 200 && r.body.shortCode == shortCode && r.body.isPublic && r.body.hasPassword
            && Describes(r.body, found.value, db, store)
            && r.body.media.totalCount == |db.GalleryMedia(found.value.id)|
            && Listed(db.GalleryMedia(found.value.id), store, tryParse)
            && forall m :: m in db.media && m.galleryId != Some(found.value.id) ==> m.Meta() == old(m.Meta()))
  {
    var found := GalleryRepository.FindByShortCode(db.galleries, shortCode);
    var protected := found.Some? && found.value.HasPassword();
    var passwordOk := protected && verify(found.value.passwordHash.value, password);
    var d := PasswordRead(found.Some?, found.Some? && found.value.isPublic, protected, passwordOk);
    if d.Deny? {
      return Failure(d.status, d.reason);
    }
    var dto := DescribeGallery(db, store, tryParse, found.value);
    return Success(200, dto);
  }

  /** The ids of the galleries `userId` owns. */
  function UserGalleryIds(gs: seq<Gallery>, userId: Guid): set<Guid>
  {
    set g | g in gs && g.userId == userId :: g.id
  }

  /** The ids of a sequence of galleries: the ids `DescribeAll` refreshes the media of. */
  function IdsOf(gs: seq<Gallery>): (ids: set<Guid>)
    ensures forall i :: 0 <= i < |gs| ==> gs[i].id in ids
    ensures forall x :: x in ids ==> exists i :: 0 <= i < |gs| && gs[i].id == x
  {
    set g | g in gs :: g.id
  }

  lemma IdsOfPrefix(gs: seq<Gallery>, k: nat)
    requires k < |gs|
    ensures IdsOf(gs[..k + 1]) == IdsOf(gs[..k]) + {gs[k].id}
  {
    assert gs[..k + 1] == gs[..k] + [gs[k]];
  }

  lemma MyGalleryIds(gs: seq<Gallery>, userId: Guid)
    ensures IdsOf(GalleryRepository.GetByUserId(gs, userId)) == UserGalleryIds(gs, userId)
  {
    var mine := GalleryRepository.GetByUserId(gs, userId);
    forall x | x in UserGalleryIds(gs, userId) ensures x in IdsOf(mine) {
      var g :| g in gs && g.userId == userId && g.id == x;
      assert g in mine;
    }
  }

  /** Every item of `ms` carries its metadata from `start`, refreshed as a listing refreshes it
      when the item belongs to one of the galleries `ids`. */
  ghost predicate RefreshedFor(ms: seq<Media>, start: map<Media, Metadata>, ids: set<Guid>,
                               store: ObjectStore, tryParse: string -> Option<int>)
    reads (set m | m in ms), store
  {
    forall m :: m in ms ==>
      m in start
      && m.Meta() == if m.galleryId.Some? && m.galleryId.value in ids
                     then Refreshed(start[m], store.TagReplyFor(m.s3Key), tryParse)
                     else start[m]
  }

  /** `d` is the owner's view of `g` (`ToGalleryDto`): the gallery's fields and the listing of
      its media rows as they stand. */
  predicate Describes(d: GalleryDto, g: Gallery, db: Db, store: ObjectStore)
    reads g, db, set m | m in db.media
  {
    d == ToGalleryDto(g, MediaDtos(db.GalleryMedia(g.id), store))
  }

  /** The metadata a listing shows for `m` once it has refreshed the bundle recorded in `start`. */
  ghost function ListedMeta(m: Media, start: map<Media, Metadata>, store: ObjectStore,
                            tryParse: string -> Option<int>): Metadata
    reads store
  {
    Refreshed(if m in start then start[m] else NoMetadata, store.TagReplyFor(m.s3Key), tryParse)
  }

  /** The listing of `items` once each is refreshed from `start`. */
  ghost function ListedItems(items: seq<Media>, start: map<Media, Metadata>, store: ObjectStore,
                             tryParse: string -> Option<int>): (r: seq<MediaDto>)
    reads store
    ensures |r| == |items|
    ensures forall i :: 0 <= i < |items| ==>
      r[i] == DtoWith(items[i], ListedMeta(items[i], start, store, tryParse), store.downloadUrl(items[i].s3Key))
  {
    if items == [] then []
    else [DtoWith(items[0], ListedMeta(items[0], start, store, tryParse), store.downloadUrl(items[0].s3Key))]
         + ListedItems(items[1..], start, store, tryParse)
  }

  /** The owner's view of `g` once its media are refreshed from `start`; it reads no metadata. */
  ghost function Expected(g: Gallery, db: Db, start: map<Media, Metadata>, store: ObjectStore,
                          tryParse: string -> Option<int>): GalleryDto
    reads g, db, store
  {
    ToGalleryDto(g, ListedItems(db.GalleryMedia(g.id), start, store, tryParse))
  }

  ghost function ExpectedAll(gs: seq<Gallery>, db: Db, start: map<Media, Metadata>, store: ObjectStore,
                             tryParse: string -> Option<int>): (r: seq<GalleryDto>)
    reads (set g | g in gs), db, store
    ensures |r| == |gs| && forall i :: 0 <= i < |gs| ==> r[i] == Expected(gs[i], db, start, store, tryParse)
  {
    if gs == [] then [] else [Expected(gs[0], db, start, store, tryParse)] + ExpectedAll(gs[1..], db, start, store, tryParse)
  }

  /** Once the media of `g` are refreshed from `start`, the owner's view of `g` is the expected one. */
  lemma DescribedWhenRefreshed(g: Gallery, db: Db, start: map<Media, Metadata>, ids: set<Guid>,
                               store: ObjectStore, tryParse: string -> Option<int>)
    requires RefreshedFor(db.media, start, ids, store, tryParse) && g.id in ids
    ensures Describes(Expected(g, db, start, store, tryParse), g, db, store)
  {
    var items := db.GalleryMedia(g.id);
    var now := MediaDtos(items, store);
    var later := ListedItems(items, start, store, tryParse);
    forall i | 0 <= i < |items| ensures now[i] == later[i] {
      var m := items[i];
      assert m in db.media && m.galleryId == Some(g.id);
      assert m.Meta() == ListedMeta(m, start, store, tryParse);
    }
    assert now == later;
  }

  /** One step of `GetMyGalleries`: describe one more gallery. `want` is its expected view. */
  method DescribeNext(db: Db, store: ObjectStore, tryParse: string -> Option<int>, g: Gallery,
                      ghost start: map<Media, Metadata>, ghost ids: set<Guid>, ghost want: GalleryDto)
    returns (d: GalleryDto)
    requires db.Valid() && RefreshedFor(db.media, start, ids, store, tryParse)
    requires want == Expected(g, db, start, store, tryParse)
    modifies db.media
    ensures d == want
    ensures RefreshedFor(db.media, start, ids + {g.id}, store, tryParse)
  {
    d := DescribeGallery(db, store, tryParse, g);
    forall m | m in db.media && m.galleryId == Some(g.id)
      ensures m.Meta() == Refreshed(start[m], store.TagReplyFor(m.s3Key), tryParse)
    {
      assert m in db.GalleryMedia(g.id);
      RefreshedIdempotent(start[m], store.TagReplyFor(m.s3Key), tryParse);
    }
    DescribedWhenRefreshed(g, db, start, ids + {g.id}, store, tryParse);
  }

  lemma ListExtend(list: seq<GalleryDto>, d: GalleryDto, want: seq<GalleryDto>, k: nat)
    requires |list| == k < |want| && d == want[k]
    requires forall i :: 0 <= i < k ==> list[i] == want[i]
    ensures forall i :: 0 <= i < k + 1 ==> (list + [d])[i] == want[i]
  {
  }

  /** The loop of `GetMyGalleries`: describe each gallery of `gs` in turn. */
  method DescribeAll(db: Db, store: ObjectStore, tryParse: string -> Option<int>, gs: seq<Gallery>)
    returns (list: seq<GalleryDto>)
    requires db.Valid()
    modifies db.media
    ensures |list| == |gs| && forall i :: 0 <= i < |gs| ==> Describes(list[i], gs[i], db, store)
    ensures RefreshedFor(db.media, map m | m in old(db.media) :: old(m.Meta()), IdsOf(gs), store, tryParse)
  {
    ghost var start := map m | m in db.media :: m.Meta();
    ghost var want := ExpectedAll(gs, db, start, store, tryParse);
    list := [];
    for k := 0 to |gs|
      invariant |list| == k
      invariant forall i :: 0 <= i < k ==> list[i] == want[i]
      invariant RefreshedFor(db.media, start, IdsOf(gs[..k]), store, tryParse)
    {
      IdsOfPrefix(gs, k);
      assert want[k] == old(Expected(gs[k], db, start, store, tryParse));
      var dto := DescribeNext(db, store, tryParse, gs[k], start, IdsOf(gs[..k]), want[k]);
      ListExtend(list, dto, want, k);
      list := list + [dto];
    }
    assert gs[..|gs|] == gs;
    forall i | 0 <= i < |gs| ensures Describes(list[i], gs[i], db, store) {
      assert want[i] == old(Expected(gs[i], db, start, store, tryParse));
      assert gs[i].id in IdsOf(gs);
      DescribedWhenRefreshed(gs[i], db, start, IdsOf(gs), store, tryParse);
    }
  }

  /** `GetMyGalleries`: the caller's galleries, newest first, each with its media listing. */
  method GetMyGalleries(db: Db, store: ObjectStore, tryParse: string -> Option<int>, userId: Guid)
    returns (r: Response<GalleryList>)
    requires db.Valid()
    modifies db.media
    ensures userId == EmptyGuid ==> r == Failure(401, "unauthorized") && MetadataUnchanged(db.media)
    ensures userId != EmptyGuid ==>
      var mine := GalleryRepository.GetByUserId(db.galleries, userId);
      r.Success? && r.status == 200 && |r.body.galleries| == r.body.totalCount == |mine|
      && (forall i :: 0 <= i < |mine| ==> Describes(r.body.galleries[i], mine[i], db, store))
      && (forall m :: m in db.media ==>
            m.Meta() == if m.galleryId.Some? && m.galleryId.value in UserGalleryIds(db.galleries, userId)
                        then Refreshed(old(m.Meta()), store.TagReplyFor(m.s3Key), tryParse)
                        else old(m.Meta()))
  {
    if userId == EmptyGuid {
      return Failure(401, "unauthorized");
    }
    var mine := GalleryRepository.GetByUserId(db.galleries, userId);
    var list := DescribeAll(db, store, tryParse, mine);
    MyGalleryIds(db.galleries, userId);
    return Success(200, GalleryList(list, |list|));
  }
}
