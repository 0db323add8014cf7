/** The anonymous-gallery endpoints (`AnonymousGalleryController`). Nobody signs in: the access
    key returned at creation is the management credential, the short code is the public read
    handle. Upload requests and public reads refuse an expired gallery; confirming and deleting
    media do not check the expiry. New ids, the random access key, storage-key disambiguators
    and the clock are inputs. */
module AnonymousGalleryController {
  import opened Wrappers
  import opened KappiTypes
  import opened Seqs
  import opened Strings
  import opened AnonymousGalleryModel
  import opened MediaModel
  import opened ObjectStorage
  import opened MediaMetadataService
  import opened MediaListing
  import opened KappiDb
  import opened GalleryController
  import GalleryRepository
  import MediaRepository
  import AnonymousGalleryRepository
  import ShortCodeGenerator

  datatype CreatedGallery = CreatedGallery(id: Guid, shortCode: string, accessKey: string, expiresAt: Time)

  datatype AnonymousGalleryDto = AnonymousGalleryDto(
    id: Guid,
    shortCode: string,
    expiresAt: Time,
    createdAt: Time,
    media: MediaList)

  /** The checks before an upload request or a public read: the gallery exists, then it has
      not expired. */
  function LiveAccess(found: Option<AnonymousGallery>, now: Time): (d: Decision)
    ensures d.Allow? <==> found.Some? && !IsExpired(found.value, now)
  {
    if found.None? then Deny(404, "gallery_not_found")
    else if IsExpired(found.value, now) then Deny(410, "gallery_expired")
    else Allow
  }

  /** An expired gallery stays closed to uploads and reads from then on. */
  lemma ClosedOnceExpired(found: Option<AnonymousGallery>, now: Time, later: Time)
    requires found.Some? && IsExpired(found.value, now) && now <= later
    ensures LiveAccess(found, later) == Deny(410, "gallery_expired")
  {
    ExpiryIsPermanent(found.value, now, later);
  }

  /** A gallery just created is open at its creation instant. */
  lemma OpenWhenNew(id: Guid, shortCode: string, accessKey: string, createdAt: Time, now: Time)
    requires createdAt <= now
    ensures LiveAccess(Some(NewAnonymousGallery(id, shortCode, accessKey, createdAt, now)), now) == Allow
  {
    NewGalleryLifetime(id, shortCode, accessKey, createdAt, now);
  }

  /** The storage key of a file uploaded to an anonymous gallery. */
  function AnonymousMediaKey(galleryId: Guid, disambiguator: Guid, fileName: string): string
  {
    "galleries/anonymous/" + galleryId.text + "/" + disambiguator.text + "-" + fileName
  }

  /** The key's path segments give back the gallery and the disambiguated file name, as long
      as none of the parts holds a '/'. */
  lemma AnonymousMediaKeySegments(galleryId: Guid, disambiguator: Guid, fileName: string)
    requires '/' !in galleryId.text && '/' !in disambiguator.text && '/' !in fileName
    ensures Split(AnonymousMediaKey(galleryId, disambiguator, fileName), '/')
         == ["galleries", "anonymous", galleryId.text, disambiguator.text + "-" + fileName]
  {
    var last := disambiguator.text + "-" + fileName;
    var parts := ["galleries", "anonymous", galleryId.text, last];
    assert '/' !in last by {
      forall i | 0 <= i < |last| ensures last[i] != '/' {
        if i < |disambiguator.text| {
          assert last[i] == disambiguator.text[i];
        } else if i > |disambiguator.text| {
          assert last[i] == fileName[i - |disambiguator.text| - 1];
        }
      }
    }
    assert parts[3..] == [last];
    assert Join(parts[2..], "/") == galleryId.text + "/" + last by {
      assert parts[2..][1..] == parts[3..];
    }
    assert Join(parts[1..], "/") == "anonymous/" + galleryId.text + "/" + last by {
      assert parts[1..][1..] == parts[2..];
    }
    assert "galleries/anonymous/" == "galleries" + "/" + "anonymous/";
    assert Join(parts, "/") == AnonymousMediaKey(galleryId, disambiguator, fileName);
    assert forall i :: 0 <= i < |parts| ==> '/' !in parts[i] by {
      assert '/' !in "galleries" && '/' !in "anonymous";
    }
    SplitOnJoin(parts, "/");
  }

  /** The media item `mediaId` when it belongs to the anonymous gallery `id`; another
      gallery's media item is treated as missing. */
  function MediaOfAnonymousGallery(ms: seq<Media>, mediaId: Guid, id: Guid): (r: Option<Media>)
    ensures r.Some? ==> r.value in ms && r.value.id == mediaId && r.value.anonymousGalleryId == Some(id)
    ensures r.None? <==>
      (MediaRepository.FindById(ms, mediaId).None? || MediaRepository.FindById(ms, mediaId).value.anonymousGalleryId != Some(id))
  {
    var m := MediaRepository.FindById(ms, mediaId);
    if m.None? || m.value.anonymousGalleryId != Some(id) then None else m
  }

  /** `CreateAnonymousGallery`: a fresh short code, the given access key and a 30-day expiry.
      `createdAt` and `now` are the two clock readings of the constructor. */
  method CreateAnonymousGallery(db: Db, draws: seq<seq<nat>>, accessKey: string, newId: Guid, createdAt: Time, now: Time)
    returns (r: Response<CreatedGallery>)
    requires db.Valid() && ShortCodeGenerator.ValidDraws(draws)
    modifies db
    ensures db.Valid()
    ensures old(db.ShortCodesDisjoint()) ==> db.ShortCodesDisjoint()
    ensures db.galleries == old(db.galleries) && db.media == old(db.media)
    ensures r.Failure? ==> r == Failure(500, "failed_to_create_gallery") && db.anonymousGalleries == old(db.anonymousGalleries)
    ensures var search := ShortCodeGenerator.Search(draws,
              AnonymousGalleryRepository.ShortCodes(old(db.anonymousGalleries)) + GalleryRepository.ShortCodes(old(db.galleries)), 0);
      (r.Success? <==>
         search.Code? && newId !in AnonymousGalleryIds(old(db.anonymousGalleries))
         && AnonymousGalleryRepository.FindByAccessKey(old(db.anonymousGalleries), accessKey).None?
         && |accessKey| <= MaxAccessKeyLength)
      && (r.Success? ==>
            var a := NewAnonymousGallery(newId, search.code, accessKey, createdAt, now);
            r == Success(201, CreatedGallery(newId, search.code, accessKey, now + Lifetime))
            && db.anonymousGalleries == old(db.anonymousGalleries) + [a]
            && search.code !in AnonymousGalleryRepository.ShortCodes(old(db.anonymousGalleries))
            && search.code !in GalleryRepository.ShortCodes(old(db.galleries)))
  {
    var anonymousCodes := AnonymousGalleryRepository.ShortCodes(db.anonymousGalleries);
    var galleryCodes := GalleryRepository.ShortCodes(db.galleries);
    var code: ShortCodeGenerator.Generated;
    ghost var attempts: nat;
    code, attempts := ShortCodeGenerator.GenerateUniqueShortCode(draws, anonymousCodes, galleryCodes);
    if code.Exhausted? {
      return Failure(500, "failed_to_create_gallery");
    }
    var a := NewAnonymousGallery(newId, code.code, accessKey, createdAt, now);
    var saved := db.SaveAnonymousGallery(a);
    if !saved {
      return Failure(500, "failed_to_create_gallery");
    }
    if old(db.ShortCodesDisjoint()) {
      AnonymousCodesStayDisjoint(db.galleries, old(db.anonymousGalleries), a);
    }
    return Success(201, CreatedGallery(a.id, a.shortCode, a.accessKey, a.expiresAt));
  }

  /** `RequestUploadUrl`: one new media row of the live gallery, then a pre-signed upload URL.
      The row is saved before the URL is minted, so a failure to mint it leaves the row behind.
      The clock is read twice: `now` for the expiry check, then `createdAt` by the new row's
      `CreatedAt` initializer. */
  method RequestUploadUrl(db: Db, store: ObjectStore, accessKey: string, fileName: string, contentType: string,
                          disambiguator: Guid, mediaId: Guid, now: Time, createdAt: Time)
    returns (r: Response<UploadUrl>)
    requires db.Valid()
    modifies db
    ensures db.Valid()
    ensures db.galleries == old(db.galleries) && db.anonymousGalleries == old(db.anonymousGalleries)
    ensures var found := AnonymousGalleryRepository.FindByAccessKey(db.anonymousGalleries, accessKey);
      var d := LiveAccess(found, now);
      (d.Deny? ==> r == Failure(d.status, d.reason) && db.media == old(db.media))
      && (d.Allow? ==>
            var key := AnonymousMediaKey(found.value.id, disambiguator, fileName);
            var saved := mediaId !in MediaIds(old(db.media)) && key !in S3Keys(old(db.media)) && |key| <= MaxS3KeyLength;
            (r.Success? <==> saved && key !in store.faulty)
            && (r.Failure? ==> r == Failure(500, "failed_to_generate_upload_url"))
            && (r.Success? ==> r == Success(200, UploadUrl(mediaId, store.uploadUrl(key, contentType), key)))
            && (!saved ==> db.media == old(db.media))
            && (saved ==>
                  |db.media| == |old(db.media)| + 1 && db.media[..|old(db.media)|] == old(db.media)
                  && var m := db.media[|old(db.media)|];
                     fresh(m) && m.id == mediaId && m.anonymousGalleryId == Some(found.value.id) && m.galleryId == None
                     && m.s3Key == key && m.createdAt == createdAt && m.Meta() == NoMetadata))
  {
    var found := AnonymousGalleryRepository.FindByAccessKey(db.anonymousGalleries, accessKey);
    var d := LiveAccess(found, now);
    if d.Deny? {
      return Failure(d.status, d.reason);
    }
    var g := found.value;
    var key := AnonymousMediaKey(g.id, disambiguator, fileName);
    var m := new Media.ForAnonymousGallery(mediaId, g.id, key, createdAt);
    var saved := db.SaveMedia(m);
    if !saved {
      return Failure(500, "failed_to_generate_upload_url");
    }
    var threw, url := store.PresignUpload(key, contentType);
    if threw {
      return Failure(500, "failed_to_generate_upload_url");
    }
    return Success(200, UploadUrl(mediaId, url, key));
  }

  /** `ConfirmUpload`: checks that the object was uploaded, then backfills its metadata
      (whose outcome does not change the response). */
  method ConfirmUpload(db: Db, store: ObjectStore, tryParse: string -> Option<int>, accessKey: string, mediaId: Guid)
    returns (r: Response<Done>)
    requires db.Valid()
    modifies db.media
    ensures var found := AnonymousGalleryRepository.FindByAccessKey(db.anonymousGalleries, accessKey);
      var m := if found.Some? then MediaOfAnonymousGallery(db.media, mediaId, found.value.id) else None;
      (found.None? ==> r == Failure(404, "gallery_not_found"))
      && (found.Some? && m.None? ==> r == Failure(404, "media_not_found"))
      && (m.Some? && m.value.s3Key in store.faulty ==> r == Failure(500, "failed_to_confirm_upload"))
      && (m.Some? && m.value.s3Key !in store.faulty && m.value.s3Key !in store.objects ==>
            r == Failure(404, "media_not_uploaded"))
      && (r.Failure? ==> MetadataUnchanged(db.media))
      && (r.Success? <==> m.Some? && m.value.s3Key !in store.faulty && m.value.s3Key in store.objects)
      && (r.Success? ==>
            r == Success(200, Done("success"))
            && m.value.Meta() == Backfill(old(m.value.Meta()), store.TagReplyFor(m.value.s3Key), tryParse).1
            && forall x :: x in db.media && x != m.value ==> x.Meta() == old(x.Meta()))
  {
    var found := AnonymousGalleryRepository.FindByAccessKey(db.anonymousGalleries, accessKey);
    if found.None? {
      return Failure(404, "gallery_not_found");
    }
    var m := MediaOfAnonymousGallery(db.media, mediaId, found.value.id);
    if m.None? {
      return Failure(404, "media_not_found");
    }
    var threw, present := store.KeyExists(m.value.s3Key);
    if threw {
      return Failure(500, "failed_to_confirm_upload");
    }
    if !present {
      return Failure(404, "media_not_uploaded");
    }
    var _ := FetchAndStoreMetadata(m.value, store, tryParse);
    return Success(200, Done("success"));
  }

  /** `GetByShortCode`: a live gallery with its media listing, for anyone. */
  method GetByShortCode(db: Db, store: ObjectStore, tryParse: string -> Option<int>, shortCode: string, now: Time)
    returns (r: Response<AnonymousGalleryDto>)
    requires db.Valid()
    modifies db.media
    ensures var found := AnonymousGalleryRepository.FindByShortCode(db.anonymousGalleries, shortCode);
      var d := LiveAccess(found, now);
      (d.Deny? ==> r == Failure(d.status, d.reason) && MetadataUnchanged(db.media))
      && (d.Allow? ==>
            var g := found.value;
            var items := db.AnonymousGalleryMedia(g.id);
            r.Success? && r.status == 200
            && r.body.id == g.id && r.body.shortCode == shortCode && r.body.expiresAt == g.expiresAt
            && r.body.createdAt == g.createdAt
            && r.body.media.items == MediaDtos(items, store) && r.body.media.totalCount == |items|
            && Listed(items, store, tryParse)
            && forall m :: m in db.media && m.anonymousGalleryId != Some(g.id) ==> m.Meta() == old(m.Meta()))
  {
    var found := AnonymousGalleryRepository.FindByShortCode(db.anonymousGalleries, shortCode);
    var d := LiveAccess(found, now);
    if d.Deny? {
      return Failure(d.status, d.reason);
    }
    var g := found.value;
    FilterDistinct(db.media, MediaRepository.InAnonymousGallery(g.id));
    var items := db.AnonymousGalleryMedia(g.id);
    var dtos := GetMediaDtos(items, store, tryParse);
    return Success(200, AnonymousGalleryDto(g.id, g.shortCode, g.expiresAt, g.createdAt, MediaList(dtos, |dtos|)));
  }

  /** `DeleteMedia`: the storage object, then the media row. */
  method DeleteMedia(db: Db, store: ObjectStore, accessKey: string, mediaId: Guid) returns (r: Response<Done>)
    requires db.Valid()
    modifies db, store
    ensures db.Valid()
    ensures db.galleries == old(db.galleries) && db.anonymousGalleries == old(db.anonymousGalleries)
    ensures var found := AnonymousGalleryRepository.FindByAccessKey(db.anonymousGalleries, accessKey);
      var m := if found.Some? then MediaOfAnonymousGallery(old(db.media), mediaId, found.value.id) else None;
      (found.None? ==> r == Failure(404, "gallery_not_found"))
      && (found.Some? && m.None? ==> r == Failure(404, "media_not_found"))
      && (m.Some? && m.value.s3Key in store.faulty ==> r == Failure(500, "failed_to_delete_media"))
      && (r.Failure? ==> db.media == old(db.media) && store.objects == old(store.objects))
      && (r.Success? <==> m.Some? && m.value.s3Key !in store.faulty)
      && (r.Success? ==>
            r == Success(200, Done("success"))
            && store.objects == old(store.objects) - {m.value.s3Key}
            && db.media == Filter(old(db.media), (x: Media) => x != m.value))
  {
    var found := AnonymousGalleryRepository.FindByAccessKey(db.anonymousGalleries, accessKey);
    if found.None? {
      return Failure(404, "gallery_not_found");
    }
    var m := MediaOfAnonymousGallery(db.media, mediaId, found.value.id);
    if m.None? {
      return Failure(404, "media_not_found");
    }
    var threw := store.DeleteObject(m.value.s3Key);
    if threw {
      return Failure(500, "failed_to_delete_media");
    }
    db.RemoveMedia(m.value);
    return Success(200, Done("success"));
  }
}
