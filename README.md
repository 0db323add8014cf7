# kappi.gg — a Dafny model of the gallery core

kappi.gg is a photo and video sharing service. Signed-in users keep **owned galleries**
(private or public, optionally password-protected). Anyone can create an **anonymous
gallery** that lives for 30 days and is managed through a random access key. Both kinds are
reached publicly through a short code. Media files go straight to object storage through
pre-signed URLs. A storage-side function reads each upload's type and dimensions into object
tags, and the API copies those tags into the media rows on demand. A background service
sweeps expired anonymous galleries every hour. The web frontend stores the session in three
cookies, refreshes access tokens, and keeps two client-side stores: the upload queue and the
recently created anonymous galleries.

The model follows the source file by file, one Dafny module each:

- **Entities.**
  - `Gallery` (`gallery.dfy`), `Media` (`media.dfy`) and `RefreshToken` (`refresh_token.dfy`)
    are classes, because the source changes their fields in place.
  - `AnonymousGallery` (`anonymous_gallery.dfy`) is a value.
  - Fields the source assigns only in a constructor are `const`.
- **Database context.** `KappiDb.Db` (`kappi_db.dfy`) holds the three tables as sequences in
  row order. Its invariant is the migrated schema: unique ids, short codes, access keys and
  storage keys; the bounds of the fixed columns; foreign keys; one parent per media row.
  The password hash can change after insertion, so its 255-character bound is checked on
  each save of a gallery (insert and update) rather than kept in the invariant.
  - A save that would break the schema is rejected as a whole.
  - The token tables of the user module live in `RefreshTokenRepository.UserDb`.
- **Queries.** The repositories (`*_repository.dfy`) are functions over the tables.
- **Actions.**
  - The controller actions (`gallery_controller.dfy`, `anonymous_gallery_controller.dfy`,
    `token_refresh_controller.dfy`), the metadata backfill (`media_metadata_service.dfy`,
    `media_listing.dfy`) and the cleanup pass (`cleanup_service.dfy`) are methods.
  - Each method's postcondition states the response for every branch: status code and reason
    code, and which rows and storage objects change.
  - The access decisions are shared functions with lemmas about them.
- **Short codes.** `short_code_generator.dfy` models the generator as a method over explicit
  random draws, proved against a specification function of the 70-attempt search.
- **Storage-side extractor.** `metadata_extractor.dfy` holds the pure part of the function:
  the JPEG marker scan (a method proved against a recursive specification), the PNG header
  read, and the signature / content-type / extension fallbacks. Writer functions and
  round-trip lemmas go with them.
- **Cookies.**
  - `cookies.dfy` describes the `Cookie` request header.
  - `auth_server.dfy` covers the frontend's server-side cookie helpers (`Set-Cookie` headers,
    the parser, expiry checks).
  - `auth_client.dfy` covers the browser-side lookup.
  - Lemmas relate what the login helper writes to what both readers give back.
  - They also show where the two readers disagree: a cookie name sent twice.
- **Client stores.** `upload_store.dfy` and `gallery_store.dfy` model the two stores as pure
  state transitions.
- **Helpers.** `wrappers.dfy`, `seqs.dfy`, `strings.dfy` and `kappi_types.dfy` hold the
  shared types and the sequence and string functions: JavaScript `split`, `trim` and decimal
  text.
- **Object storage.** `object_store.dfy` stands in for the storage service the backend calls.

The gallery DTO's media field is the listing the controllers build, a `MediaListResponse` of
items and count (backend/api/Modules/Kappi/Controllers/GalleryController.cs:498-508). The
record declaration in backend/api/Modules/Kappi/DTOs/GalleryDto.cs:9 types it as a plain list.
The model follows the controller.

Clocks, random values, new ids, integer and date parsing, the password hasher and storage
failures are parameters. Time is in whole seconds on the backend and in milliseconds on the
frontend.

## Model

| member | source | states |
|---|---|---|
| ShortCodeGenerator.AlphabetExcludesLookalikes | backend/api/Modules/Kappi/Services/ShortCodeGenerator.cs:11-14 | the alphabet has 30 characters and none of 0, 1, i, j, l, v; the search makes at most 70 attempts (7 lengths, 10 retries each) |
| ShortCodeGenerator.DigitLookalikesExcluded | backend/api/Modules/Kappi/Services/ShortCodeGenerator.cs:11 | 0, 1 and i are not in the alphabet |
| ShortCodeGenerator.LetterLookalikesExcluded | backend/api/Modules/Kappi/Services/ShortCodeGenerator.cs:11 | j, l and v are not in the alphabet |
| ShortCodeGenerator.GenerateShortCode | backend/api/Modules/Kappi/Services/ShortCodeGenerator.cs:47-58 | the code has the requested length and its i-th character is the alphabet character at the i-th random pick, so every character is from the alphabet |
| ShortCodeGenerator.CodeAt | backend/api/Modules/Kappi/Services/ShortCodeGenerator.cs:22-24 | the code of the k-th attempt has the length that attempt uses |
| ShortCodeGenerator.LengthSchedule | backend/api/Modules/Kappi/Services/ShortCodeGenerator.cs:18-40 | lengths stay within 4..10 and go up by one exactly after every 10 attempts |
| ShortCodeGenerator.SearchFound | backend/api/Modules/Kappi/Services/ShortCodeGenerator.cs:20-37 | a code the search returns is not taken, is 4 to 10 characters long, uses only the alphabet and is the draw of some attempt |
| ShortCodeGenerator.SearchExhausted | backend/api/Modules/Kappi/Services/ShortCodeGenerator.cs:20-44 | the search gives up exactly when every remaining attempt collides |
| ShortCodeGenerator.GenerateUniqueShortCode | backend/api/Modules/Kappi/Services/ShortCodeGenerator.cs:16-45 | the loops return the first draw that is in neither table, after at most 70 attempts, all earlier draws having collided; the exhausted outcome comes only after all 70 attempts collided |
| GalleryModel.Gallery.constructor | backend/api/Modules/Kappi/Models/Gallery.cs:24-48 | a new gallery has the given id, owner and short code, is private, has no password and is created now |
| GalleryModel.Gallery.SetPassword | backend/api/Modules/Kappi/Models/Gallery.cs:50-53 | the hash is stored; visibility is unchanged |
| GalleryModel.Gallery.ClearPassword | backend/api/Modules/Kappi/Models/Gallery.cs:55-58 | the hash is removed, so the gallery has no password; visibility is unchanged |
| AnonymousGalleryModel.NewAnonymousGallery | backend/api/Modules/Kappi/Models/AnonymousGallery.cs:30-42 | a new anonymous gallery keeps id, short code and access key and expires exactly 30 days after the constructor's clock reading |
| AnonymousGalleryModel.ExpiryIsPermanent | backend/api/Modules/Kappi/Models/AnonymousGallery.cs:27-41 | the expiry is never moved, so an expired gallery stays expired as time passes |
| AnonymousGalleryModel.NewGalleryLifetime | backend/api/Modules/Kappi/Models/AnonymousGallery.cs:30-41 | a new gallery lives at least 30 days after its creation time, is not expired when made, and expires within 31 days |
| MediaModel.Media.ForAnonymousGallery | backend/api/Modules/Kappi/Models/Media.cs:52-57 | a media item of an anonymous gallery: only the anonymous parent id is set, and the metadata is empty |
| MediaModel.Media.ForGallery | backend/api/Modules/Kappi/Models/Media.cs:59-64 | a media item of an owned gallery: only the owned parent id is set, and the metadata is empty |
| MediaModel.Media.SetMetadata | backend/api/Modules/Kappi/Models/Media.cs:66-72 | all four metadata fields are overwritten together, null included |
| GalleryRepository.FindById | backend/api/Modules/Kappi/Repository/GalleryRepository.cs:12-18 | the gallery with that id, or none exactly when no row has it |
| GalleryRepository.FindByShortCode | backend/api/Modules/Kappi/Repository/GalleryRepository.cs:20-26 | the gallery with that short code, or none exactly when no row has it |
| GalleryRepository.FindByIdAndUserId | backend/api/Modules/Kappi/Repository/GalleryRepository.cs:43-48 | a gallery with both the id and the owner; a gallery of another user is not found |
| GalleryRepository.ExistsByShortCode | backend/api/Modules/Kappi/Repository/GalleryRepository.cs:28-32 | true exactly when some row has the short code |
| GalleryRepository.ShortCodes | backend/api/Modules/Kappi/Repository/GalleryRepository.cs:28-32 | the set of codes in use; membership is exactly the existence check |
| GalleryRepository.ShortCodesAppend | backend/api/Modules/Kappi/Repository/GalleryRepository.cs:28-32 | adding a row adds exactly its code to the codes in use |
| GalleryRepository.GetByUserId | backend/api/Modules/Kappi/Repository/GalleryRepository.cs:34-41 | exactly the user's galleries, newest first, as many as the user has |
| MediaRepository.FindById | backend/api/Modules/Kappi/Repository/MediaRepository.cs:12-16 | the media item with that id, or none exactly when no row has it |
| MediaRepository.FindByS3Key | backend/api/Modules/Kappi/Repository/MediaRepository.cs:18-22 | the media item with that storage key, or none exactly when no row has it |
| MediaRepository.GetByGalleryId | backend/api/Modules/Kappi/Repository/MediaRepository.cs:32-38 | exactly the owned gallery's media, newest first, as many as it has |
| MediaRepository.GetByAnonymousGalleryId | backend/api/Modules/Kappi/Repository/MediaRepository.cs:24-30 | exactly the anonymous gallery's media, newest first, as many as it has |
| AnonymousGalleryRepository.FindById | backend/api/Modules/Kappi/Repository/AnonymousGalleryRepository.cs:12-17 | the gallery with that id, or none exactly when no row has it |
| AnonymousGalleryRepository.FindByShortCode | backend/api/Modules/Kappi/Repository/AnonymousGalleryRepository.cs:19-24 | the gallery with that short code, or none exactly when no row has it |
| AnonymousGalleryRepository.FindByAccessKey | backend/api/Modules/Kappi/Repository/AnonymousGalleryRepository.cs:26-31 | the gallery with that access key, or none exactly when no row has it |
| AnonymousGalleryRepository.ExistsByShortCode | backend/api/Modules/Kappi/Repository/AnonymousGalleryRepository.cs:33-37 | true exactly when some row has the short code |
| AnonymousGalleryRepository.ShortCodes | backend/api/Modules/Kappi/Repository/AnonymousGalleryRepository.cs:33-37 | the set of codes in use; membership is exactly the existence check |
| AnonymousGalleryRepository.ShortCodesAppend | backend/api/Modules/Kappi/Repository/AnonymousGalleryRepository.cs:33-37 | adding a row adds exactly its code to the codes in use |
| AnonymousGalleryRepository.GetExpired | backend/api/Modules/Kappi/Repository/AnonymousGalleryRepository.cs:39-45 | exactly the galleries whose expiry is at or before now (inclusive), as many as are expired |
| KappiDb.Db.constructor | backend/api/Migrations/20251004172754_AddKappiModule.cs:14-78 | the three tables start empty, which satisfies the unique indexes and foreign keys of the schema, and the two short-code namespaces are disjoint |
| KappiDb.Db.GalleryMedia | backend/api/Migrations/20251004172754_AddKappiModule.cs:68-77 | the media loaded with an owned gallery are exactly the rows whose gallery foreign key points at it |
| KappiDb.Db.AnonymousGalleryMedia | backend/api/Migrations/20251004172754_AddKappiModule.cs:68-77 | the media loaded with an anonymous gallery are exactly the rows whose anonymous-gallery foreign key points at it |
| KappiDb.Db.SaveGallery | backend/api/Modules/Common/Data/Db.cs:13-26 | the save succeeds exactly when the row keeps the unique indexes and the column bounds (short code at most 10 characters, password hash none or at most 255); then the row is appended, otherwise no table changes; the schema invariant holds afterwards |
| KappiDb.Db.SaveAnonymousGallery | backend/api/Modules/Common/Data/Db.cs:13-26 | the same for an anonymous gallery, whose access key and short code must both be unused |
| KappiDb.Db.SaveMedia | backend/api/Modules/Common/Data/Db.cs:13-26 | the same for a media row, which also needs an existing parent and an unused storage key |
| KappiDb.Db.RemoveMedia | backend/api/Modules/Common/Data/Db.cs:18-26 | exactly that row leaves the media table; the other rows keep their order; the galleries are untouched |
| KappiDb.Db.RemoveGallery | backend/api/Modules/Kappi/Controllers/GalleryController.cs:219-221 | the gallery row goes and, by cascade, exactly the media rows pointing at it; every other row stays in order and the foreign keys remain valid |
| KappiDb.Db.RemoveAnonymousGalleries | backend/api/Modules/Kappi/Services/AnonymousGalleryCleanupService.cs:67-78 | the marked anonymous galleries go and, by cascade, exactly their media rows; owned galleries are untouched and the foreign keys remain valid |
| KappiDb.ParentsAfterSetNull | backend/api/Migrations/20251004172754_AddKappiModule.cs:68-77 | with no delete rule on the media foreign keys, a parent id survives the deletion only when it did not point at a deleted gallery |
| KappiDb.SetNullLeavesOrphans | backend/api/Modules/Kappi/Controllers/GalleryController.cs:219-221 | as migrated, deleting an owned gallery leaves each of its media rows with neither parent |
| KappiDb.AnonymousSetNullLeavesOrphans | backend/api/Modules/Kappi/Services/AnonymousGalleryCleanupService.cs:67-68 | as migrated, sweeping an anonymous gallery leaves each of its media rows with neither parent |
| KappiDb.GalleryCodesStayDisjoint | backend/api/Modules/Kappi/Services/ShortCodeGenerator.cs:26-34 | a new owned gallery with a code that no anonymous gallery uses keeps the two code namespaces disjoint |
| KappiDb.AnonymousCodesStayDisjoint | backend/api/Modules/Kappi/Services/ShortCodeGenerator.cs:26-34 | a new anonymous gallery with a code that no owned gallery uses keeps the namespaces disjoint |
| KappiDb.FindGalleryById | backend/api/Modules/Kappi/Repository/GalleryRepository.cs:12-18 | with unique ids, finding by a row's id returns that very row |
| MediaMetadataService.Tag | backend/api/Modules/Kappi/Services/MediaMetadataService.cs:36 | `GetValueOrDefault`: the tag's value exactly when the key is present |
| MediaMetadataService.ParseIntTag | backend/api/Modules/Kappi/Services/MediaMetadataService.cs:66-73 | a number exactly when the key is present and its value parses, and then the parsed value |
| MediaMetadataService.FromTags | backend/api/Modules/Kappi/Services/MediaMetadataService.cs:36-41 | the snake-case tag wins and the capitalised one is the fallback, for the media type, width and height; the size comes from storage |
| MediaMetadataService.Backfill | backend/api/Modules/Kappi/Services/MediaMetadataService.cs:13-64 | complete metadata is kept and reported as success; otherwise the result is success exactly when storage answered with tags and something was found; on failure the metadata is unchanged, and on success it is what the tags give |
| MediaMetadataService.BackfillIdempotent | backend/api/Modules/Kappi/Services/MediaMetadataService.cs:13-64 | a second backfill with the same storage replies changes nothing and reports the same |
| MediaMetadataService.FetchAndStoreMetadata | backend/api/Modules/Kappi/Services/MediaMetadataService.cs:13-64 | the reported success and the media item's new metadata are those of the backfill, with exceptions from either storage call reported as failure |
| MediaListing.ToMediaDto | backend/api/Modules/Kappi/Controllers/GalleryController.cs:485-493 | the DTO carries the item's id, creation time and four metadata fields, and the given download URL |
| MediaListing.RefreshedIdempotent | backend/api/Modules/Kappi/Controllers/GalleryController.cs:478-482 | refreshing metadata whose media type is set is a no-op, so a second refresh changes nothing |
| MediaListing.GetMediaDtos | backend/api/Modules/Kappi/Controllers/GalleryController.cs:472-496 | one DTO per item in order (the listing `MediaDtos` of the items after the refresh); an item without a media type is backfilled first, an item with one keeps its metadata |
| GalleryController.ToGalleryDto | backend/api/Modules/Kappi/Controllers/GalleryController.cs:498-508 | `hasPassword` holds exactly when a non-empty hash is stored; the listing holds the given items and their count |
| GalleryController.ShortCodeReadPaths | backend/api/Modules/Kappi/Controllers/GalleryController.cs:383-463 | a gallery found by short code is served by exactly one of the public read and the password check; a private gallery is served by neither |
| GalleryController.UserMediaKeySegments | backend/api/Modules/Kappi/Controllers/GalleryController.cs:257 | the storage key's path segments give back the user, the gallery and the disambiguated file name, when none of them holds a '/' |
| GalleryController.NewGallery | backend/api/Modules/Kappi/Controllers/GalleryController.cs:45-55 | the new gallery carries the given id, owner, short code and creation time, the requested visibility, and a password hash exactly when the password is non-empty |
| GalleryController.CreateGallery | backend/api/Modules/Kappi/Controllers/GalleryController.cs:34-69 | an anonymous caller gets 401; otherwise the gallery is created with the first free short code, the chosen visibility and, for a non-empty password, its hash; an exhausted code search or a rejected save (a taken id, or a hash longer than 255 characters) gives 500 and changes nothing; the code namespaces stay disjoint |
| GalleryController.DescribeGallery | backend/api/Modules/Kappi/Controllers/GalleryController.cs:127-131 | the DTO is `ToGalleryDto` of the gallery with the listing of its media rows as they stand after the refresh: every field and one `ToMediaDto` per row, in order; other galleries' media keep their metadata |
| GalleryController.GetGallery | backend/api/Modules/Kappi/Controllers/GalleryController.cs:110-138 | 401 for an anonymous caller, 404 when the caller owns no gallery with that id, else 200 with the gallery's full DTO (its fields and one listed item per media row) after the gallery's media are refreshed |
| GalleryController.ApplySettings | backend/api/Modules/Kappi/Controllers/GalleryController.cs:162-173 | the gallery ends with the requested visibility and with a password hash exactly when the password is non-empty, cleared otherwise |
| GalleryController.UpdateGallery | backend/api/Modules/Kappi/Controllers/GalleryController.cs:145-188 | 401 or 404 with nothing changed; for the owner, a password whose hash exceeds the 255-character column gives 500 with nothing changed; otherwise the visibility is set to the given value, a non-empty password stores its hash and an empty or missing one clears the password; no other gallery changes and no row is added or removed |
| GalleryController.MediaKeys | backend/api/Modules/Kappi/Controllers/GalleryController.cs:213 | the storage keys of the items, one per item in order |
| GalleryController.DeleteGallery | backend/api/Modules/Kappi/Controllers/GalleryController.cs:195-232 | for the owner, the objects of the gallery's media are deleted from storage, then the gallery and, by the intended cascade (see Findings), its media rows; otherwise 401 or 404 and nothing changes |
| GalleryController.RequestUploadUrl | backend/api/Modules/Kappi/Controllers/GalleryController.cs:239-276 | for the owner, one media row with the user/gallery storage key is added when the save accepts it; success, with the pre-signed upload URL for that key, exactly when it was added and pre-signing does not throw; a pre-signing failure gives 500 and keeps the new row; otherwise 401 or 404, or 500 for a rejected save, and nothing is added |
| GalleryController.MediaOfGallery | backend/api/Modules/Kappi/Controllers/GalleryController.cs:300-305 | the media item with that id when it belongs to the gallery; another gallery's item counts as missing |
| GalleryController.ConfirmUpload | backend/api/Modules/Kappi/Controllers/GalleryController.cs:283-328 | 404 for a missing gallery, a missing or foreign media item, or an object not in storage; 500 when storage fails; the call succeeds exactly for the owner's own item whose object is stored, and then its metadata is backfilled |
| GalleryController.DeleteMedia | backend/api/Modules/Kappi/Controllers/GalleryController.cs:335-375 | for the owner's own media item, its object leaves storage and its row leaves the table, and the call succeeds exactly then, unless storage fails on its key; otherwise an error and nothing changes |
| GalleryController.GetByShortCode | backend/api/Modules/Kappi/Controllers/GalleryController.cs:383-419 | 404 when no gallery has the code, 401 for a private gallery, then 401 for one with a password; otherwise the gallery's full DTO (fields and one listed item per media row), and only that gallery's media are refreshed |
| GalleryController.VerifyPassword | backend/api/Modules/Kappi/Controllers/GalleryController.cs:427-470 | 404 when no gallery has the code, 401 for a private gallery, for one without a password and for a wrong password, in that order; otherwise the gallery's full DTO (fields and one listed item per media row) |
| GalleryController.IdsOf | backend/api/Modules/Kappi/Controllers/GalleryController.cs:85-92 | every listed gallery's id is in the set, and every id in the set is a listed gallery's |
| GalleryController.MyGalleryIds | backend/api/Modules/Kappi/Controllers/GalleryController.cs:85 | the galleries listed for a user are exactly the user's galleries |
| GalleryController.DescribeNext | backend/api/Modules/Kappi/Controllers/GalleryController.cs:88-92 | the DTO is the gallery's expected view: its fields and its media rows listed with the metadata refreshed from the bundles recorded before the loop; the media of the galleries described so far are exactly the refreshed ones |
| GalleryController.DescribeAll | backend/api/Modules/Kappi/Controllers/GalleryController.cs:87-92 | one DTO per gallery in order, each the gallery's full DTO (fields and one listed item per media row) in the final state; only the listed galleries' media are refreshed |
| GalleryController.GetMyGalleries | backend/api/Modules/Kappi/Controllers/GalleryController.cs:75-103 | 401 for an anonymous caller with nothing refreshed; otherwise the full DTOs (fields and listed media) of exactly the caller's galleries, newest first |
| AnonymousGalleryController.LiveAccess | backend/api/Modules/Kappi/Controllers/AnonymousGalleryController.cs:70-80 | access is allowed exactly when the gallery exists and has not expired; otherwise 404, then 410 |
| AnonymousGalleryController.ClosedOnceExpired | backend/api/Modules/Kappi/Controllers/AnonymousGalleryController.cs:77-80 | once a gallery is refused as expired, it is refused with 410 at every later time |
| AnonymousGalleryController.OpenWhenNew | backend/api/Modules/Kappi/Controllers/AnonymousGalleryController.cs:34-37 | a gallery is open when it is created |
| AnonymousGalleryController.AnonymousMediaKeySegments | backend/api/Modules/Kappi/Controllers/AnonymousGalleryController.cs:84 | the storage key's path segments give back the gallery and the disambiguated file name, when none of them holds a '/' |
| AnonymousGalleryController.MediaOfAnonymousGallery | backend/api/Modules/Kappi/Controllers/AnonymousGalleryController.cs:124-128 | the media item with that id when it belongs to the gallery; another gallery's item counts as missing |
| AnonymousGalleryController.CreateAnonymousGallery | backend/api/Modules/Kappi/Controllers/AnonymousGalleryController.cs:30-55 | the gallery gets the first free short code, the given access key and a 30-day expiry, and its id, code, key and expiry are returned; an exhausted code search or a rejected save gives 500 and changes nothing; the namespaces stay disjoint |
| AnonymousGalleryController.RequestUploadUrl | backend/api/Modules/Kappi/Controllers/AnonymousGalleryController.cs:62-103 | for a live gallery found by access key, one media row with the anonymous storage key is added when the save accepts it; success, with the pre-signed upload URL, exactly when it was added and pre-signing does not throw; a pre-signing failure gives 500 and keeps the new row; otherwise 404 or 410, or 500 for a rejected save, and nothing is added; the expiry check and the row's creation time are separate clock readings |
| AnonymousGalleryController.ConfirmUpload | backend/api/Modules/Kappi/Controllers/AnonymousGalleryController.cs:110-152 | 404 for an unknown access key, a missing or foreign media item, or an object not in storage; otherwise the metadata is backfilled and the call succeeds; the expiry is not checked |
| AnonymousGalleryController.GetByShortCode | backend/api/Modules/Kappi/Controllers/AnonymousGalleryController.cs:159-215 | 404 or 410 as for uploads; otherwise the gallery's id, code, expiry, creation time and one listed item per media row |
| AnonymousGalleryController.DeleteMedia | backend/api/Modules/Kappi/Controllers/AnonymousGalleryController.cs:222-256 | for the gallery's own media item, its object leaves storage and its row leaves the table; otherwise 404 and nothing changes; the expiry is not checked |
| AnonymousGalleryCleanup.GalleryKeys | backend/api/Modules/Kappi/Services/AnonymousGalleryCleanupService.cs:60 | the storage keys of exactly the gallery's media |
| AnonymousGalleryCleanup.SweptMembers | backend/api/Modules/Kappi/Services/AnonymousGalleryCleanupService.cs:55-76 | a pass marks exactly the visited galleries whose batch delete does not throw |
| AnonymousGalleryCleanup.SweptKeysStep | backend/api/Modules/Kappi/Services/AnonymousGalleryCleanupService.cs:59-68 | visiting one more gallery deletes its keys exactly when it is marked |
| AnonymousGalleryCleanup.DeleteMediaObjects | backend/api/Modules/Kappi/Services/AnonymousGalleryCleanupService.cs:56-67 | one gallery's batch delete: the gallery is marked exactly when none of its media keys makes the store throw, and only then are exactly those keys' objects gone |
| AnonymousGalleryCleanup.DeleteGalleryObjects | backend/api/Modules/Kappi/Services/AnonymousGalleryCleanupService.cs:55-76 | the loop marks exactly the swept galleries and deletes exactly their media's objects from storage |
| AnonymousGalleryCleanup.CleanupExpiredGalleries | backend/api/Modules/Kappi/Services/AnonymousGalleryCleanupService.cs:40-85 | one pass removes exactly the swept galleries and, by the intended cascade (see Findings), their media rows, and deletes exactly their objects from storage; owned galleries stay |
| AnonymousGalleryCleanup.LiveGalleriesStay | backend/api/Modules/Kappi/Services/AnonymousGalleryCleanupService.cs:49-68 | a gallery that has not expired is never marked |
| AnonymousGalleryCleanup.FaultFreeSweepsAll | backend/api/Modules/Kappi/Services/AnonymousGalleryCleanupService.cs:49-68 | with storage that never throws, every expired gallery is marked |
| AnonymousGalleryCleanup.FaultFreePassClearsExpired | backend/api/Modules/Kappi/Services/AnonymousGalleryCleanupService.cs:49-78 | with storage that never throws, a pass leaves no expired gallery behind |
| AnonymousGalleryCleanup.SweptKeysExact | backend/api/Modules/Kappi/Services/AnonymousGalleryCleanupService.cs:59-68 | with unique storage keys, a media item's object is deleted exactly when its gallery is marked |
| RefreshTokenModel.RefreshToken.constructor | backend/api/Modules/User/Models/RefreshToken.cs:40-46 | a new token belongs to the user, is created at the first clock reading, expires the given number of days after the second reading and is not revoked |
| RefreshTokenModel.RefreshToken.Revoke | backend/api/Modules/User/Models/RefreshToken.cs:53-56 | the revocation time is now, and the token is invalid at every time |
| RefreshTokenModel.FreshTokenLifetime | backend/api/Modules/User/Models/RefreshToken.cs:40-51 | a fresh token is valid exactly before its expiry, the given days after the second clock reading (60 by default); with ordered readings it is valid for at least that many days from its creation |
| RefreshTokenModel.InvalidStaysInvalid | backend/api/Modules/User/Models/RefreshToken.cs:48-51 | a token invalid at some time is invalid at every later time |
| RefreshTokenRepository.FindByToken | backend/api/Modules/User/Repository/RefreshTokenRepository.cs:15-20 | the row holding the token, or none exactly when no row holds it |
| RefreshTokenRepository.UserDb.constructor | backend/api/Modules/User/Models/RefreshToken.cs:10-11 | empty tables, which satisfy the unique index on the token |
| RefreshTokenRepository.UserDb.RevokeAllUserTokens | backend/api/Modules/User/Repository/RefreshTokenRepository.cs:22-28 | each of the user's unrevoked tokens is revoked now; earlier revocations and other users' tokens are kept; none of the user's tokens is valid at any time afterwards |
| RefreshTokenRepository.UserDb.DeleteExpired | backend/api/Modules/User/Repository/RefreshTokenRepository.cs:37-43 | exactly the tokens with expiry strictly before now go, the rest keep their order, and the number removed is what the expired count gives |
| RefreshTokenRepository.UserDb.AddApiToken | backend/api/Modules/User/Controllers/TokenRefreshController.cs:43-46 | the access token is appended; the refresh tokens are unchanged |
| RefreshTokenRepository.DeleteExpiredIdempotent | backend/api/Modules/User/Repository/RefreshTokenRepository.cs:30-43 | after a sweep nothing counts as expired at that instant, and a second sweep removes nothing |
| RefreshTokenRepository.ExpiredIsInvalid | backend/api/Modules/User/Repository/RefreshTokenRepository.cs:30-34 | whatever the sweep counts as expired is already invalid |
| RefreshTokenRepository.ExpiryInstantGap | backend/api/Modules/User/Repository/RefreshTokenRepository.cs:37-43 | a token expiring exactly now is invalid yet survives the sweep at now |
| TokenRefreshController.RefreshDecision | backend/api/Modules/User/Controllers/TokenRefreshController.cs:31-40 | the request goes through exactly when the model is valid and the token is found and valid; otherwise 400, then 401 |
| TokenRefreshController.Refresh | backend/api/Modules/User/Controllers/TokenRefreshController.cs:29-73 | on success, a 30-minute access token for the token's user is stored and returned with the refresh token; on 400, 401 or a failed save nothing is stored; refresh tokens are never changed |
| TokenRefreshController.RejectionIsFinal | backend/api/Modules/User/Controllers/TokenRefreshController.cs:37-40 | a refresh token rejected once is rejected at every later time |
| MetadataExtractor.Be16 | backend/lambda-metadata-extractor/index.js:24-25 | the two big-endian bytes of a 16-bit value read back as that value |
| MetadataExtractor.Be32 | backend/lambda-metadata-extractor/index.js:44-45 | the four big-endian bytes of a 32-bit value read back as that value |
| MetadataExtractor.ExtractJpegDimensions | backend/lambda-metadata-extractor/index.js:12-35 | the loop gives what the marker scan from offset 2 gives, including a range error for a read past the end; the dimensions found are 16-bit |
| MetadataExtractor.ScanIgnoresPrefix | backend/lambda-metadata-extractor/index.js:15-32 | the scan never reads bytes before its offset |
| MetadataExtractor.SkipSegment | backend/lambda-metadata-extractor/index.js:29-31 | a well-formed segment that is not a frame header is stepped over |
| MetadataExtractor.JpegDimensionsRoundTrip | backend/lambda-metadata-extractor/index.js:22-27 | a baseline frame header written for given dimensions is read back as those dimensions |
| MetadataExtractor.ExtractPngDimensions | backend/lambda-metadata-extractor/index.js:40-47 | dimensions exactly when the buffer has at least 24 bytes |
| MetadataExtractor.PngHeader | backend/lambda-metadata-extractor/index.js:41-45 | the PNG signature and IHDR header fill exactly the 24 bytes the reader needs |
| MetadataExtractor.PngDimensionsRoundTrip | backend/lambda-metadata-extractor/index.js:40-47 | an IHDR header written for given dimensions is read back as those dimensions |
| MetadataExtractor.Ascii | backend/lambda-metadata-extractor/index.js:79-88 | the bytes of an ASCII text, one per character |
| MetadataExtractor.Extension | backend/lambda-metadata-extractor/index.js:103 | the extension holds no '.' |
| MetadataExtractor.Subtype | backend/lambda-metadata-extractor/index.js:96 | the subtype holds no '/' |
| MetadataExtractor.FallbackShape | backend/lambda-metadata-extractor/index.js:92-114 | the fallbacks give image, video or unknown, and unknown comes with an empty format |
| MetadataExtractor.OnlyJpegThrows | backend/lambda-metadata-extractor/index.js:52-117 | the extraction throws exactly for a JPEG whose scan reads past the end |
| MetadataExtractor.ExtractionShape | backend/lambda-metadata-extractor/index.js:52-117 | the size is the buffer length in decimal, the media type is image, video or unknown, and width and height come together |
| MetadataExtractor.SignatureWins | backend/lambda-metadata-extractor/index.js:61-91 | a recognised file signature decides the result whatever the content type and key |
| MetadataExtractor.ContentTypeSilencesExtension | backend/lambda-metadata-extractor/index.js:92-101 | with a non-empty content type the key's extension is never consulted, even when the type is neither image nor video |
| MetadataExtractor.ExtensionDecides | backend/lambda-metadata-extractor/index.js:101-114 | without a signature or a content type, a listed image or video extension gives that type and format, any other gives unknown |
| MetadataExtractor.PngMetadataRoundTrip | backend/lambda-metadata-extractor/index.js:70-78 | a PNG file with an IHDR header is an image in PNG format whose width and height texts are the decimal dimensions |
| MetadataExtractor.JpegMetadataRoundTrip | backend/lambda-metadata-extractor/index.js:61-69 | a JPEG file whose first segment is a baseline frame header is an image in JPEG format with those dimensions |
| AuthServer.CookieParts | frontend/app/utils/auth.server.ts:16-23 | the first part is `name=value` and the rest are the attributes, in the order they are pushed |
| AuthServer.AttributesPresent | frontend/app/utils/auth.server.ts:19-23 | `HttpOnly`, `Secure`, `Path` and `Max-Age` appear exactly when their option is truthy; `SameSite` always appears |
| AuthServer.GetCookieHeader | frontend/app/utils/auth.server.ts:16-26 | the header starts with `name=value` |
| AuthServer.BuildCookieHeader | frontend/app/utils/auth.server.ts:16-26 | the conditional pushes and the join give the header `GetCookieHeader` describes |
| AuthServer.AttributesFree | frontend/app/utils/auth.server.ts:19-23 | with a path free of ';', no attribute holds a ';' |
| AuthServer.CookieHeaderRoundTrip | frontend/app/utils/auth.server.ts:16-26 | splitting the header at "; " gives back the pushed parts, when name, value and path hold no ';' |
| AuthServer.SetAuthCookies | frontend/app/utils/auth.server.ts:67-87 | three headers, one per session cookie |
| AuthServer.ClearAuthCookies | frontend/app/utils/auth.server.ts:89-103 | three headers, one per session cookie |
| AuthServer.MaxAgeText | frontend/app/utils/auth.server.ts:69 | 30 days in seconds is written as 2592000 |
| AuthServer.SessionHeaderParts | frontend/app/utils/auth.server.ts:70-76 | a session header splits into the pair, `HttpOnly`, `Secure` in production only, `SameSite=lax`, `Path=/` and, for a non-zero age, `Max-Age` |
| AuthServer.SetAuthCookiesParts | frontend/app/utils/auth.server.ts:67-87 | the three headers carry the access token, the refresh token and the expiry `now + 30 days` in milliseconds, each with `Max-Age=2592000` |
| AuthServer.ClearAuthCookiesParts | frontend/app/utils/auth.server.ts:89-103 | the three headers carry empty values and, as the age 0 is falsy, no `Max-Age` attribute at all |
| AuthServer.AddCookie | frontend/app/utils/auth.server.ts:32-37 | one reduce step keeps the accumulator's names and never adds an empty name or value or one holding '=' |
| AuthServer.CookiesFrom | frontend/app/utils/auth.server.ts:32-38 | the reduce never adds an empty name or value or one holding '=' |
| AuthServer.CookiesOf | frontend/app/utils/auth.server.ts:28-39 | every parsed name and value is non-empty and free of '=' |
| AuthServer.ParseCookies | frontend/app/utils/auth.server.ts:28-39 | the loop gives what the reduce gives; a missing header gives no cookies |
| AuthServer.PieceSplits | frontend/app/utils/auth.server.ts:33 | a piece holding one pair, with or without its leading space, trims and splits into the name and the value |
| AuthServer.TrimPiece | frontend/app/utils/auth.server.ts:33 | trimming such a piece drops only the leading space |
| AuthServer.AddPair | frontend/app/utils/auth.server.ts:33-36 | a reduce step over such a piece stores its pair |
| Cookies.CookieMapLast | frontend/app/utils/auth.server.ts:32-38 | the cookie map holds, for a name, the value of the last pair with that name |
| AuthServer.CookiesFromPairs | frontend/app/utils/auth.server.ts:32-38 | the reduce over the pieces of pairs adds the pairs' map, a later pair overriding an earlier one |
| AuthServer.ParseCookieString | frontend/app/utils/auth.server.ts:28-39 | parsing a header made of well-formed pairs gives back exactly those pairs, the last of a name winning |
| AuthServer.HeaderPieces | frontend/app/utils/auth.server.ts:32 | splitting such a header at ';' gives one piece per pair |
| AuthServer.ValueCutAtEquals | frontend/app/utils/auth.server.ts:33 | a value holding '=' is cut at that '=' |
| AuthServer.GetAccessToken | frontend/app/utils/auth.server.ts:41-44 | the access token exactly when the parsed header holds that cookie, and then its non-empty value |
| AuthServer.GetRefreshToken | frontend/app/utils/auth.server.ts:46-49 | the refresh token exactly when the parsed header holds that cookie, and then its non-empty value |
| AuthServer.GetTokenExpiry | frontend/app/utils/auth.server.ts:51-55 | missing exactly when the parsed header has no expiry cookie; a number only when the cookie parses to it |
| AuthServer.IsTokenExpired | frontend/app/utils/auth.server.ts:57-65 | not expired exactly when the expiry reads as a non-zero number more than 5 minutes after now |
| AuthServer.ExpiredStaysExpired | frontend/app/utils/auth.server.ts:57-65 | a token counted as expired stays expired as time passes |
| AuthServer.SessionHeadersLead | frontend/app/utils/auth.server.ts:67-87 | each header set by the login helper leads with the pair the browser will send back |
| AuthServer.ExpiryIsToken | frontend/app/utils/auth.server.ts:81 | the decimal expiry is a cookie-safe value |
| AuthServer.SessionCookies | frontend/app/utils/auth.server.ts:67-87 | a session stored and sent back parses to exactly the two tokens and the expiry |
| AuthServer.SessionTokens | frontend/app/utils/auth.server.ts:41-49 | a session stored and sent back gives back both tokens |
| AuthServer.SessionExpiry | frontend/app/utils/auth.server.ts:57-87 | a session stored at now counts as fresh exactly until 5 minutes before the 30 days are over |
| AuthClient.Marker | frontend/app/utils/auth.client.ts:10 | the separator is "; ", the name and '=' |
| AuthClient.OtherSegment | frontend/app/utils/auth.client.ts:10 | another cookie's segment never starts with the separator of the name looked up |
| AuthClient.ValueBeforeSemicolon | frontend/app/utils/auth.client.ts:13 | the text up to the next ';' is the value |
| AuthClient.MatchingSegment | frontend/app/utils/auth.client.ts:10 | the cookie's own segment splits off right at its start |
| AuthClient.OtherSegmentSplit | frontend/app/utils/auth.client.ts:10 | another cookie's segment is carried into the current split piece |
| AuthClient.SplitSegments | frontend/app/utils/auth.client.ts:9-10 | the split has one piece more than there are cookies of that name, and the second piece leads with the first such cookie's value |
| AuthClient.CookieLookup | frontend/app/utils/auth.client.ts:6-17 | the lookup finds the cookie's value exactly when the name occurs once, and none otherwise |
| AuthClient.NoDocument | frontend/app/utils/auth.client.ts:7 | without a document there is no cookie |
| AuthClient.ClientAgreesWithServer | frontend/app/utils/auth.client.ts:6-17 | when the name occurs at most once, the client lookup and the server parser agree |
| AuthClient.DuplicateNameHidden | frontend/app/utils/auth.client.ts:12-16 | a name sent twice is invisible to the client lookup, while the server parser returns the value of its last pair |
| UploadStore.Ids | frontend/app/stores/uploadStore.ts:3-4 | the ids of the queue, in order |
| UploadStore.NewEntries | frontend/app/stores/uploadStore.ts:35-40 | one pending entry at progress 0 per file, in order, with the given id |
| UploadStore.AddFiles | frontend/app/stores/uploadStore.ts:34-45 | the queue keeps its entries and gains one pending entry per file at its end; the flag is unchanged |
| UploadStore.UpdateFileProgress | frontend/app/stores/uploadStore.ts:47-53 | the entries with that id get the progress, all others stay; the length and flag are unchanged |
| UploadStore.UpdateFileStatus | frontend/app/stores/uploadStore.ts:55-61 | the entries with that id get the status, error and media id (absent ones included), all others stay |
| UploadStore.RemoveFile | frontend/app/stores/uploadStore.ts:63-67 | exactly the entries with that id leave the queue |
| UploadStore.ClearCompleted | frontend/app/stores/uploadStore.ts:69-73 | exactly the completed entries leave the queue |
| UploadStore.ClearAll | frontend/app/stores/uploadStore.ts:75-77 | the queue is emptied; the flag is kept |
| UploadStore.SetIsUploading | frontend/app/stores/uploadStore.ts:79-81 | only the flag changes |
| UploadStore.RemoveFileKeepsOrder | frontend/app/stores/uploadStore.ts:63-67 | removing from a queue made of two parts removes from each part in place, so the remaining entries keep their order |
| UploadStore.RemoveAddedFile | frontend/app/stores/uploadStore.ts:34-67 | adding one file under a fresh id and removing that id restores the state |
| UploadStore.ClearCompletedIdempotent | frontend/app/stores/uploadStore.ts:69-73 | clearing completed entries twice is clearing them once |
| UploadStore.AddedFilesSurviveClear | frontend/app/stores/uploadStore.ts:34-73 | clearing completed entries after adding files is adding them after clearing: the new pending entries survive |
| UploadStore.RemoveAfterProgress | frontend/app/stores/uploadStore.ts:47-67 | updating an entry's progress and then removing it is removing it |
| UploadStore.CompletedThenCleared | frontend/app/stores/uploadStore.ts:55-73 | marking an entry completed and then clearing completed entries removes it |
| UploadStore.FilterUniqueIds | frontend/app/stores/uploadStore.ts:63-73 | filtering keeps ids unique |
| UploadStore.ActionsKeepIdsUnique | frontend/app/stores/uploadStore.ts:34-81 | every action keeps the queue's ids unique, given fresh and distinct ids for added files |
| GalleryStore.HasGallery | frontend/app/stores/galleryStore.ts:32-34 | true exactly when some remembered gallery has the id |
| GalleryStore.Take | frontend/app/stores/galleryStore.ts:41 | the first n entries, or all when there are fewer |
| GalleryStore.AddGallery | frontend/app/stores/galleryStore.ts:29-44 | a known gallery leaves the state unchanged; a new one goes first, followed by the previous entries, cut at 10; the current key is kept |
| GalleryStore.GetGalleryByAccessKey | frontend/app/stores/galleryStore.ts:54-56 | a remembered gallery with that key, or none exactly when no remembered gallery has it |
| GalleryStore.RemoveExpiredGalleries | frontend/app/stores/galleryStore.ts:58-66 | exactly the galleries whose expiry parses to a time after now remain; the current key is kept |
| GalleryStore.SetCurrentAccessKey | frontend/app/stores/galleryStore.ts:46-48 | only the current key changes, to the given one |
| GalleryStore.ClearCurrentAccessKey | frontend/app/stores/galleryStore.ts:50-52 | only the current key changes, to none |
| GalleryStore.AddGalleryValid | frontend/app/stores/galleryStore.ts:29-44 | adding keeps at most 10 remembered galleries with distinct ids |
| GalleryStore.AddGalleryIdempotent | frontend/app/stores/galleryStore.ts:31-38 | after adding, the gallery is known, and adding it again changes nothing |
| GalleryStore.AddedGalleryFound | frontend/app/stores/galleryStore.ts:29-56 | a newly added gallery goes first, so the lookup by its access key finds it |
| GalleryStore.RemoveExpiredValid | frontend/app/stores/galleryStore.ts:58-66 | removing expired galleries keeps the bound and distinct ids |
| GalleryStore.FilterDistinctIds | frontend/app/stores/galleryStore.ts:61-63 | filtering keeps ids distinct |
| GalleryStore.RemoveExpiredLater | frontend/app/stores/galleryStore.ts:58-66 | a later sweep after an earlier one is the later sweep alone |
| GalleryStore.AccessKeySettersIndependent | frontend/app/stores/galleryStore.ts:46-52 | setting the current key changes no lookup by access key, and clearing after setting is clearing |

## Left out

- GalleryController.DeleteGallery: removes the media rows with the gallery, the cascade the program evidently intends; the schema as migrated clears their gallery id instead and keeps them, which `KappiDb.SetNullLeavesOrphans` shows on the table but no controller-level member replays.
- AnonymousGalleryCleanup.CleanupExpiredGalleries: removes the swept galleries' media rows, the intended cascade; as migrated they would stay with both parent ids cleared, as `KappiDb.AnonymousSetNullLeavesOrphans` shows on the table.
- TokenRefreshController.RefreshDecision: the 400 response carries the model-state error dictionary, which is not modelled; the reason string `invalid_model_state` is a label for it, not text the endpoint sends.
- The object-storage service `IS3Service` is not part of this model. `ObjectStorage.ObjectStore` stands in for it: objects by key, tag and size answers, pre-signed URLs as functions of the key, and a set of keys on which every storage request and the upload pre-signing throw.
- MediaListing.GetMediaDtos: minting the pre-signed download URL is assumed never to throw. In the source such a throw happens after the backfill is saved and turns the listing action into a 500; the model always returns the listing.
- MediaMetadataService.Backfill: a media-type tag longer than the 50-character `media_type` column is assumed not to occur. The storage function writes only image, video or unknown (`MetadataExtractor.ExtractionShape`). A longer tag would make the following `SaveChangesAsync` throw, and `ConfirmUpload` or the listing would answer 500.
- `RandomTokenGenerator`, `Guid.NewGuid`, `System.Random` and `crypto.randomUUID` are not part of this model. Their outputs are parameters: the short-code draws are a sequence of index sequences, one per `Random` instance.
- The password hasher is a pair of functions given by the caller.
- `int.TryParse`, `parseInt` and `new Date(...)` are parameters of type `string -> Option<int>`, because the model does not reproduce culture-aware or date parsing.
- Logging, cancellation tokens and the hosted loop's one-hour delay are left out; the interval is the constant `AnonymousGalleryCleanup.CleanupInterval`. One pass is `CleanupExpiredGalleries`.
- Concurrency is left out: two requests racing between a uniqueness check and the save are not modelled, and every action runs alone.
- Every clock reading is a parameter. Where the source reads the clock twice in one operation, the readings are separate parameters: `CreatedAt` and `ExpiresAt` of a new anonymous gallery, `CreatedAt` and the base of `ExpiresAt` in the `RefreshToken` constructor, and the expiry check and the new row's `CreatedAt` in `AnonymousGalleryController.RequestUploadUrl`. Other actions read the clock once.
- Exceptions other than storage failures, rejected saves and the JPEG reader's range error are left out, including a database that fails on reads.
- The validation attributes on the request DTOs, such as the 8-to-100-character password bound, are left out. The framework checks them before an action runs.
- The ASP.NET pipeline is not modelled. Authentication is represented by the user id, with `Guid.Empty` for an anonymous caller. Routing, model binding and JSON shapes are omitted.
- `TokenRefreshController.Refresh`: the cookie it appends and the mapped user DTO are left out. The response carries the user id.
- `ApiToken.cs`, `UserLogoutController.cs` and the user entity are not part of this model. An access token is the record `RefreshTokenRepository.ApiToken`.
- The token-table invariant covers only the refresh tokens.
- The `ExecuteUpdateAsync` and `ExecuteDeleteAsync` bulk statements are applied to the table in one step. Their effect on entities already loaded in a context is not modelled.
- The handler of the storage-side function (backend/lambda-metadata-extractor/index.js:122-180) is left out: downloading the object, writing the tags, and the runtime around it. Only `extractMetadata` and its readers are modelled.
- `MetadataExtractor.Extension`: `toLowerCase` is modelled for ASCII letters only.
- `refreshAccessToken` and `getCurrentUser` in auth.server.ts, and `refreshClientToken` in auth.client.ts, are network calls to the API and are left out.
- Cookie names that JavaScript objects treat specially, such as `__proto__`, are not modelled: the parsed cookies are a map.
- The lemmas about the cookie readers assume names and values free of ';', '=' and white space, which holds for the tokens and decimal expiry the frontend writes.
- `UploadStore`: a `File` is reduced to its name, size and content type. The ids of new entries are parameters in place of `crypto.randomUUID()`.
- `GalleryStore`: the persistence middleware (localStorage, `kappi-gallery-storage`) and the server-side store without persistence are left out.
- `GalleryModel.Gallery`: `ShortCode` has a public setter that no code path uses, so the short code is a constant.
- `MediaModel.Media.SetMetadata` stores the file size as an unbounded integer. The C# `long` bound is not modelled.
- `MetadataExtractor.ExtractJpegDimensions` returns the dimensions as numbers. Out-of-range reads are a `RangeError` result rather than a thrown exception.
- `AuthServer.ClearAuthCookies`: the age 0 is falsy, so the cleared cookies carry no `Max-Age` attribute and become empty session cookies. They are not expired immediately. `AuthServer.ClearAuthCookiesParts` states the headers as written.

## Findings

| source | as written | input that shows it | evidently intended | confidence | as-written member | corrected member |
|---|---|---|---|---|---|---|
| backend/api/Modules/Kappi/Controllers/GalleryController.cs:219-221 | the gallery is removed with the comment that the media records go by cascade, but the migration gives the media foreign keys no delete rule (backend/api/Migrations/20251004172754_AddKappiModule.cs:68-77), so loaded media rows get their gallery id cleared and stay | a gallery with one media item: after the delete the media row remains with neither parent id | the media rows of a deleted gallery are deleted with it | not executed; medium: it rests on the framework's default for an optional relationship, and configuration outside these files could add the cascade | KappiDb.SetNullLeavesOrphans | KappiDb.Db.RemoveGallery |
| backend/api/Modules/Kappi/Services/AnonymousGalleryCleanupService.cs:67-68 | the same for the hourly sweep of expired anonymous galleries | an expired anonymous gallery with one media item: after the sweep the media row remains with neither parent id | the media rows of a swept gallery are deleted with it | not executed; medium, for the same reason | KappiDb.AnonymousSetNullLeavesOrphans | KappiDb.Db.RemoveAnonymousGalleries |
