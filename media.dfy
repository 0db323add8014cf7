/** A media item (`Media`): an uploaded file of exactly one gallery. Its identity, parent,
    storage key and creation time are fixed; its four metadata fields start empty and are
    overwritten together by `SetMetadata`. */
module MediaModel {
  import opened Wrappers
  import opened KappiTypes

  /** The `[StringLength(500)]` bound on `S3Key`. */
  const MaxS3KeyLength: nat := 500

  /** The metadata bundle: media type, width, height and file size, each nullable. */
  datatype Metadata = Metadata(mediaType: Option<string>, width: Option<int>, height: Option<int>, fileSize: Option<int>)

  const NoMetadata: Metadata := Metadata(None, None, None, None)

  class Media {
    const id: Guid
    const anonymousGalleryId: Option<Guid>
    const galleryId: Option<Guid>
    const s3Key: string
    const createdAt: Time
    var mediaType: Option<string>
    var width: Option<int>
    var height: Option<int>
    var fileSize: Option<int>

    /** `new Media(id, anonymousGalleryId, s3Key)`: a media item of an anonymous gallery. */
    constructor ForAnonymousGallery(id: Guid, anonymousGalleryId: Guid, s3Key: string, now: Time)
      ensures this.id == id && this.s3Key == s3Key && createdAt == now
      ensures this.anonymousGalleryId == Some(anonymousGalleryId) && galleryId == None
      ensures HasOneParent() && Meta() == NoMetadata
    {
      this.id := id;
      this.anonymousGalleryId := Some(anonymousGalleryId);
      this.galleryId := None;
      this.s3Key := s3Key;
      this.createdAt := now;
      this.mediaType, this.width, this.height, this.fileSize := None, None, None, None;
    }

    /** `new Media(id, galleryId, s3Key, true)`: a media item of an owned gallery. */
    constructor ForGallery(id: Guid, galleryId: Guid, s3Key: string, now: Time)
      ensures this.id == id && this.s3Key == s3Key && createdAt == now
      ensures this.galleryId == Some(galleryId) && anonymousGalleryId == None
      ensures HasOneParent() && Meta() == NoMetadata
    {
      this.id := id;
      this.anonymousGalleryId := None;
      this.galleryId := Some(galleryId);
      this.s3Key := s3Key;
      this.createdAt := now;
      this.mediaType, this.width, this.height, this.fileSize := None, None, None, None;
    }

    /** Exactly one of the two parent ids is set. */
    predicate HasOneParent()
    {
      anonymousGalleryId.Some? != galleryId.Some?
    }

    /** The current metadata bundle. */
    function Meta(): Metadata
      reads this
    {
      Metadata(mediaType, width, height, fileSize)
    }

    /** Overwrites all four metadata fields; identity, parents, key and creation time are constants. */
    method SetMetadata(mediaType: Option<string>, width: Option<int>, height: Option<int>, fileSize: Option<int>)
      modifies this
      ensures Meta() == Metadata(mediaType, width, height, fileSize)
    {
      this.mediaType, this.width, this.height, this.fileSize := mediaType, width, height, fileSize;
    }
  }
}
