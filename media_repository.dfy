/** Queries over the media table (`MediaRepository`). */
module MediaRepository {
  import opened Wrappers
  import opened KappiTypes
  import opened MediaModel
  import opened Seqs

  function CreatedAt(m: Media): int
  {
    m.createdAt
  }

  function InGallery(galleryId: Guid): Media -> bool
  {
    (m: Media) => m.galleryId == Some(galleryId)
  }

  function InAnonymousGallery(galleryId: Guid): Media -> bool
  {
    (m: Media) => m.anonymousGalleryId == Some(galleryId)
  }

  function FindById(media: seq<Media>, id: Guid): (r: Option<Media>)
    ensures r.Some? ==> r.value in media && r.value.id == id
    ensures r.None? <==> forall m :: m in media ==> m.id != id
  {
    First(media, (m: Media) => m.id == id)
  }

  function FindByS3Key(media: seq<Media>, s3Key: string): (r: Option<Media>)
    ensures r.Some? ==> r.value in media && r.value.s3Key == s3Key
    ensures r.None? <==> forall m :: m in media ==> m.s3Key != s3Key
  {
    First(media, (m: Media) => m.s3Key == s3Key)
  }

  /** `GetByGalleryIdAsync`: exactly the owned gallery's media, newest first. */
  function GetByGalleryId(media: seq<Media>, galleryId: Guid): (r: seq<Media>)
    ensures forall m :: m in r ==> m in media && m.galleryId == Some(galleryId)
    ensures forall m :: m in media && m.galleryId == Some(galleryId) ==> m in r
    ensures SortedDesc(r, CreatedAt)
    ensures |r| == Count(media, InGallery(galleryId))
  {
    WhereOrderedDesc(media, InGallery(galleryId), CreatedAt)
  }

  /** `GetByAnonymousGalleryIdAsync`: exactly the anonymous gallery's media, newest first. */
  function GetByAnonymousGalleryId(media: seq<Media>, galleryId: Guid): (r: seq<Media>)
    ensures forall m :: m in r ==> m in media && m.anonymousGalleryId == Some(galleryId)
    ensures forall m :: m in media && m.anonymousGalleryId == Some(galleryId) ==> m in r
    ensures SortedDesc(r, CreatedAt)
    ensures |r| == Count(media, InAnonymousGallery(galleryId))
  {
    WhereOrderedDesc(media, InAnonymousGallery(galleryId), CreatedAt)
  }
}
