/** The media part of the gallery responses (`MediaDto`, `MediaListResponse`) and the loop both
    controllers run over a gallery's media: backfill the metadata of each item whose media
    type is still unknown, then describe the item with a pre-signed download URL. */
module MediaListing {
  import opened Wrappers
  import opened KappiTypes
  import opened Seqs
  import opened MediaModel
  import opened ObjectStorage
  import opened MediaMetadataService

  datatype MediaDto = MediaDto(
    id: Guid,
    mediaType: Option<string>,
    width: Option<int>,
    height: Option<int>,
    fileSize: Option<int>,
    downloadUrl: string,
    createdAt: Time)

  datatype MediaList = MediaList(items: seq<MediaDto>, totalCount: int)

  function ToMediaDto(m: Media, downloadUrl: string): (d: MediaDto)
    reads m
    ensures d.id == m.id && d.createdAt == m.createdAt && d.downloadUrl == downloadUrl
    ensures Metadata(d.mediaType, d.width, d.height, d.fileSize) == m.Meta()
  {
    MediaDto(m.id, m.mediaType, m.width, m.height, m.fileSize, downloadUrl, m.createdAt)
  }

  /** The entry `ToMediaDto` makes of `m` when its metadata is `meta`. */
  function DtoWith(m: Media, meta: Metadata, downloadUrl: string): MediaDto
  {
    MediaDto(m.id, meta.mediaType, meta.width, meta.height, meta.fileSize, downloadUrl, m.createdAt)
  }

  /** The listing of `items` in the current state: one entry per item, in order. */
  function MediaDtos(items: seq<Media>, store: ObjectStore): (r: seq<MediaDto>)
    reads set m | m in items
    ensures |r| == |items|
    ensures forall i :: 0 <= i < |items| ==> r[i] == ToMediaDto(items[i], store.downloadUrl(items[i].s3Key))
  {
    if items == [] then [] else [ToMediaDto(items[0], store.downloadUrl(items[0].s3Key))] + MediaDtos(items[1..], store)
  }

  /** The metadata a listing leaves behind: a backfill is attempted only when the media type
      is unknown. */
  function Refreshed(meta: Metadata, reply: TagReply, tryParse: string -> Option<int>): Metadata
  {
    if meta.mediaType.None? then Backfill(meta, reply, tryParse).1 else meta
  }

  /** Listing twice leaves the metadata as listing once does. */
  lemma RefreshedIdempotent(meta: Metadata, reply: TagReply, tryParse: string -> Option<int>)
    ensures Refreshed(Refreshed(meta, reply, tryParse), reply, tryParse) == Refreshed(meta, reply, tryParse)
  {
    BackfillIdempotent(meta, reply, tryParse);
  }

  /** `GetMediaDtosAsync`: one entry per item, in collection order. */
  method GetMediaDtos(items: seq<Media>, store: ObjectStore, tryParse: string -> Option<int>) returns (dtos: seq<MediaDto>)
    requires Distinct(items)
    modifies items
    ensures |dtos| == |items|
    ensures Listed(items, store, tryParse)
    ensures forall i :: 0 <= i < |items| ==> old(items[i].mediaType).Some? ==> items[i].Meta() == old(items[i].Meta())
    ensures dtos == MediaDtos(items, store)
  {
    dtos := [];
    for i := 0 to |items|
      invariant |dtos| == i
      invariant forall k :: 0 <= k < i ==>
        items[k].Meta() == Refreshed(old(items[k].Meta()), store.TagReplyFor(items[k].s3Key), tryParse)
      invariant forall k :: i <= k < |items| ==> items[k].Meta() == old(items[k].Meta())
      invariant forall k :: 0 <= k < i ==> dtos[k] == ToMediaDto(items[k], store.downloadUrl(items[k].s3Key))
    {
      var m := items[i];
      if m.mediaType.None? {
        var _ := FetchAndStoreMetadata(m, store, tryParse);
      }
      dtos := dtos + [ToMediaDto(m, store.downloadUrl(m.s3Key))];
    }
    assert dtos == MediaDtos(items, store);
    assert forall m :: m in items ==> exists i :: 0 <= i < |items| && items[i] == m;
  }

  /** No media item's metadata changed. */
  twostate predicate MetadataUnchanged(ms: seq<Media>)
    reads set m | m in ms
  {
    forall m :: m in ms ==> m.Meta() == old(m.Meta())
  }

  /** Every media item was refreshed as a listing refreshes it. */
  twostate predicate Listed(ms: seq<Media>, store: ObjectStore, tryParse: string -> Option<int>)
    reads (set m | m in ms), store
  {
    forall m :: m in ms ==> m.Meta() == Refreshed(old(m.Meta()), store.TagReplyFor(m.s3Key), tryParse)
  }
}
