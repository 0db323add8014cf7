/** Lazy metadata backfill (`MediaMetadataService`): a media item whose metadata is incomplete
    takes media type, width and height from the stored object's tags and the size from the
    object itself, all four fields at once or none. Integer parsing (`int.TryParse`) is the
    partial function `tryParse`. */
module MediaMetadataService {
  import opened Wrappers
  import opened MediaModel
  import opened ObjectStorage

  function Tag(tags: map<string, string>, key: string): (r: Option<string>)
    ensures r.Some? <==> key in tags
    ensures r.Some? ==> r.value == tags[key]
  {
    if key in tags then Some(tags[key]) else None
  }

  /** `ParseIntTag`: absent when the key is missing or its value does not parse. */
  function ParseIntTag(tags: map<string, string>, key: string, tryParse: string -> Option<int>): (r: Option<int>)
    ensures r.Some? <==> key in tags && tryParse(tags[key]).Some?
    ensures r.Some? ==> r == tryParse(tags[key])
  {
    if key in tags then tryParse(tags[key]) else None
  }

  /** The metadata read from a tag map and an object size; each tag falls back to its
      PascalCase spelling when the snake/lower-case one is missing or unparseable. */
  function FromTags(tags: map<string, string>, size: Option<int>, tryParse: string -> Option<int>): (m: Metadata)
    ensures m.mediaType.Some? <==> "media_type" in tags || "MediaType" in tags
    ensures "media_type" in tags ==> m.mediaType == Some(tags["media_type"])
    ensures "media_type" !in tags && "MediaType" in tags ==> m.mediaType == Some(tags["MediaType"])
    ensures ParseIntTag(tags, "width", tryParse).Some? ==> m.width == ParseIntTag(tags, "width", tryParse)
    ensures ParseIntTag(tags, "width", tryParse).None? ==> m.width == ParseIntTag(tags, "Width", tryParse)
    ensures ParseIntTag(tags, "height", tryParse).Some? ==> m.height == ParseIntTag(tags, "height", tryParse)
    ensures ParseIntTag(tags, "height", tryParse).None? ==> m.height == ParseIntTag(tags, "Height", tryParse)
    ensures m.fileSize == size
  {
    Metadata(
      Tag(tags, "media_type").OrElse(Tag(tags, "MediaType")),
      ParseIntTag(tags, "width", tryParse).OrElse(ParseIntTag(tags, "Width", tryParse)),
      ParseIntTag(tags, "height", tryParse).OrElse(ParseIntTag(tags, "Height", tryParse)),
      size)
  }

  /** Media type, width and height are all known (the file size is not consulted). */
  predicate HasMetadata(m: Metadata)
  {
    m.mediaType.Some? && m.width.Some? && m.height.Some?
  }

  /** The outcome of `FetchAndStoreMetadataAsync` on metadata `current` given the storage
      replies: the reported success and the metadata afterwards. */
  function Backfill(current: Metadata, reply: TagReply, tryParse: string -> Option<int>): (r: (bool, Metadata))
    ensures !r.0 ==> r.1 == current
    ensures HasMetadata(current) ==> r == (true, current)
    ensures r.1 == current
         || (reply.Tags? && reply.tags.Some? && r.1 == FromTags(reply.tags.value, reply.size, tryParse) && r.1 != NoMetadata)
    ensures r.0 <==> (HasMetadata(current)
      || (reply.Tags? && reply.tags.Some? && FromTags(reply.tags.value, reply.size, tryParse) != NoMetadata))
  {
    if HasMetadata(current) then (true, current)
    else match reply
      case Threw => (false, current)
      case Tags(None, _) => (false, current)
      case Tags(Some(tags), size) =>
        var m := FromTags(tags, size, tryParse);
        if m == NoMetadata then (false, current) else (true, m)
  }

  /** A second backfill with the same storage replies changes nothing more and reports the same. */
  lemma BackfillIdempotent(current: Metadata, reply: TagReply, tryParse: string -> Option<int>)
    ensures var (_, after) := Backfill(current, reply, tryParse);
      Backfill(after, reply, tryParse) == Backfill(current, reply, tryParse)
  {
  }

  /** `FetchAndStoreMetadataAsync`: an exception from either storage call is caught and
      reported as failure. */
  method FetchAndStoreMetadata(media: Media, store: ObjectStore, tryParse: string -> Option<int>) returns (ok: bool)
    modifies media
    ensures (ok, media.Meta()) == Backfill(old(media.Meta()), store.TagReplyFor(media.s3Key), tryParse)
  {
    if media.mediaType.Some? && media.width.Some? && media.height.Some? {
      return true;
    }
    var threw, tags := store.GetObjectTags(media.s3Key);
    if threw || tags.None? {
      return false;
    }
    var mediaType := Tag(tags.value, "media_type").OrElse(Tag(tags.value, "MediaType"));
    var width := ParseIntTag(tags.value, "width", tryParse).OrElse(ParseIntTag(tags.value, "Width", tryParse));
    var height := ParseIntTag(tags.value, "height", tryParse).OrElse(ParseIntTag(tags.value, "Height", tryParse));
    var sizeThrew, fileSize := store.GetFileSize(media.s3Key);
    if sizeThrew {
      return false;
    }
    if mediaType.None? && width.None? && height.None? && fileSize.None? {
      return false;
    }
    media.SetMetadata(mediaType, width, height, fileSize);
    return true;
  }
}
