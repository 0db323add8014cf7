/** The object-storage collaborator (`IS3Service`), which is not part of this model: its answers
    are fixed per key, except for which objects exist, which the deletions change. A storage
    request on a key in `faulty` throws, and so does pre-signing an upload for it. Pre-signed
    URLs come from two URL-minting functions. */
module ObjectStorage {
  import opened Wrappers

  /** What a tag request followed by a size request for one key yields: an exception, or
      the tag map (absent for a missing object) and the object size (absent likewise). */
  datatype TagReply = Threw | Tags(tags: Option<map<string, string>>, size: Option<int>)

  class ObjectStore {
    var objects: set<string>
    const tags: map<string, map<string, string>>
    const sizes: map<string, int>
    const faulty: set<string>
    const uploadUrl: (string, string) -> string
    const downloadUrl: string -> string

    constructor (objects: set<string>, tags: map<string, map<string, string>>, sizes: map<string, int>,
                 faulty: set<string>, uploadUrl: (string, string) -> string, downloadUrl: string -> string)
      ensures this.objects == objects && this.tags == tags && this.sizes == sizes && this.faulty == faulty
      ensures this.uploadUrl == uploadUrl && this.downloadUrl == downloadUrl
    {
      this.objects := objects;
      this.tags := tags;
      this.sizes := sizes;
      this.faulty := faulty;
      this.uploadUrl := uploadUrl;
      this.downloadUrl := downloadUrl;
    }

    /** The answers `GetObjectTagsAsync` and `GetFileSizeAsync` give for `key` in this state. */
    function TagReplyFor(key: string): TagReply
      reads this
    {
      if key in faulty then Threw
      else Tags(if key in objects && key in tags then Some(tags[key]) else None,
                if key in objects && key in sizes then Some(sizes[key]) else None)
    }

    /** `KeyExistsAsync`. */
    method KeyExists(key: string) returns (threw: bool, found: bool)
      ensures threw == (key in faulty)
      ensures !threw ==> found == (key in objects)
    {
      threw := key in faulty;
      found := !threw && key in objects;
    }

    /** `GetObjectTagsAsync`: null for a missing object. */
    method GetObjectTags(key: string) returns (threw: bool, tagMap: Option<map<string, string>>)
      ensures TagReplyFor(key) == Threw <==> threw
      ensures !threw ==> tagMap == TagReplyFor(key).tags
    {
      threw := key in faulty;
      tagMap := if key in objects && key in tags then Some(tags[key]) else None;
    }

    /** `GetFileSizeAsync`: null for a missing object. */
    method GetFileSize(key: string) returns (threw: bool, size: Option<int>)
      ensures TagReplyFor(key) == Threw <==> threw
      ensures !threw ==> size == TagReplyFor(key).size
    {
      threw := key in faulty;
      size := if key in objects && key in sizes then Some(sizes[key]) else None;
    }

    /** `GeneratePresignedUploadUrlAsync`: the URL minted for the key and content type. */
    method PresignUpload(key: string, contentType: string) returns (threw: bool, url: string)
      ensures threw == (key in faulty)
      ensures !threw ==> url == uploadUrl(key, contentType)
    {
      threw := key in faulty;
      url := uploadUrl(key, contentType);
    }

    /** `DeleteObjectAsync`. */
    method DeleteObject(key: string) returns (threw: bool)
      modifies this
      ensures threw == (key in faulty)
      ensures objects == if threw then old(objects) else old(objects) - {key}
    {
      threw := key in faulty;
      if !threw {
        objects := objects - {key};
      }
    }

    /** `DeleteObjectsAsync`: one batch request, which fails as a whole. */
    method DeleteObjects(keys: seq<string>) returns (threw: bool)
      modifies this
      ensures threw <==> exists k :: k in keys && k in faulty
      ensures objects == if threw then old(objects) else old(objects) - set k | k in keys
    {
      threw := exists k :: k in keys && k in faulty;
      if !threw {
        objects := objects - set k | k in keys;
      }
    }
  }
}
