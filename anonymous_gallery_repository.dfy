/** Queries over the anonymous-gallery table (`AnonymousGalleryRepository`). */
module AnonymousGalleryRepository {
  import opened Wrappers
  import opened KappiTypes
  import opened AnonymousGalleryModel
  import opened Seqs

  function ExpiredAt(now: Time): AnonymousGallery -> bool
  {
    (g: AnonymousGallery) => IsExpired(g, now)
  }

  function FindById(table: seq<AnonymousGallery>, id: Guid): (r: Option<AnonymousGallery>)
    ensures r.Some? ==> r.value in table && r.value.id == id
    ensures r.None? <==> forall g :: g in table ==> g.id != id
  {
    First(table, (g: AnonymousGallery) => g.id == id)
  }

  function FindByShortCode(table: seq<AnonymousGallery>, shortCode: string): (r: Option<AnonymousGallery>)
    ensures r.Some? ==> r.value in table && r.value.shortCode == shortCode
    ensures r.None? <==> forall g :: g in table ==> g.shortCode != shortCode
  {
    First(table, (g: AnonymousGallery) => g.shortCode == shortCode)
  }

  /** `FindByAccessKeyAsync`: the access key is the management credential of an anonymous gallery. */
  function FindByAccessKey(table: seq<AnonymousGallery>, accessKey: string): (r: Option<AnonymousGallery>)
    ensures r.Some? ==> r.value in table && r.value.accessKey == accessKey
    ensures r.None? <==> forall g :: g in table ==> g.accessKey != accessKey
  {
    First(table, (g: AnonymousGallery) => g.accessKey == accessKey)
  }

  function ExistsByShortCode(table: seq<AnonymousGallery>, shortCode: string): (b: bool)
    ensures b <==> exists g :: g in table && g.shortCode == shortCode
  {
    FindByShortCode(table, shortCode).Some?
  }

  function ShortCodes(table: seq<AnonymousGallery>): (codes: set<string>)
    ensures forall c :: c in codes <==> ExistsByShortCode(table, c)
  {
    set g | g in table :: g.shortCode
  }

  lemma ShortCodesAppend(table: seq<AnonymousGallery>, a: AnonymousGallery)
    ensures ShortCodes(table + [a]) == ShortCodes(table) + {a.shortCode}
  {
    assert forall x :: x in table + [a] <==> x in table || x == a;
  }

  /** `GetExpiredGalleriesAsync`: the galleries whose expiry is at or before `now`, in row order. */
  function GetExpired(table: seq<AnonymousGallery>, now: Time): (r: seq<AnonymousGallery>)
    ensures forall g :: g in r <==> g in table && g.expiresAt <= now
    ensures |r| == Count(table, ExpiredAt(now))
  {
    FilterLength(table, ExpiredAt(now));
    Filter(table, ExpiredAt(now))
  }
}
