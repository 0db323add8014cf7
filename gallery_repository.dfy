/** Queries over the owned-gallery table (`GalleryRepository`). The table is a sequence in row
    order; `Include(g => g.Media)` is the media table filtered by parent id, see `KappiDb`. */
module GalleryRepository {
  import opened Wrappers
  import opened KappiTypes
  import opened GalleryModel
  import opened Seqs

  function CreatedAt(g: Gallery): int
  {
    g.createdAt
  }

  function OwnedBy(userId: Guid): Gallery -> bool
  {
    (g: Gallery) => g.userId == userId
  }

  function FindById(galleries: seq<Gallery>, id: Guid): (r: Option<Gallery>)
    ensures r.Some? ==> r.value in galleries && r.value.id == id
    ensures r.None? <==> forall g :: g in galleries ==> g.id != id
  {
    First(galleries, (g: Gallery) => g.id == id)
  }

  function FindByShortCode(galleries: seq<Gallery>, shortCode: string): (r: Option<Gallery>)
    ensures r.Some? ==> r.value in galleries && r.value.shortCode == shortCode
    ensures r.None? <==> forall g :: g in galleries ==> g.shortCode != shortCode
  {
    First(galleries, (g: Gallery) => g.shortCode == shortCode)
  }

  /** `FindByIdAndUserIdAsync`: a gallery another user owns is not found. */
  function FindByIdAndUserId(galleries: seq<Gallery>, id: Guid, userId: Guid): (r: Option<Gallery>)
    ensures r.Some? ==> r.value in galleries && r.value.id == id && r.value.userId == userId
    ensures r.None? <==> forall g :: g in galleries ==> g.id != id || g.userId != userId
  {
    First(galleries, (g: Gallery) => g.id == id && g.userId == userId)
  }

  function ExistsByShortCode(galleries: seq<Gallery>, shortCode: string): (b: bool)
    ensures b <==> exists g :: g in galleries && g.shortCode == shortCode
  {
    FindByShortCode(galleries, shortCode).Some?
  }

  /** The short codes in use; membership is exactly `ExistsByShortCode`. */
  function ShortCodes(galleries: seq<Gallery>): (codes: set<string>)
    ensures forall c :: c in codes <==> ExistsByShortCode(galleries, c)
  {
    set g | g in galleries :: g.shortCode
  }

  lemma ShortCodesAppend(galleries: seq<Gallery>, g: Gallery)
    ensures ShortCodes(galleries + [g]) == ShortCodes(galleries) + {g.shortCode}
  {
    assert forall x :: x in galleries + [g] <==> x in galleries || x == g;
  }

  /** `GetByUserIdAsync`: exactly the user's galleries, newest first. */
  function GetByUserId(galleries: seq<Gallery>, userId: Guid): (r: seq<Gallery>)
    ensures forall g :: g in r ==> g in galleries && g.userId == userId
    ensures forall g :: g in galleries && g.userId == userId ==> g in r
    ensures SortedDesc(r, CreatedAt)
    ensures |r| == Count(galleries, OwnedBy(userId))
  {
    WhereOrderedDesc(galleries, OwnedBy(userId), CreatedAt)
  }
}
