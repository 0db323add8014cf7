/** The persisted state of the gallery module: the three tables, in row order, with the
    unique indexes, column lengths and foreign keys of the schema as the invariant `Valid`.
    Each `Save…`/`Remove…` method is one change followed by `SaveChangesAsync`; a change that
    would break a unique index or a column length is rejected and nothing is persisted. */
module KappiDb {
  import opened Wrappers
  import opened KappiTypes
  import opened Seqs
  import opened GalleryModel
  import opened AnonymousGalleryModel
  import opened MediaModel
  import GalleryRepository
  import AnonymousGalleryRepository
  import MediaRepository

  function GalleryIds(gs: seq<Gallery>): set<Guid>
  {
    set g | g in gs :: g.id
  }

  function AnonymousGalleryIds(table: seq<AnonymousGallery>): set<Guid>
  {
    set a | a in table :: a.id
  }

  function MediaIds(ms: seq<Media>): set<Guid>
  {
    set m | m in ms :: m.id
  }

  function S3Keys(ms: seq<Media>): set<string>
  {
    set m | m in ms :: m.s3Key
  }

  ghost predicate GalleryTable(gs: seq<Gallery>)
  {
    Distinct(gs)
    && (forall a, b :: a in gs && b in gs && a.id == b.id ==> a == b)
    && (forall a, b :: a in gs && b in gs && a.shortCode == b.shortCode ==> a == b)
    && (forall g :: g in gs ==> |g.shortCode| <= GalleryModel.MaxShortCodeLength)
  }

  ghost predicate AnonymousGalleryTable(table: seq<AnonymousGallery>)
  {
    Distinct(table)
    && (forall a, b :: a in table && b in table && a.id == b.id ==> a == b)
    && (forall a, b :: a in table && b in table && a.shortCode == b.shortCode ==> a == b)
    && (forall a, b :: a in table && b in table && a.accessKey == b.accessKey ==> a == b)
    && (forall a :: a in table ==>
          |a.shortCode| <= AnonymousGalleryModel.MaxShortCodeLength && |a.accessKey| <= MaxAccessKeyLength)
  }

  /** Unique id and key, bounded key, exactly one parent, and that parent exists. */
  ghost predicate MediaTable(ms: seq<Media>, gs: seq<Gallery>, table: seq<AnonymousGallery>)
  {
    Distinct(ms)
    && (forall a, b :: a in ms && b in ms && a.id == b.id ==> a == b)
    && (forall a, b :: a in ms && b in ms && a.s3Key == b.s3Key ==> a == b)
    && (forall m :: m in ms ==> |m.s3Key| <= MaxS3KeyLength && m.HasOneParent())
    && (forall m :: m in ms && m.galleryId.Some? ==> m.galleryId.value in GalleryIds(gs))
    && (forall m :: m in ms && m.anonymousGalleryId.Some? ==> m.anonymousGalleryId.value in AnonymousGalleryIds(table))
  }

  /** A row the owned-gallery table accepts. */
  predicate GalleryAccepted(gs: seq<Gallery>, g: Gallery)
    reads g
  {
    g.id !in GalleryIds(gs) && g.shortCode !in GalleryRepository.ShortCodes(gs)
    && |g.shortCode| <= GalleryModel.MaxShortCodeLength && HashFits(g.passwordHash)
  }

  predicate AnonymousGalleryAccepted(table: seq<AnonymousGallery>, a: AnonymousGallery)
  {
    a.id !in AnonymousGalleryIds(table) && a.shortCode !in AnonymousGalleryRepository.ShortCodes(table)
    && (forall b :: b in table ==> b.accessKey != a.accessKey)
    && |a.shortCode| <= AnonymousGalleryModel.MaxShortCodeLength && |a.accessKey| <= MaxAccessKeyLength
  }

  predicate MediaAccepted(ms: seq<Media>, gs: seq<Gallery>, table: seq<AnonymousGallery>, m: Media)
  {
    m.id !in MediaIds(ms) && m.s3Key !in S3Keys(ms) && |m.s3Key| <= MaxS3KeyLength
    && (m.galleryId.Some? ==> m.galleryId.value in GalleryIds(gs))
    && (m.anonymousGalleryId.Some? ==> m.anonymousGalleryId.value in AnonymousGalleryIds(table))
  }

  class Db {
    var galleries: seq<Gallery>
    var anonymousGalleries: seq<AnonymousGallery>
    var media: seq<Media>

    ghost predicate Valid()
      reads this
    {
      GalleryTable(galleries) && AnonymousGalleryTable(anonymousGalleries)
      && MediaTable(media, galleries, anonymousGalleries)
    }

    /** No short code names both an owned and an anonymous gallery. No index enforces this;
        the short-code generator checks both tables. */
    ghost predicate ShortCodesDisjoint()
      reads this
    {
      GalleryRepository.ShortCodes(galleries) !! AnonymousGalleryRepository.ShortCodes(anonymousGalleries)
    }

    constructor ()
      ensures Valid() && ShortCodesDisjoint()
      ensures galleries == [] && anonymousGalleries == [] && media == []
    {
      galleries, anonymousGalleries, media := [], [], [];
    }

    /** `Include(g => g.Media)` for an owned gallery: its media in row order. */
    function GalleryMedia(galleryId: Guid): (r: seq<Media>)
      reads this
      ensures forall m :: m in r ==> m in media && m.galleryId == Some(galleryId)
      ensures forall m :: m in media && m.galleryId == Some(galleryId) ==> m in r
    {
      Filter(media, MediaRepository.InGallery(galleryId))
    }

    /** `Include(g => g.Media)` for an anonymous gallery. */
    function AnonymousGalleryMedia(galleryId: Guid): (r: seq<Media>)
      reads this
      ensures forall m :: m in r ==> m in media && m.anonymousGalleryId == Some(galleryId)
      ensures forall m :: m in media && m.anonymousGalleryId == Some(galleryId) ==> m in r
    {
      Filter(media, MediaRepository.InAnonymousGallery(galleryId))
    }

    /** `galleries.Add(g); SaveChangesAsync()`. */
    method SaveGallery(g: Gallery) returns (saved: bool)
      requires Valid()
      modifies this
      ensures Valid()
      ensures saved == GalleryAccepted(old(galleries), g)
      ensures galleries == if saved then old(galleries) + [g] else old(galleries)
      ensures anonymousGalleries == old(anonymousGalleries) && media == old(media)
    {
      saved := GalleryAccepted(galleries, g);
      if saved {
        assert g !in galleries;
        galleries := galleries + [g];
        assert GalleryTable(galleries) by {
          forall i, j | 0 <= i < j < |galleries| ensures galleries[i] != galleries[j] {
            if j == |galleries| - 1 {
              assert galleries[i] in old(galleries);
            } else {
              assert galleries[i] == old(galleries)[i] && galleries[j] == old(galleries)[j];
            }
          }
        }
        assert GalleryIds(old(galleries)) <= GalleryIds(galleries);
      }
    }

    /** `anonymousGalleries.Add(a); SaveChangesAsync()`. */
    method SaveAnonymousGallery(a: AnonymousGallery) returns (saved: bool)
      requires Valid()
      modifies this
      ensures Valid()
      ensures saved == AnonymousGalleryAccepted(old(anonymousGalleries), a)
      ensures anonymousGalleries == if saved then old(anonymousGalleries) + [a] else old(anonymousGalleries)
      ensures galleries == old(galleries) && media == old(media)
    {
      saved := AnonymousGalleryAccepted(anonymousGalleries, a);
      if saved {
        assert a !in anonymousGalleries;
        anonymousGalleries := anonymousGalleries + [a];
        assert AnonymousGalleryTable(anonymousGalleries) by {
          forall i, j | 0 <= i < j < |anonymousGalleries| ensures anonymousGalleries[i] != anonymousGalleries[j] {
            if j == |anonymousGalleries| - 1 {
              assert anonymousGalleries[i] in old(anonymousGalleries);
            } else {
              assert anonymousGalleries[i] == old(anonymousGalleries)[i];
              assert anonymousGalleries[j] == old(anonymousGalleries)[j];
            }
          }
        }
        assert AnonymousGalleryIds(old(anonymousGalleries)) <= AnonymousGalleryIds(anonymousGalleries);
      }
    }

    /** `mediaRepository.Add(m); SaveChangesAsync()`. */
    method SaveMedia(m: Media) returns (saved: bool)
      requires Valid() && m.HasOneParent()
      modifies this
      ensures Valid()
      ensures saved == MediaAccepted(old(media), galleries, anonymousGalleries, m)
      ensures media == if saved then old(media) + [m] else old(media)
      ensures galleries == old(galleries) && anonymousGalleries == old(anonymousGalleries)
    {
      saved := MediaAccepted(media, galleries, anonymousGalleries, m);
      if saved {
        assert m !in media;
        media := media + [m];
        assert Distinct(media) by {
          forall i, j | 0 <= i < j < |media| ensures media[i] != media[j] {
            if j == |media| - 1 {
              assert media[i] in old(media);
            } else {
              assert media[i] == old(media)[i] && media[j] == old(media)[j];
            }
          }
        }
      }
    }

    /** `db.Remove(media); SaveChangesAsync()`. */
    method RemoveMedia(m: Media)
      requires Valid()
      modifies this
      ensures Valid()
      ensures media == Filter(old(media), (x: Media) => x != m)
      ensures m !in media && forall x :: x in old(media) && x != m ==> x in media
      ensures galleries == old(galleries) && anonymousGalleries == old(anonymousGalleries)
    {
      FilterDistinct(media, (x: Media) => x != m);
      media := Filter(media, (x: Media) => x != m);
    }

    /** `db.Remove(gallery); SaveChangesAsync()`: the gallery row and, by cascade, its media. */
    method RemoveGallery(g: Gallery)
      requires Valid() && g in galleries
      modifies this
      ensures Valid()
      ensures galleries == Filter(old(galleries), (x: Gallery) => x != g)
      ensures media == Filter(old(media), (x: Media) => x.galleryId != Some(g.id))
      ensures anonymousGalleries == old(anonymousGalleries)
    {
      var before := galleries;
      FilterDistinct(galleries, (x: Gallery) => x != g);
      FilterDistinct(media, (x: Media) => x.galleryId != Some(g.id));
      galleries := Filter(galleries, (x: Gallery) => x != g);
      media := Filter(media, (x: Media) => x.galleryId != Some(g.id));
      forall m | m in media && m.galleryId.Some? ensures m.galleryId.value in GalleryIds(galleries) {
        var owner :| owner in before && owner.id == m.galleryId.value;
        assert owner != g;
        assert owner in galleries;
      }
    }

    /** Removes the anonymous galleries with ids in `ids` and, by cascade, their media, then
        saves once. */
    method RemoveAnonymousGalleries(ids: set<Guid>)
      requires Valid()
      modifies this
      ensures Valid()
      ensures anonymousGalleries == Filter(old(anonymousGalleries), (a: AnonymousGallery) => a.id !in ids)
      ensures media == Filter(old(media), (x: Media) => x.anonymousGalleryId.None? || x.anonymousGalleryId.value !in ids)
      ensures galleries == old(galleries)
    {
      var before := anonymousGalleries;
      FilterDistinct(anonymousGalleries, (a: AnonymousGallery) => a.id !in ids);
      FilterDistinct(media, (x: Media) => x.anonymousGalleryId.None? || x.anonymousGalleryId.value !in ids);
      anonymousGalleries := Filter(anonymousGalleries, (a: AnonymousGallery) => a.id !in ids);
      media := Filter(media, (x: Media) => x.anonymousGalleryId.None? || x.anonymousGalleryId.value !in ids);
      forall m | m in media && m.anonymousGalleryId.Some?
        ensures m.anonymousGalleryId.value in AnonymousGalleryIds(anonymousGalleries)
      {
        var owner :| owner in before && owner.id == m.anonymousGalleryId.value;
        assert owner in anonymousGalleries;
      }
    }
  }

  /** The parent ids of a media row. */
  datatype ParentIds = ParentIds(anonymousGalleryId: Option<Guid>, galleryId: Option<Guid>)

  /** The schema as migrated gives the media foreign keys no delete rule, so removing a gallery
      whose media are loaded clears their foreign key and keeps the rows (the default for an
      optional relationship). These are the parent ids a media row keeps when the owned
      gallery `deletedGallery` or the anonymous galleries `deletedAnonymous` go. */
  function ParentsAfterSetNull(m: Media, deletedGallery: Option<Guid>, deletedAnonymous: set<Guid>): (p: ParentIds)
    ensures p.galleryId.Some? ==> p.galleryId == m.galleryId && m.galleryId != deletedGallery
    ensures p.anonymousGalleryId.Some? ==> p.anonymousGalleryId == m.anonymousGalleryId && m.anonymousGalleryId.value !in deletedAnonymous
  {
    ParentIds(
      if m.anonymousGalleryId.Some? && m.anonymousGalleryId.value in deletedAnonymous then None else m.anonymousGalleryId,
      if m.galleryId.Some? && m.galleryId == deletedGallery then None else m.galleryId)
  }

  /** As migrated, deleting an owned gallery leaves each of its media rows in the table with
      neither parent set, breaking the one-parent rule the constructors establish. */
  lemma SetNullLeavesOrphans(m: Media, g: Gallery)
    requires m.HasOneParent() && m.galleryId == Some(g.id)
    ensures ParentsAfterSetNull(m, Some(g.id), {}) == ParentIds(None, None)
  {
  }

  /** The same for the sweep of expired anonymous galleries. */
  lemma AnonymousSetNullLeavesOrphans(m: Media, ids: set<Guid>)
    requires m.HasOneParent() && m.anonymousGalleryId.Some? && m.anonymousGalleryId.value in ids
    ensures ParentsAfterSetNull(m, None, ids) == ParentIds(None, None)
  {
  }

  /** Adding an owned gallery whose code no anonymous gallery uses keeps the namespaces apart. */
  lemma GalleryCodesStayDisjoint(gs: seq<Gallery>, table: seq<AnonymousGallery>, g: Gallery)
    requires GalleryRepository.ShortCodes(gs) !! AnonymousGalleryRepository.ShortCodes(table)
    requires g.shortCode !in AnonymousGalleryRepository.ShortCodes(table)
    ensures GalleryRepository.ShortCodes(gs + [g]) !! AnonymousGalleryRepository.ShortCodes(table)
  {
    GalleryRepository.ShortCodesAppend(gs, g);
  }

  /** Adding an anonymous gallery whose code no owned gallery uses keeps the namespaces apart. */
  lemma AnonymousCodesStayDisjoint(gs: seq<Gallery>, table: seq<AnonymousGallery>, a: AnonymousGallery)
    requires GalleryRepository.ShortCodes(gs) !! AnonymousGalleryRepository.ShortCodes(table)
    requires a.shortCode !in GalleryRepository.ShortCodes(gs)
    ensures GalleryRepository.ShortCodes(gs) !! AnonymousGalleryRepository.ShortCodes(table + [a])
  {
    AnonymousGalleryRepository.ShortCodesAppend(table, a);
  }

  /** With unique ids, finding by id returns the one row carrying it. */
  lemma FindGalleryById(gs: seq<Gallery>, g: Gallery)
    requires GalleryTable(gs) && g in gs
    ensures GalleryRepository.FindById(gs, g.id) == Some(g)
  {
  }
}
