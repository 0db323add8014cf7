/** The hourly sweep of expired anonymous galleries (`AnonymousGalleryCleanupService`). One
    pass lists the galleries expired at `now`; for each, it deletes the storage objects of its
    media in one batch (when it has media) and marks the gallery for removal; a gallery whose
    batch delete throws is skipped and stays for the next pass. When anything expired, one
    save removes the marked galleries and, by cascade, their media rows. */
module AnonymousGalleryCleanup {
  import opened Wrappers
  import opened KappiTypes
  import opened Seqs
  import opened AnonymousGalleryModel
  import opened MediaModel
  import opened ObjectStorage
  import opened KappiDb
  import MediaRepository
  import AnonymousGalleryRepository
  import GalleryController

  /** The pause between two passes. */
  const CleanupInterval: int := 60 * Minute

  /** The storage keys of the media of anonymous gallery `id` (`gallery.Media.Select(m => m.S3Key)`). */
  function GalleryKeys(ms: seq<Media>, id: Guid): (keys: seq<string>)
    ensures forall m :: m in ms && m.anonymousGalleryId == Some(id) ==> m.s3Key in keys
    ensures forall k :: k in keys ==> exists m :: m in ms && m.anonymousGalleryId == Some(id) && m.s3Key == k
  {
    var own := Filter(ms, MediaRepository.InAnonymousGallery(id));
    assert forall k :: k in GalleryController.MediaKeys(own) ==> exists i :: 0 <= i < |own| && own[i].s3Key == k;
    GalleryController.MediaKeys(own)
  }

  /** The batch delete of the gallery's objects cannot throw: no key is faulty. A gallery
      without media is always removable. */
  predicate Removable(ms: seq<Media>, id: Guid, faulty: set<string>)
  {
    forall k :: k in GalleryKeys(ms, id) ==> k !in faulty
  }

  /** The ids one pass over `gs` marks for removal. */
  function Swept(ms: seq<Media>, gs: seq<AnonymousGallery>, faulty: set<string>): set<Guid>
  {
    if gs == [] then {}
    else
      var last := gs[|gs| - 1];
      Swept(ms, gs[..|gs| - 1], faulty) + (if Removable(ms, last.id, faulty) then {last.id} else {})
  }

  /** A pass marks exactly the removable galleries it visits. */
  lemma {:induction false} SweptMembers(ms: seq<Media>, gs: seq<AnonymousGallery>, faulty: set<string>)
    ensures forall id :: id in Swept(ms, gs, faulty) ==>
      Removable(ms, id, faulty) && exists i :: 0 <= i < |gs| && gs[i].id == id
    ensures forall i :: 0 <= i < |gs| && Removable(ms, gs[i].id, faulty) ==> gs[i].id in Swept(ms, gs, faulty)
  {
    if gs != [] {
      var init := gs[..|gs| - 1];
      SweptMembers(ms, init, faulty);
      forall id | id in Swept(ms, gs, faulty)
        ensures exists i :: 0 <= i < |gs| && gs[i].id == id
      {
        if id in Swept(ms, init, faulty) {
          var i :| 0 <= i < |init| && init[i].id == id;
          assert gs[i].id == id;
        } else {
          assert gs[|gs| - 1].id == id;
        }
      }
      forall i | 0 <= i < |gs| && Removable(ms, gs[i].id, faulty)
        ensures gs[i].id in Swept(ms, gs, faulty)
      {
        if i < |gs| - 1 {
          assert init[i] == gs[i];
        }
      }
    }
  }

  /** The storage keys one pass over `gs` deletes: those of the media of the marked galleries. */
  function SweptKeys(ms: seq<Media>, gs: seq<AnonymousGallery>, faulty: set<string>): set<string>
  {
    set m | m in ms && m.anonymousGalleryId.Some? && m.anonymousGalleryId.value in Swept(ms, gs, faulty) :: m.s3Key
  }

  /** Extending a pass by one gallery adds that gallery's keys exactly when it is removable. */
  lemma SweptKeysStep(ms: seq<Media>, gs: seq<AnonymousGallery>, g: AnonymousGallery, faulty: set<string>)
    ensures Swept(ms, gs + [g], faulty) == Swept(ms, gs, faulty) + (if Removable(ms, g.id, faulty) then {g.id} else {})
    ensures SweptKeys(ms, gs + [g], faulty)
         == SweptKeys(ms, gs, faulty) + (if Removable(ms, g.id, faulty) then set k | k in GalleryKeys(ms, g.id) else {})
  {
    assert (gs + [g])[..|gs|] == gs;
    var ids := Swept(ms, gs + [g], faulty);
    assert ids == Swept(ms, gs, faulty) + (if Removable(ms, g.id, faulty) then {g.id} else {});
  }

  /** The `try` block for one gallery: the batch delete of its media's objects, skipped when
      it has none. `removed` says that nothing threw, so the gallery is marked. */
  method DeleteMediaObjects(ms: seq<Media>, store: ObjectStore, id: Guid) returns (removed: bool)
    modifies store
    ensures removed == Removable(ms, id, store.faulty)
    ensures store.objects == old(store.objects) - (if removed then set k | k in GalleryKeys(ms, id) else {})
  {
    var keys := GalleryKeys(ms, id);
    var threw := false;
    if |keys| > 0 {
      threw := store.DeleteObjects(keys);
    }
    removed := !threw;
  }

  /** The `foreach` of a pass: the batch delete of each gallery's objects, collecting the ids
      of the galleries whose delete did not throw. */
  method DeleteGalleryObjects(ms: seq<Media>, store: ObjectStore, expired: seq<AnonymousGallery>)
    returns (pending: set<Guid>)
    modifies store
    ensures pending == Swept(ms, expired, store.faulty)
    ensures store.objects == old(store.objects) - SweptKeys(ms, expired, store.faulty)
  {
    pending := {};
    for k := 0 to |expired|
      invariant pending == Swept(ms, expired[..k], store.faulty)
      invariant store.objects == old(store.objects) - SweptKeys(ms, expired[..k], store.faulty)
    {
      var g := expired[k];
      assert expired[..k + 1] == expired[..k] + [g];
      SweptKeysStep(ms, expired[..k], g, store.faulty);
      var removed := DeleteMediaObjects(ms, store, g.id);
      if removed {
        pending := pending + {g.id};
      }
    }
    assert expired[..|expired|] == expired;
  }

  /** `CleanupExpiredGalleriesAsync`: one pass at time `now`. */
  method CleanupExpiredGalleries(db: Db, store: ObjectStore, now: Time)
    requires db.Valid()
    modifies db, store
    ensures db.Valid()
    ensures db.galleries == old(db.galleries)
    ensures var expired := AnonymousGalleryRepository.GetExpired(old(db.anonymousGalleries), now);
      var swept := Swept(old(db.media), expired, store.faulty);
      db.anonymousGalleries == Filter(old(db.anonymousGalleries), (a: AnonymousGallery) => a.id !in swept)
      && db.media == Filter(old(db.media), (x: Media) => x.anonymousGalleryId.None? || x.anonymousGalleryId.value !in swept)
      && store.objects == old(store.objects) - SweptKeys(old(db.media), expired, store.faulty)
  {
    var expired := AnonymousGalleryRepository.GetExpired(db.anonymousGalleries, now);
    if |expired| == 0 {
      ghost var none := Swept(db.media, expired, store.faulty);
      FilterAll(db.anonymousGalleries, (a: AnonymousGallery) => a.id !in none);
      ghost var ms := db.media;
      FilterAll(ms, (x: Media) => x.anonymousGalleryId.None? || x.anonymousGalleryId.value !in none);
      return;
    }
    var pending := DeleteGalleryObjects(db.media, store, expired);
    db.RemoveAnonymousGalleries(pending);
  }

  /** A gallery that has not expired is never marked, provided ids are unique. */
  lemma {:induction false} LiveGalleriesStay(table: seq<AnonymousGallery>, ms: seq<Media>, faulty: set<string>, a: AnonymousGallery, now: Time)
    requires AnonymousGalleryTable(table) && a in table && !IsExpired(a, now)
    ensures a.id !in Swept(ms, AnonymousGalleryRepository.GetExpired(table, now), faulty)
  {
    var expired := AnonymousGalleryRepository.GetExpired(table, now);
    SweptMembers(ms, expired, faulty);
  }

  /** With storage that never throws, every expired gallery is marked. */
  lemma FaultFreeSweepsAll(table: seq<AnonymousGallery>, ms: seq<Media>, a: AnonymousGallery, now: Time)
    requires a in table && IsExpired(a, now)
    ensures a.id in Swept(ms, AnonymousGalleryRepository.GetExpired(table, now), {})
  {
    var expired := AnonymousGalleryRepository.GetExpired(table, now);
    assert a in expired;
    var i :| 0 <= i < |expired| && expired[i] == a;
    SweptMembers(ms, expired, {});
  }

  /** With storage that never throws, a pass leaves no expired gallery behind. */
  lemma FaultFreePassClearsExpired(table: seq<AnonymousGallery>, ms: seq<Media>, now: Time)
    ensures var swept := Swept(ms, AnonymousGalleryRepository.GetExpired(table, now), {});
      AnonymousGalleryRepository.GetExpired(Filter(table, (a: AnonymousGallery) => a.id !in swept), now) == []
  {
    var swept := Swept(ms, AnonymousGalleryRepository.GetExpired(table, now), {});
    var rest := Filter(table, (a: AnonymousGallery) => a.id !in swept);
    var left := AnonymousGalleryRepository.GetExpired(rest, now);
    if left != [] {
      var a := left[0];
      assert a in rest && a in table && IsExpired(a, now);
      FaultFreeSweepsAll(table, ms, a, now);
      assert false;
    }
  }

  /** Rows and objects stay in step: with unique storage keys, a media item's object is
      deleted exactly when its row goes with its gallery. Owned galleries' media keep theirs. */
  lemma SweptKeysExact(ms: seq<Media>, gs: seq<AnonymousGallery>, faulty: set<string>, m: Media)
    requires forall a, b :: a in ms && b in ms && a.s3Key == b.s3Key ==> a == b
    requires m in ms
    ensures m.s3Key in SweptKeys(ms, gs, faulty)
        <==> m.anonymousGalleryId.Some? && m.anonymousGalleryId.value in Swept(ms, gs, faulty)
  {
  }
}
