/** The frontend's persisted list of recently created galleries (`useGalleryStore`): each
    action is a reducer from the store state to the next one. The clock and the date parser
    `new Date(text)` are inputs. */
module GalleryStore {
  import opened Wrappers
  import opened Seqs

  /** `GalleryAccessInfo`; the instants are kept as the strings the API returned. */
  datatype GalleryAccessInfo = GalleryAccessInfo(galleryId: string, shortCode: string, accessKey: string,
                                                 expiresAt: string, createdAt: string)

  datatype GalleryState = GalleryState(recentGalleries: seq<GalleryAccessInfo>, currentAccessKey: Option<string>)

  /** How many galleries the list keeps. */
  const MaxRecent: nat := 10

  /** The store's initial state. */
  const Initial: GalleryState := GalleryState([], None)

  /** `recentGalleries.some(g => g.galleryId === id)`. */
  function HasGallery(galleries: seq<GalleryAccessInfo>, id: string): (b: bool)
    ensures b <==> exists i :: 0 <= i < |galleries| && galleries[i].galleryId == id
  {
    if galleries == [] then false
    else if galleries[0].galleryId == id then true
    else
      var b := HasGallery(galleries[1..], id);
      assert b ==> exists i :: 0 <= i < |galleries| && galleries[i].galleryId == id by {
        if b {
          var i :| 0 <= i < |galleries[1..]| && galleries[1..][i].galleryId == id;
          assert galleries[i + 1].galleryId == id;
        }
      }
      assert (exists i :: 0 <= i < |galleries| && galleries[i].galleryId == id) ==> b by {
        if exists i :: 0 <= i < |galleries| && galleries[i].galleryId == id {
          var i :| 0 <= i < |galleries| && galleries[i].galleryId == id;
          assert galleries[1..][i - 1].galleryId == id;
        }
      }
      b
  }

  /** `slice(0, n)`. */
  function Take<T>(s: seq<T>, n: nat): (r: seq<T>)
    ensures |r| == if |s| <= n then |s| else n
    ensures r == s[..|r|]
  {
    if |s| <= n then s else s[..n]
  }

  /** No gallery listed twice. */
  predicate DistinctIds(galleries: seq<GalleryAccessInfo>)
  {
    forall i, j :: 0 <= i < j < |galleries| ==> galleries[i].galleryId != galleries[j].galleryId
  }

  /** At most `MaxRecent` galleries, no gallery twice. */
  predicate Valid(s: GalleryState)
  {
    |s.recentGalleries| <= MaxRecent && DistinctIds(s.recentGalleries)
  }

  /** `addGallery`: a gallery already listed leaves the state unchanged; a new one goes in
      front of the list, which keeps its first `MaxRecent` entries. */
  function AddGallery(s: GalleryState, g: GalleryAccessInfo): (r: GalleryState)
    ensures r.currentAccessKey == s.currentAccessKey
    ensures HasGallery(s.recentGalleries, g.galleryId) ==> r == s
    ensures !HasGallery(s.recentGalleries, g.galleryId) ==>
      |r.recentGalleries| == (if |s.recentGalleries| < MaxRecent then |s.recentGalleries| + 1 else MaxRecent)
      && r.recentGalleries[0] == g
      && r.recentGalleries[1..] == s.recentGalleries[..|r.recentGalleries| - 1]
  {
    if HasGallery(s.recentGalleries, g.galleryId) then s
    else
      var updated := Take([g] + s.recentGalleries, MaxRecent);
      assert updated[0] == g;
      assert updated[1..] == s.recentGalleries[..|updated| - 1];
      s.(recentGalleries := updated)
  }

  /** `getGalleryByAccessKey`: the first listed gallery with that access key. */
  function GetGalleryByAccessKey(s: GalleryState, accessKey: string): (r: Option<GalleryAccessInfo>)
    ensures r.Some? ==> r.value in s.recentGalleries && r.value.accessKey == accessKey
    ensures r.None? <==> forall g :: g in s.recentGalleries ==> g.accessKey != accessKey
    ensures r.Some? ==> exists i :: 0 <= i < |s.recentGalleries| && s.recentGalleries[i] == r.value
                          && forall j :: 0 <= j < i ==> s.recentGalleries[j].accessKey != accessKey
  {
    First(s.recentGalleries, (g: GalleryAccessInfo) => g.accessKey == accessKey)
  }

  /** `new Date(g.expiresAt) > now`; an unreadable date (`None`, an invalid date) compares
      false. */
  function Unexpired(now: int, parseDate: string -> Option<int>): GalleryAccessInfo -> bool
  {
    (g: GalleryAccessInfo) => parseDate(g.expiresAt).Some? && parseDate(g.expiresAt).value > now
  }

  /** `removeExpiredGalleries` at time `now`: exactly the galleries whose expiry lies after
      `now` stay, in order. */
  function RemoveExpiredGalleries(s: GalleryState, now: int, parseDate: string -> Option<int>): (r: GalleryState)
    ensures r.currentAccessKey == s.currentAccessKey
    ensures forall g :: g in r.recentGalleries <==>
      g in s.recentGalleries && parseDate(g.expiresAt).Some? && parseDate(g.expiresAt).value > now
  {
    s.(recentGalleries := Filter(s.recentGalleries, Unexpired(now, parseDate)))
  }

  /** `setCurrentAccessKey`: only the current key changes. */
  function SetCurrentAccessKey(s: GalleryState, accessKey: string): (r: GalleryState)
    ensures r.recentGalleries == s.recentGalleries && r.currentAccessKey == Some(accessKey)
  {
    s.(currentAccessKey := Some(accessKey))
  }

  /** `clearCurrentAccessKey`: only the current key changes. */
  function ClearCurrentAccessKey(s: GalleryState): (r: GalleryState)
    ensures r.recentGalleries == s.recentGalleries && r.currentAccessKey == None
  {
    s.(currentAccessKey := None)
  }

  /** `addGallery` keeps the list valid. */
  lemma AddGalleryValid(s: GalleryState, g: GalleryAccessInfo)
    requires Valid(s)
    ensures Valid(AddGallery(s, g))
  {
    if !HasGallery(s.recentGalleries, g.galleryId) {
      var r := AddGallery(s, g).recentGalleries;
      var old_ := s.recentGalleries;
      forall i, j | 0 <= i < j < |r| ensures r[i].galleryId != r[j].galleryId {
        assert r[j] == r[1..][j - 1] == old_[j - 1];
        if i > 0 {
          assert r[i] == r[1..][i - 1] == old_[i - 1];
        }
      }
    }
  }

  /** After `addGallery` the gallery's id is listed, and adding it again changes nothing. */
  lemma AddGalleryIdempotent(s: GalleryState, g: GalleryAccessInfo)
    ensures HasGallery(AddGallery(s, g).recentGalleries, g.galleryId)
    ensures AddGallery(AddGallery(s, g), g) == AddGallery(s, g)
  {
    if !HasGallery(s.recentGalleries, g.galleryId) {
      assert AddGallery(s, g).recentGalleries[0].galleryId == g.galleryId;
    }
  }

  /** A newly added gallery is the one its access key finds. */
  lemma AddedGalleryFound(s: GalleryState, g: GalleryAccessInfo)
    requires !HasGallery(s.recentGalleries, g.galleryId)
    ensures GetGalleryByAccessKey(AddGallery(s, g), g.accessKey) == Some(g)
  {
  }

  /** `removeExpiredGalleries` keeps the list valid. */
  lemma RemoveExpiredValid(s: GalleryState, now: int, parseDate: string -> Option<int>)
    requires Valid(s)
    ensures Valid(RemoveExpiredGalleries(s, now, parseDate))
  {
    var q := s.recentGalleries;
    FilterDistinctIds(q, Unexpired(now, parseDate));
  }

  /** Filtering keeps gallery ids distinct. */
  lemma {:induction false} FilterDistinctIds(q: seq<GalleryAccessInfo>, p: GalleryAccessInfo -> bool)
    requires DistinctIds(q)
    ensures DistinctIds(Filter(q, p))
  {
    if q != [] {
      var rest := Filter(q[1..], p);
      assert DistinctIds(q[1..]) by {
        forall i, j | 0 <= i < j < |q[1..]| ensures q[1..][i].galleryId != q[1..][j].galleryId {
          assert q[1..][i] == q[i + 1] && q[1..][j] == q[j + 1];
        }
      }
      FilterDistinctIds(q[1..], p);
      if p(q[0]) {
        forall k | 0 <= k < |rest| ensures rest[k].galleryId != q[0].galleryId {
          assert rest[k] in q[1..];
          var j :| 0 <= j < |q[1..]| && q[1..][j] == rest[k];
          assert q[j + 1] == rest[k];
        }
        var r := [q[0]] + rest;
        forall i, j | 0 <= i < j < |r| ensures r[i].galleryId != r[j].galleryId {
          if i > 0 {
            assert r[i] == rest[i - 1] && r[j] == rest[j - 1];
          } else {
            assert r[j] == rest[j - 1];
          }
        }
      }
    }
  }

  /** A later sweep subsumes an earlier one, and a second sweep at the same time removes
      nothing. */
  lemma RemoveExpiredLater(s: GalleryState, now: int, later: int, parseDate: string -> Option<int>)
    requires now <= later
    ensures RemoveExpiredGalleries(RemoveExpiredGalleries(s, now, parseDate), later, parseDate)
         == RemoveExpiredGalleries(s, later, parseDate)
  {
    FilterFilter(s.recentGalleries, Unexpired(now, parseDate), Unexpired(later, parseDate));
  }

  /** Switching the current access key does not touch what the list finds. */
  lemma AccessKeySettersIndependent(s: GalleryState, key: string, accessKey: string)
    ensures GetGalleryByAccessKey(SetCurrentAccessKey(s, key), accessKey) == GetGalleryByAccessKey(s, accessKey)
    ensures ClearCurrentAccessKey(SetCurrentAccessKey(s, key)) == ClearCurrentAccessKey(s)
  {
  }
}
