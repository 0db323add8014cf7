/** An anonymous gallery (`AnonymousGallery`): every field is assigned once, at construction,
    so the model is a value. The expiry is 30 days after the constructor's clock reading and
    is never extended; the creation time is a separate clock reading. */
module AnonymousGalleryModel {
  import opened KappiTypes

  const MaxShortCodeLength: nat := 10
  const MaxAccessKeyLength: nat := 64
  const Lifetime: int := 30 * Day

  datatype AnonymousGallery = AnonymousGallery(
    id: Guid,
    shortCode: string,
    accessKey: string,
    expiresAt: Time,
    createdAt: Time)

  /** `new AnonymousGallery(id, shortCode, accessKey)`; `createdAt` is the property
      initialiser's clock reading and `now` the constructor body's. */
  function NewAnonymousGallery(id: Guid, shortCode: string, accessKey: string, createdAt: Time, now: Time): (g: AnonymousGallery)
    ensures g.id == id && g.shortCode == shortCode && g.accessKey == accessKey
    ensures g.expiresAt - now == Lifetime && g.createdAt == createdAt
  {
    AnonymousGallery(id, shortCode, accessKey, now + Lifetime, createdAt)
  }

  /** The controllers' and the sweep's test: expired from the expiry instant on (inclusive). */
  predicate IsExpired(g: AnonymousGallery, now: Time)
  {
    g.expiresAt <= now
  }

  /** Once expired, a gallery stays expired as the clock advances. */
  lemma ExpiryIsPermanent(g: AnonymousGallery, now: Time, later: Time)
    requires IsExpired(g, now) && now <= later
    ensures IsExpired(g, later)
  {
  }

  /** With the clock not running backwards, a new gallery lives at least 30 days and expires
      strictly later than both clock readings (what the creation test asserts). */
  lemma NewGalleryLifetime(id: Guid, shortCode: string, accessKey: string, createdAt: Time, now: Time)
    requires createdAt <= now
    ensures var g := NewAnonymousGallery(id, shortCode, accessKey, createdAt, now);
      g.expiresAt - g.createdAt >= Lifetime && !IsExpired(g, now) && g.expiresAt < now + 31 * Day
  {
  }
}
