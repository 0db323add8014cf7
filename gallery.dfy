/** An owned gallery (`Gallery`): a signed-in user's gallery whose visibility and password
    are changed in place. Id, owner, short code and creation time are assigned once. */
module GalleryModel {
  import opened Wrappers
  import opened KappiTypes

  /** The `[StringLength(10)]` bound on `ShortCode`. */
  const MaxShortCodeLength: nat := 10

  /** The `[StringLength(255)]` bound on `PasswordHash`. */
  const MaxPasswordHashLength: nat := 255

  /** A password hash the `password_hash` column can hold (none, or at most 255 characters). */
  predicate HashFits(hash: Option<string>)
  {
    hash.None? || |hash.value| <= MaxPasswordHashLength
  }

  class Gallery {
    const id: Guid
    const userId: Guid
    const shortCode: string
    const createdAt: Time
    var isPublic: bool
    var passwordHash: Option<string>

    /** `new Gallery(id, userId, shortCode)`: private, without a password, created now. */
    constructor (id: Guid, userId: Guid, shortCode: string, now: Time)
      ensures this.id == id && this.userId == userId && this.shortCode == shortCode
      ensures createdAt == now
      ensures !isPublic && passwordHash == None
    {
      this.id := id;
      this.userId := userId;
      this.shortCode := shortCode;
      this.createdAt := now;
      this.isPublic := false;
      this.passwordHash := None;
    }

    /** `!string.IsNullOrEmpty(PasswordHash)`: the gallery is password-protected. */
    predicate HasPassword()
      reads this
    {
      passwordHash.Some? && passwordHash.value != ""
    }

    method SetPassword(hash: string)
      modifies this
      ensures passwordHash == Some(hash)
      ensures isPublic == old(isPublic)
    {
      passwordHash := Some(hash);
    }

    method ClearPassword()
      modifies this
      ensures passwordHash == None && !HasPassword()
      ensures isPublic == old(isPublic)
    {
      passwordHash := None;
    }
  }
}
