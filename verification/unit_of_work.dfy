/**
 * The unit of work the controller commits through, with the one user query
 * moderation needs. That query belongs to the user repository reached
 * through the unit of work; the rest of that repository is not part of this
 * model. Users are reduced to their key and user name.
 */
module UnitOfWork {
  import opened Results
  import opened PhotoRepository

  /** The owner of a photo, as far as the response needs it. */
  datatype AppUser = AppUser(id: int, userName: string)

  /**
   * `GetUserByPhotoId`: the user owning the photo keyed `photoId`, or None when
   * there is no such photo or its owner key resolves to no user.
   */
  function GetUserByPhotoId(photos: seq<Photo>, users: map<int, string>, photoId: int): (r: Option<AppUser>)
    ensures r.Some? ==> exists p :: p in photos && p.id == photoId && p.appUserId == r.value.id
    ensures r.Some? ==> r.value.id in users && r.value.userName == users[r.value.id]
    ensures r.None? <==> (forall p :: p in photos ==> p.id != photoId) || GetPhotoById(photos, photoId).value.appUserId !in users
  {
    match GetPhotoById(photos, photoId)
    case None => None
    case Some(p) => if p.appUserId in users then Some(AppUser(p.appUserId, users[p.appUserId])) else None
  }

  /**
   * One request's unit of work: the tracked photo rows live in the repository,
   * `saved` is what the database holds, and `users` maps user keys to names.
   */
  class UnitOfWork {
    const photoRepository: PhotoStore
    var users: map<int, string>
    var saved: seq<Photo>

    ghost predicate Valid()
      reads this, photoRepository
    {
      photoRepository.Valid() && UniqueIds(saved)
    }

    /** A fresh unit of work whose tracked rows are the database's rows. */
    constructor (photoRepository: PhotoStore, users: map<int, string>)
      requires photoRepository.Valid()
      ensures Valid()
      ensures this.photoRepository == photoRepository && this.users == users
      ensures saved == photoRepository.photos
    {
      this.photoRepository := photoRepository;
      this.users := users;
      this.saved := photoRepository.photos;
    }

    /**
     * `Complete`: persist every tracked change. Whether the database accepts
     * the save is decided outside this model and arrives as `succeeds`; a
     * refused save leaves the database as it was.
     */
    method Complete(succeeds: bool) returns (ok: bool)
      requires Valid()
      modifies this
      ensures Valid() && users == old(users)
      ensures ok == succeeds
      ensures saved == if succeeds then photoRepository.photos else old(saved)
    {
      if succeeds {
        saved := photoRepository.photos;
      }
      ok := succeeds;
    }
  }
}
