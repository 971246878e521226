/**
 * The administrative controller: role editing through the identity store and
 * photo moderation through the unit of work, each action carried out step by
 * step on the stores and specified by its counterpart on values.
 */
module AdminController {
  import opened Results
  import opened PhotoRepository
  import opened UnitOfWork
  import opened RoleReconciliation
  import opened PhotoModeration

  class AdminController {
    const userManager: UserManager
    const uow: UnitOfWork

    ghost predicate Valid()
      reads this, uow, uow.photoRepository
    {
      uow.Valid()
    }

    constructor (userManager: UserManager, uow: UnitOfWork)
      requires uow.Valid()
      ensures Valid() && this.userManager == userManager && this.uow == uow
    {
      this.userManager := userManager;
      this.uow := uow;
    }

    /**
     * `EditRoles`: reconcile the user's roles with the comma-separated
     * selection. The outcomes of the two store calls arrive as `addSucceeds`
     * and `removeSucceeds`.
     */
    method EditRoles(username: string, roles: Option<string>, addSucceeds: bool, removeSucceeds: bool)
      returns (r: Response<set<string>>)
      modifies userManager
      ensures var e := Reconcile(old(userManager.userRoles), username, roles, addSucceeds, removeSucceeds);
        && r == e.response
        && userManager.userRoles == e.userRoles
        && userManager.log == old(userManager.log) + e.calls
    {
      if IsNullOrEmpty(roles) {
        return BadRequest("You must select at least one role");
      }
      var selectedRoles := SelectedRoles(roles.value);
      var found := userManager.FindByName(username);
      if !found {
        return NotFound;
      }
      var userRoles := userManager.GetRoles(username);
      var ok := userManager.AddToRoles(username, RolesToAdd(selectedRoles, userRoles), addSucceeds);
      if !ok {
        return BadRequest("Failed to add to roles");
      }
      ok := userManager.RemoveFromRoles(username, RolesToRemove(selectedRoles, userRoles), removeSucceeds);
      if !ok {
        return BadRequest("Failed to remove from roles");
      }
      var current := userManager.GetRoles(username);
      return Ok(current);
    }

    /**
     * `GetPhotosForModeration`: every unapproved photo in the database, the
     * ones the default filter hides included.
     */
    method GetPhotosForModeration() returns (r: Response<seq<Photo>>)
      ensures r.Ok?
      ensures forall p :: p in r.value <==> p in uow.saved && !p.isApproved
    {
      var unapprovedPhotos := GetUnapprovedPhotos(uow.saved);
      return Ok(unapprovedPhotos);
    }

    /**
     * `ApprovePhoto`: mark the tracked photo approved, make it main when its
     * owner has no main photo, and commit. The commit's outcome arrives as
     * `commitSucceeds`; the database changes only when it succeeds.
     */
    method ApprovePhoto(photoId: int, commitSucceeds: bool) returns (r: Response<PhotoForApproval>)
      requires Valid()
      modifies uow, uow.photoRepository
      ensures Valid()
      ensures var m := Approve(old(uow.photoRepository.photos), old(uow.users), photoId, commitSucceeds);
        && r == m.response
        && uow.photoRepository.photos == m.photos
        && uow.saved == (if m.committed then m.photos else old(uow.saved))
        && uow.users == old(uow.users)
    {
      var repository := uow.photoRepository;
      // the position of the tracked row that GetPhotoById returns
      var found := FindIndex(repository.photos, photoId);
      if found.None? {
        return NotFound;
      }
      var i := found.value;
      var photo := repository.photos[i];
      if photo.isApproved {
        return BadRequest("This photo is already approved");
      }
      photo := photo.(isApproved := true);
      repository.photos := repository.photos[i := photo];
      var user := GetUserByPhotoId(repository.photos, uow.users, photoId);
      if user.None? {
        return BadRequest("User does not exist");
      }
      if !HasMain(repository.photos, user.value.id) {
        photo := photo.(isMain := true);
        repository.photos := repository.photos[i := photo];
      }
      var ok := uow.Complete(commitSucceeds);
      if ok {
        return Ok(PhotoForApproval(photo.id, photo.url, user.value.userName, photo.isApproved));
      }
      return BadRequest("Problem approving the photo");
    }

    /**
     * `RejectPhoto`: mark the tracked photo unapproved, clear its main flag,
     * and commit, on the same terms as `ApprovePhoto`.
     */
    method RejectPhoto(photoId: int, commitSucceeds: bool) returns (r: Response<PhotoForApproval>)
      requires Valid()
      modifies uow, uow.photoRepository
      ensures Valid()
      ensures var m := Reject(old(uow.photoRepository.photos), old(uow.users), photoId, commitSucceeds);
        && r == m.response
        && uow.photoRepository.photos == m.photos
        && uow.saved == (if m.committed then m.photos else old(uow.saved))
        && uow.users == old(uow.users)
    {
      var repository := uow.photoRepository;
      var found := FindIndex(repository.photos, photoId);
      if found.None? {
        return NotFound;
      }
      var i := found.value;
      var photo := repository.photos[i];
      if !photo.isApproved {
        return BadRequest("This photo has already been rejected");
      }
      photo := photo.(isApproved := false);
      repository.photos := repository.photos[i := photo];
      var user := GetUserByPhotoId(repository.photos, uow.users, photoId);
      if user.None? {
        return BadRequest("User does not exist");
      }
      if photo.isMain {
        photo := photo.(isMain := false);
        repository.photos := repository.photos[i := photo];
      }
      var ok := uow.Complete(commitSucceeds);
      if ok {
        return Ok(PhotoForApproval(photo.id, photo.url, user.value.userName, photo.isApproved));
      }
      return BadRequest("Problem rejecting the photo");
    }
  }
}
