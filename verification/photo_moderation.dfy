/**
 * The photo moderation state machine of `ApprovePhoto` and `RejectPhoto`,
 * on values: two flags per photo (approved, main) and the rule that keeps at
 * most one main photo per user and no unapproved main photo.
 */
module PhotoModeration {
  import opened Results
  import opened PhotoRepository
  import opened UnitOfWork

  /** The body of a successful moderation response. */
  datatype PhotoForApproval = PhotoForApproval(id: int, url: string, username: string, isApproved: bool)

  /** What one moderation request answers, the tracked rows it leaves, and whether it committed them. */
  datatype Moderation = Moderation(response: Response<PhotoForApproval>, photos: seq<Photo>, committed: bool)

  /** `user.Photos.Any(p => p.IsMain)`: some photo of the user, approved or not, is main. */
  predicate HasMain(photos: seq<Photo>, userId: int): (b: bool)
    ensures b <==> exists p :: p in photos && p.appUserId == userId && p.isMain
  {
    exists j :: 0 <= j < |photos| && photos[j].appUserId == userId && photos[j].isMain
  }

  /** At most one main photo per user, and no unapproved photo is main. */
  predicate MainPhotoInvariant(photos: seq<Photo>) {
    && (forall i, j ::
          (0 <= i < |photos| && 0 <= j < |photos| && photos[i].isMain && photos[j].isMain
           && photos[i].appUserId == photos[j].appUserId) ==> i == j)
    && (forall i :: 0 <= i < |photos| && photos[i].isMain ==> photos[i].isApproved)
  }

  /** The two tables differ at most in the approval and main flags. */
  predicate SameRows(photos: seq<Photo>, photos': seq<Photo>) {
    && |photos'| == |photos|
    && forall j :: 0 <= j < |photos| ==>
         photos'[j].id == photos[j].id && photos'[j].url == photos[j].url && photos'[j].appUserId == photos[j].appUserId
  }

  /** Rows that differ only in their flags have the same keys, so keys stay unique. */
  lemma SameRowsKeepUniqueIds(photos: seq<Photo>, photos': seq<Photo>)
    requires SameRows(photos, photos') && UniqueIds(photos)
    ensures UniqueIds(photos')
  {
  }

  /** Setting one row's approval flag leaves every user's `HasMain` as it was. */
  lemma HasMainIgnoresApproval(photos: seq<Photo>, i: nat, p: Photo, userId: int)
    requires i < |photos|
    requires p.isMain == photos[i].isMain && p.appUserId == photos[i].appUserId
    ensures HasMain(photos[i := p], userId) == HasMain(photos, userId)
  {
    var photos' := photos[i := p];
    if HasMain(photos, userId) {
      var j :| 0 <= j < |photos| && photos[j].appUserId == userId && photos[j].isMain;
      assert photos'[j].appUserId == userId && photos'[j].isMain;
    }
    if HasMain(photos', userId) {
      var j :| 0 <= j < |photos'| && photos'[j].appUserId == userId && photos'[j].isMain;
      assert photos[j].appUserId == userId && photos[j].isMain;
    }
  }

  /**
   * `ApprovePhoto` on values. `commitSucceeds` is what the unit of work's
   * commit reports. The photo is marked approved before its owner is looked
   * up, so a photo without an owner is left approved in the tracked rows;
   * the action itself does not commit them.
   */
  function Approve(photos: seq<Photo>, users: map<int, string>, photoId: int, commitSucceeds: bool): (m: Moderation)
    ensures SameRows(photos, m.photos)
    ensures m.committed <==> m.response.Ok?
    ensures m.response.NotFound? <==> GetPhotoById(photos, photoId).None?
    ensures match FindIndex(photos, photoId)
      case None => m == Moderation(NotFound, photos, false)
      case Some(i) =>
        var p, owner := photos[i], photos[i].appUserId;
        // no other photo changes
        && (forall j :: 0 <= j < |photos| && j != i ==> m.photos[j] == photos[j])
        && (p.isApproved ==> m == Moderation(BadRequest("This photo is already approved"), photos, false))
        && (!p.isApproved ==> m.photos[i].isApproved)
        && (!p.isApproved && owner !in users ==>
              m == Moderation(BadRequest("User does not exist"), photos[i := p.(isApproved := true)], false))
        // made main exactly when none of the owner's photos was main
        && (!p.isApproved && owner in users ==>
              && m.photos[i].isMain == (p.isMain || !HasMain(photos, owner))
              && m.response == if commitSucceeds then Ok(PhotoForApproval(photoId, p.url, users[owner], true))
                               else BadRequest("Problem approving the photo"))
  {
    match FindIndex(photos, photoId)
    case None => Moderation(NotFound, photos, false)
    case Some(i) =>
      if photos[i].isApproved then Moderation(BadRequest("This photo is already approved"), photos, false)
      else
        var approved := photos[i := photos[i].(isApproved := true)];
        FindIndexIgnoresFlags(photos, photoId, i, approved[i]);
        HasMainIgnoresApproval(photos, i, approved[i], photos[i].appUserId);
        match GetUserByPhotoId(approved, users, photoId)
        case None => Moderation(BadRequest("User does not exist"), approved, false)
        case Some(user) =>
          var after := if !HasMain(approved, user.id) then approved[i := approved[i].(isMain := true)] else approved;
          if commitSucceeds then
            Moderation(Ok(PhotoForApproval(after[i].id, after[i].url, user.userName, after[i].isApproved)), after, true)
          else Moderation(BadRequest("Problem approving the photo"), after, false)
  }

  /**
   * `RejectPhoto` on values: the photo loses its approval and its main flag,
   * and no other photo is made main in its place.
   */
  function Reject(photos: seq<Photo>, users: map<int, string>, photoId: int, commitSucceeds: bool): (m: Moderation)
    ensures SameRows(photos, m.photos)
    ensures m.committed <==> m.response.Ok?
    ensures m.response.NotFound? <==> GetPhotoById(photos, photoId).None?
    ensures match FindIndex(photos, photoId)
      case None => m == Moderation(NotFound, photos, false)
      case Some(i) =>
        var p, owner := photos[i], photos[i].appUserId;
        // no other photo changes, so none is promoted to main
        && (forall j :: 0 <= j < |photos| && j != i ==> m.photos[j] == photos[j])
        && (!p.isApproved ==> m == Moderation(BadRequest("This photo has already been rejected"), photos, false))
        && (p.isApproved && owner !in users ==>
              m == Moderation(BadRequest("User does not exist"), photos[i := p.(isApproved := false)], false))
        && (p.isApproved && owner in users ==>
              && !m.photos[i].isApproved && !m.photos[i].isMain
              && m.response == if commitSucceeds then Ok(PhotoForApproval(photoId, p.url, users[owner], false))
                               else BadRequest("Problem rejecting the photo"))
  {
    match FindIndex(photos, photoId)
    case None => Moderation(NotFound, photos, false)
    case Some(i) =>
      if !photos[i].isApproved then Moderation(BadRequest("This photo has already been rejected"), photos, false)
      else
        var rejected := photos[i := photos[i].(isApproved := false)];
        FindIndexIgnoresFlags(photos, photoId, i, rejected[i]);
        match GetUserByPhotoId(rejected, users, photoId)
        case None => Moderation(BadRequest("User does not exist"), rejected, false)
        case Some(user) =>
          var after := if rejected[i].isMain then rejected[i := rejected[i].(isMain := false)] else rejected;
          if commitSucceeds then
            Moderation(Ok(PhotoForApproval(after[i].id, after[i].url, user.userName, after[i].isApproved)), after, true)
          else Moderation(BadRequest("Problem rejecting the photo"), after, false)
  }

  /** Approval keeps at most one main photo per user and no unapproved main photo. */
  lemma ApprovePreservesInvariant(photos: seq<Photo>, users: map<int, string>, photoId: int, commitSucceeds: bool)
    requires MainPhotoInvariant(photos)
    ensures MainPhotoInvariant(Approve(photos, users, photoId, commitSucceeds).photos)
  {
  }

  /**
   * Rejection keeps the invariant except on the path where the owner is
   * missing: there the approval flag is already cleared while the main flag
   * is not, and the action itself does not commit the rows.
   */
  lemma RejectPreservesInvariant(photos: seq<Photo>, users: map<int, string>, photoId: int, commitSucceeds: bool)
    requires MainPhotoInvariant(photos)
    ensures var m := Reject(photos, users, photoId, commitSucceeds);
      m.response != BadRequest("User does not exist") ==> MainPhotoInvariant(m.photos)
  {
  }

  /**
   * On the missing-owner path a rejected main photo is left unapproved but
   * main in the tracked rows; the action itself does not commit them.
   */
  lemma RejectOfOrphanMainPhoto()
    ensures var db := [Photo(7, "p7", true, true, 3)];
      var m := Reject(db, map[], 7, true);
      && m == Moderation(BadRequest("User does not exist"), [Photo(7, "p7", true, false, 3)], false)
      && !MainPhotoInvariant(m.photos)
  {
  }

  /** Once a photo is approved, approving it again is refused and changes nothing. */
  lemma ApproveTwiceIsRefused(photos: seq<Photo>, users: map<int, string>, photoId: int, first: bool, second: bool)
    requires Approve(photos, users, photoId, first).response.Ok?
    ensures var m := Approve(photos, users, photoId, first).photos;
      Approve(m, users, photoId, second) == Moderation(BadRequest("This photo is already approved"), m, false)
  {
  }

  /**
   * Approving a pending photo and then rejecting it, both committed, gives
   * back the table as it was.
   */
  lemma ApproveThenRejectRestores(photos: seq<Photo>, users: map<int, string>, photoId: int)
    requires MainPhotoInvariant(photos)
    requires Approve(photos, users, photoId, true).response.Ok?
    ensures var m := Approve(photos, users, photoId, true);
      var r := Reject(m.photos, users, photoId, true);
      r.response.Ok? && r.photos == photos
  {
  }

  /** A moderation request as the controller receives it, with the commit's outcome. */
  datatype Request = ApproveRequest(photoId: int, commitSucceeds: bool) | RejectRequest(photoId: int, commitSucceeds: bool)

  /** One request run against the database as a fresh unit of work's tracked rows. */
  function Handle(db: seq<Photo>, users: map<int, string>, request: Request): Moderation {
    match request
    case ApproveRequest(id, c) => Approve(db, users, id, c)
    case RejectRequest(id, c) => Reject(db, users, id, c)
  }

  /**
   * The database after serving the requests in order. Each request starts
   * from the database in a fresh unit of work, and only the action's own
   * commit changes it: no later save of the same context is modelled.
   */
  function Serve(db: seq<Photo>, users: map<int, string>, requests: seq<Request>): seq<Photo>
    decreases |requests|
  {
    if requests == [] then db
    else
      var m := Handle(db, users, requests[0]);
      Serve(if m.committed then m.photos else db, users, requests[1..])
  }

  /**
   * Any sequence of approvals and rejections keeps the keys unique, at most
   * one main photo per user, and no unapproved main photo in the database.
   */
  lemma {:induction false} ServePreservesInvariant(db: seq<Photo>, users: map<int, string>, requests: seq<Request>)
    requires UniqueIds(db) && MainPhotoInvariant(db)
    ensures UniqueIds(Serve(db, users, requests)) && MainPhotoInvariant(Serve(db, users, requests))
    decreases |requests|
  {
    if requests != [] {
      var m := Handle(db, users, requests[0]);
      match requests[0] {
        case ApproveRequest(id, c) => ApprovePreservesInvariant(db, users, id, c);
        case RejectRequest(id, c) => RejectPreservesInvariant(db, users, id, c);
      }
      SameRowsKeepUniqueIds(db, m.photos);
      ServePreservesInvariant(if m.committed then m.photos else db, users, requests[1..]);
    }
  }

  /** Scenario, step one: approving the first of two pending photos makes it main. */
  lemma ScenarioApproveFirst()
    ensures Approve([Photo(1, "p1", false, false, 1), Photo(2, "p2", false, false, 1)], map[1 := "lisa"], 1, true)
      == Moderation(Ok(PhotoForApproval(1, "p1", "lisa", true)),
                    [Photo(1, "p1", true, true, 1), Photo(2, "p2", false, false, 1)], true)
  {
  }

  /** Scenario, step two: approving the second photo leaves it approved but not main. */
  lemma ScenarioApproveSecond()
    ensures Approve([Photo(1, "p1", true, true, 1), Photo(2, "p2", false, false, 1)], map[1 := "lisa"], 2, true)
      == Moderation(Ok(PhotoForApproval(2, "p2", "lisa", true)),
                    [Photo(1, "p1", true, true, 1), Photo(2, "p2", false, true, 1)], true)
  {
  }

  /**
   * Scenario, step three: rejecting the main photo clears both its flags and
   * promotes nothing, so the user is left without a main photo.
   */
  lemma ScenarioRejectFirst()
    ensures var m := Reject([Photo(1, "p1", true, true, 1), Photo(2, "p2", false, true, 1)], map[1 := "lisa"], 1, true);
      && m == Moderation(Ok(PhotoForApproval(1, "p1", "lisa", false)),
                         [Photo(1, "p1", false, false, 1), Photo(2, "p2", false, true, 1)], true)
      && !HasMain(m.photos, 1)
  {
  }
}
