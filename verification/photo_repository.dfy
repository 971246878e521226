/** The photo table and the queries the moderation actions run against it. */
module PhotoRepository {
  import opened Results

  /** A photo row: its key, its location, the two moderation flags and the key of its owner. */
  datatype Photo = Photo(id: int, url: string, isMain: bool, isApproved: bool, appUserId: int)

  /** Photo ids are the table's primary key: no two rows share one. */
  predicate UniqueIds(photos: seq<Photo>) {
    forall i, j :: 0 <= i < |photos| && 0 <= j < |photos| && photos[i].id == photos[j].id ==> i == j
  }

  /** The position of the first row keyed `id`, if any. */
  function FindIndex(photos: seq<Photo>, id: int): (r: Option<nat>)
    ensures r.Some? ==> r.value < |photos| && photos[r.value].id == id
    ensures r.Some? ==> forall j :: 0 <= j < r.value ==> photos[j].id != id
    ensures r.None? <==> forall j :: 0 <= j < |photos| ==> photos[j].id != id
  {
    if |photos| == 0 then None
    else if photos[0].id == id then Some(0)
    else match FindIndex(photos[1..], id)
      case None => None
      case Some(k) => Some(k + 1)
  }

  /** Changing a row's fields other than its key does not move the lookup. */
  lemma FindIndexIgnoresFlags(photos: seq<Photo>, id: int, i: nat, p: Photo)
    requires FindIndex(photos, id) == Some(i)
    requires p.id == id
    ensures FindIndex(photos[i := p], id) == Some(i)
  {
    var photos' := photos[i := p];
    assert photos'[i].id == id;
    assert forall j :: 0 <= j < i ==> photos'[j].id != id;
    var r := FindIndex(photos', id);
    assert r.Some? && r.value <= i;
  }

  /**
   * The query `GetPhotoById`: the row keyed `id`, looked up with the default
   * approval filter switched off, or None when no row has that key.
   */
  function GetPhotoById(photos: seq<Photo>, id: int): (r: Option<Photo>)
    ensures r.Some? ==> r.value in photos && r.value.id == id
    ensures r.None? <==> forall p :: p in photos ==> p.id != id
    ensures UniqueIds(photos) && r.Some? ==> forall p :: p in photos && p.id == id ==> p == r.value
  {
    match FindIndex(photos, id)
    case None => None
    case Some(i) => Some(photos[i])
  }

  /** The rows whose approval flag equals `approved`, in table order. */
  function Where(photos: seq<Photo>, approved: bool): (r: seq<Photo>)
    ensures |r| <= |photos|
    ensures forall p :: p in r ==> p in photos && p.isApproved == approved
    ensures forall p :: p in photos && p.isApproved == approved ==> p in r
  {
    if |photos| == 0 then []
    else
      assert forall p :: p in photos ==> p == photos[0] || p in photos[1..];
      if photos[0].isApproved == approved then [photos[0]] + Where(photos[1..], approved)
      else Where(photos[1..], approved)
  }

  /** The application's default photo query filter, which hides unapproved rows. */
  function ApprovedOnly(photos: seq<Photo>): (r: seq<Photo>)
    ensures forall p :: p in r <==> p in photos && p.isApproved
  {
    Where(photos, true)
  }

  /**
   * The query `GetUnnaprovedPhotos`: every unapproved row, including the ones
   * the default filter would hide, and nothing else.
   */
  function GetUnapprovedPhotos(photos: seq<Photo>): (r: seq<Photo>)
    ensures forall p :: p in r ==> p in photos && !p.isApproved
    ensures forall p :: p in photos && !p.isApproved ==> p in r
  {
    Where(photos, false)
  }

  /**
   * Looking a photo up by key finds it whatever its approval state, while the
   * same lookup through the default filter would miss an unapproved one.
   */
  lemma LookupBypassesApprovalFilter(photos: seq<Photo>, p: Photo)
    requires UniqueIds(photos) && p in photos && !p.isApproved
    ensures GetPhotoById(photos, p.id) == Some(p)
    ensures GetPhotoById(ApprovedOnly(photos), p.id) == None
  {
  }

  /** The table with the row keyed `id` taken out; unchanged when there is none. */
  function Without(photos: seq<Photo>, id: int): (r: seq<Photo>)
    ensures GetPhotoById(photos, id).None? ==> r == photos
    ensures GetPhotoById(photos, id).Some? ==>
      |r| == |photos| - 1 && multiset(r) + multiset{GetPhotoById(photos, id).value} == multiset(photos)
    ensures forall p :: p in photos && p.id != id ==> p in r
    ensures UniqueIds(photos) ==> UniqueIds(r) && forall p :: p in r ==> p.id != id
  {
    match FindIndex(photos, id)
    case None => photos
    case Some(i) =>
      var r := photos[..i] + photos[i + 1..];
      assert photos == photos[..i] + [photos[i]] + photos[i + 1..];
      WithoutAt(photos, i);
      r
  }

  /** Deleting position `i` keeps keys unique and the other rows in place. */
  lemma WithoutAt(photos: seq<Photo>, i: nat)
    requires i < |photos|
    ensures forall p :: p in photos && p != photos[i] ==> p in photos[..i] + photos[i + 1..]
    ensures UniqueIds(photos) ==>
      UniqueIds(photos[..i] + photos[i + 1..]) && forall p :: p in photos[..i] + photos[i + 1..] ==> p.id != photos[i].id
  {
  }

  /** The tracked photo rows of one request, as Entity Framework's change tracker holds them. */
  class PhotoStore {
    var photos: seq<Photo>

    ghost predicate Valid()
      reads this
    {
      UniqueIds(photos)
    }

    constructor (photos: seq<Photo>)
      requires UniqueIds(photos)
      ensures Valid() && this.photos == photos
    {
      this.photos := photos;
    }

    /** `RemovePhoto`: drop the row with this photo's key and leave every other row as it was. */
    method RemovePhoto(photo: Photo)
      requires Valid()
      modifies this
      ensures Valid()
      ensures photos == Without(old(photos), photo.id)
      ensures forall p :: p in photos ==> p.id != photo.id
      ensures forall p :: p in old(photos) && p.id != photo.id ==> p in photos
    {
      photos := Without(photos, photo.id);
    }
  }
}
