/** The photo table of the gallery: validation, conversion, review and the removal of duplicates. */
module GalleryPhotos {
  import opened Options
  import opened Rows
  import opened StableSort
  import opened Texts

  datatype RejectReason = Duplicated | Resolution | Timestamp | Other

  datatype Photo = Photo(
    id: Id, directory: Text, filename: Text, md5: Option<Id>,
    width: Option<int>, height: Option<int>, takenWhen: Option<Instant>, takenBy: Option<Id>,
    createdBy: Id, importId: Option<Id>, albumId: Option<Id>, createdAt: Instant,
    validatedAt: Option<Instant>, processedAt: Option<Instant>, reviewedBy: Option<Id>,
    rejectReason: Option<RejectReason>, rejectMessage: Option<Text>, errorMessage: Option<Text>,
    deletedAt: Option<Instant>)

  datatype Album = Album(
    uploadDirectory: Option<Text>, minimumResolutionMp: Option<int>,
    takenAfter: Option<Instant>, takenBefore: Option<Instant>)

  datatype Exif = Exif(width: int, height: int, date: Instant)

  // ----- conditions and changes -----

  function WithId(id: Id): Photo -> bool {
    (photo: Photo) => photo.id == id
  }

  /** `findOneBy({ id })` does not see photos that are deleted softly; `update({ id }, ...)` does. */
  function Visible(id: Id): Photo -> bool {
    (photo: Photo) => photo.id == id && photo.deletedAt.None?
  }

  function AnyOf(ids: seq<Id>): Photo -> bool {
    (photo: Photo) => photo.id in ids
  }

  /** The candidates for one file: not rejected, not failed, not deleted. */
  function Candidate(md5: Id): Photo -> bool {
    (photo: Photo) => photo.md5 == Some(md5) && IsOpen(photo)
  }

  predicate IsOpen(photo: Photo) {
    photo.rejectReason.None? && photo.errorMessage.None? && photo.deletedAt.None?
  }

  predicate IsAccepted(photo: Photo) {
    IsOpen(photo) && photo.validatedAt.Some?
  }

  function Stamp(md5: Id, exif: Exif, now: Instant): Photo -> Photo {
    (photo: Photo) => photo.(md5 := Some(md5), width := Some(exif.width), height := Some(exif.height),
                             takenWhen := Some(exif.date), validatedAt := Some(now))
  }

  function RejectAs(reason: RejectReason): Photo -> Photo {
    (photo: Photo) => photo.(rejectReason := Some(reason))
  }

  // ----- validation -----

  const MEGA_PIXEL := 1000000

  predicate IsValidResolution(exif: Exif, album: Album) {
    var minimum := if album.minimumResolutionMp.Some? && album.minimumResolutionMp.value != 0
                   then album.minimumResolutionMp.value * MEGA_PIXEL else 1;
    exif.width * exif.height >= minimum
  }

  predicate IsValidTimestamp(taken: Instant, album: Album) {
    && (album.takenAfter.Some? ==> taken >= album.takenAfter.value)
    && (album.takenBefore.Some? ==> taken <= album.takenBefore.value)
  }

  function CreatedDescending(): Photo -> int {
    (photo: Photo) => -photo.createdAt
  }

  /** Any order by `createdAt DESC` that the database may choose when rows were created at one time. */
  ghost predicate IsNewestFirst(found: seq<Photo>, photos: seq<Photo>, md5: Id) {
    && multiset(found) == multiset(Find(photos, Candidate(md5)))
    && forall i, j :: 0 <= i < j < |found| ==> found[i].createdAt >= found[j].createdAt
  }

  function NewestFirst(photos: seq<Photo>, md5: Id): seq<Photo> {
    SortBy(Find(photos, Candidate(md5)), CreatedDescending())
  }

  lemma SomeOrderExists(photos: seq<Photo>, md5: Id)
    ensures IsNewestFirst(NewestFirst(photos, md5), photos, md5)
  {
    var found := NewestFirst(photos, md5);
    SortOrders(Find(photos, Candidate(md5)), CreatedDescending());
    forall i, j | 0 <= i < j < |found| ensures found[i].createdAt >= found[j].createdAt {
      assert CreatedDescending()(found[i]) <= CreatedDescending()(found[j]);
    }
  }

  function IdOf(): Photo -> Id {
    (photo: Photo) => photo.id
  }

  /** `skip: 1`: every candidate but the first of the order. */
  function NonrecentIds(found: seq<Photo>): seq<Id> {
    if found == [] then [] else Column(found[1..], IdOf())
  }

  function WithoutDuplicates(photos: seq<Photo>, found: seq<Photo>): (result: seq<Photo>)
    ensures |result| == |photos|
  {
    Updated(photos, AnyOf(NonrecentIds(found)), RejectAs(Duplicated))
  }

  function Stamped(photos: seq<Photo>, id: Id, md5: Id, exif: Exif, now: Instant): (result: seq<Photo>)
    ensures |result| == |photos|
  {
    Updated(photos, WithId(id), Stamp(md5, exif, now))
  }

  function Rejected(photos: seq<Photo>, id: Id, reason: RejectReason): (result: seq<Photo>)
    ensures |result| == |photos|
  {
    Updated(photos, WithId(id), RejectAs(reason))
  }

  /** The transaction of `validate`; `found` is the order in which the database returns the candidates. */
  function Validated(photos: seq<Photo>, id: Id, album: Album, md5: Id, exif: Exif, found: seq<Photo>,
                     now: Instant): (result: (seq<Photo>, bool))
    ensures |result.0| == |photos|
  {
    Checked(WithoutDuplicates(Stamped(photos, id, md5, exif, now), found), id, id in NonrecentIds(found), album, exif)
  }

  /** The checks after the duplicate step. */
  function Checked(photos: seq<Photo>, id: Id, isDuplicate: bool, album: Album, exif: Exif)
    : (result: (seq<Photo>, bool))
    ensures |result.0| == |photos|
  {
    if isDuplicate then (photos, false)
    else if !IsValidResolution(exif, album) then (Rejected(photos, id, Resolution), false)
    else if !IsValidTimestamp(exif.date, album) then (Rejected(photos, id, Timestamp), false)
    else (photos, true)
  }

  // ----- review -----

  datatype Refusal = NotFound | Pending | FailedProcessing | AlreadyReviewed | RejectedBySystem | SamePhotographer

  predicate IsTruthy(text: Option<Text>) {
    text.Some? && text.value != []
  }

  /** `approvalPrecheck`; `None` allows the review. */
  function ApprovalPrecheck(photos: seq<Photo>, id: Id, profile: Id): Option<Refusal> {
    var found := Find(photos, Visible(id));
    if found == [] then Some(NotFound)
    else
      var photo := found[0];
      if photo.validatedAt.None? then Some(Pending)
      else if IsTruthy(photo.errorMessage) then Some(FailedProcessing)
      else if photo.reviewedBy.Some? then Some(AlreadyReviewed)
      else if photo.rejectReason.Some? then Some(RejectedBySystem)
      else if photo.takenBy == Some(profile) then Some(SamePhotographer) else None
  }

  function ApproveBy(profile: Id): Photo -> Photo {
    (photo: Photo) => photo.(reviewedBy := Some(profile))
  }

  function RejectBy(profile: Id, reason: RejectReason, message: Option<Text>): Photo -> Photo {
    (photo: Photo) => photo.(reviewedBy := Some(profile), rejectReason := Some(reason),
                             rejectMessage := TrimmedMessage(message))
  }

  /** `message?.trim() || null`. */
  function TrimmedMessage(message: Option<Text>): Option<Text> {
    if message.None? || Trim(message.value) == [] then None else Some(Trim(message.value))
  }

  function Reset(): Photo -> Photo {
    (photo: Photo) => photo.(reviewedBy := None, rejectReason := None, rejectMessage := None)
  }

  function Restart(): Photo -> Photo {
    (photo: Photo) => photo.(validatedAt := None, processedAt := None, rejectReason := None, rejectMessage := None,
                             errorMessage := None)
  }

  function Reprocessed(photos: seq<Photo>, id: Id): (seq<Photo>, Option<Refusal>) {
    var found := Find(photos, Visible(id));
    if found == [] then (photos, Some(NotFound))
    else if found[0].reviewedBy.Some? then (photos, Some(AlreadyReviewed))
    else (Updated(photos, WithId(id), Restart()), None)
  }

  // ----- job results and administration -----

  function FailValidation(message: Text, now: Instant): Photo -> Photo {
    (photo: Photo) => photo.(validatedAt := Some(now), errorMessage := Some(message))
  }

  function FailConversion(message: Text, now: Instant): Photo -> Photo {
    (photo: Photo) => photo.(processedAt := Some(now), errorMessage := Some(message))
  }

  function Convert(now: Instant): Photo -> Photo {
    (photo: Photo) => photo.(processedAt := Some(now))
  }

  function Delete(now: Instant): Photo -> Photo {
    (photo: Photo) => photo.(deletedAt := Some(now))
  }

  function MoveTo(albumId: Id): Photo -> Photo {
    (photo: Photo) => photo.(albumId := Some(albumId))
  }

  /** A row as it is inserted: everything that the pipeline finds out or decides is still open. */
  function NewPhoto(id: Id, directory: Text, filename: Text, md5: Option<Id>, takenBy: Option<Id>, createdBy: Id,
                    importId: Option<Id>, albumId: Id, now: Instant): Photo
  {
    Photo(id, directory, filename, md5, None, None, None, takenBy, createdBy, importId, Some(albumId), now,
          None, None, None, None, None, None, None)
  }

  /** The directory that `uploadFile` joins and the name and MD5 of the file. */
  datatype File = File(directory: Text, filename: Text, md5: Id)

  /** What all rows of one import have in common. */
  datatype ImportJob = ImportJob(
    importId: Id, directory: Text, takenBy: Option<Id>, createdBy: Id, albumId: Id, now: Instant)

  function ImportedPhoto(id: Id, file: Text, job: ImportJob): Photo {
    NewPhoto(id, job.directory, Basename(file), None, job.takenBy, job.createdBy, Some(job.importId), job.albumId,
             job.now)
  }

  /** The rows of one import, a row per listed file: the files are not hashed before their validation. */
  function Imported(nextId: Id, files: seq<Text>, job: ImportJob): (rows: seq<Photo>)
    ensures |rows| == |files|
    ensures forall i :: 0 <= i < |files| ==> rows[i] == ImportedPhoto(nextId + i, files[i], job)
  {
    seq(|files|, i requires 0 <= i < |files| => ImportedPhoto(nextId + i, files[i], job))
  }
}
