/** What the requests and jobs of the photo pipeline write, field by field, and which reviews are refused. */
module GalleryPhotoEffects {
  import opened Options
  import opened Rows
  import opened Texts
  import opened GalleryPhotos
  import opened GalleryPhotoLaws
  import opened GalleryPhotoRun

  // ----- new rows -----

  /** A row that nobody has validated, converted, reviewed, rejected or deleted yet. */
  ghost predicate IsNew(photo: Photo, id: Id, albumId: Id, createdBy: Id, now: Instant) {
    && photo.id == id && photo.albumId == Some(albumId) && photo.createdBy == createdBy && photo.createdAt == now
    && photo.width.None? && photo.height.None? && photo.takenWhen.None?
    && photo.validatedAt.None? && photo.processedAt.None? && photo.reviewedBy.None?
    && photo.rejectReason.None? && photo.rejectMessage.None? && photo.errorMessage.None? && photo.deletedAt.None?
  }

  /** An upload adds one row, taken and created by the uploader, with the place, name and MD5 of the file. */
  lemma UploadAddsRow(table: Table, file: File, profile: Id, albumId: Id, now: Instant)
    ensures var after, n := Apply(table, Upload(file, profile, albumId, now)), |table.photos|;
      && |after.photos| == n + 1 && after.photos[..n] == table.photos && after.nextId == table.nextId + 1
      && var photo := after.photos[n];
         && IsNew(photo, table.nextId, albumId, profile, now)
         && photo.directory == file.directory && photo.filename == file.filename && photo.md5 == Some(file.md5)
         && photo.takenBy == Some(profile) && photo.importId.None?
  {
  }

  /**
   An import adds one row per file, in the directory, under its base name and without MD5, for the given photographer.
  */
  lemma ImportAddsRows(table: Table, files: seq<Text>, job: ImportJob, i: nat)
    requires i < |files|
    ensures var after, n := Apply(table, Import(files, job)), |table.photos|;
      && |after.photos| == n + |files| && after.photos[..n] == table.photos && after.nextId == table.nextId + |files|
      && var photo := after.photos[n + i];
         && IsNew(photo, table.nextId + i, job.albumId, job.createdBy, job.now)
         && photo.directory == job.directory && photo.filename == Basename(files[i]) && photo.md5.None?
         && photo.takenBy == job.takenBy && photo.importId == Some(job.importId)
  {
  }

  // ----- the order of the review checks -----

  ghost predicate Exists(photos: seq<Photo>, id: Id) {
    exists photo :: photo in photos && photo.id == id && photo.deletedAt.None?
  }

  lemma VisibleRow(photos: seq<Photo>, k: nat)
    requires UniqueIds(photos) && k < |photos|
    ensures photos[k].deletedAt.None? ==>
      Find(photos, Visible(photos[k].id)) != [] && Find(photos, Visible(photos[k].id))[0] == photos[k]
    ensures photos[k].deletedAt.Some? ==> Find(photos, Visible(photos[k].id)) == []
  {
    var found := Find(photos, Visible(photos[k].id));
    assert photos[k] in photos;
    if photos[k].deletedAt.None? {
      assert photos[k] in found && found[0] in found;
      SameIdSamePhoto(photos, found[0], photos[k]);
    } else {
      forall photo | photo in photos && photo.id == photos[k].id ensures photo.deletedAt.Some? {
        SameIdSamePhoto(photos, photo, photos[k]);
      }
      FindAllOrNothing(photos, Visible(photos[k].id));
    }
  }

  /** The first reason that applies refuses a review; without one the photo is reviewable. */
  lemma ReviewOutcome(photos: seq<Photo>, k: nat, profile: Id)
    requires UniqueIds(photos) && k < |photos|
    ensures var photo, refusal := photos[k], ApprovalPrecheck(photos, photos[k].id, profile);
      var failed := photo.errorMessage.Some? && photo.errorMessage.value != [];
      && (refusal == Some(NotFound) <==> photo.deletedAt.Some?)
      && (refusal == Some(Pending) <==> photo.deletedAt.None? && photo.validatedAt.None?)
      && (refusal == Some(FailedProcessing) <==> photo.deletedAt.None? && photo.validatedAt.Some? && failed)
      && (refusal == Some(AlreadyReviewed) <==>
            photo.deletedAt.None? && photo.validatedAt.Some? && !failed && photo.reviewedBy.Some?)
      && (refusal == Some(RejectedBySystem) <==>
            && photo.deletedAt.None? && photo.validatedAt.Some? && !failed && photo.reviewedBy.None?
            && photo.rejectReason.Some?)
      && (refusal == Some(SamePhotographer) <==>
            && photo.deletedAt.None? && photo.validatedAt.Some? && !failed && photo.reviewedBy.None?
            && photo.rejectReason.None? && photo.takenBy == Some(profile))
      && (refusal == None <==> IsReviewable(photo, profile))
  {
    VisibleRow(photos, k);
  }

  lemma NoReviewOfUnknownPhoto(photos: seq<Photo>, id: Id, profile: Id)
    ensures ApprovalPrecheck(photos, id, profile) == Some(NotFound) <==> !Exists(photos, id)
  {
    var found := Find(photos, Visible(id));
    assert found != [] ==> found[0] in found;
  }

  // ----- reviews -----

  /** Everything about a photo but its review. */
  ghost predicate SameButReview(photo: Photo, photo': Photo) {
    photo'.(reviewedBy := photo.reviewedBy, rejectReason := photo.rejectReason, rejectMessage := photo.rejectMessage)
      == photo
  }

  ghost predicate OnlyRowChanged(photos: seq<Photo>, photos': seq<Photo>, k: nat) {
    k < |photos| && |photos'| == |photos| && forall i :: 0 <= i < |photos| && i != k ==> photos'[i] == photos[i]
  }

  lemma OneRowUpdated(photos: seq<Photo>, k: nat, change: Photo -> Photo)
    requires UniqueIds(photos) && k < |photos|
    ensures Updated(photos, WithId(photos[k].id), change) == photos[k := change(photos[k])]
  {
    var after := Updated(photos, WithId(photos[k].id), change);
    OthersDiffer(photos, k);
    forall i | 0 <= i < |photos| ensures after[i] == photos[k := change(photos[k])][i] {
    }
  }

  lemma OthersDiffer(photos: seq<Photo>, k: nat)
    requires UniqueIds(photos) && k < |photos|
    ensures forall i :: 0 <= i < |photos| && i != k ==> photos[i].id != photos[k].id
  {
    forall i | 0 <= i < |photos| && i != k ensures photos[i].id != photos[k].id {
      assert if i < k then photos[i].id != photos[k].id else photos[k].id != photos[i].id;
    }
  }

  /** The message that is stored: without white space at its ends, and none if nothing is left. */
  ghost predicate IsStoredMessage(stored: Option<Text>, message: Option<Text>) {
    stored == if message.Some? && Trim(message.value) != [] then Some(Trim(message.value)) else None
  }

  /**
   A rejection records who rejected the photo, why, and the comment, and takes the photo out of the accepted ones.
  */
  lemma RejectionTakesEffect(table: Table, k: nat, profile: Id, reason: RejectReason, comment: Option<Text>, md5: Id)
    requires UniqueIds(table.photos) && k < |table.photos|
    ensures var photo, after := table.photos[k], Apply(table, Reject(table.photos[k].id, profile, reason, comment));
      && after.nextId == table.nextId
      && if IsReviewable(photo, profile) then
           && OnlyRowChanged(table.photos, after.photos, k) && SameButReview(photo, after.photos[k])
           && after.photos[k].reviewedBy == Some(profile) && after.photos[k].rejectReason == Some(reason)
           && IsStoredMessage(after.photos[k].rejectMessage, comment)
           && !IsAccepted(after.photos[k]) && !Approved(md5)(after.photos[k])
         else after.photos == table.photos
  {
    ReviewOutcome(table.photos, k, profile);
    OneRowUpdated(table.photos, k, RejectBy(profile, reason, comment));
  }

  /**
   An approval records who approved the photo and nothing else; a converted photo without error is listed as approved.
  */
  lemma ApprovalTakesEffect(table: Table, k: nat, profile: Id, md5: Id)
    requires UniqueIds(table.photos) && k < |table.photos|
    ensures var photo, after := table.photos[k], Apply(table, Approve(table.photos[k].id, profile));
      && after.nextId == table.nextId
      && if IsReviewable(photo, profile) then
           && OnlyRowChanged(table.photos, after.photos, k) && SameButReview(photo, after.photos[k])
           && after.photos[k].reviewedBy == Some(profile) && after.photos[k].rejectReason.None?
           && after.photos[k].rejectMessage == photo.rejectMessage
           && (Approved(md5)(after.photos[k]) <==>
                 photo.md5 == Some(md5) && photo.processedAt.Some? && photo.errorMessage.None?)
         else after.photos == table.photos
  {
    ReviewOutcome(table.photos, k, profile);
    OneRowUpdated(table.photos, k, ApproveBy(profile));
  }

  /**
   Nobody approves or rejects an own upload: right after it, and whatever a validation or conversion does to the row.
  */
  lemma OwnUploadsAreNotReviewed(photos: seq<Photo>, k: nat, profile: Id)
    requires UniqueIds(photos) && k < |photos| && photos[k].takenBy == Some(profile)
    ensures ApprovalPrecheck(photos, photos[k].id, profile).Some?
  {
    ReviewOutcome(photos, k, profile);
  }

  /** No event changes who took a photo, so an upload stays one of its uploader. */
  lemma PhotographerStays(table: Table, event: Event, i: nat)
    requires i < |table.photos|
    ensures i < |Apply(table, event).photos| && Apply(table, event).photos[i].takenBy == table.photos[i].takenBy
    ensures Apply(table, event).photos[i].id == table.photos[i].id
  {
    match event
    case Validate(id, album, hash, exif, found, now) =>
      PhotographerStaysInValidation(table.photos, id, album, hash, exif, found, now, i);
    case _ =>
  }

  lemma PhotographerStaysInValidation(photos: seq<Photo>, id: Id, album: Album, md5: Id, exif: Exif, found: seq<Photo>,
                                      now: Instant, i: nat)
    requires i < |photos|
    ensures var after := Validated(photos, id, album, md5, exif, found, now).0;
      after[i].takenBy == photos[i].takenBy && after[i].id == photos[i].id
  {
    var unique := WithoutDuplicates(Stamped(photos, id, md5, exif, now), found);
    UniqueRow(photos, id, md5, exif, found, now, i);
    CheckedPhotos(unique, id, id in NonrecentIds(found), album, exif);
    RejectedRow(unique, id, Resolution, i);
    RejectedRow(unique, id, Timestamp, i);
  }

  lemma UniqueRow(photos: seq<Photo>, id: Id, md5: Id, exif: Exif, found: seq<Photo>, now: Instant, i: nat)
    requires i < |photos|
    ensures var unique := WithoutDuplicates(Stamped(photos, id, md5, exif, now), found);
      unique[i].takenBy == photos[i].takenBy && unique[i].id == photos[i].id
  {
    var stamped := Stamped(photos, id, md5, exif, now);
    assert stamped[i].takenBy == photos[i].takenBy && stamped[i].id == photos[i].id;
  }

  lemma RejectedRow(photos: seq<Photo>, id: Id, reason: RejectReason, i: nat)
    requires i < |photos|
    ensures var after := Rejected(photos, id, reason);
      after[i].takenBy == photos[i].takenBy && after[i].id == photos[i].id
  {
  }

  // ----- reprocessing -----

  ghost predicate IsCleared(photo: Photo, photo': Photo) {
    && photo'.validatedAt.None? && photo'.processedAt.None?
    && photo'.rejectReason.None? && photo'.rejectMessage.None? && photo'.errorMessage.None?
    && photo'.(validatedAt := photo.validatedAt, processedAt := photo.processedAt, rejectReason := photo.rejectReason,
               rejectMessage := photo.rejectMessage, errorMessage := photo.errorMessage) == photo
  }

  /** Reprocessing is refused for photos that are gone or reviewed, and then changes nothing. */
  lemma ReprocessOutcome(photos: seq<Photo>, k: nat)
    requires UniqueIds(photos) && k < |photos|
    ensures var photo := photos[k];
      var (after, refusal) := Reprocessed(photos, photo.id);
      && (refusal == Some(NotFound) <==> photo.deletedAt.Some?)
      && (refusal == Some(AlreadyReviewed) <==> photo.deletedAt.None? && photo.reviewedBy.Some?)
      && (refusal == None <==> photo.deletedAt.None? && photo.reviewedBy.None?)
      && after == if refusal.Some? then photos else photos[k := Restart()(photo)]
  {
    VisibleRow(photos, k);
    OneRowUpdated(photos, k, Restart());
  }

  /** Otherwise it clears what the pipeline wrote, and nothing else. */
  lemma ReprocessTakesEffect(table: Table, k: nat)
    requires UniqueIds(table.photos) && k < |table.photos|
    ensures var photo, after := table.photos[k], Apply(table, Reprocess(table.photos[k].id)).photos;
      if photo.deletedAt.Some? || photo.reviewedBy.Some? then after == table.photos
      else OnlyRowChanged(table.photos, after, k) && IsCleared(photo, after[k])
  {
    ReprocessOutcome(table.photos, k);
  }

  /** A reset takes back a review with its reason and comment, and nothing else. */
  lemma ResetTakesEffect(photos: seq<Photo>, k: nat)
    requires UniqueIds(photos) && k < |photos|
    ensures var after := Updated(photos, WithId(photos[k].id), Reset());
      && OnlyRowChanged(photos, after, k) && SameButReview(photos[k], after[k])
      && after[k].reviewedBy.None? && after[k].rejectReason.None? && after[k].rejectMessage.None?
  {
    OneRowUpdated(photos, k, Reset());
  }

  // ----- jobs and administration -----

  /** A failed validation or conversion records its time and message; the photo is no longer accepted. */
  lemma FailureTakesEffect(table: Table, k: nat, message: Text, now: Instant, isConversion: bool)
    requires UniqueIds(table.photos) && k < |table.photos|
    ensures var photo := table.photos[k];
      var after := Apply(table, if isConversion then ConversionFailed(photo.id, message, now)
                                else ValidationFailed(photo.id, message, now)).photos;
      && OnlyRowChanged(table.photos, after, k)
      && after[k].errorMessage == Some(message) && !IsAccepted(after[k])
      && after[k].validatedAt == (if isConversion then photo.validatedAt else Some(now))
      && after[k].processedAt == (if isConversion then Some(now) else photo.processedAt)
      && after[k].(errorMessage := photo.errorMessage, validatedAt := photo.validatedAt,
                   processedAt := photo.processedAt)
         == photo
  {
    OneRowUpdated(table.photos, k, FailConversion(message, now));
    OneRowUpdated(table.photos, k, FailValidation(message, now));
  }

  /** A conversion records its time; a deletion hides the photo; neither changes anything else. */
  lemma ConversionAndDeletionTakeEffect(table: Table, k: nat, now: Instant)
    requires UniqueIds(table.photos) && k < |table.photos|
    ensures var photo := table.photos[k];
      var converted, deleted := Apply(table, Converted(photo.id, now)).photos,
          Apply(table, SoftDelete(photo.id, now)).photos;
      && OnlyRowChanged(table.photos, converted, k) && OnlyRowChanged(table.photos, deleted, k)
      && converted[k].processedAt == Some(now) && converted[k].(processedAt := photo.processedAt) == photo
      && deleted[k].deletedAt == Some(now) && deleted[k].(deletedAt := photo.deletedAt) == photo
      && !Exists(deleted, photo.id)
  {
    OneRowUpdated(table.photos, k, Convert(now));
    OneRowUpdated(table.photos, k, Delete(now));
    var deleted := table.photos[k := Delete(now)(table.photos[k])];
    OthersDiffer(table.photos, k);
    forall photo | photo in deleted && photo.id == table.photos[k].id ensures photo.deletedAt.Some? {
      var i :| 0 <= i < |deleted| && deleted[i] == photo;
    }
  }

  /** Moving changes the album of exactly the photos named. */
  lemma MoveTakesEffect(table: Table, ids: seq<Id>, albumId: Id, i: nat)
    requires i < |table.photos|
    ensures var photo, after := table.photos[i], Apply(table, Move(ids, albumId)).photos;
      && |after| == |table.photos|
      && after[i].albumId == (if photo.id in ids then Some(albumId) else photo.albumId)
      && after[i].(albumId := photo.albumId) == photo
  {
  }

  // ----- validation -----

  ghost predicate IsStamped(photo: Photo, photo': Photo, md5: Id, exif: Exif, now: Instant) {
    && photo'.md5 == Some(md5) && photo'.width == Some(exif.width) && photo'.height == Some(exif.height)
    && photo'.takenWhen == Some(exif.date) && photo'.validatedAt == Some(now)
    && photo'.(md5 := photo.md5, width := photo.width, height := photo.height, takenWhen := photo.takenWhen,
               validatedAt := photo.validatedAt, rejectReason := photo.rejectReason) == photo
  }

  /** The resolution the album asks for in pixels; one pixel if it asks for none or for zero megapixels. */
  ghost predicate HasPixels(exif: Exif, album: Album) {
    if album.minimumResolutionMp.Some? && album.minimumResolutionMp.value != 0
    then exif.width * exif.height >= 1000000 * album.minimumResolutionMp.value else exif.width * exif.height >= 1
  }

  ghost predicate IsTakenInTime(exif: Exif, album: Album) {
    && (album.takenAfter.Some? ==> album.takenAfter.value <= exif.date)
    && (album.takenBefore.Some? ==> exif.date <= album.takenBefore.value)
  }

  /** A photo neither rejected, failed nor deleted that is not the one preferred for its file. */
  ghost predicate IsOlder(photo: Photo, found: seq<Photo>) {
    && photo.rejectReason.None? && photo.errorMessage.None? && photo.deletedAt.None?
    && !(found != [] && found[0].id == photo.id)
  }

  ghost function OtherRow(photo: Photo, md5: Id, found: seq<Photo>): Photo {
    if photo.md5 == Some(md5) && IsOlder(photo, found) then photo.(rejectReason := Some(Duplicated)) else photo
  }

  /** The metadata, and the first reason for a rejection that applies, if any. */
  ghost predicate IsValidatedRow(photo: Photo, photo': Photo, album: Album, md5: Id, exif: Exif, found: seq<Photo>,
                                 now: Instant)
  {
    && IsStamped(photo, photo', md5, exif, now)
    && photo'.rejectReason
       == if IsOlder(photo, found) then Some(Duplicated) else if !HasPixels(exif, album) then Some(Resolution)
          else if !IsTakenInTime(exif, album) then Some(Timestamp) else photo.rejectReason
  }

  /** What a validation writes to the photo; its verdict is whether no reason for a rejection applies. */
  lemma ValidationOutcome(photos: seq<Photo>, k: nat, album: Album, md5: Id, exif: Exif, found: seq<Photo>,
                          now: Instant)
    requires UniqueIds(photos) && k < |photos|
    requires IsNewestFirst(found, Stamped(photos, photos[k].id, md5, exif, now), md5)
    ensures var (after, valid) := Validated(photos, photos[k].id, album, md5, exif, found, now);
      && (valid <==> !IsOlder(photos[k], found) && HasPixels(exif, album) && IsTakenInTime(exif, album))
      && IsValidatedRow(photos[k], after[k], album, md5, exif, found, now)
  {
    var stamped := Stamped(photos, photos[k].id, md5, exif, now);
    StampedRow(photos, k, md5, exif, now);
    StampKeepsIds(photos, photos[k].id, md5, exif, now);
    OlderIsRejected(stamped, k, found, md5);
    CheckedRow(WithoutDuplicates(stamped, found), k, photos[k].id in NonrecentIds(found), album, exif);
  }

  /** The photo validated and every other one, which keeps its row unless it was a candidate that is not preferred. */
  lemma ValidationTakesEffect(table: Table, k: nat, album: Album, md5: Id, exif: Exif, found: seq<Photo>, now: Instant,
                              i: nat)
    requires UniqueIds(table.photos) && k < |table.photos| && i < |table.photos|
    requires IsNewestFirst(found, Stamped(table.photos, table.photos[k].id, md5, exif, now), md5)
    ensures var after := ValidatedPhotos(table, table.photos[k].id, album, md5, exif, found, now);
      && |after| == |table.photos|
      && if i == k then IsValidatedRow(table.photos[k], after[k], album, md5, exif, found, now)
         else after[i] == OtherRow(table.photos[i], md5, found)
  {
    ValidatedPhotosAre(table, table.photos[k].id, album, md5, exif, found, now);
    if i == k {
      ValidationOutcome(table.photos, k, album, md5, exif, found, now);
    } else {
      OthersDiffer(table.photos, k);
      ValidationOfOthers(table.photos, table.photos[k].id, album, md5, exif, found, now, i);
    }
  }

  ghost function ValidatedPhotos(table: Table, id: Id, album: Album, md5: Id, exif: Exif, found: seq<Photo>,
                                 now: Instant): seq<Photo>
  {
    Apply(table, Validate(id, album, md5, exif, found, now)).photos
  }

  lemma ValidatedPhotosAre(table: Table, id: Id, album: Album, md5: Id, exif: Exif, found: seq<Photo>, now: Instant)
    ensures ValidatedPhotos(table, id, album, md5, exif, found, now)
         == Validated(table.photos, id, album, md5, exif, found, now).0
    ensures |ValidatedPhotos(table, id, album, md5, exif, found, now)| == |table.photos|
  {
  }

  lemma StampedRow(photos: seq<Photo>, k: nat, md5: Id, exif: Exif, now: Instant)
    requires k < |photos|
    ensures var stamped := Stamped(photos, photos[k].id, md5, exif, now)[k];
      && stamped.id == photos[k].id && IsStamped(photos[k], stamped, md5, exif, now)
      && stamped.rejectReason == photos[k].rejectReason && (Candidate(md5)(stamped) <==> IsOpen(photos[k]))
  {
  }

  lemma OlderIsRejected(photos: seq<Photo>, k: nat, found: seq<Photo>, md5: Id)
    requires UniqueIds(photos) && k < |photos| && IsNewestFirst(found, photos, md5)
    ensures var isOlder := Candidate(md5)(photos[k]) && !(found != [] && found[0].id == photos[k].id);
      && (photos[k].id in NonrecentIds(found) <==> isOlder)
      && WithoutDuplicates(photos, found)[k] == if isOlder then photos[k].(rejectReason := Some(Duplicated))
        else photos[k]
  {
    FoundCandidates(photos, found, md5);
    NonrecentAreTheOthers(photos, found, md5);
    assert photos[k] in photos;
    if found != [] {
      assert found[0] in found;
      if found[0].id == photos[k].id {
        SameIdSamePhoto(photos, found[0], photos[k]);
      }
    }
  }

  lemma CheckedRow(photos: seq<Photo>, k: nat, isDuplicate: bool, album: Album, exif: Exif)
    requires k < |photos|
    ensures var (after, valid) := Checked(photos, photos[k].id, isDuplicate, album, exif);
      && (valid <==> !isDuplicate && HasPixels(exif, album) && IsTakenInTime(exif, album))
      && after[k] == (if isDuplicate || (HasPixels(exif, album) && IsTakenInTime(exif, album)) then photos[k]
                      else if !HasPixels(exif, album) then photos[k].(rejectReason := Some(Resolution))
                      else photos[k].(rejectReason := Some(Timestamp)))
  {
  }

  lemma ValidationOfOthers(photos: seq<Photo>, id: Id, album: Album, md5: Id, exif: Exif, found: seq<Photo>,
                           now: Instant, i: nat)
    requires UniqueIds(photos) && i < |photos| && photos[i].id != id
    requires IsNewestFirst(found, Stamped(photos, id, md5, exif, now), md5)
    ensures Validated(photos, id, album, md5, exif, found, now).0[i]
         == OtherRow(photos[i], md5, found)
  {
    var stamped := Stamped(photos, id, md5, exif, now);
    OtherRowIsNotStamped(photos, id, md5, exif, now, i);
    StampKeepsIds(photos, id, md5, exif, now);
    OlderIsRejected(stamped, i, found, md5);
    OtherRowStays(WithoutDuplicates(stamped, found), id, i, id in NonrecentIds(found), album, exif);
  }

  lemma OtherRowIsNotStamped(photos: seq<Photo>, id: Id, md5: Id, exif: Exif, now: Instant, i: nat)
    requires i < |photos| && photos[i].id != id
    ensures Stamped(photos, id, md5, exif, now)[i] == photos[i]
  {
  }

  lemma OtherRowStays(photos: seq<Photo>, id: Id, i: nat, isDuplicate: bool, album: Album, exif: Exif)
    requires i < |photos| && photos[i].id != id
    ensures Checked(photos, id, isDuplicate, album, exif).0[i] == photos[i]
  {
  }
}
