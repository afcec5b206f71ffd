/** Whole runs of the photo pipeline, and the services that serve its requests and jobs. */
module GalleryPhotoRun {
  import opened Options
  import opened Rows
  import opened Texts
  import opened GalleryPhotos
  import opened GalleryPhotoLaws

  /**
   Jobs may arrive for any id, in any order and more than once; a failed transaction changes nothing and is no event.
  */
  datatype Event =
    | Upload(file: File, profile: Id, albumId: Id, now: Instant)
    | Import(files: seq<Text>, job: ImportJob)
    | Validate(id: Id, album: Album, hash: Id, exif: Exif, found: seq<Photo>, now: Instant)
    | ValidationFailed(id: Id, message: Text, now: Instant)
    | Converted(id: Id, now: Instant)
    | ConversionFailed(id: Id, message: Text, now: Instant)
    | Reprocess(id: Id)
    | Approve(id: Id, profile: Id)
    | Reject(id: Id, profile: Id, reason: RejectReason, comment: Option<Text>)
    | SoftDelete(id: Id, now: Instant)
    | Move(ids: seq<Id>, albumId: Id)

  datatype Table = Table(photos: seq<Photo>, nextId: Id)

  function Uploaded(id: Id, file: File, profile: Id, albumId: Id, now: Instant): Photo {
    NewPhoto(id, file.directory, file.filename, Some(file.md5), Some(profile), profile, None, albumId, now)
  }

  function Reviewed(photos: seq<Photo>, id: Id, profile: Id, change: Photo -> Photo): seq<Photo> {
    if ApprovalPrecheck(photos, id, profile).None? then Updated(photos, WithId(id), change) else photos
  }

  function Apply(table: Table, event: Event): Table {
    var photos, nextId := table.photos, table.nextId;
    match event
    case Upload(file, profile, albumId, now) =>
      Table(photos + [Uploaded(nextId, file, profile, albumId, now)], nextId + 1)
    case Import(files, job) => Table(photos + Imported(nextId, files, job), nextId + |files|)
    case Validate(id, album, hash, exif, found, now) =>
      Table(Validated(photos, id, album, hash, exif, found, now).0, nextId)
    case ValidationFailed(id, message, now) => Table(Updated(photos, WithId(id), FailValidation(message, now)), nextId)
    case Converted(id, now) => Table(Updated(photos, WithId(id), Convert(now)), nextId)
    case ConversionFailed(id, message, now) => Table(Updated(photos, WithId(id), FailConversion(message, now)), nextId)
    case Reprocess(id) => Table(Reprocessed(photos, id).0, nextId)
    case Approve(id, profile) => Table(Reviewed(photos, id, profile, ApproveBy(profile)), nextId)
    case Reject(id, profile, reason, message) =>
      Table(Reviewed(photos, id, profile, RejectBy(profile, reason, message)), nextId)
    case SoftDelete(id, now) => Table(Updated(photos, WithId(id), Delete(now)), nextId)
    case Move(ids, albumId) => Table(Updated(photos, AnyOf(ids), MoveTo(albumId)), nextId)
  }

  /** The database answers the query for candidates with their rows, newest first. */
  ghost predicate IsAnswered(table: Table, event: Event) {
    event.Validate? ==>
      IsNewestFirst(event.found, Stamped(table.photos, event.id, event.hash, event.exif, event.now), event.hash)
  }

  /**
   A review that passes the precheck is of a validated photo, which is still unreviewed, and by somebody other than the
   photographer.
  */
  lemma ReviewKeepsProper(photos: seq<Photo>, nextId: Id, id: Id, profile: Id, change: Photo -> Photo)
    requires Proper(photos, nextId)
    requires forall photo ::
      && change(photo).id == photo.id && change(photo).reviewedBy == Some(profile)
        && change(photo).takenBy == photo.takenBy
      && change(photo).validatedAt == photo.validatedAt && AcceptsNothingNew(photo, change(photo))
    ensures Proper(Reviewed(photos, id, profile, change), nextId)
  {
    var found := Find(photos, Visible(id));
    if ApprovalPrecheck(photos, id, profile).None? {
      assert found[0] in found;
      forall photo | photo in photos && photo.id == id ensures ProperReview(change(photo)) {
        SameIdSamePhoto(photos, photo, found[0]);
      }
      ChangeKeepsProper(photos, WithId(id), change, nextId);
    }
  }

  lemma ReprocessKeepsProper(photos: seq<Photo>, nextId: Id, id: Id)
    requires Proper(photos, nextId)
    ensures Proper(Reprocessed(photos, id).0, nextId)
  {
    var found := Find(photos, Visible(id));
    if found != [] && found[0].reviewedBy.None? {
      assert found[0] in found;
      forall photo | photo in photos && photo.id == id ensures photo.reviewedBy.None? {
        SameIdSamePhoto(photos, photo, found[0]);
      }
      ChangeKeepsProper(photos, WithId(id), Restart(), nextId);
    }
  }

  lemma StepKeepsProper(table: Table, event: Event)
    requires Proper(table.photos, table.nextId) && IsAnswered(table, event)
    ensures Proper(Apply(table, event).photos, Apply(table, event).nextId)
  {
    var photos, nextId := table.photos, table.nextId;
    match event
    case Upload(file, profile, albumId, now) =>
      InsertKeepsProper(photos, [Uploaded(nextId, file, profile, albumId, now)], nextId);
    case Import(files, job) => InsertKeepsProper(photos, Imported(nextId, files, job), nextId);
    case Validate(id, album, hash, exif, found, now) =>
      ValidationKeepsProper(photos, id, album, hash, exif, found, now, nextId);
    case ValidationFailed(id, message, now) =>
      ChangeKeepsProper(photos, WithId(id), FailValidation(message, now), nextId);
    case Converted(id, now) => ChangeKeepsProper(photos, WithId(id), Convert(now), nextId);
    case ConversionFailed(id, message, now) =>
      ChangeKeepsProper(photos, WithId(id), FailConversion(message, now), nextId);
    case Reprocess(id) => ReprocessKeepsProper(photos, nextId, id);
    case Approve(id, profile) => ReviewKeepsProper(photos, nextId, id, profile, ApproveBy(profile));
    case Reject(id, profile, reason, message) =>
      ReviewKeepsProper(photos, nextId, id, profile, RejectBy(profile, reason, message));
    case SoftDelete(id, now) => ChangeKeepsProper(photos, WithId(id), Delete(now), nextId);
    case Move(ids, albumId) => ChangeKeepsProper(photos, AnyOf(ids), MoveTo(albumId), nextId);
  }

  /** What a review needs: a validated photo on nobody's record, taken by somebody else. */
  ghost predicate IsReviewable(photo: Photo, profile: Id) {
    && photo.deletedAt.None? && photo.validatedAt.Some? && !IsTruthy(photo.errorMessage)
    && photo.reviewedBy.None? && photo.rejectReason.None? && photo.takenBy != Some(profile)
  }

  /**
   A review is final in every event: it stays with the profile that made it and is only ever given to a reviewable
   photo.
  */
  lemma ReviewsStay(table: Table, event: Event, i: nat)
    requires Proper(table.photos, table.nextId) && i < |table.photos|
    ensures var before, after := table.photos[i], Apply(table, event).photos;
      && i < |after| && after[i].id == before.id
      && (before.reviewedBy.Some? ==> after[i].reviewedBy == before.reviewedBy && after[i].validatedAt.Some?)
      && (before.reviewedBy.None? && after[i].reviewedBy.Some? ==> IsReviewable(before, after[i].reviewedBy.value))
  {
    var photos := table.photos;
    assert photos[i] in photos;
    match event
    case Upload(_, _, _, _) =>
    case Import(_, _) =>
    case Validate(id, album, hash, exif, found, now) =>
      ValidationKeepsReview(photos, id, album, hash, exif, found, now, i);
    case ValidationFailed(id, message, now) => UpdateKeepsReview(photos, WithId(id), FailValidation(message, now), i);
    case Converted(id, now) => UpdateKeepsReview(photos, WithId(id), Convert(now), i);
    case ConversionFailed(id, message, now) => UpdateKeepsReview(photos, WithId(id), FailConversion(message, now), i);
    case Reprocess(id) => ReprocessKeepsReview(photos, table.nextId, id, i);
    case Approve(id, profile) => ReviewedOnce(photos, table.nextId, id, profile, ApproveBy(profile), i);
    case Reject(id, profile, reason, comment) =>
      ReviewedOnce(photos, table.nextId, id, profile, RejectBy(profile, reason, comment), i);
    case SoftDelete(id, now) => UpdateKeepsReview(photos, WithId(id), Delete(now), i);
    case Move(ids, albumId) => UpdateKeepsReview(photos, AnyOf(ids), MoveTo(albumId), i);
  }

  ghost predicate KeepsReview(photo: Photo, photo': Photo) {
    && photo'.id == photo.id && photo'.reviewedBy == photo.reviewedBy
    && (photo.reviewedBy.Some? && photo.validatedAt.Some? ==> photo'.validatedAt.Some?)
  }

  lemma UpdateKeepsReview(photos: seq<Photo>, where: Photo -> bool, change: Photo -> Photo, i: nat)
    requires i < |photos| && KeepsReview(photos[i], change(photos[i]))
    ensures KeepsReview(photos[i], Updated(photos, where, change)[i])
  {
  }

  lemma ValidationKeepsReview(photos: seq<Photo>, id: Id, album: Album, md5: Id, exif: Exif, found: seq<Photo>,
                              now: Instant, i: nat)
    requires i < |photos|
    ensures KeepsReview(photos[i], Validated(photos, id, album, md5, exif, found, now).0[i])
  {
    var stamped := Stamped(photos, id, md5, exif, now);
    var unique := WithoutDuplicates(stamped, found);
    assert KeepsReview(photos[i], stamped[i]) && KeepsReview(stamped[i], unique[i]);
    assert KeepsReview(unique[i], Rejected(unique, id, Resolution)[i])
      && KeepsReview(unique[i], Rejected(unique, id, Timestamp)[i]);
    CheckedPhotos(unique, id, id in NonrecentIds(found), album, exif);
  }

  lemma ReprocessKeepsReview(photos: seq<Photo>, nextId: Id, id: Id, i: nat)
    requires Proper(photos, nextId) && i < |photos|
    ensures |Reprocessed(photos, id).0| == |photos| && KeepsReview(photos[i], Reprocessed(photos, id).0[i])
  {
    var found := Find(photos, Visible(id));
    if found != [] && photos[i].id == id {
      assert found[0] in found;
      SameIdSamePhoto(photos, photos[i], found[0]);
    }
  }

  lemma ReviewedOnce(photos: seq<Photo>, nextId: Id, id: Id, profile: Id, change: Photo -> Photo, i: nat)
    requires Proper(photos, nextId) && i < |photos|
    requires forall photo :: change(photo).id == photo.id && change(photo).reviewedBy == Some(profile)
    ensures var after := Reviewed(photos, id, profile, change);
      && i < |after| && after[i].id == photos[i].id
      && (after[i] == photos[i] || (after[i] == change(photos[i]) && IsReviewable(photos[i], profile)))
  {
    var found := Find(photos, Visible(id));
    if ApprovalPrecheck(photos, id, profile).None? && photos[i].id == id {
      assert found[0] in found && photos[i] in photos;
      SameIdSamePhoto(photos, photos[i], found[0]);
    }
  }

  function State(events: seq<Event>): Table {
    if events == [] then Table([], 0) else Apply(State(events[..|events| - 1]), events[|events| - 1])
  }

  ghost predicate IsRun(events: seq<Event>) {
    events != [] ==> IsRun(events[..|events| - 1]) && IsAnswered(State(events[..|events| - 1]), events[|events| - 1])
  }

  /** After any run at most one photo per file is validated, neither rejected nor failed, and not deleted. */
  lemma {:induction false} RunsKeepOnePerFile(events: seq<Event>)
    requires IsRun(events)
    ensures Proper(State(events).photos, State(events).nextId)
  {
    if events == [] {
    } else {
      RunsKeepOnePerFile(events[..|events| - 1]);
      StepKeepsProper(State(events[..|events| - 1]), events[|events| - 1]);
    }
  }

  /** What the gallery lists as approved: `findByStateOptionsWhere(approved)`. */
  function Approved(md5: Id): Photo -> bool {
    (photo: Photo) =>
      && photo.md5 == Some(md5) && photo.deletedAt.None? && photo.errorMessage.None? && photo.rejectReason.None?
      && photo.reviewedBy.Some? && photo.processedAt.Some? && photo.validatedAt.Some?
  }

  /** So no file is listed twice among the approved photos, and none was approved by its photographer. */
  lemma ApprovedListHasNoDuplicates(events: seq<Event>, md5: Id)
    requires IsRun(events)
    ensures |Find(State(events).photos, Approved(md5))| <= 1
    ensures forall photo :: photo in Find(State(events).photos, Approved(md5)) ==> photo.reviewedBy != photo.takenBy
  {
    RunsKeepOnePerFile(events);
    var photos := State(events).photos;
    forall i, j | 0 <= i < j < |photos| ensures !(Approved(md5)(photos[i]) && Approved(md5)(photos[j])) {
      assert !Clash(photos[i], photos[j]);
    }
    AtMostOneFound(photos, Approved(md5));
  }

  // ----- the services -----

  datatype ImportOutcome = FilesImported | NoUploadDirectory | DirectoryMismatch

  class GalleryPhotoService {
    var photos: seq<Photo>
    var nextId: Id

    constructor ()
      ensures photos == [] && nextId == 0
    {
      photos, nextId := [], 0;
    }

    /** `None` when the album has no upload directory (`NotFoundException`). */
    method UploadFile(album: Option<Album>, albumId: Id, profile: Id, file: File, now: Instant)
      returns (photo: Option<Photo>)
      modifies this
      ensures photo.Some? <==> album.Some? && IsTruthy(album.value.uploadDirectory)
      ensures Table(photos, nextId)
           == if photo.Some? then Apply(old(Table(photos, nextId)), Upload(file, profile, albumId, now))
             else old(Table(photos, nextId))
      ensures photo.Some? ==> photo.value in photos && photo.value.id == old(nextId)
    {
      if album.None? || !IsTruthy(album.value.uploadDirectory) {
        return None;
      }
      var entity := InsertUploaded(file, profile, albumId, now);
      photo := Some(entity);
    }

    method InsertUploaded(file: File, profile: Id, albumId: Id, now: Instant) returns (photo: Photo)
      modifies this
      ensures Table(photos, nextId) == Apply(old(Table(photos, nextId)), Upload(file, profile, albumId, now))
      ensures photo in photos && photo.id == old(nextId)
    {
      photo := Uploaded(nextId, file, profile, albumId, now);
      photos, nextId := photos + [photo], nextId + 1;
    }

    method ImportFiles(album: Option<Album>, files: seq<Text>, job: ImportJob) returns (outcome: ImportOutcome)
      modifies this
      ensures outcome.NoUploadDirectory? <==> album.None? || !IsTruthy(album.value.uploadDirectory)
      ensures outcome.FilesImported? ==> Includes(job.directory, album.value.uploadDirectory.value)
      ensures outcome.DirectoryMismatch? ==> !Includes(job.directory, album.value.uploadDirectory.value)
      ensures Table(photos, nextId)
           == if outcome.FilesImported? then Apply(old(Table(photos, nextId)), Import(files, job))
             else old(Table(photos, nextId))
    {
      if album.None? || !IsTruthy(album.value.uploadDirectory) {
        return NoUploadDirectory;
      }
      if !Includes(job.directory, album.value.uploadDirectory.value) {
        return DirectoryMismatch;
      }
      InsertImported(files, job);
      outcome := FilesImported;
    }

    method InsertImported(files: seq<Text>, job: ImportJob)
      modifies this
      ensures Table(photos, nextId) == Apply(old(Table(photos, nextId)), Import(files, job))
    {
      for i := 0 to |files|
        invariant photos == old(photos) + Imported(old(nextId), files, job)[..i]
        invariant nextId == old(nextId) + i
      {
        photos, nextId := photos + [ImportedPhoto(nextId, files[i], job)], nextId + 1;
      }
    }

    /** Tells whether the photo is among the rejected ones. */
    method RejectNonrecentDuplicatedFiles(md5: Id, photoId: Id) returns (rejected: bool)
      modifies this`photos
      ensures photos == WithoutDuplicates(old(photos), NewestFirst(old(photos), md5))
      ensures rejected <==> photoId in NonrecentIds(NewestFirst(old(photos), md5))
    {
      var ids, affected := NonrecentIds(NewestFirst(photos, md5)), 0;
      photos, affected := Update(photos, AnyOf(ids), RejectAs(Duplicated));
      rejected := photoId in ids;
    }

    /** The transaction; `None` when the database refuses the metadata, which leaves all photos as they were. */
    method ValidatePhoto(id: Id, album: Album, md5: Id, exif: Exif, now: Instant, dbAccepts: bool)
      returns (valid: Option<bool>)
      modifies this`photos
      ensures valid.Some? <==> dbAccepts
      ensures valid.None? ==> photos == old(photos)
      ensures valid.Some? ==>
        (photos, valid.value)
          == Validated(old(photos), id, album, md5, exif, NewestFirst(Stamped(old(photos), id, md5, exif, now), md5),
                       now)
    {
      var snapshot, affected := photos, 0;
      photos, affected := Update(photos, WithId(id), Stamp(md5, exif, now));
      if !dbAccepts {
        photos := snapshot;
        return None;
      }
      var isRejectByDuplicated := RejectNonrecentDuplicatedFiles(md5, id);
      if isRejectByDuplicated {
        return Some(false);
      }
      if !IsValidResolution(exif, album) {
        photos, affected := Update(photos, WithId(id), RejectAs(Resolution));
        return Some(false);
      }
      if !IsValidTimestamp(exif.date, album) {
        photos, affected := Update(photos, WithId(id), RejectAs(Timestamp));
        return Some(false);
      }
      valid := Some(true);
    }

    method ReprocessPhoto(id: Id) returns (refusal: Option<Refusal>)
      modifies this`photos
      ensures (photos, refusal) == Reprocessed(old(photos), id)
    {
      var found := Find(photos, Visible(id));
      if found == [] {
        return Some(NotFound);
      }
      if found[0].reviewedBy.Some? {
        return Some(AlreadyReviewed);
      }
      var affected;
      photos, affected := Update(photos, WithId(id), Restart());
      refusal := None;
    }

    method ApprovePhoto(id: Id, profile: Id) returns (refusal: Option<Refusal>)
      modifies this`photos
      ensures refusal == ApprovalPrecheck(old(photos), id, profile)
      ensures photos == Reviewed(old(photos), id, profile, ApproveBy(profile))
    {
      refusal := ApprovalPrecheck(photos, id, profile);
      if refusal.None? {
        var affected;
        photos, affected := Update(photos, WithId(id), ApproveBy(profile));
      }
    }

    method RejectPhoto(id: Id, profile: Id, reason: RejectReason, message: Option<Text>)
      returns (refusal: Option<Refusal>)
      modifies this`photos
      ensures refusal == ApprovalPrecheck(old(photos), id, profile)
      ensures photos == Reviewed(old(photos), id, profile, RejectBy(profile, reason, message))
    {
      refusal := ApprovalPrecheck(photos, id, profile);
      if refusal.None? {
        var affected;
        photos, affected := Update(photos, WithId(id), RejectBy(profile, reason, message));
      }
    }

    method MovePhotos(ids: seq<Id>, albumId: Id)
      modifies this`photos
      ensures photos == Updated(old(photos), AnyOf(ids), MoveTo(albumId))
    {
      if |ids| > 0 {
        var affected;
        photos, affected := Update(photos, AnyOf(ids), MoveTo(albumId));
      }
    }

    /** One event: the class refines the transition function, and the table stays proper. */
    method Serve(event: Event)
      requires Proper(photos, nextId)
      requires event.Validate? ==>
        event.found == NewestFirst(Stamped(photos, event.id, event.hash, event.exif, event.now), event.hash)
      modifies this
      ensures Table(photos, nextId) == Apply(old(Table(photos, nextId)), event)
      ensures Proper(photos, nextId)
    {
      if event.Validate? {
        SomeOrderExists(Stamped(photos, event.id, event.hash, event.exif, event.now), event.hash);
      }
      StepKeepsProper(Table(photos, nextId), event);
      var affected;
      match event {
        case Upload(file, profile, albumId, now) => var _ := InsertUploaded(file, profile, albumId, now);
        case Import(files, job) => InsertImported(files, job);
        case Validate(id, album, hash, exif, _, now) => var _ := ValidatePhoto(id, album, hash, exif, now, true);
        case ValidationFailed(id, message, now) =>
          photos, affected := Update(photos, WithId(id), FailValidation(message, now));
        case Converted(id, now) => photos, affected := Update(photos, WithId(id), Convert(now));
        case ConversionFailed(id, message, now) =>
          photos, affected := Update(photos, WithId(id), FailConversion(message, now));
        case Reprocess(id) => var _ := ReprocessPhoto(id);
        case Approve(id, profile) => var _ := ApprovePhoto(id, profile);
        case Reject(id, profile, reason, message) => var _ := RejectPhoto(id, profile, reason, message);
        case SoftDelete(id, now) => photos, affected := Update(photos, WithId(id), Delete(now));
        case Move(ids, albumId) => MovePhotos(ids, albumId);
      }
    }
  }
}
