/** What the photo pipeline guarantees: one accepted photo per file, whatever happens in which order. */
module GalleryPhotoLaws {
  import opened Options
  import opened Rows
  import opened GalleryPhotos

  // ----- the duplicate step -----

  ghost predicate UniqueIds(photos: seq<Photo>) {
    forall i, j :: 0 <= i < j < |photos| ==> photos[i].id != photos[j].id
  }

  lemma SameIdSamePhoto(photos: seq<Photo>, photo: Photo, other: Photo)
    requires UniqueIds(photos) && photo in photos && other in photos && photo.id == other.id
    ensures photo == other
  {
  }

  lemma FoundCandidates(photos: seq<Photo>, found: seq<Photo>, md5: Id)
    requires UniqueIds(photos) && IsNewestFirst(found, photos, md5)
    ensures forall photo :: photo in found <==> photo in photos && Candidate(md5)(photo)
    ensures forall i, j :: 0 <= i < j < |found| ==> found[i].id != found[j].id
  {
    var candidates := Find(photos, Candidate(md5));
    forall photo ensures photo in found <==> photo in candidates {
      assert photo in found <==> photo in multiset(found);
      assert photo in candidates <==> photo in multiset(candidates);
    }
    var differ := (a: Photo, b: Photo) => a.id != b.id;
    FindKeepsPairs(photos, Candidate(md5), differ);
    PairsOfPermutation(candidates, found);
  }

  /** Distinct ids are a matter of the multiset of rows. */
  lemma {:induction false} PairsOfPermutation(rows: seq<Photo>, rows': seq<Photo>)
    requires multiset(rows) == multiset(rows') && UniqueIds(rows)
    ensures UniqueIds(rows')
  {
    forall i, j | 0 <= i < j < |rows'| ensures rows'[i].id != rows'[j].id {
      if rows'[i].id == rows'[j].id {
        assert rows'[i] in multiset(rows) && rows'[j] in multiset(rows);
        SameIdSamePhoto(rows, rows'[i], rows'[j]);
        TwoOccurrences(rows', i, j);
        OneOccurrence(rows, rows'[i]);
      }
    }
  }

  lemma TwoOccurrences<T>(rows: seq<T>, i: nat, j: nat)
    requires i < j < |rows| && rows[i] == rows[j]
    ensures multiset(rows)[rows[i]] >= 2
  {
    assert rows == rows[..j] + rows[j..];
    assert rows[..j][i] in rows[..j] && rows[j..][0] in rows[j..];
    assert rows[i] in multiset(rows[..j]) && rows[i] in multiset(rows[j..]);
  }

  lemma {:induction false} OneOccurrence(rows: seq<Photo>, photo: Photo)
    requires UniqueIds(rows)
    ensures multiset(rows)[photo] <= 1
  {
    if rows == [] {
    } else {
      var front, last := rows[..|rows| - 1], rows[|rows| - 1];
      OneOccurrence(front, photo);
      assert rows == front + [last];
      if last == photo {
        assert forall i :: 0 <= i < |front| ==> front[i] != photo;
        assert photo !in multiset(front);
      }
    }
  }

  /** The photo that the duplicate step spares. */
  ghost predicate IsSurvivor(photo: Photo, found: seq<Photo>) {
    found != [] && photo == found[0]
  }

  lemma NonrecentAreTheOthers(photos: seq<Photo>, found: seq<Photo>, md5: Id)
    requires UniqueIds(photos) && IsNewestFirst(found, photos, md5)
    ensures forall photo :: photo in photos ==>
      (photo.id in NonrecentIds(found) <==> Candidate(md5)(photo) && !IsSurvivor(photo, found))
  {
    FoundCandidates(photos, found, md5);
    forall k | 1 <= k < |found| ensures found[k].id in NonrecentIds(found) {
      assert NonrecentIds(found)[k - 1] == found[k].id;
    }
    forall photo | photo in photos
      ensures photo.id in NonrecentIds(found) <==> Candidate(md5)(photo) && !IsSurvivor(photo, found)
    {
      if photo.id in NonrecentIds(found) {
        var k :| 0 <= k < |found| - 1 && NonrecentIds(found)[k] == photo.id;
        assert found[k + 1] in found && found[k + 1].id == photo.id;
        SameIdSamePhoto(photos, photo, found[k + 1]);
        assert found[0].id != found[k + 1].id;
      }
      if Candidate(md5)(photo) && !IsSurvivor(photo, found) {
        var k :| 0 <= k < |found| && found[k] == photo;
        assert k != 0 && found[k].id in NonrecentIds(found);
      }
    }
  }

  /**
   After the duplicate step one candidate for the file is left if there was any, a newest one;
   the others are rejected as duplicates and nothing else changes.
  */
  lemma NewestSurvives(photos: seq<Photo>, found: seq<Photo>, md5: Id)
    requires UniqueIds(photos) && IsNewestFirst(found, photos, md5)
    ensures var after := WithoutDuplicates(photos, found);
      && (forall photo :: photo in after && Candidate(md5)(photo) <==> IsSurvivor(photo, found))
      && (found == [] <==> forall photo :: photo in photos ==> !Candidate(md5)(photo))
      && (forall photo :: photo in photos && Candidate(md5)(photo) ==> photo.createdAt <= found[0].createdAt)
      && (forall i :: 0 <= i < |photos| ==>
            after[i] == if Candidate(md5)(photos[i]) && !IsSurvivor(photos[i], found)
              then RejectAs(Duplicated)(photos[i]) else photos[i])
  {
    FoundCandidates(photos, found, md5);
    forall i | 0 <= i < |photos|
      ensures WithoutDuplicates(photos, found)[i]
        == if Candidate(md5)(photos[i]) && !IsSurvivor(photos[i], found) then RejectAs(Duplicated)(photos[i])
          else photos[i]
    {
      RowAfterDuplicateStep(photos, found, md5, i);
    }
    OnlySurvivorStays(photos, found, md5);
    forall photo | photo in photos && Candidate(md5)(photo)
      ensures found != [] && photo.createdAt <= found[0].createdAt {
      assert photo in found;
      var k :| 0 <= k < |found| && found[k] == photo;
    }
    assert found != [] ==> found[0] in found;
  }

  lemma RowAfterDuplicateStep(photos: seq<Photo>, found: seq<Photo>, md5: Id, i: nat)
    requires UniqueIds(photos) && IsNewestFirst(found, photos, md5) && i < |photos|
    ensures WithoutDuplicates(photos, found)[i]
         == if Candidate(md5)(photos[i]) && !IsSurvivor(photos[i], found) then RejectAs(Duplicated)(photos[i])
           else photos[i]
  {
    NonrecentAreTheOthers(photos, found, md5);
    assert photos[i] in photos;
  }

  lemma OnlySurvivorStays(photos: seq<Photo>, found: seq<Photo>, md5: Id)
    requires UniqueIds(photos) && IsNewestFirst(found, photos, md5)
    ensures forall photo ::
      photo in WithoutDuplicates(photos, found) && Candidate(md5)(photo) <==> IsSurvivor(photo, found)
  {
    var after := WithoutDuplicates(photos, found);
    FoundCandidates(photos, found, md5);
    forall photo | photo in after && Candidate(md5)(photo) ensures IsSurvivor(photo, found) {
      var i :| 0 <= i < |after| && after[i] == photo;
      RowAfterDuplicateStep(photos, found, md5, i);
    }
    if found != [] {
      assert found[0] in found;
      var k :| 0 <= k < |photos| && photos[k] == found[0];
      RowAfterDuplicateStep(photos, found, md5, k);
      assert after[k] in after;
    }
  }

  // ----- one accepted photo per file -----

  ghost predicate Clash(photo: Photo, other: Photo) {
    IsAccepted(photo) && IsAccepted(other) && photo.md5.Some? && photo.md5 == other.md5
  }

  ghost predicate OnePerFile(photos: seq<Photo>) {
    forall i, j :: 0 <= i < j < |photos| ==> !Clash(photos[i], photos[j])
  }

  /** Reviews come after the validation and from somebody else than the photographer. */
  ghost predicate ProperReview(photo: Photo) {
    photo.reviewedBy.Some? ==> photo.validatedAt.Some? && photo.reviewedBy != photo.takenBy
  }

  ghost predicate Proper(photos: seq<Photo>, nextId: Id) {
    && UniqueIds(photos)
    && OnePerFile(photos)
    && forall photo :: photo in photos ==> ProperReview(photo) && photo.id < nextId
  }

  /** A change after which no photo is newly accepted or stands for another file. */
  ghost predicate AcceptsNothingNew(photo: Photo, photo': Photo) {
    photo'.id == photo.id && (IsAccepted(photo') ==> IsAccepted(photo) && photo'.md5 == photo.md5)
  }

  /** New photos are not validated yet. */
  lemma InsertKeepsProper(photos: seq<Photo>, added: seq<Photo>, nextId: Id)
    requires Proper(photos, nextId)
    requires forall i :: 0 <= i < |added| ==>
      added[i].id == nextId + i && added[i].validatedAt.None? && added[i].reviewedBy.None?
    ensures Proper(photos + added, nextId + |added|)
  {
    var after := photos + added;
    forall i, j | 0 <= i < j < |after| ensures !Clash(after[i], after[j]) && after[i].id != after[j].id {
      if j < |photos| {
        assert !Clash(photos[i], photos[j]);
      } else if i < |photos| {
        assert photos[i] in photos;
      }
    }
    forall photo | photo in after ensures ProperReview(photo) && photo.id < nextId + |added| {
      if photo !in photos {
        var i :| 0 <= i < |added| && added[i] == photo;
      }
    }
  }

  lemma StampKeepsIds(photos: seq<Photo>, id: Id, md5: Id, exif: Exif, now: Instant)
    requires UniqueIds(photos)
    ensures UniqueIds(Stamped(photos, id, md5, exif, now))
  {
  }

  /** Photos of other files are as before, and of this file only the survivor can be accepted. */
  lemma DuplicateStepKeepsOne(photos: seq<Photo>, found: seq<Photo>, md5: Id)
    requires UniqueIds(photos) && IsNewestFirst(found, photos, md5)
    requires forall i, j :: 0 <= i < j < |photos| && photos[i].md5 != Some(md5) ==> !Clash(photos[i], photos[j])
    ensures OnePerFile(WithoutDuplicates(photos, found))
  {
    var after := WithoutDuplicates(photos, found);
    OnlySurvivorStays(photos, found, md5);
    forall i, j | 0 <= i < j < |after| ensures !Clash(after[i], after[j]) {
      RowAfterDuplicateStep(photos, found, md5, i);
      RowAfterDuplicateStep(photos, found, md5, j);
      assert photos[i].id != photos[j].id && after[i] in after && after[j] in after;
    }
  }

  lemma StampLeavesOtherFiles(photos: seq<Photo>, id: Id, md5: Id, exif: Exif, now: Instant)
    requires OnePerFile(photos)
    ensures var after := Stamped(photos, id, md5, exif, now);
      forall i, j :: 0 <= i < j < |after| && after[i].md5 != Some(md5) ==> !Clash(after[i], after[j])
  {
  }

  lemma ValidationKeepsProper(photos: seq<Photo>, id: Id, album: Album, md5: Id, exif: Exif, found: seq<Photo>,
                              now: Instant, nextId: Id)
    requires Proper(photos, nextId)
    requires IsNewestFirst(found, Stamped(photos, id, md5, exif, now), md5)
    ensures Proper(Validated(photos, id, album, md5, exif, found, now).0, nextId)
  {
    var unique := WithoutDuplicates(Stamped(photos, id, md5, exif, now), found);
    DuplicateStepKeepsProper(photos, id, md5, exif, found, now, nextId);
    RejectionKeepsProper(unique, id, Resolution, nextId);
    RejectionKeepsProper(unique, id, Timestamp, nextId);
    CheckedPhotos(unique, id, id in NonrecentIds(found), album, exif);
  }

  lemma CheckedPhotos(photos: seq<Photo>, id: Id, isDuplicate: bool, album: Album, exif: Exif)
    ensures var after := Checked(photos, id, isDuplicate, album, exif).0;
      after == photos || after == Rejected(photos, id, Resolution) || after == Rejected(photos, id, Timestamp)
  {
  }

  lemma RejectionKeepsProper(photos: seq<Photo>, id: Id, reason: RejectReason, nextId: Id)
    requires Proper(photos, nextId)
    ensures Proper(Rejected(photos, id, reason), nextId)
  {
  }

  lemma DuplicateStepKeepsProper(photos: seq<Photo>, id: Id, md5: Id, exif: Exif, found: seq<Photo>, now: Instant,
                                 nextId: Id)
    requires Proper(photos, nextId)
    requires IsNewestFirst(found, Stamped(photos, id, md5, exif, now), md5)
    ensures Proper(WithoutDuplicates(Stamped(photos, id, md5, exif, now), found), nextId)
  {
    var stamped := Stamped(photos, id, md5, exif, now);
    var unique := WithoutDuplicates(stamped, found);
    StampKeepsIds(photos, id, md5, exif, now);
    StampLeavesOtherFiles(photos, id, md5, exif, now);
    DuplicateStepKeepsOne(stamped, found, md5);
    forall i | 0 <= i < |photos| ensures unique[i].id == photos[i].id && ProperReview(unique[i]) {
      assert photos[i] in photos && stamped[i].id == photos[i].id && ProperReview(stamped[i]);
    }
    SameIdsKeepProper(photos, unique, nextId);
  }

  lemma SameIdsKeepProper(photos: seq<Photo>, photos': seq<Photo>, nextId: Id)
    requires Proper(photos, nextId) && |photos'| == |photos| && OnePerFile(photos')
    requires forall i :: 0 <= i < |photos| ==> photos'[i].id == photos[i].id && ProperReview(photos'[i])
    ensures Proper(photos', nextId)
  {
    forall i, j | 0 <= i < j < |photos'| ensures photos'[i].id != photos'[j].id {
      assert photos[i].id != photos[j].id;
    }
    forall photo | photo in photos' ensures ProperReview(photo) && photo.id < nextId {
      var i :| 0 <= i < |photos'| && photos'[i] == photo;
      assert photos[i] in photos;
    }
  }

  lemma ChangeKeepsProper(photos: seq<Photo>, where: Photo -> bool, change: Photo -> Photo, nextId: Id)
    requires Proper(photos, nextId)
    requires forall photo :: photo in photos && where(photo) ==>
      AcceptsNothingNew(photo, change(photo)) && ProperReview(change(photo))
    ensures Proper(Updated(photos, where, change), nextId)
  {
  }

  // ----- what the verdict of a validation means -----

  /** The row of the photo after a validation. */
  lemma RowAfterValidation(photos: seq<Photo>, k: nat, album: Album, md5: Id, exif: Exif, found: seq<Photo>,
                           now: Instant)
    requires k < |photos|
    ensures var (after, valid) := Validated(photos, photos[k].id, album, md5, exif, found, now);
      |after| == |photos| && (valid ==> after[k] == Stamp(md5, exif, now)(photos[k]))
        && (!valid ==> after[k].rejectReason.Some?)
  {
    var stamped := Stamped(photos, photos[k].id, md5, exif, now);
    var unique := WithoutDuplicates(stamped, found);
    assert stamped[k] == Stamp(md5, exif, now)(photos[k]) && stamped[k].id == photos[k].id;
    assert unique[k] == if photos[k].id in NonrecentIds(found) then RejectAs(Duplicated)(stamped[k]) else stamped[k];
    assert unique[k].id == photos[k].id;
  }

  /**
   The verdict says whether the photo is accepted, unless the photo had been rejected, had failed or was deleted before:
   such a photo passes when its resolution and timestamp do, and stays as it was.
  */
  lemma VerdictIsAcceptance(photos: seq<Photo>, k: nat, album: Album, md5: Id, exif: Exif, found: seq<Photo>,
                            now: Instant)
    requires UniqueIds(photos) && k < |photos|
    requires IsNewestFirst(found, Stamped(photos, photos[k].id, md5, exif, now), md5)
    ensures var (after, valid) := Validated(photos, photos[k].id, album, md5, exif, found, now);
      (valid <==> IsAccepted(after[k]))
         <==> IsOpen(photos[k]) || !IsValidResolution(exif, album) || !IsValidTimestamp(exif.date, album)
  {
    RowAfterValidation(photos, k, album, md5, exif, found, now);
    var stamped := Stamped(photos, photos[k].id, md5, exif, now);
    StampKeepsIds(photos, photos[k].id, md5, exif, now);
    NonrecentAreTheOthers(stamped, found, md5);
    assert stamped[k] in stamped;
  }

  /** A photo that passes as a candidate is the only candidate left for its file. */
  lemma PassedIsOnlyCandidate(photos: seq<Photo>, k: nat, album: Album, md5: Id, exif: Exif, found: seq<Photo>,
                              now: Instant)
    requires UniqueIds(photos) && k < |photos| && IsOpen(photos[k])
    requires IsNewestFirst(found, Stamped(photos, photos[k].id, md5, exif, now), md5)
    requires Validated(photos, photos[k].id, album, md5, exif, found, now).1
    ensures IsOnlyCandidate(Validated(photos, photos[k].id, album, md5, exif, found, now).0, k, md5)
  {
    StampKeepsIds(photos, photos[k].id, md5, exif, now);
    StampKeepsCandidates(photos, k, md5, exif, now);
    PassedAfterDuplicateStep(photos, photos[k].id, album, md5, exif, found, now);
    SparedIsOnlyCandidate(Stamped(photos, photos[k].id, md5, exif, now), k, found, md5);
  }

  /** No other candidate for the file was created later than a photo that passes. */
  lemma PassedIsNewest(photos: seq<Photo>, k: nat, album: Album, md5: Id, exif: Exif, found: seq<Photo>, now: Instant,
                       i: nat)
    requires UniqueIds(photos) && k < |photos| && IsOpen(photos[k])
    requires IsNewestFirst(found, Stamped(photos, photos[k].id, md5, exif, now), md5)
    requires Validated(photos, photos[k].id, album, md5, exif, found, now).1
    requires i < |photos| && Candidate(md5)(photos[i])
    ensures photos[i].createdAt <= photos[k].createdAt
  {
    StampKeepsIds(photos, photos[k].id, md5, exif, now);
    StampKeepsCandidates(photos, k, md5, exif, now);
    PassedAfterDuplicateStep(photos, photos[k].id, album, md5, exif, found, now);
    SparedIsOnlyCandidate(Stamped(photos, photos[k].id, md5, exif, now), k, found, md5);
  }

  ghost predicate IsOnlyCandidate(photos: seq<Photo>, k: nat, md5: Id) {
    k < |photos| && forall i :: 0 <= i < |photos| ==> (Candidate(md5)(photos[i]) <==> i == k)
  }

  lemma PassedAfterDuplicateStep(photos: seq<Photo>, id: Id, album: Album, md5: Id, exif: Exif, found: seq<Photo>,
                                 now: Instant)
    requires Validated(photos, id, album, md5, exif, found, now).1
    ensures Validated(photos, id, album, md5, exif, found, now).0
      == WithoutDuplicates(Stamped(photos, id, md5, exif, now), found)
    ensures id !in NonrecentIds(found)
  {
  }

  lemma StampKeepsCandidates(photos: seq<Photo>, k: nat, md5: Id, exif: Exif, now: Instant)
    requires k < |photos|
    ensures var stamped := Stamped(photos, photos[k].id, md5, exif, now);
      && stamped[k].id == photos[k].id
      && (IsOpen(photos[k]) ==> Candidate(md5)(stamped[k]))
      && (forall i :: 0 <= i < |photos| ==>
            && stamped[i].createdAt == photos[i].createdAt
            && (Candidate(md5)(photos[i]) ==> Candidate(md5)(stamped[i])))
  {
  }

  lemma SparedIsOnlyCandidate(photos: seq<Photo>, k: nat, found: seq<Photo>, md5: Id)
    requires UniqueIds(photos) && k < |photos| && IsNewestFirst(found, photos, md5)
    requires Candidate(md5)(photos[k]) && photos[k].id !in NonrecentIds(found)
    ensures var after := WithoutDuplicates(photos, found);
      && IsOnlyCandidate(after, k, md5)
      && (forall i :: 0 <= i < |photos| && Candidate(md5)(photos[i]) ==> photos[i].createdAt <= photos[k].createdAt)
  {
    NonrecentAreTheOthers(photos, found, md5);
    NewestSurvives(photos, found, md5);
    assert photos[k] in photos;
    var after := WithoutDuplicates(photos, found);
    forall i | 0 <= i < |photos| ensures Candidate(md5)(after[i]) <==> i == k {
      assert after[i] in after && (i != k ==> photos[i].id != photos[k].id);
    }
    forall i | 0 <= i < |photos| && Candidate(md5)(photos[i]) ensures photos[i].createdAt <= photos[k].createdAt {
      assert photos[i] in photos;
    }
  }

  /** Once a photo was sent through the pipeline again, the verdict of its next validation is whether it is accepted. */
  lemma ReprocessedIsJudgedAgain(photos: seq<Photo>, k: nat, album: Album, md5: Id, exif: Exif, found: seq<Photo>,
                                 now: Instant)
    requires UniqueIds(photos) && k < |photos| && Reprocessed(photos, photos[k].id).1.None?
    requires IsNewestFirst(found, Stamped(Reprocessed(photos, photos[k].id).0, photos[k].id, md5, exif, now), md5)
    ensures var restarted := Reprocessed(photos, photos[k].id).0;
      && restarted == photos[k := Restart()(photos[k])]
      && IsOpen(restarted[k]) && !IsAccepted(restarted[k])
      && var (after, valid) := Validated(restarted, photos[k].id, album, md5, exif, found, now);
         valid <==> IsAccepted(after[k])
  {
    var restarted := Reprocessed(photos, photos[k].id).0;
    RestartedRow(photos, k);
    VerdictIsAcceptance(restarted, k, album, md5, exif, found, now);
  }

  lemma RestartedRow(photos: seq<Photo>, k: nat)
    requires UniqueIds(photos) && k < |photos| && Reprocessed(photos, photos[k].id).1.None?
    ensures Reprocessed(photos, photos[k].id).0 == photos[k := Restart()(photos[k])]
    ensures UniqueIds(photos[k := Restart()(photos[k])]) && photos[k].deletedAt.None?
  {
    var found := Find(photos, Visible(photos[k].id));
    assert found[0] in found && photos[k] in photos;
    SameIdSamePhoto(photos, photos[k], found[0]);
    assert Updated(photos, WithId(photos[k].id), Restart()) == photos[k := Restart()(photos[k])];
  }

  // ----- the manual override -----

  /** Resetting a rejection keeps one accepted photo per file exactly when no other photo of the file is accepted. */
  lemma ResetKeepsOne(photos: seq<Photo>, k: nat)
    requires UniqueIds(photos) && OnePerFile(photos) && k < |photos|
    ensures OnePerFile(Updated(photos, WithId(photos[k].id), Reset()))
       <==> (var photo := photos[k];
             photo.validatedAt.Some? && photo.errorMessage.None? && photo.deletedAt.None? && photo.md5.Some? ==>
               forall i :: 0 <= i < |photos| && i != k && photos[i].md5 == photos[k].md5 ==> !IsAccepted(photos[i]))
  {
    var after := Updated(photos, WithId(photos[k].id), Reset());
    assert after == photos[k := Reset()(photos[k])];
    if OnePerFile(after) {
      forall i | 0 <= i < |photos| && i != k && photos[i].md5 == photos[k].md5 && photos[k].md5.Some?
        && IsAccepted(after[k])
        ensures !IsAccepted(photos[i])
      {
        assert if i < k then !Clash(after[i], after[k]) else !Clash(after[k], after[i]);
      }
    } else {
      var i, j :| 0 <= i < j < |after| && Clash(after[i], after[j]);
      assert !Clash(photos[i], photos[j]);
      var other := if i == k then j else i;
      assert IsAccepted(photos[other]) && photos[other].md5 == photos[k].md5;
    }
  }
}
