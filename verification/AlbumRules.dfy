/** An album's upload rule: read back from its stored patterns, does it admit the photos that the validation accepts? */
module AlbumRules {
  import opened Options
  import opened UploadRule
  import opened GalleryPhotos

  /** `AlbumPhotoUploadRule.fromEntity`. */
  function FromEntity(album: Album, watermarkPreset: Option<string>): Rule {
    Rule(Some(true), album.takenAfter, album.takenBefore,
         if album.minimumResolutionMp == Some(0) then None else album.minimumResolutionMp,
         if watermarkPreset == Some("") then None else watermarkPreset)
  }

  /** `isResolutionMetRequirement`, `isTakenAfterDateMetRequirement` and `isTakenBeforeDateMetRequirement`. */
  predicate Admits(rule: Rule, exif: Exif) {
    && exif.width * exif.height >= (if rule.minimumResolutionMp.Some? then rule.minimumResolutionMp.value
                                    else 0) * MEGA_PIXEL
    && (rule.takenAfter.Some? ==> exif.date >= rule.takenAfter.value)
    && (rule.takenBefore.Some? ==> exif.date <= rule.takenBefore.value)
  }

  predicate Passes(album: Album, exif: Exif) {
    IsValidResolution(exif, album) && IsValidTimestamp(exif.date, album)
  }

  /** A time as it is read back: none before the epoch, and otherwise whole seconds. */
  function Restored(time: Option<Instant>): Option<Instant> {
    if time.Some? && time.value >= 0 then Some(Unix(time.value) * SECOND) else None
  }

  lemma StoredRule(album: Album, watermarkPreset: Option<string>)
    ensures var rule := FromPattern(ToPattern(FromEntity(album, watermarkPreset)));
      && rule.takenAfter == Restored(album.takenAfter)
      && rule.takenBefore == Restored(album.takenBefore)
      && rule.minimumResolutionMp
         == if album.minimumResolutionMp.Some? && album.minimumResolutionMp.value > 0 then album.minimumResolutionMp
           else None
  {
    var rule := FromEntity(album, watermarkPreset);
    LookupTimes(rule);
    LookupResolution(rule);
    if album.takenAfter.Some? && album.takenAfter.value >= 0 {
      DecimalOfInt(Unix(album.takenAfter.value));
    }
    if album.takenBefore.Some? && album.takenBefore.value >= 0 {
      DecimalOfInt(Unix(album.takenBefore.value));
    }
    if album.minimumResolutionMp.Some? {
      DecimalOfInt(album.minimumResolutionMp.value);
    }
  }

  /** Duplicates are always excluded, and a preset survives if it is a number. */
  lemma StoredFlagAndPreset(album: Album, watermarkPreset: Option<string>)
    ensures var rule := FromPattern(ToPattern(FromEntity(album, watermarkPreset)));
      && rule.noDuplication == Some(true)
      && rule.watermarkPreset
         == if watermarkPreset.Some? && IsDecimal(watermarkPreset.value) then watermarkPreset else None
  {
    FlagInPrinted(FromEntity(album, watermarkPreset));
    LookupWatermark(FromEntity(album, watermarkPreset));
  }

  /** Both bounds lie after the epoch and exclude each other even in whole seconds. */
  predicate ExcludesAll(album: Album) {
    && album.takenAfter.Some? && album.takenBefore.Some? && album.takenAfter.value >= 0 && album.takenBefore.value >= 0
    && Unix(album.takenAfter.value) > Unix(album.takenBefore.value)
  }

  ghost predicate Agree(rule: Rule, album: Album) {
    forall exif: Exif :: exif.width > 0 && exif.height > 0 ==> (Admits(rule, exif) <==> Passes(album, exif))
  }

  predicate WithinTimes(after: Option<Instant>, before: Option<Instant>, date: Instant) {
    (after.Some? ==> date >= after.value) && (before.Some? ==> date <= before.value)
  }

  /** Unless the bounds are whole seconds or exclude everything, some date lies within one pair of bounds only. */
  lemma TimesDisagree(after: Option<Instant>, before: Option<Instant>) returns (date: Instant)
    requires !IsWholeSecond(after) || !IsWholeSecond(before)
    requires !(after.Some? && before.Some? && after.value >= 0 && before.value >= 0
               && Unix(after.value) > Unix(before.value))
    ensures WithinTimes(Restored(after), Restored(before), date) != WithinTimes(after, before, date)
  {
    if after.Some? && after.value < 0 {
      date := after.value - 1;
    } else if before.Some? && before.value < 0 {
      date := if after.Some? then Unix(after.value) * SECOND else before.value + 1;
    } else if !IsWholeSecond(after) {
      date := Unix(after.value) * SECOND;
    } else {
      date := before.value;
    }
  }

  lemma ResolutionsAgree(rule: Rule, album: Album, exif: Exif)
    requires exif.width > 0 && exif.height > 0
    requires rule.minimumResolutionMp
      == if album.minimumResolutionMp.Some? && album.minimumResolutionMp.value > 0 then album.minimumResolutionMp
        else None
    ensures exif.width * exif.height >= (if rule.minimumResolutionMp.Some? then rule.minimumResolutionMp.value
                                         else 0) * MEGA_PIXEL
       <==> IsValidResolution(exif, album)
  {
  }

  predicate IsKept(album: Album) {
    (IsWholeSecond(album.takenAfter) && IsWholeSecond(album.takenBefore)) || ExcludesAll(album)
  }

  lemma KeptRuleAgrees(album: Album, watermarkPreset: Option<string>)
    requires IsKept(album)
    ensures Agree(FromPattern(ToPattern(FromEntity(album, watermarkPreset))), album)
  {
    var rule := FromPattern(ToPattern(FromEntity(album, watermarkPreset)));
    StoredRule(album, watermarkPreset);
    forall exif: Exif | exif.width > 0 && exif.height > 0 ensures Admits(rule, exif) <==> Passes(album, exif) {
      ResolutionsAgree(rule, album, exif);
    }
  }

  /**
   For every photo with pixels the stored rule says what the validation says, exactly when the album's times are
   whole seconds from the epoch on, or admit no photo at all.
  */
  lemma StoredRuleAgrees(album: Album, watermarkPreset: Option<string>)
    ensures Agree(FromPattern(ToPattern(FromEntity(album, watermarkPreset))), album)
       <==> (IsWholeSecond(album.takenAfter) && IsWholeSecond(album.takenBefore)) || ExcludesAll(album)
  {
    if IsKept(album) {
      KeptRuleAgrees(album, watermarkPreset);
    } else {
      var rule := FromPattern(ToPattern(FromEntity(album, watermarkPreset)));
      StoredRule(album, watermarkPreset);
      var date := TimesDisagree(album.takenAfter, album.takenBefore);
      var exif := LargePhoto(album, date);
      ResolutionsAgree(rule, album, exif);
      assert Admits(rule, exif) != Passes(album, exif);
    }
  }

  lemma LargePhoto(album: Album, date: Instant) returns (exif: Exif)
    ensures exif.width > 0 && exif.height > 0 && exif.date == date && IsValidResolution(exif, album)
  {
    var mp := if album.minimumResolutionMp.Some? && album.minimumResolutionMp.value > 0
      then album.minimumResolutionMp.value else 1;
    exif := Exif(mp * MEGA_PIXEL, 1, date);
  }
}
