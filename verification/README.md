# Recruitment, refresh tokens, gallery photos: a verified model

This project models the stateful cores of the NUDCH API and proves what their services keep true together, which no
single function of them establishes: interview booking, offers, refresh-token rotation, the photo pipeline, and the
codecs and orderings around them. `dafny verify dfyconfig.toml` checks everything.

## How the model is built

- A table is the sequence of its rows. `Rows.Update` is TypeORM's `update(where, set)`, a loop that counts the rows it
  matched; `Rows.Find` is `find({ where })`. A transaction is a snapshot that an error restores.
- Code that changes state is a class whose methods run step by step (`RecruitService.Service`,
  `RecruitSettings.SettingService`, `RefreshTokens.RefreshTokenService`, `GalleryPhotoRun.GalleryPhotoService`), or a
  method on arrays (`TeamOrder.GetYearMembers`, `ObjectIdUuid.FillUuid`). Each method is tied to a specification function
  on values, and the promises are proved about those functions and about runs of them.
- Ids are natural numbers: the services only compare UUIDs, and generated ones are taken to be fresh. Instants are
  milliseconds. Each request carries its own readings of the clock, and runs have a clock that never goes back.
- What the code cannot decide itself is a parameter: `dbAccepts` (a constraint of the database refuses the rows, and the
  transaction fails), `calendarOk` (creating the calendar event fails), the order that the database chooses among photos
  created at one time (`found`), the extracted metadata of a photo, and the hour of lead time in the configuration.

## Main results

**Booking.** `RecruitRun.BookingsAreComplete`: after any number of selections, answers, bookings, cancellations, interview
marks, offers and slot changes, an applicant who holds a slot holds exactly one for every mandatory and every selected
role, all at one time, with every form completed. It rests on three counting tests of the code being right
(`CountOfFreeSlots`, `RebookTest`, `FormIsCompleted`, each an equivalence) and on `rebookSlot` settling an applicant from
every intermediate state (`RebookSettles`). Which requests keep the property is settled in both directions:
`RecruitRun.StepKeepsSettled` gives a check of the tables and the request that holds exactly for those that do, and
`RunsStaySettled` says the same of whole runs.
`RecruitService.Service.Serve` shows that the row-by-row code does exactly these steps, and `RecruitRebooking` and
`RecruitEffects` say row by row what each of them does to the tables.

**Offers.** `RecruitRun.OffersAreProper`: at most one accepted role per applicant, no response later than the expiry of its
offer, and a row with a response keeps its applicant and role, because the windows of registration and announcement
exclude each other (`RecruitSettings.TableIsProper`). This holds in every run with a monotone clock, whatever happens to
the bookings.

**Refresh tokens.** `RefreshTokenRuns` interleaves the find, create and revoke steps of any number of calls. After any
steps at all links ascend within one chain, and profile and MFA flag are those of the sign-in (`RunsAreLinked`); the kind
is, too, as long as rows are stamped in time (`RunsKeepKinds`). With a monotone clock the chains stay in order in exactly
the runs of exclusive steps (`ExclusiveRunsAreChained`), and then a chain has at most two live tokens and one current
token. Serial calls leave one current token however long they take (`SerialRunsLeaveOneCurrent`), and two live ones if
they are quick (`SerialRunsAreChained`, an equivalence). What a chain looks like otherwise is shown for any two calls on
one token, for a call on a token just issued, and for a revocation that comes too late (`CallsOnOneTokenForkChain`,
`ReplacingSuccessorForksChain`, `LateRevocationLeavesThreeLive`).

**Photos.** `GalleryPhotoRun.RunsKeepOnePerFile`: whatever uploads, imports, jobs and reviews happen in which order and how
often, at most one photo per MD5 is validated and neither rejected, failed nor deleted. `GalleryPhotoEffects` says field
by field what each event writes, and for which reason a review is refused.

**Codecs and order.** One print/parse theorem for numerals of any base carries the slot reference ids (base 36), the upload
patterns (base 10) and the hexadecimal texts; every round trip is stated as an equivalence.

## What the code does differently from what one might expect

- With a lead time of 0 hours a slot that began less than an hour ago can still be booked, because the difference is
  truncated towards zero (`LeadTime`).
- An applicant who selects a mandatory interview role cannot book as long as slots are unique: the role is then wanted
  twice and the count of updated rows cannot reach the length of the list (`MandatorySelectionBlocksBooking`,
  `WantedIsDistinct`).
- A slot that does not start and end on full minutes is listed, but its reference id gives back other times, and booking
  its group looks for slots there (`UnalignedGroupIsElsewhere`, `BookGroupCommits`).
- Two free slots of one role at one time let a booking commit without a slot for another role; without such a pair the
  count is right (`CountIsRightWithoutDuplicates`, witness `TwoSlotsForOneRole`).
- After an interview a booking or a rebooking leaves the used slots in place (`BookingAfterInterview` and
  `RebookAfterInterview` are equivalences).
- An offer stays with its row: whoever changes the order of the selected roles moves it to another role
  (`OffersFollowRanks`).
- Activating a setting is no transaction: if the row cannot be saved, no setting is active afterwards
  (`FailedUpdateLeavesNoneActive`, `FailedCreationLeavesNoneActive`, witness `ActiveSettingIsLost`).
- At the very instant an offer expires it is shown as declined, but can still be accepted (`PendingOffersCanBeAnswered`).
- Two concurrent uses of one refresh token leave two current tokens (`CallsOnOneTokenForkChain`).
- A repeated validation of a photo that is rejected already may pass it on to the conversion (`VerdictIsAcceptance`), and
  resetting a rejection can bring back a duplicate (`ResetKeepsOne` says exactly when).
- Upload patterns drop times before the epoch and fractions of a second, so a stored rule may disagree with the validation
  (`StoredRuleAgrees` says exactly when).

## Model

| member | source | states |
|---|---|---|
| RecruitRun.BookingsAreComplete | src/recruit/interview/recruit-interview.service.ts:159-224 | after any requests that pass the check, whoever holds a slot holds exactly one row per mandatory and selected role, no other, all at one start and end, with all forms completed and a role selected |
| RecruitRun.StepKeepsSettled | src/recruit/interview/recruit-interview.service.ts:159-352 | from everyone settled, a request leaves everyone settled exactly when it passes a check of tables and request: a selection after the interview must name the roles of the used slots with their forms filled in, a batch after it must leave the forms filled in, a booking after it must not be possible, and added slots must be new |
| RecruitRun.StepKeepsOffers | src/recruit/applicant/recruit-applicant.v1.controller.ts:112-158 | every request, whatever it does to the bookings, keeps the offers proper, and rows with a response stay with their applicant and role |
| RecruitRun.RunsStaySettled | src/recruit/interview/recruit-interview.service.ts:159-352 | everyone is settled after every prefix of a run exactly when each of its requests passes the check |
| RecruitRun.RunsStayProper | src/recruit/applicant/recruit-applicant.v1.controller.ts:112-158 | offers are proper after every prefix of every run with a clock that does not go back, whatever happens to the bookings |
| RecruitRun.EmptyTables | src/recruit/interview/recruit-interview.service.ts:159-224 | empty tables satisfy both invariants, so runs can start |
| RecruitRun.RebookAfterChange | src/recruit/role/recruit-role.service.ts:68 | a change of one applicant's roles or answers followed by a rebooking leaves everyone settled exactly when it is made before the interview or the used slots are a booking of the changed state |
| RecruitRun.SelectKeepsSettled | src/recruit/role/recruit-role.service.ts:48-69 | a selection leaves everyone settled exactly when it is refused, made before the interview, or names distinct roles that together with the mandatory ones are those of the used slots, with their forms filled in |
| RecruitRun.AnswerKeepsSettled | src/recruit/form/recruit-form.service.ts:144-170 | a batch of answers leaves everyone settled exactly when it is refused, made before the interview, or every needed form will be filled in after it, told from the batch and the stored answers |
| RecruitRun.CancelKeepsSettled | src/recruit/interview/recruit-interview.service.ts:216-224 | a cancellation leaves everyone settled |
| RecruitBooking.LeadTime | src/recruit/interview/recruit-interview.service.ts:123-128 | the lead time, whole or not, is met exactly when the slot starts at least that many hours, rounded up, from now; one of zero or less admits one hour more, exclusively |
| RecruitBooking.CountOfFreeSlots | src/recruit/interview/recruit-interview.service.ts:173-188 | the number of updated rows equals the length of the list exactly when no role repeats and each has a free slot at the time |
| RecruitBooking.RebookTest | src/recruit/interview/recruit-interview.service.ts:148-157 | for slots at one time the length-plus-membership test holds exactly when the request is non-empty, repeats nothing, and its roles are, as a set, the held ones |
| RecruitBooking.CancelKeys | src/recruit/interview/recruit-interview.service.ts:216-224 | cancelling releases all slots of an applicant who was not interviewed and none of anybody else |
| RecruitBooking.ClaimKeys | src/recruit/interview/recruit-interview.service.ts:175-183 | claiming adds exactly the free slots asked for to what the applicant holds, and changes nobody else's |
| RecruitBookingLaws.TransactionCommits | src/recruit/interview/recruit-interview.service.ts:173-192 | the transaction commits exactly when nothing repeats and every role has a slot that is free or cancellable; then the applicant holds these besides what could not be cancelled, otherwise the table is as before; other applicants hold what they held |
| RecruitBookingLaws.OthersKeepTheirRows | src/recruit/interview/recruit-interview.service.ts:159-213 | no outcome of booking or rebooking changes a row that another applicant holds |
| RecruitBookingLaws.BookingSucceeds | src/recruit/interview/recruit-interview.service.ts:137-203 | a booking at given times succeeds exactly when a role is selected, every needed form is filled in, the slot starts in time, no role is wanted twice, every wanted role has a slot there that is free or the applicant's own, and the calendar accepts |
| RecruitBookingLaws.BookingIsRefused | src/recruit/interview/recruit-interview.service.ts:137-190 | for a booking at given times, each refusal is given exactly when its reason applies and no earlier one does: no role, an open form, too late, no slot for some role or a repeated one, calendar failure |
| RecruitBookingLaws.MandatorySelectionBlocksBooking | src/recruit/interview/recruit-interview.service.ts:160-190 | an applicant who selected a mandatory interview role cannot book, whatever the times |
| RecruitRoles.WantedIsDistinct | src/recruit/interview/recruit-interview.service.ts:166 | with unique keys no role is wanted twice exactly when no mandatory interview role was selected |
| RecruitBookingLaws.BookKeepsTable | src/recruit/interview/recruit-interview.service.ts:159-203 | for any table, booking changes the slot table only, nothing at all unless it commits, never what others hold, and it keeps slots unique |
| RecruitBookingLaws.BookKeepsSettled | src/recruit/interview/recruit-interview.service.ts:159-203 | booking keeps an applicant settled who has not been interviewed |
| RecruitBookingLaws.RebookSettles | src/recruit/interview/recruit-interview.service.ts:206-213 | from any state with the held slots at one time and unused, rebooking ends in a complete booking or in none |
| RecruitRebooking.BothTimesTakenOver | src/recruit/interview/recruit-interview.service.ts:148-171 | with both times taken over from slots at one time, booking reports the same slot exactly when the applicant is settled, and is otherwise booking at that time |
| RecruitRebooking.OneTimeTakenOver | src/recruit/interview/recruit-interview.service.ts:167-168 | with one time given, booking is booking at that time and the other time of the first slot held |
| RecruitRebooking.NothingToTakeOver | src/recruit/interview/recruit-interview.service.ts:169 | without a slot held, leaving out a time is an error that changes nothing |
| RecruitRebooking.RebookingHolds | src/recruit/interview/recruit-interview.service.ts:206-213 | after rebooking with slots at one time, a settled applicant holds what they held, one who can book there holds exactly the wanted roles there, and anybody else holds nothing |
| RecruitRebooking.RebookKeepsSomething | src/recruit/interview/recruit-interview.service.ts:206-213 | slots are held after a rebooking exactly when some were held before and the applicant was settled or can book the wanted roles at their time |
| RecruitRebooking.RowAfterBooking | src/recruit/interview/recruit-interview.service.ts:173-192 | after a booking that can be made, a free or own row of a wanted role at the time is the applicant's, their other unused rows are free, and every other row is as before; otherwise all rows are as before |
| RecruitRebooking.RowAfterCancelling | src/recruit/interview/recruit-interview.service.ts:216-224 | cancelling frees a row exactly when it is the applicant's and unused, and changes nothing else in any row |
| RecruitBookingLaws.RebookLeavesSettled | src/recruit/interview/recruit-interview.service.ts:148-213 | rebooking a settled applicant changes nothing, even when the lead time has passed |
| RecruitBookingLaws.OneSlotPerRole | src/recruit/interview/recruit-interview.service.ts:183-188 | a complete booking has exactly one row for every wanted role and no further row |
| RecruitInterviews.BookingAfterInterview | src/recruit/interview/recruit-interview.service.ts:218-219 | a committed booking of a settled applicant ends settled exactly when no held slot was marked as interviewed |
| RecruitInterviews.RebookAfterInterview | src/recruit/interview/recruit-interview.service.ts:206-224 | once all held slots were used, rebooking ends settled exactly when the held slots already were the booking of the wanted roles with completed forms, and then it changes nothing |
| RecruitInterviews.CancelKeepsClean | src/recruit/interview/recruit-interview.service.ts:216-224 | cancelling keeps free slots without an interview, and of one applicant's slots all or none interviewed; once interviewed it does nothing |
| RecruitAvailability.AvailabilityAgreesWithBooking | src/recruit/interview/recruit-interview.service.ts:81-120 | with unique slots and roles of the recruitment, a group on full minutes is shown as available to an applicant with selected roles, none wanted twice, and filled-in forms exactly when it can be booked at that moment and no slot of a wanted role at its time is held already |
| RecruitAvailability.ShownButNotBookable | src/recruit/interview/recruit-interview.service.ts:81-120 | in any table of unique slots, aligned or not, a group shown as available cannot be booked exactly when it lies before the epoch, the applicant has no selected role, wants one twice or has an open form, or at the floored times the lead time is missed or a wanted role is not obtainable |
| RecruitAvailability.BookGroupCommits | src/recruit/interview/recruit-interview.v1.controller.ts:73-77 | booking any listed group, on full minutes or not, commits exactly when it is not before the epoch, a role is selected, the forms are filled in, the calendar accepts, and at the floored times the lead time is met and every wanted role is obtainable |
| RecruitCount.CountIsRightWithoutDuplicates | src/recruit/interview/recruit-interview.service.ts:175-188 | the comparison of the row count with the length of the list is right for every list of distinct roles exactly when no two free slots of that time are of one role |
| RecruitCount.CountCoversRoles | src/recruit/interview/recruit-interview.service.ts:175-188 | when the count of updated rows equals the number of distinct roles, every role got a slot exactly if no two of the rows are of one role |
| RecruitAvailability.UnalignedGroupIsElsewhere | src/recruit/interview/recruit-interview.service.ts:81-98 | the reference id of a listed group gives back the times of its slots exactly when they start and end on full minutes |
| RecruitAvailability.AvailabilityAnswers | src/recruit/interview/recruit-interview.service.ts:113-120 | for a group and any requested roles the answer is missing exactly without a request for a group that starts in time, and yes exactly when it starts in time and each requested role has a free slot |
| RecruitAvailability.GroupIsByMinute | src/recruit/interview/recruit-interview.service.ts:81-98 | a listed group consists of exactly the slots of the recruitment's roles that start and end in the same minutes |
| RecruitAvailability.GroupIsByStart | src/recruit/interview/recruit-interview.service.ts:70-82 | no slot of a group starts before its first, whose start decides on the lead time |
| RecruitAvailability.InvalidDateIsRefused | src/recruit/interview/recruit-interview.service.ts:159-203 | booking with a reference id that names no valid date changes nothing, and each refusal is given exactly when its check is the first that fails |
| RecruitSlots.AddKeepsSlots | src/recruit/interview/recruit-interview.service.ts:279-288 | adding keeps slots unique exactly when the added keys are new, and gives nobody a slot |
| RecruitSlots.RemoveKeepsSlots | src/recruit/interview/recruit-interview.service.ts:290-302 | removing keeps slots unique and takes no held slot from anybody |
| RecruitSlots.AddThenRemove | src/recruit/interview/recruit-interview.service.ts:279-302 | removing slots that were just added under new keys restores the table |
| RecruitSlots.AddedSlots | src/recruit/interview/recruit-interview.service.ts:279-288 | behind the slots that were there stands one free, unused slot per role at the time, under the next ids, and nothing else changes |
| RecruitSlots.RemovalOutcome | src/recruit/interview/recruit-interview.service.ts:290-302 | slots are removed exactly when none of these roles is booked at the time; then the others stay in their order, and otherwise all do |
| RecruitSlots.MarkKeepsSlots | src/recruit/interview/recruit-interview.service.ts:305-352 | marking and unmarking change neither who holds what nor the uniqueness of slots |
| RecruitSlots.MarkThenUnmark | src/recruit/interview/recruit-interview.service.ts:305-352 | after a successful mark, unmarking succeeds and restores the table |
| RecruitSlots.MarkOutcome | src/recruit/interview/recruit-interview.service.ts:305-327 | marking succeeds exactly when none of the applicant's slots is marked, and then marks precisely these with the time |
| RecruitSlots.UnmarkOutcome | src/recruit/interview/recruit-interview.service.ts:330-352 | unmarking succeeds exactly when all of the applicant's slots are marked, and then unmarks precisely these |
| RecruitForm.KeptAnswers | src/recruit/form/recruit-form.service.ts:138-142 | an answer is kept exactly when its trimmed text contains two different code units |
| RecruitForm.FormIsCompleted | src/recruit/form/recruit-form.service.ts:91-136 | the form is completed exactly when every needed collection has questions and each of them a stored, non-empty answer |
| RecruitForm.JoinedRows | src/recruit/form/recruit-form.service.ts:97-108 | over the left join, the two counts agree exactly when no question of the collection is unanswered, and a collection has a group exactly when it has questions |
| RecruitForm.NeededForms | src/recruit/form/recruit-form.service.ts:53-70 | the forms asked for are those of the mandatory roles of the recruitment and of the selected roles |
| RecruitData.MandatoryInterviewRoles | src/recruit/role/recruit-role.service.ts:40-46 | the mandatory interview roles are exactly the mandatory roles of the recruitment without a form |
| RecruitData.SelectedRoles | src/recruit/applicant/recruit-applicant.service.ts:108-114 | the selected roles are exactly those of the applicant's rows |
| RecruitForm.BatchIsStored | src/recruit/form/recruit-form.service.ts:149-168 | a batch on distinct questions is stored: a question counts as answered afterwards exactly when its trimmed text has two different code units, the text is the one sent, and all other answers are unchanged |
| RecruitForm.AnsweredAfterBatch | src/recruit/form/recruit-form.service.ts:149-168 | after any batch that is stored, a question counts as answered exactly when no dropped answer deletes it and it was kept by the batch or answered before |
| RecruitForm.BatchStoresKey | src/recruit/form/recruit-form.service.ts:149-168 | under every key of the answers a stored batch leaves: what was there for other applicants and questions, nothing if it drops a stored answer, and otherwise the text of the item it keeps |
| RecruitForm.RefusedBatch | src/recruit/form/recruit-form.service.ts:149-168 | a batch is refused exactly when two of its items for one question have two different code units left after trimming |
| Texts.TrimCutsEnds | src/recruit/form/recruit-form.service.ts:139 | trimming cuts exactly the white space at both ends |
| RecruitForm.GroupAnswers | src/recruit/form/recruit-form.service.ts:155 | splits the batch into the answers to keep and those to drop, in order |
| RecruitRoles.SelectionIsSpelled | src/recruit/role/recruit-role.service.ts:50-67 | after a selection the applicant's rows by rank spell the requested roles with ranks 0, 1, ...; the first rows keep ids and offers, further ones are new, and the rows of others are untouched |
| RecruitRoles.SelectionKeepsUnique | src/recruit/role/recruit-role.service.ts:50-67 | ids and (applicant, role) pairs stay unique and ids stay below the next id |
| RecruitRoles.RowsByRank | src/recruit/role/recruit-role.service.ts:51-54 | the rows that a selection reuses are exactly the applicant's, each as often as stored, by ascending rank |
| RecruitEffects.RefusedSelection | src/recruit/context/recruit-context.model.ts:29-36 | a selection before the opening or after the closing, of a role twice, or refused by the database leaves all tables as they were |
| RecruitEffects.SelectionTakesEffect | src/recruit/role/recruit-role.service.ts:48-69 | any other selection is stored rank by rank, leaves the rows of others alone, and ends with a rebooking for the new roles |
| RecruitEffects.RefusedAnswers | src/recruit/context/recruit-context.model.ts:29-36 | a batch before the opening or after the closing, one that keeps two answers to a question, or one refused by the database leaves all tables as they were |
| RecruitEffects.AnswersTakeEffect | src/recruit/form/recruit-form.service.ts:144-170 | any other batch is stored under every key as `BatchStoresKey` says, and ends with a rebooking for the new answers |
| RecruitEffects.BookTakesEffect | src/recruit/interview/recruit-interview.service.ts:159-203 | a booking request at given times changes the slot table only, row by row as `RowAfterBooking` says |
| RecruitEffects.CancelTakesEffect | src/recruit/interview/recruit-interview.service.ts:216-224 | a cancellation frees exactly the applicant's unused slots and changes nothing else in any table |
| RecruitEffects.MarksTakeEffect | src/recruit/interview/recruit-interview.service.ts:305-352 | marking and unmarking set the time of precisely the applicant's slots when they are in the other state, and otherwise nothing |
| RecruitEffects.DecideTakesEffect | src/recruit/applicant/recruit-applicant.v1.controller.ts:112-132 | a decision is recorded in the row of the role, and nowhere else, exactly when the announcement has come, an acceptance is the first, and the row is offered and not expired; otherwise all tables are as before |
| RecruitEffects.OfferTakesEffect | src/recruit/applicant/recruit-applicant.v1.controller.ts:143-158 | an offer, or its withdrawal, clears the response of the row of the role, sets its expiry, and changes no other row |
| RecruitRoles.Reconcile | src/recruit/role/recruit-role.service.ts:55-61 | the assignments to the row objects produce, rank by rank, the old row with its new role or a new row |
| RecruitOffers.PendingOffersCanBeAnswered | src/entities/recruit/recruit-applicant-role.entity.ts:57-68 | an unanswered row is shown as pending after the announcement exactly when the expiry check passes, except at the instant of expiry |
| RecruitOffers.DecisionKeepsOffers | src/recruit/applicant/recruit-applicant.v1.controller.ts:112-132 | a decision changes nothing unless all checks pass; then exactly one row of this applicant and role records it, after the announcement and within the expiry, and at most one role stays accepted |
| RecruitOffers.DecisionOutcome | src/recruit/applicant/recruit-applicant.v1.controller.ts:112-132 | a decision is taken, or refused for each reason, exactly when the conditions told from the rows hold and no earlier reason applies: not announced, accepting a second role, no such row, no offer, expired |
| RecruitOffers.OfferOutcome | src/recruit/applicant/recruit-applicant.v1.controller.ts:143-158 | an offer finds a row exactly when the applicant selected the role |
| RecruitOffers.OfferKeepsOffers | src/recruit/applicant/recruit-applicant.v1.controller.ts:143-158 | an offer resets exactly one row of the applicant and role, or nothing when the role is not selected |
| RecruitOffers.DecisionIsShown | src/entities/recruit/recruit-applicant-role.entity.ts:57-68 | a recorded decision is shown as accepted or declined, to everybody and from then on |
| RecruitOffers.OfferIsShown | src/entities/recruit/recruit-applicant-role.entity.ts:57-68 | after the announcement an offer is shown as pending before its expiry and as declined from it on, and a withdrawn one as a rejection |
| RecruitOffers.ResponseIsShown | src/entities/recruit/recruit-applicant-role.entity.ts:57-68 | the condition for each of the five values shown, told from the row, the announcement, the viewer and the time |
| RecruitOffers.NothingIsShownBeforeAnnouncement | src/entities/recruit/recruit-applicant-role.entity.ts:57-68 | before the announcement an applicant is shown the same for every row, a moderator exactly whether there is an offer or a response; afterwards nobody is shown that |
| RecruitRun.OffersAreProper | src/recruit/applicant/recruit-applicant.v1.controller.ts:112-132 | in every run with a clock that does not go back, at most one role per applicant is accepted, acceptance has a response, no response is later than the offer's expiry, and the next request leaves responded rows with their applicant and role |
| RecruitRun.SelectionKeepsOffers | src/recruit/role/recruit-role.service.ts:48-67 | a selection while registration is open never reuses a row that has a response |
| RecruitRun.NoResponseWhileOpen | src/recruit/context/recruit-context.model.ts:29-36 | while registration is open no row of the applicant has a response or an acceptance |
| RecruitRoles.OffersFollowRanks | src/recruit/role/recruit-role.service.ts:55-66 | after a selection the row of every rank, with its offer, belongs to the role selected at that rank, or is gone; an offer stays with its own role exactly when that role is selected at the same rank again |
| RecruitService.Service.CancelSlot | src/recruit/interview/recruit-interview.service.ts:216-224 | the row loop releases the cancellable slots and tells whether there was one |
| RecruitService.Service.BookSlot | src/recruit/interview/recruit-interview.service.ts:159-203 | the sequence of checks and the transaction give the tables and outcome that `BookingSucceeds`, `BookingIsRefused` and `BothTimesTakenOver` describe |
| RecruitService.Service.Book | src/recruit/interview/recruit-interview.service.ts:173-192 | cancel, claim, count and calendar, with the snapshot restored on failure |
| RecruitService.Service.RebookSlot | src/recruit/interview/recruit-interview.service.ts:206-213 | a refused rebooking ends with the booking cancelled; `RebookingHolds` says what is held then |
| RecruitService.Service.AddSlot | src/recruit/interview/recruit-interview.service.ts:279-288 | appends one free slot per role under fresh ids |
| RecruitService.Service.RemoveSlot | src/recruit/interview/recruit-interview.service.ts:290-302 | the loop over the slots of the time, then the removal; `RemovalOutcome` says when and what |
| RecruitService.Service.SetInterviewed | src/recruit/interview/recruit-interview.service.ts:305-352 | marks or unmarks all slots of the applicant and counts them, or reports the conflict |
| RecruitService.Service.SelectRoles | src/recruit/role/recruit-role.service.ts:48-69 | the registration window, the transaction and the rebooking in order; true exactly when the rows were stored |
| RecruitService.Service.SaveRoles | src/recruit/role/recruit-role.service.ts:50-67 | stores the reconciled rows or restores all rows |
| RecruitService.Service.UpdateFormAnswers | src/recruit/form/recruit-form.service.ts:144-170 | the registration window, the transaction and the rebooking in order; true exactly when the batch was stored |
| RecruitService.Service.StoreAnswers | src/recruit/form/recruit-form.service.ts:149-168 | upserts, then deletes, or restores the answers |
| RecruitService.Service.DecideOffer | src/recruit/applicant/recruit-applicant.v1.controller.ts:112-132 | the checks in the order of the controller, then the update by row id; `DecisionOutcome` and `DecisionKeepsOffers` say when and what |
| RecruitService.Service.OfferRole | src/recruit/applicant/recruit-applicant.v1.controller.ts:143-158 | the update by row id, when the applicant selected the role |
| RecruitService.Service.Serve | src/recruit/interview/recruit-interview.service.ts:159-352 | serving any request performs exactly its step, leaves everyone settled exactly if it passes the check, and keeps the offers proper |
| RecruitSettings.TableIsProper | src/recruit/setting/recruit-setting.service.ts:33-80 | after any creations and updates, failed ones included, ids are unique, all dates are in order, and at most one setting is active |
| RecruitSettings.CreateKeepsProper | src/recruit/setting/recruit-setting.service.ts:47-57 | a saved active setting is the only active one, and a refusal changes nothing |
| RecruitSettings.UpdateKeepsProper | src/recruit/setting/recruit-setting.service.ts:60-80 | an update keeps the table proper, stores what it returns, and an activated setting is the only active one |
| RecruitSettings.CreationOutcome | src/recruit/setting/recruit-setting.service.ts:47-57 | the conditions of the three outcomes of a creation, and for each what every row of the table holds afterwards |
| RecruitSettings.UpdateOutcome | src/recruit/setting/recruit-setting.service.ts:60-80 | the conditions of the outcomes of an update of a stored setting, and for each what every row holds: the given fields, the old ones where none is given, and the others deactivated on request |
| RecruitSettings.UnknownSetting | src/recruit/setting/recruit-setting.service.ts:61-64 | an update of an unknown setting is refused and changes nothing |
| RecruitSettings.SettingsMakeRunsWellFormed | src/recruit/setting/recruit-setting.service.ts:33-40 | settings written this way have the date order that the recruitment runs rely on |
| RecruitSettings.FailedUpdateLeavesNoneActive | src/recruit/setting/recruit-setting.service.ts:60-80 | when the row cannot be saved, no setting is active afterwards exactly if none was before, or the request activates an existing setting and brings no dates out of order |
| RecruitSettings.FailedCreationLeavesNoneActive | src/recruit/setting/recruit-setting.service.ts:47-57 | when the row cannot be saved, no setting is active afterwards exactly if none was before, or the new one is active with its dates in order |
| RecruitSettings.SettingService.Create | src/recruit/setting/recruit-setting.service.ts:47-57 | validation, deactivation and saving in order give the specified table and outcome |
| RecruitSettings.SettingService.Update | src/recruit/setting/recruit-setting.service.ts:60-80 | lookup, validation, deactivation and saving in order give the specified table and outcome |
| RefreshTokens.KindIsRecognised | src/accounts/refresh-token/refresh-token.service.ts:102-105 | a persistent token is recognised exactly when the row is stamped at most one minute after its expiry was computed, a session token exactly when that lag exceeds 8 hours minus 30 days plus a minute |
| RefreshTokens.UseRenews | src/accounts/refresh-token/refresh-token.service.ts:76-116 | using a live token without successor returns it unchanged for its first seven hours, and from then on issues a token of the same profile, flag and kind with a full lifetime, links the old one and leaves all other rows alone |
| RefreshTokens.UseAnswers | src/accounts/refresh-token/refresh-token.service.ts:76-100 | a use answers nothing exactly when the row is missing or expired; otherwise the row under the id of its successor, the row itself in its first seven hours, and then the row in all its fields under the next id |
| RefreshTokens.Lifetimes | src/accounts/refresh-token/refresh-token.service.ts:14-28 | a session token lives eight hours, any other thirty days |
| RefreshTokens.ReplacementWindow | src/accounts/refresh-token/refresh-token.service.ts:14-15 | a token can be replaced for at least its last 59 minutes |
| RefreshTokens.IssuedIsFound | src/accounts/refresh-token/refresh-token.service.ts:30-37 | a new token answers as current until it is seven hours old, then as replaceable until its lifetime ends, then not at all; every other id answers as before |
| RefreshTokens.RevokedIsReplayed | src/accounts/refresh-token/refresh-token.service.ts:39-65 | a token revoked while live answers with its successor for exactly the grace period, however long it would have lived, one that expired before answers nothing, and every other id answers as before |
| RefreshTokens.RemovedIsUnknown | src/accounts/refresh-token/refresh-token.service.ts:47-50 | a token that was signed out answers nothing at any time, and every other id answers as before |
| RefreshTokens.RefreshTokenService.Use | src/accounts/refresh-token/refresh-token.service.ts:76-100 | the decisions of a use in order give the table and token that `UseAnswers` and `UseRenews` describe |
| RefreshTokenRuns.RunsAreLinked | src/accounts/refresh-token/refresh-token.service.ts:76-100 | after any steps at all, whatever the clocks show, ids are fresh, every row is the one logged, and every link leads to a later token of the same chain with the profile and MFA flag of its sign-in; an unrotated token has the expiry it was issued with |
| RefreshTokenRuns.StepKeepsLinks | src/accounts/refresh-token/refresh-token.service.ts:76-100 | every single step keeps that, with no condition on clocks or calls, and new rows only ever get the next id |
| RefreshTokenRuns.RunsKeepKinds | src/accounts/refresh-token/refresh-token.service.ts:92-105 | after any steps whose rows are stamped within the lag at which both kinds are read back, every token is of the kind of its sign-in |
| RefreshTokenRuns.ReplacementKeepsKind | src/accounts/refresh-token/refresh-token.service.ts:92-105 | a replacement is of the kind of the token it replaces exactly when that token was stamped soon enough for its kind |
| RefreshTokenRuns.LinksAscend | src/accounts/refresh-token/refresh-token.service.ts:56-65 | following n links leads at least n ids further within the chain, so never back |
| RefreshTokenRuns.ExclusiveRunsAreChained | src/accounts/refresh-token/refresh-token.service.ts:76-116 | the chains are in order throughout a run exactly when every step is exclusive: no call starts to replace a token that another call replaces or has just issued, and every revocation comes in time |
| RefreshTokenRuns.StepKeepsChains | src/accounts/refresh-token/refresh-token.service.ts:76-116 | from chains in order a step keeps them in order exactly when it is exclusive, and in every step a rotated token keeps its successor |
| RefreshTokenRuns.AtMostTwoLive | src/accounts/refresh-token/refresh-token.service.ts:56-65 | of any three tokens of a chain the first is not live: the 5-second grace ends before the 7-hour threshold |
| RefreshTokenRuns.AtMostOneCurrent | src/accounts/refresh-token/refresh-token.service.ts:76-100 | two live tokens without successor occur in a chain only while one call is between its creation and its revocation |
| RefreshTokenRuns.ChainsOfExclusiveRuns | src/accounts/refresh-token/refresh-token.service.ts:76-116 | after any exclusive run, at every later instant, a chain has at most two live tokens, and two current ones only within one call |
| RefreshTokenRuns.GraceReplay | src/accounts/refresh-token/refresh-token.service.ts:82-86 | within the grace period every use of a rotated token changes nothing and returns its successor, in every interleaving |
| RefreshTokenRuns.ReplaysAreTheSame | src/accounts/refresh-token/refresh-token.service.ts:76-86 | until it expires every use of a rotated token answers the same row under the id of the successor and changes nothing, after any number of uses, sign-ins and sign-outs of other tokens |
| RefreshTokenRuns.LinkedIdsAreFresh | src/accounts/refresh-token/refresh-token.service.ts:30-37 | in every run the id of the next token is unused, which `ReplaysAreTheSame` asks for |
| RefreshTokenRuns.ReplayedIsCurrent | src/accounts/refresh-token/refresh-token.service.ts:82-86 | while the chains are in order that successor is live and current at that instant, unless it was signed out or stamped more than an hour late |
| RefreshTokenRuns.CallsOnOneTokenForkChain | src/accounts/refresh-token/refresh-token.service.ts:76-100 | two calls that replace one token leave two current tokens in its chain, whatever they have done so far and in whichever order they finish |
| RefreshTokenRuns.ReplacingSuccessorForksChain | src/accounts/refresh-token/refresh-token.service.ts:76-100 | replacing a token before the call that issued it has revoked the old one leaves the old one and the newest current |
| RefreshTokenRuns.LateRevocationLeavesThreeLive | src/accounts/refresh-token/refresh-token.service.ts:95-96 | a revocation whose grace period reaches beyond the age at which the successor can be replaced leaves three live tokens once the successor is used then |
| RefreshTokenRuns.SerialUse | src/accounts/refresh-token/refresh-token.service.ts:76-100 | a use without interference keeps the links, leaves no call behind, gives the table that the specification of a use says, and keeps the chains exactly when it revokes within seven hours less the grace period or not at all |
| RefreshTokenRuns.SerialRunsAreServed | src/accounts/refresh-token/refresh-token.service.ts:76-100 | requests served one after the other keep the links, and the table is the one the specifications of the service give |
| RefreshTokenRuns.SerialRunsLeaveOneCurrent | src/accounts/refresh-token/refresh-token.service.ts:76-100 | after serial requests, however long they take, no chain has two current tokens at any later instant |
| RefreshTokenRuns.SerialRunsAreChained | src/accounts/refresh-token/refresh-token.service.ts:76-116 | the chains stay in order throughout a serial run exactly when every use of it is quick enough |
| RefreshTokenRuns.QuickRunsLeaveTwoLive | src/accounts/refresh-token/refresh-token.service.ts:76-116 | after a serial run of quick uses a chain has at most two live tokens at every later instant |
| GalleryPhotoRun.RunsKeepOnePerFile | src/gallery/photo/gallery-photo-validator-processor.service.ts:84-160 | in every run at most one photo per MD5 is validated, unrejected, unfailed and undeleted; reviews come after validation and from others than the photographer |
| GalleryPhotoRun.StepKeepsProper | src/gallery/photo/gallery-photo.service.ts:33-87 | every event of the pipeline keeps that |
| GalleryPhotoRun.ApprovedListHasNoDuplicates | src/entities/gallery/gallery-photo.entity.ts:167-196 | no file appears twice among the photos listed as approved, and none was approved by its photographer |
| GalleryPhotoRun.ReviewsStay | src/gallery/photo/gallery-photo.service.ts:46-74 | no event takes a review away or overwrites it, and only a visible, validated, unfailed, unrejected, unreviewed photo of somebody else ever gets one |
| GalleryPhotoLaws.NewestSurvives | src/gallery/photo/gallery-photo-validator-processor.service.ts:146-160 | after the duplicate step exactly one candidate is left if there was one, a newest one; the others are rejected as duplicated and nothing else changes |
| GalleryPhotoLaws.NonrecentAreTheOthers | src/gallery/photo/gallery-photo-validator-processor.service.ts:151-159 | the rejected ids are those of the candidates other than the survivor |
| GalleryPhotoLaws.ValidationKeepsProper | src/gallery/photo/gallery-photo-validator-processor.service.ts:84-128 | a validation, whatever its verdict, keeps one accepted photo per file |
| GalleryPhotoLaws.VerdictIsAcceptance | src/gallery/photo/gallery-photo-validator-processor.service.ts:106-126 | the verdict tells whether the photo is accepted exactly when it was open before or fails a check |
| GalleryPhotoLaws.PassedIsOnlyCandidate | src/gallery/photo/gallery-photo-validator-processor.service.ts:106-126 | an open photo that passes is the only candidate left for its file |
| GalleryPhotoLaws.PassedIsNewest | src/gallery/photo/gallery-photo-validator-processor.service.ts:151-156 | no candidate was created later than an open photo that passes |
| GalleryPhotoLaws.ReprocessedIsJudgedAgain | src/gallery/photo/gallery-photo.service.ts:33-44 | reprocessing clears the state of exactly this photo, and the verdict of the next validation is then whether it is accepted |
| GalleryPhotoLaws.ResetKeepsOne | src/gallery/photo/gallery-photo.service.ts:76-78 | resetting a photo keeps one accepted photo per file exactly when it is unvalidated, failed, deleted or without MD5, or no other photo of the file is accepted |
| GalleryPhotoEffects.ResetTakesEffect | src/gallery/photo/gallery-photo.service.ts:76-78 | a reset takes back the review with its reason and comment in the row of this photo, and changes nothing else |
| GalleryPhotoEffects.ReviewOutcome | src/gallery/photo/gallery-photo.service.ts:59-74 | a review is allowed exactly for a reviewable photo, and each refusal is given exactly when its condition holds and no earlier one does |
| GalleryPhotoEffects.NoReviewOfUnknownPhoto | src/gallery/photo/gallery-photo.service.ts:59-65 | a review finds no photo exactly when none with this id is undeleted |
| GalleryPhotoEffects.RejectionTakesEffect | src/gallery/photo/gallery-photo.service.ts:51-57 | a rejection of a reviewable photo stores who, why and the trimmed comment or none, nothing else in any row, and the photo is neither accepted nor listed as approved; any other rejection changes nothing |
| GalleryPhotoEffects.ApprovalTakesEffect | src/gallery/photo/gallery-photo.service.ts:46-49 | an approval of a reviewable photo stores who and nothing else, and lists the photo as approved exactly when it is converted without error; any other approval changes nothing |
| GalleryPhotoEffects.OwnUploadsAreNotReviewed | src/gallery/photo/gallery-photo.service.ts:73 | nobody can review a photo they took |
| GalleryPhotoEffects.PhotographerStays | src/gallery/photo/gallery-photo-validator-processor.service.ts:84-128 | no event changes who took a photo, so its uploader can never review it |
| GalleryPhotoEffects.ReprocessOutcome | src/gallery/photo/gallery-photo.service.ts:33-44 | reprocessing is refused exactly for a photo that is gone or reviewed |
| GalleryPhotoEffects.ReprocessTakesEffect | src/gallery/photo/gallery-photo.service.ts:33-44 | otherwise it clears the five fields of the pipeline in this row and changes nothing else |
| GalleryPhotoEffects.FailureTakesEffect | src/gallery/photo/gallery-photo-converter-processor.service.ts:66-72 | a failed validation or conversion stores its time and message in the row, and the photo is no longer accepted |
| GalleryPhotoEffects.ConversionAndDeletionTakeEffect | src/gallery/photo/gallery-photo-converter-processor.service.ts:59 | a conversion and a deletion store their time in this row only, and a deleted photo is found no more |
| GalleryPhotoEffects.MoveTakesEffect | src/gallery/photo/gallery-photo.service.ts:84-87 | moving changes the album of exactly the photos named |
| GalleryPhotoEffects.ValidationOutcome | src/gallery/photo/gallery-photo-validator-processor.service.ts:84-144 | the verdict is that no candidate is preferred, the pixels suffice and the date is within the bounds; the row gets the metadata and the first reason that applies |
| GalleryPhotoEffects.ValidationTakesEffect | src/gallery/photo/gallery-photo-validator-processor.service.ts:84-160 | what a validation leaves in every row: the photo as `ValidationOutcome` says, a candidate that is not preferred as duplicated, every other as before |
| GalleryPhotoEffects.UploadAddsRow | src/gallery/photo/gallery-album-photo.service.ts:93-119 | an upload adds one row, field by field: taken and created by the uploader, with place, name and MD5, everything else open |
| GalleryPhotoEffects.ImportAddsRows | src/gallery/photo/gallery-album-photo.service.ts:122-146 | an import adds one row per file, field by field: base name and import id, no MD5, the photographer given, everything else open |
| Texts.IncludesSomewhere | src/gallery/photo/gallery-album-photo.service.ts:129 | the directory test is whether the album directory occurs somewhere in the path |
| GalleryPhotos.SomeOrderExists | src/gallery/photo/gallery-photo-validator-processor.service.ts:151-156 | sorting the candidates gives one of the orders that the database may return |
| GalleryPhotoRun.GalleryPhotoService.ValidatePhoto | src/gallery/photo/gallery-photo-validator-processor.service.ts:84-128 | the transaction step by step gives the specified rows and verdict, or restores them |
| GalleryPhotoRun.GalleryPhotoService.RejectNonrecentDuplicatedFiles | src/gallery/photo/gallery-photo-validator-processor.service.ts:146-160 | rejects all candidates but the first and tells whether the photo is one of them |
| GalleryPhotoRun.GalleryPhotoService.ReprocessPhoto | src/gallery/photo/gallery-photo.service.ts:33-44 | restarts a visible, unreviewed photo, or refuses |
| GalleryPhotoRun.GalleryPhotoService.ApprovePhoto | src/gallery/photo/gallery-photo.service.ts:46-49 | stores the row that `ApprovalTakesEffect` describes when the precheck allows it, and returns the refusal otherwise |
| GalleryPhotoRun.GalleryPhotoService.RejectPhoto | src/gallery/photo/gallery-photo.service.ts:51-57 | stores the row that `RejectionTakesEffect` describes when the precheck allows it, and returns the refusal otherwise |
| GalleryPhotoRun.GalleryPhotoService.MovePhotos | src/gallery/photo/gallery-photo.service.ts:84-87 | moves exactly the photos with these ids |
| GalleryPhotoRun.GalleryPhotoService.UploadFile | src/gallery/photo/gallery-album-photo.service.ts:93-119 | inserts one unvalidated row, unless the album has no upload directory |
| GalleryPhotoRun.GalleryPhotoService.ImportFiles | src/gallery/photo/gallery-album-photo.service.ts:121-146 | inserts one row per listed file, with its base name, the import id and no MD5, unless the album has no upload directory or the directory does not match |
| Texts.BasenameOfFile | src/gallery/photo/gallery-album-photo.service.ts:135 | the base name of a file in a directory is its name |
| GalleryPhotoRun.GalleryPhotoService.Serve | src/gallery/photo/gallery-photo-converter-processor.service.ts:38-82 | serving an event performs exactly its step of the run, conversions and failed jobs included, and keeps the table proper |
| AlbumRules.StoredRuleAgrees | src/gallery/photo/rules/album-photo-upload-rule.ts:73-112 | the rule read back from an album's patterns admits, among photos with pixels, exactly those the validation accepts, if and only if the album's times are whole seconds from the epoch on or admit nothing |
| AlbumRules.StoredFlagAndPreset | src/gallery/photo/rules/album-photo-upload-rule.ts:73-102 | a stored album rule always excludes duplicates, and keeps the preset exactly when it consists of digits |
| UploadRule.PatternRoundTrip | src/gallery/photo/rules/album-photo-upload-rule.ts:73-102 | reading the patterns back restores the rule exactly when the flag is set or unset explicitly, times are whole seconds from the epoch on, the resolution is positive and the preset is digits |
| UploadRule.Items | src/gallery/photo/rules/album-photo-upload-rule.ts:73-89 | which texts are stored for a rule, each with its prefix, number and suffix |
| UploadRule.PatternsExcludeEachOther | src/gallery/photo/rules/upload-task-rules/upload-task-rule.abstract.ts:6-8 | no text matches two of the patterns |
| UploadRule.PatternOrderIsIrrelevant | src/gallery/photo/rules/upload-task-rules/upload-task-rule.abstract.ts:6-8 | any order of the stored patterns reads back as the same rule |
| UploadRule.LookupTimes | src/gallery/photo/rules/upload-task-rules/upload-task-rule-time.abstract.ts:20-23 | the time patterns read back the seconds that were printed, and nothing for times before the epoch |
| UploadRule.LookupResolution | src/gallery/photo/rules/upload-task-rules/upload-task-rule-pixel-resolution.ts:4-11 | the resolution pattern reads back a positive number of megapixels and nothing else |
| UploadRule.LookupWatermark | src/gallery/photo/rules/upload-task-rules/upload-task-rule-watermark.ts:4-10 | the watermark pattern reads back a preset exactly when it consists of digits |
| Numerals.PrintThenParse | src/recruit/models/recruit-interview-slot.model.ts:52-58 | for every base, parsing a printed number gives it back, also in front of text that starts with no digit |
| Numerals.ParseThenPrint | src/recruit/models/recruit-interview-slot.model.ts:52-58 | printing a parsed text gives it back exactly when it is a numeral without leading zeros in lower case |
| Numerals.PrintIsInjective | src/recruit/models/recruit-interview-slot.model.ts:52-54 | two numbers print alike exactly when they are equal |
| SlotRef.RefIdRoundTrip | src/recruit/models/recruit-interview-slot.model.ts:34-41 | the reference id gives back both times, floored to the minute, exactly when neither lies before the epoch |
| SlotRef.RefIdIsExact | src/recruit/models/recruit-interview-slot.model.ts:34-41 | from the epoch on a reference id gives back the very times exactly when both are full minutes |
| SlotRef.TimesOfRefId | src/recruit/models/recruit-interview-slot.model.ts:38-58 | what a reference id gives back for all times: both floored, or an invalid date for a time before the epoch |
| SlotRef.RefIdOfTimes | src/recruit/models/recruit-interview-slot.model.ts:34-41 | a text is restored by parsing and printing exactly when it is a canonical reference id |
| SlotRef.SameGroup | src/recruit/interview/recruit-interview.service.ts:81 | two slots share a group exactly when their starts and their ends agree to the minute, for all times |
| TeamOrder.GetYearMembers | src/accounts/team/team.service.ts:52-67 | sorting the array twice in place gives the list sorted by role rank and then by group rank, and an error exactly when two or more members are compared and one of them has no role |
| TeamOrder.MembersAreOrdered | src/accounts/team/team.service.ts:64-88 | the result is a permutation in the lexicographic order of group rank, first-role rank and profile |
| StableSort.SortInPlace | src/accounts/team/team.service.ts:64-65 | the in-place insertions compute the stable sort |
| StableSort.SortIsStable | src/accounts/team/team.service.ts:64-65 | sorting a list ordered by one relation orders it by the key first and by that relation among equal keys |
| ObjectIdUuid.FillUuid | src/helpers/objectid-uuid-converter.ts:23-26 | the three buffer writes produce the embedding |
| ObjectIdUuid.FillObjectId | src/helpers/objectid-uuid-converter.ts:54-57 | the two buffer writes extract the twelve bytes |
| ObjectIdUuid.ObjectIdRoundTrip | src/helpers/objectid-uuid-converter.ts:14-58 | every ObjectId comes back from its UUID, so no two share one |
| ObjectIdUuid.UuidRoundTrip | src/helpers/objectid-uuid-converter.ts:14-58 | a UUID comes back from its ObjectId exactly when bytes 6 to 8 are 80 00 80 and byte 15 is 0; such UUIDs are valid and of version 8 |
| ObjectIdUuid.HexStringRoundTrip | src/helpers/objectid-uuid-converter.ts:44-50 | an ObjectId's text comes back from its UUID in lower case |
| ObjectIdUuid.TextRoundTrip | src/helpers/objectid-uuid-converter.ts:36-42 | an ObjectId's text and its UUID's text name the same bytes |
| ObjectIdUuid.UuidTextRoundTrip | src/helpers/objectid-uuid-converter.ts:36-42 | a UUID's text comes back exactly when its bytes are embedded and it is in lower case |
| ObjectIdUuid.UuidTextLayout | src/helpers/objectid-uuid-converter.ts:14-28 | the UUID of an ObjectId spells its digits in order, in lower case, with 800080 after the first twelve and 00 at the end |
| Counting.Pigeonhole | src/recruit/interview/recruit-interview.service.ts:184 | distinct entries drawn from a list are as many as the list is long exactly when the list repeats nothing and none of its entries is missing |
| Rows.Update | src/recruit/interview/recruit-interview.service.ts:175-183 | the loop changes exactly the matching rows and counts them |

## Left out

- Calendar, mail, Discord, OAuth, LDAP, storage, image metadata, hashing and signing: foreign calls. Their results are
  parameters where a decision depends on them; the calendar columns of a slot, written after the transaction, are no part
  of the model, nor is the cancellation of a calendar event.
- Modules, guards, permission checks of moderators, request validation, logging and migrations: plumbing.
- SQL isolation: requests and jobs are served one after the other, each transaction and each single update at once.
  Only refresh tokens are interleaved, at the level of statements.
- Foreign keys and the primary keys of answers: an answer is named by its applicant and question. The position of a row in
  its table stands for nothing; queries without an order return rows in table order.
- Failures of unique keys between the single statements of `selectRoles`: they appear as `dbAccepts`.
- Edits of roles, questions and settings during a recruitment: they do not rebook, so runs keep the configuration fixed;
  settings have runs of their own.
- `createApplicant` inserts an applicant unless it finds one, and the remaining queries read joined rows and rename their
  columns: neither takes part in a property that spans requests.
- Dates are numbers of milliseconds, and an invalid date occurs only where a reference id is read back; durations across a
  change to summer time and numbers beyond 2^53 are not modelled. `parseInt` is modelled on texts without surrounding white space
  or sign, `toUuid` on hexadecimal texts.
- `toUuidV7`, the binary form of upload rules and the expiry of cookies are no part of this model.
- RecruitRun.BookingsAreComplete: every request of a run passes the check of `StepKeepsSettled`, which exactly the requests
  do that keep the property (`RunsStaySettled`).
- RefreshTokenRuns.ExclusiveRunsAreChained: all readings of the clock, those of the database included, are in order.
- RefreshTokenRuns.RunsKeepKinds: the rows are stamped at most a minute after their expiry was computed and not a month
  before; `ReplacementKeepsKind` says exactly which kinds are confused otherwise.
- GalleryPhotoRun.RunsKeepOnePerFile: `resetApprovals` is not an event of the runs, since it overrides rejections on
  purpose; `ResetKeepsOne` says when it keeps the property.
- GalleryPhotoRun.GalleryPhotoService.UploadFile: the directory that `path.join` normalises comes with the file.
- TeamOrder.GetYearMembers: any stable sort gives the same result; the comparisons a particular engine makes are not modelled.
