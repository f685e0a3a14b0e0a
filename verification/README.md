# Verification of the amiss controller

A Dafny model of the controller's durable state machines and of the exact
algorithms around them, with proofs about every run, every crash point and every
input. `dafny verify dfyconfig.toml` checks the whole project.

## What is modelled

| files | part of the controller |
|---|---|
| `Foundation.dfy`, `Json.dfy` | machine integers, byte strings, stable sorting, map totals, canonical JSON and base64 spelling |
| `InboxLimits.dfy`, `Deliveries.dfy`, `InboxRecord.dfy`, `Inbox.dfy`, `InboxRuns.dfy` | the durable inbox: size reservation, normalization, leased rows, whole runs |
| `Worker.dfy` | the single worker that drains the inbox |
| `Frame.dfy`, `Binding.dfy`, `Matching.dfy` | the frame codec, the request-binding preimage, the wildcard and ref-span matchers |
| `LedgerModel.dfy`, `LedgerDisk.dfy`, `Ledger.dfy`, `LedgerRuns.dfy` | the file ledger: claim, renew, stage, complete and cleanup, cut off at any write, by any owners |
| `Ingress.dfy` | both ingress gates, the replay window, and their composition with the ledger |
| `ArtifactModel.dfy`, `ArtifactDisk.dfy`, `ArtifactProtocol.dfy`, `Artifacts.dfy`, `ArtifactRuns.dfy` | the artifact store: indexes, clock, poison flag, payload files, temporary directories, openings |
| `Mdbook.dfy` | published pages and what the navigation reaches |
| `Relations.dfy` | the relation registry and its trigger index |

Objects the source updates in place are classes (`Inbox`, `DeliveryWorker`,
`LedgerRoot`, `FileLedger`, `FileArtifactStore`); each method is proved to make a
step of a transition relation (`Step`), and the run theorems quantify over every
sequence of such steps. Durable writes are atomic: `writes` (or `diskOk`) says how
many succeed, so a method's contract holds for a write failing at any point, which
is also what a crash at that point leaves on disk.

## Where a promise does not hold as written

- Inbox tokens are unique within one stored lifetime of a row, not across
  lifetimes: `InboxRuns.TokenRecursAcrossLifetimes` builds the repeat for every
  delivery and reading, `InboxRuns.EarlierTokenAcceptedIffSame` and
  `InboxRuns.FirstTokensCoincide` give the exact conditions.
- An artifact configuration may carry a retention below one millisecond; records
  made under it are expired at birth. `ArtifactDriver.AcceptedRetentionBornExpired`
  drives a store to it for every report and reading,
  `ArtifactRuns.RetainedIsLiveIffMillisecond` gives the exact condition.
- The artifact store's mark in memory can fall at an opening.
  `ArtifactDriver.MarkFallsAfterFailedSave` drives a store to it on every tidy root;
  `ArtifactRuns.OpeningLowersMarkIff` says that it takes a failed save and a clock
  behind it, and `ArtifactRuns.TrustedMarkIsKept` that no trusted mark is lost.
- An artifact root whose every record is whole can be refused as corrupt, because
  an opening saves the mark before it scans and a crash there leaves a temporary
  directory. `ArtifactDriver.CutOpeningsOverfill` refuses a full root after two
  such openings; `ArtifactService.FileArtifactStore.Reopen` gives the exact
  condition, `ArtifactRuns.CorruptOnlyAfterFailedOpening` shows that cut-off calls
  alone never cause it.
- After a ledger cleanup is cut off between its two counter writes, admission
  answers Corrupt until cleanup runs again:
  `LedgerService.CutCleanupBlocksAdmission` reaches such a root,
  `LedgerService.LedgerRoot.SaveNew` states the answer for every one and
  `LedgerModel.ReconcileIsExact` shows that the next cleanup repairs it.
- The ledger interface describes every reclaim as advancing the fence. An owner
  that claims its own live row again keeps its lease:
  `LedgerService.OwnClaimKeepsTheFence` is such a claim and
  `LedgerRuns.FenceAdvancesIffExpired` gives the exact condition.

## Model

| member | source | states |
|---|---|---|
| `InboxLimits.ReadAcceptsExactly` | controller/service/src/limits.rs:44-87 | the checked arithmetic accepts exactly the limits within their ceilings whose exact reservation fits one record and fits the root twice, and stores them unchanged |
| `InboxLimits.ReservationIsExact` | controller/service/src/limits.rs:135-155 | a checked reservation is exactly the unbounded formula, and one exists whenever the formula stays 65536 below the 64-bit limit |
| `Deliveries.ValidateHeaders` | controller/service/src/delivery.rs:173-197 | the checked loop over headers accepts exactly the header lists whose every header is well formed and whose total bytes are within the limits |
| `Deliveries.NormalizedIsValid` | controller/service/src/delivery.rs:122-154 | a delivery that normalizes always passes the stored-delivery validator under the same limits |
| `Deliveries.ValidIffNormalized` | controller/service/src/delivery.rs:198-222 | the validator accepts exactly the fixed points of normalization |
| `Deliveries.NormalizesExactly` | controller/service/src/delivery.rs:122-197 | a delivery is accepted if and only if its labels are visible characters, its headers are RFC 9110 field lines without NUL, CR or LF, and every ceiling holds; the stored headers are the lowered ones in order |
| `Deliveries.LowersByAlphabet` | controller/service/src/delivery.rs:122-154 | lowering maps the upper alphabet onto the lower one letter by letter and leaves every other byte alone |
| `Deliveries.KeysAgreeIffSameSource` | controller/service/src/delivery.rs:106-111 | two sources share a row key if and only if route and source id are the same, unless their key preimages collide under the hash |
| `Deliveries.ContentDetermined` | controller/service/src/delivery.rs:80-92 | the bytes the content digest hashes determine route, source, body and the whole header list |
| `Deliveries.DigestCapturesContent` | controller/service/src/delivery.rs:80-154 | two deliveries hash the same content bytes if and only if they differ at most in header order, header-name case and receipt time |
| `InboxRecord.NewRecordIsValid` | controller/service/src/record.rs:53-100 | the row made for any normalized delivery passes row validation under its own key |
| `InboxRecord.RowFitsReservation` | controller/service/src/limits.rs:135-155 | every valid row, in every state, encodes (JSON escapes, base64, counters, frame header) into at most the reservation |
| `InboxRecord.RowDetermined` | controller/service/src/record.rs:15-42 | the bytes of a stored row are those of one record only: every field, counter, header and state is read back uniquely |
| `InboxProtocol.StepKeepsValid` | controller/service/src/inbox.rs:116-250 | every call of any outcome leaves every stored row valid, and rows and bytes within the configured ceilings |
| `InboxProtocol.BytesWithinReservations` | controller/service/src/store.rs:110-147 | stored bytes never exceed rows times the reservation |
| `InboxService.Inbox.Scan` | controller/service/src/store/entries.rs:24-97 | reading the root answers the exact byte total if and only if every row is sound and both ceilings hold |
| `InboxService.ScansExactly` | controller/service/src/store/entries.rs:24-97 | a root is accepted if and only if each row agrees with its key, field by field, and fits its reservation, and both ceilings hold |
| `InboxService.KeysExactly` | controller/service/src/store.rs:261-270 | a row key is accepted if and only if it is sixty-four lower-case hexadecimal characters |
| `InboxRecord.ValidatesExactly` | controller/service/src/record.rs:69-100 | a stored row validates if and only if its counters, labels, state, owner, payload and digest agree, stated on the fields alone |
| `InboxRecord.RowBytesIsTheFrame` | controller/src/frame.rs:37-66 | the size a row is charged is the length of the frame it is written as |
| `InboxService.Inbox.Open` | controller/service/src/store.rs:55-84 | a root is opened under a new owner if and only if every row is sound and both ceilings hold; the rows of any earlier opening, whoever owned it, always are |
| `InboxService.Inbox.Save` | controller/service/src/store.rs:110-139 | a row is written exactly when it fits its reservation and the root with a spare copy; otherwise nothing changes |
| `InboxService.Inbox.ReserveTransition` | controller/service/src/store.rs:140-148 | admission asks for one spare reservation beside every stored row |
| `InboxService.Inbox.EnqueueDelivery` | controller/service/src/inbox.rs:116-143 | a delivery is stored normalized once per source, reported as duplicate or conflict by content, refused as full only at capacity; without a disk failure it never reports one |
| `InboxRuns.NewSourceIsStored` | controller/service/src/inbox.rs:116-143 | unless named key preimages collide, a well-formed delivery is a repeat if and only if a stored row carries its route and source id; one that no row carries is stored as a fresh, immediately ready row unless the inbox is at capacity |
| `InboxService.Inbox.Select` | controller/service/src/inbox.rs:144-184 | the loop selects the least ready key, or else the exact minimum ready time of all rows |
| `InboxService.Inbox.ClaimNext` | controller/service/src/inbox.rs:144-184 | a claim hands out the stored delivery of the least ready key under a new lease, or answers when one becomes ready; every other row is untouched |
| `InboxService.Inbox.RenewLease` | controller/service/src/inbox.rs:185-205 | renewal succeeds exactly for the live token and moves only its row; any other token is lost |
| `InboxService.Inbox.RetryLater` | controller/service/src/inbox.rs:206-232 | a retry returns exactly the live token's row to pending at the requested time |
| `InboxService.Inbox.CompleteRow` | controller/service/src/inbox.rs:233-250 | completion removes exactly the live token's row |
| `InboxRuns.RunStaysValid` | controller/service/src/store.rs:54-148 | every state of every run is valid, whatever calls, clock readings and write failures it holds and however often the inbox is opened under a new owner |
| `InboxRuns.NeverFullOnceStored` | controller/service/src/store.rs:85-147 | in every reachable state, across openings, bytes stay within rows times the reservation with one reservation to spare, and only an admission at capacity is ever answered Full |
| `InboxRuns.EmptyInboxAdmits` | controller/service/src/store.rs:85-147 | an empty inbox under accepted limits admits every delivery that normalizes |
| `InboxRuns.RepeatIsDuplicateIffSameContent` | controller/service/src/inbox.rs:116-143 | repeating a source is a duplicate if its content is the same and a conflict if it differs, unless the two contents collide under the hash |
| `InboxRuns.RowHistory` | controller/service/src/record.rs:113-201 | between any two moments of one stored lifetime, openings included, the generation grew by exactly the moves in between, the fence never fell and the delivery is unchanged |
| `InboxRuns.TokenLiveIffLatest` | controller/service/src/record.rs:153-201 | within one lifetime, openings included, a token matches its row if and only if nothing moved the row since it was issued |
| `InboxRuns.SupersededTokenIsLost` | controller/service/src/inbox.rs:185-250 | every older token of the lifetime, whichever opening issued it, is answered Lost by renew, complete and every retry that does not ask for a time already past |
| `InboxRuns.StoredDeliveryIsKept` | controller/service/src/inbox.rs:116-250 | from storing to completion, across openings, every claim of the row returns exactly the normalized delivery, and the row leaves only by a completion |
| `InboxRuns.TokenRecursAcrossLifetimes` | controller/service/src/record.rs:113-201 | for every delivery and reading: store, claim, complete, store and claim again at the same reading issues the very same token, so tokens are not unique across lifetimes |
| `InboxRuns.EarlierTokenAcceptedIffSame` | controller/service/src/record.rs:153-201 | whatever lifetime a token comes from, it is accepted if and only if it equals the latest lease in all but the attempt number and that lease has not ended; a lease with a later fresh expiry rules it out |
| `InboxRuns.FirstTokensCoincide` | controller/service/src/record.rs:113-152 | the first claims of two lifetimes issue the same token if and only if they were made by the same opening's owner at the same clock reading |
| `Worker.BackoffDoubles` | controller/service/src/worker.rs:495-498 | for every accepted pair of durations backoff starts at the minimum, doubles per attempt up to sixteen times and stays within both bounds |
| `Worker.DelayIsTruncated` | controller/service/src/worker.rs:524-529 | a delay added to the clock loses less than a millisecond |
| `Worker.RenewalComesBeforeExpiry` | controller/service/src/worker.rs:500-511 | a renewal waits half of what is left of the lease, at least one millisecond and at most five seconds; a wait that ends on time ends before the lease if and only if at least two milliseconds are left |
| `Worker.RenewalOfCurrent` | controller/service/src/worker.rs:339-406 | renewing the current token yields the new current token, one generation on and until one lease from the reading at least; it is lost only at or after its expiry, and fails only for the disk, an overflow or a spent generation |
| `Worker.CompletionOfCurrent` | controller/service/src/worker.rs:425-440 | completing the current token is lost if and only if the reading reached its expiry |
| `Worker.RetryOfCurrent` | controller/service/src/worker.rs:407-440 | retrying the current token is lost if and only if the reading reached its expiry; else it puts exactly its row back to pending at the requested time |
| `Worker.DeliveryWorker.Handle` | controller/service/src/worker.rs:339-406 | every tick is the inbox call it stands for, renewals always of the current token; the token returned is the stored one, and each failure names the elapsed wait that caused it |
| `Worker.DeliveryWorker.Settle` | controller/service/src/worker.rs:288-325 | Stopped if and only if the decision is fatal, ClockFailed if and only if a reading is negative or the backoff overflows, LeaseLost if and only if a readable settlement reaches the expiry; otherwise finishing removes exactly the row and a retry schedules exactly it at the exact time |
| `Worker.DeliveryWorker.Process` | controller/service/src/worker.rs:288-325 | what was handled decides the settlement: settled or not admitted removes the row, in progress and transient schedule it at the exact time, untrusted alone stops the worker, and with a healthy disk, clock and live token nothing fails; LeaseLost never means that somebody else holds the row |
| `Worker.DeliveryWorker.WorkOnce` | controller/service/src/worker.rs:226-271 | one round claims at most one row, leaves it removed exactly when it was settled or not admitted, and fails only for the causes of claiming, handling and settling |
| `Frame.Encode` | controller/src/frame.rs:37-73 | the step-by-step encoder builds exactly the frame of header, length, digest and payload, within the ceiling, or reports the error |
| `Frame.DecodeOfEncode` | controller/src/frame.rs:37-107 | decoding an encoded value returns that value |
| `Frame.EncodeOfDecode` | controller/src/frame.rs:74-107 | any frame that decodes re-encodes to exactly the same bytes |
| `Frame.TornFrameIsRefused` | controller/src/frame.rs:74-107 | a frame cut short or extended by anything is refused |
| `Frame.AlteredPayloadIsRefused` | controller/src/frame.rs:74-107 | a frame whose payload was changed under the same header is refused, unless the digested bytes collide |
| `Frame.ForeignFrameIsRefused` | controller/src/frame.rs:74-107 | a frame written under one domain is refused under another of the same magic and length, unless the digested bytes collide |
| `Binding.Feed` | controller/src/ingress/binding.rs:13-60 | the loop feeds the hash the domain and then exactly the length-prefixed preimage, or nothing when a length does not fit |
| `Binding.PreimageInjective` | controller/src/ingress/binding.rs:13-60 | two deliveries that feed the same bytes are equal in provider, trust set, signed-time policy, receipt time, headers in order, and body |
| `Binding.FitsExactly` | controller/src/ingress/binding.rs:57-60 | a length is fed if and only if its eight bytes read back as that length |
| `Wildcard.WildcardMatches` | controller/gitlab/src/snapshot.rs:228-261 | the greedy loop answers true if and only if each star can stand for some possibly empty run, for all patterns and values |
| `Wildcard.MatchesIffFits` | controller/gitlab/src/snapshot.rs:228-261 | the recursive meaning of a pattern agrees with placing its literal parts in order |
| `Wildcard.GreedyFits` | controller/gitlab/src/snapshot.rs:228-261 | taking the first occurrence of a part never loses a placement |
| `Spelling.RefSpan` | controller/src/spelling.rs:30-40 | the answer is k if and only if the first k segments joined by a slash equal the candidate, and k is unique |
| `LedgerModel.StoredRoundTrip` | controller/src/file_ledger/format/publication.rs:33-95 | a publication and its stored form with report file determine each other |
| `LedgerModel.ReconcileIsExact` | controller/src/file_ledger/store/cleanup.rs:45-79 | whatever write was cut off, a full read of the root always repairs the counter to the number of record files |
| `LedgerModel.SettleIsExact` | controller/src/file_ledger/store.rs:207-229 | settling a pending admission by looking for its file makes the counter exact |
| `LedgerModel.AdmissionCounts` | controller/src/file_ledger/store/capacity.rs:45-117 | reserve, write and settle each leave a counter that still accounts for the files, and reserve refuses exactly a full root |
| `LedgerDisk.RecordCreated` | controller/src/file_ledger/store.rs:94-110 | writing a reserved record keeps the whole root sound |
| `LedgerDisk.RecordRemoved` | controller/src/file_ledger/store/cleanup.rs:187-203 | removing a record file during a marked cleanup keeps the whole root sound |
| `LedgerDisk.ReportWritten` | controller/src/file_ledger/transitions/stage.rs:35-43 | report files can change without breaking any staged row that reads one |
| `LedgerDisk.OnlyRowIsNext` | controller/src/file_ledger/transitions.rs:14-211 | a call that moves at most its own row moves every row only along its life |
| `LedgerService.LedgerRoot.ObserveClock` | controller/src/file_ledger/store.rs:112-131 | the stored high-water mark becomes the maximum of itself and the reading and never falls |
| `LedgerService.LedgerRoot.RecoverCapacity` | controller/src/file_ledger/store.rs:207-229 | the next admission's recovery makes the counter exact unless a cleanup was cut off |
| `LedgerService.LedgerRoot.SaveNew` | controller/src/file_ledger/store.rs:94-110 | whichever of the three writes is cut off the root stays sound; success adds exactly the record and an exact counter, Full means the maximum is reached, Io that too few writes were left, and while a cut-off cleanup is pending the answer is Corrupt |
| `LedgerService.LedgerRoot.Cleanup` | controller/src/file_ledger/store/cleanup.rs:17-43 | cleanup removes exactly the completed rows past their replay end and exactly the unread reports, counts them, and keeps the root sound when cut off |
| `LedgerService.CleanupIsDecided` | controller/src/file_ledger/store/cleanup.rs:17-43 | on the fields: a row goes if and only if it is completed and its replay end is before the clock, a report stays if and only if a staged publication names one |
| `LedgerService.LedgerRoot.RemoveExpired` | controller/src/file_ledger/store/cleanup.rs:160-217 | expired completed records go one file at a time between the two counter writes; it fails exactly when the writes run out before the second, and then leaves the cleanup pending if the first succeeded |
| `LedgerService.CutCleanupBlocksAdmission` | controller/src/file_ledger/store/cleanup.rs:160-217 | under every valid configuration, one expired marker and a cleanup cut off between its counter writes: the next admission is answered Corrupt |
| `LedgerService.FileLedger.Claim` | controller/src/file_ledger/transitions.rs:14-52 | each answer says what the row was and is, at the clock's last reading: new under the first fence, reclaimed under the next, the caller's own live lease unchanged, frozen publication, busy, duplicate, conflict or expired; Io only with fewer writes than this row's path takes, Corrupt only for the record this call would write; no lease is granted on an unreadable clock or past the last representable time |
| `LedgerService.ConfigurationIffOtherWindow` | controller/src/file_ledger/store.rs:49-55 | a call is answered Configuration if and only if its delivery is bounded under another replay window than the root's, and then nothing changes |
| `LedgerService.ClaimIsDecided` | controller/src/file_ledger/transitions.rs:14-52 | with a readable clock, enough writes and a writable record, the whole answer of a claim, with every field of its lease or publication, is a function of the row's fields and the time |
| `LedgerService.FileLedger.StartRunning` | controller/src/file_ledger/transitions/claim.rs:68-92 | an expired or legacy row is reclaimed under the next fence until exactly one lease from now; it fails only on the one write, a clock overflow or an unwritable record |
| `LedgerService.FileLedger.Renew` | controller/src/file_ledger/transitions.rs:54-100 | renewal extends the unexpired lease of this owner to the later of its end and one lease from now; Io only with fewer than two writes, or one without a clock save |
| `LedgerService.RenewalIsDecided` | controller/src/file_ledger/transitions.rs:54-100 | when nothing outside it fails a renewal answers the same lease until the later of its end and one lease from now if and only if the row's fields are exactly this owner's unexpired lease, and Lost otherwise |
| `LedgerService.FileLedger.Stage` | controller/src/file_ledger/transitions.rs:102-129 | staging freezes the exact publication under the live lease, or repeats one already frozen; otherwise the row is untouched, and each failure has its cause in the disk's writes, the clock, the publication or the row |
| `LedgerService.StagingIsDecided` | controller/src/file_ledger/transitions.rs:102-129 | when nothing outside it fails staging answers exactly the staged value if and only if this owner holds the lease and the verdict names the row's evaluation, run, change, candidate and check, or the same value is already frozen; Lost otherwise |
| `LedgerService.FileLedger.StageRunning` | controller/src/file_ledger/transitions/stage.rs:8-49 | a running row is frozen to exactly this publication only under its owner's live lease, and left running otherwise |
| `LedgerService.FileLedger.Freeze` | controller/src/file_ledger/transitions/stage.rs:35-49 | a cut-off freeze leaves the row running, never a staged row whose report cannot be read |
| `LedgerService.FileLedger.Complete` | controller/src/file_ledger/transitions.rs:131-192 | completion accepts exactly the staged value, or its repeat, and leaves its digest; each failure has its cause in the disk's writes, the clock or the row |
| `LedgerService.CompletionIsDecided` | controller/src/file_ledger/transitions.rs:131-192 | when nothing outside it fails completion succeeds if and only if the row holds exactly the staged value or its digest, and is Lost otherwise |
| `LedgerRuns.RowGrowsOrIsGone` | controller/src/file_ledger/transitions.rs:14-211 | over any run a delivery's row keeps its binding, check and evaluation id, its generation and fence never fall, and once removed the same delivery never has a row again |
| `LedgerRuns.SupersededLeaseIsLost` | controller/src/file_ledger/transitions.rs:54-129 | after a later grant the earlier lease never renews and stages at most a repeat; a grant to another owner came after the trusted clock reached the earlier lease's end |
| `LedgerRuns.FenceAdvancesIffExpired` | controller/src/file_ledger/transitions/claim.rs:35-92 | an executing claim of a running row advances the fence if and only if the trusted clock reached the row's end, and then by exactly one |
| `LedgerService.OwnClaimKeepsTheFence` | controller/src/file_ledger/transitions/claim.rs:35-66 | under every valid configuration, driven on a root with one live row: its owner's claim is handed the same lease under the same fence |
| `LedgerRuns.OnePublicationPerDelivery` | controller/src/file_ledger/transitions.rs:14-211 | a publication once staged, published or completed is the only one ever staged, published or completed for that delivery, and no later claim executes it again or answers Busy |
| `LedgerRuns.PublicationNamesItsDelivery` | controller/src/file_ledger/transitions.rs:102-192 | whatever a run freezes, publishes or completes names the delivery's own run, change, object format, candidate and check |
| `LedgerRuns.CompletedNeverRunsAgain` | controller/src/file_ledger/transitions.rs:14-52 | after an acknowledged completion no claim of the delivery executes or publishes, across cleanup too; until the replay end the marker is unchanged and claims are told Duplicate |
| `LedgerRuns.CompletedIsAbsorbing` | controller/src/file_ledger/transitions.rs:54-192 | after a completion renew and stage are lost, and completing again succeeds only for the identical staged value |
| `LedgerRuns.RecordsWithinMaximum` | controller/src/file_ledger/store.rs:94-110 | a sound root never holds more records than configured |
| `Ingress.Accepts` | controller/src/ingress/policy.rs:49-62 | the checked header sum refuses exactly what the unbounded sum would |
| `Ingress.AcceptedWithinKeep` | controller/src/ingress/policy.rs:92-177 | every delivery both gates accept is inside its replay life, for every queue age, signed age and skew; the replay end depends only on the signing time and the window |
| `Ingress.AdmitsExactly` | controller/src/ingress/policy.rs:86-213 | both gates together accept if and only if the request is within the ceilings, received and signed in time, bound to its proof and of its route, and its replay end is a machine time |
| `Ingress.AdmittedIsVerified` | controller/src/ingress/policy.rs:223-268 | an admitted delivery carries the verified provider, integration, change and run, and the assigned identity or the exact body |
| `Ingress.KeysAgreeIffSameReplay` | controller/src/ingress/policy.rs:223-268 | two admitted deliveries get the same ledger key if and only if provider, integration and replay identity agree |
| `Ingress.KeepIsTight` | controller/src/ingress/policy.rs:240-257 | the latest acceptable replay is accepted exactly at the replay end, so no shorter one would do |
| `Ingress.ReplayIsTheSameDelivery` | controller/src/ingress/policy.rs:223-268 | accepting the same authenticated delivery again gives the ledger the same value, whenever and however it arrives |
| `Ingress.ProofBindsItsRequest` | controller/src/ingress/policy.rs:137-153 | a proof made for one request is accepted for that request only, unless the two requests collide under the hash |
| `Replays.AcceptedReplayNeverRunsAgain` | controller/src/ingress/policy.rs:92-177 | a completed delivery is never executed or published again for any replay ingress accepts; when the ledger clock is not ahead of the admitting reading it is recognised as duplicate |
| `Replays.AdmittedWindowIsTheRoots` | controller/src/file_ledger/store.rs:49-55 | under one replay window for both, no ledger call about an admitted delivery answers Configuration |
| `Replays.AdmittedClaimIsDecided` | controller/src/file_ledger/transitions.rs:14-52 | the claim of an admitted delivery is decided by row and time unless clock, disk, nonce or a record too large hinder it; its shape never does |
| `ArtifactModel.LocatorRoundTrip` | controller/src/artifacts.rs:156-166 | a locator splits into a base and identifier if and only if it was spelled from them |
| `ArtifactModel.ReferenceNeverFails` | controller/src/artifacts/format.rs:227-242 | making the reference of a validated record under a validated configuration cannot fail |
| `ArtifactDisk.MetaWritten` | controller/src/artifacts/store/disk.rs:76-98 | adding the metadata of an admissible record whose payloads are written keeps the root acceptable |
| `ArtifactDisk.MetaRemoved` | controller/src/artifacts/store/disk.rs:260-265 | removing metadata first keeps the root acceptable |
| `ArtifactDisk.TidyEntries` | controller/src/artifacts/store/disk.rs:105-116 | a sound root without orphans has at most six entries to a record, its lock and its state, so a scan always has one entry to spare |
| `ArtifactDisk.FillingEntries` | controller/src/artifacts/store/disk.rs:76-98 | a root into which an admissible record is half written, with one leftover temporary directory, is still within the scan's ceiling |
| `ArtifactService.IndexesWith` | controller/src/artifacts/store.rs:296-311 | the counter and both maps stay inverse and exact when a record is entered |
| `ArtifactService.IndexesWithout` | controller/src/artifacts/store.rs:481-489 | the counter and both maps stay inverse and exact when a record is dropped |
| `ArtifactService.FileArtifactStore.AdvanceClock` | controller/src/artifacts/store.rs:442-452 | the mark is raised in memory and on disk, or, exactly when its one save fails, the store is poisoned; either way the root stays within the scan's ceiling |
| `ArtifactService.FileArtifactStore.RemoveExpired` | controller/src/artifacts/store.rs:454-500 | exactly the expired records go, with exactly their bytes; it poisons the store only when the clock's save failed or something is left to remove, never with as many writes as the root has entries, and loses nothing that has not ended |
| `ArtifactService.FileArtifactStore.Fits` | controller/src/artifacts/store.rs:265-290 | the size and capacity checks accept exactly an admissible record, and Full names the exhausted capacity |
| `ArtifactService.FileArtifactStore.Measure` | controller/src/artifacts/store.rs:270-277 | the checked sum is the exact size of the record unless it overflows |
| `ArtifactService.FileArtifactStore.WriteRecord` | controller/src/artifacts/store/disk.rs:76-98 | payloads first and metadata last: a write cut off anywhere leaves no record behind and a root within the scan's ceiling |
| `ArtifactService.FileArtifactStore.RetainRecord` | controller/src/artifacts/store.rs:243-312 | retaining returns the live record of the evaluation or one made now, refuses rebound content as conflict, and poisons the store only with fewer writes than the root's entries and the payloads may take |
| `ArtifactService.FileArtifactStore.Retain` | controller/src/artifacts/store.rs:71-87 | a retained reference carries the digests of the bundle's report, semantic evidence and assessment, its tally and flag, the locator under the base, and ends one retention after its creation, unless two identities collide under the hash; six more writes than the root has entries never poison the store |
| `ArtifactService.BundlesTakenExactly` | controller/src/artifacts/store.rs:518-542 | a bundle is taken if and only if its assessment and tally come together with plan and evidence and not incomplete, its semantic evidence checks out, and each part is neither empty nor too large |
| `ArtifactService.TakenBundleMakesRecord` | controller/src/artifacts/format.rs:127-226 | a taken bundle makes a valid record if and only if its end is a machine time and its semantic evidence fits |
| `ArtifactService.FileArtifactStore.Verify` | controller/src/artifacts/store.rs:319-338 | a reference verifies exactly when it is that of a live stored record; the store stays trusted with as many writes as the root has entries |
| `ArtifactService.FileArtifactStore.Find` | controller/src/artifacts/store.rs:381-395 | finding answers the evaluation's live reference if and only if one is stored; the store stays trusted with as many writes as the root has entries |
| `ArtifactService.FileArtifactStore.Read` | controller/src/artifacts/store.rs:402-420 | a component a live record names is always read back with its recorded length and digest; the store stays trusted with as many writes as the root has entries |
| `ArtifactService.FileArtifactStore.Cleanup` | controller/src/artifacts/store.rs:427-432 | cleanup reports exactly the records and bytes it released |
| `ArtifactService.FileArtifactStore.Scan` | controller/src/artifacts/store/disk.rs:100-203 | with writes to remove leftovers the scan accepts exactly a sound root of at most six entries to a record and three more; it then leaves no temporary directory and no orphan, and rebuilds exact indexes and counter |
| `ArtifactService.FileArtifactStore.Reopen` | controller/src/artifacts/store/disk.rs:27-73 | a sound root within the ceiling opens whenever the clock is readable and the writes exceed its entries, and one at rest without any write; a damaged or overfull one is answered Corrupt; an opened root keeps exactly the records unexpired at its second clock reading, and a cut-off opening loses nothing |
| `ArtifactModel.InputsValidateExactly` | controller/src/artifacts/format.rs:160-224 | a record validates if and only if each stored component is within its own byte limit, all beside the report belong to the external chain or to one audit, an assessment comes with plan, evidence and tally and is never incomplete, and an audit without evidence is unproven |
| `ArtifactDriver.OpenStore` | controller/src/artifacts/store.rs:503-512 | opening is refused for the configuration if and only if the base, the retention or a limit is out of its numeric range, and then nothing is touched; an accepted configuration opens a sound root whenever clock, writes and ceiling allow |
| `ArtifactRuns.ClockNeverFalls` | controller/src/artifacts/store.rs:438-452 | between two openings the high-water mark in memory never falls |
| `ArtifactRuns.SavedMarkNeverFalls` | controller/src/artifacts/store/disk.rs:58-62 | the saved mark never falls, through failed writes and any openings |
| `ArtifactRuns.TrustedMarkIsKept` | controller/src/artifacts/store.rs:442-452 | no mark the store ever trusted is lost again, whatever openings follow |
| `ArtifactRuns.OpeningLowersMarkIff` | controller/src/artifacts/store/disk.rs:57-72 | an opening lowers the mark in memory if and only if its last save had failed and the clock has fallen behind it, where which reading counts is decided by the records stored before |
| `ArtifactDriver.MarkFallsAfterFailedSave` | controller/src/artifacts/store.rs:442-452 | driven on every tidy root whose records have not ended: a sweep whose save fails, then an opening under the earlier clock, and the mark falls |
| `ArtifactRuns.PoisonIsPermanent` | controller/src/artifacts/store.rs:514-516 | after a failed durable write nothing succeeds and nothing changes until the next opening |
| `ArtifactRuns.EntriesAreBounded` | controller/src/artifacts/store/disk.rs:105-116 | once trusted, a root exceeds the scan's ceiling by at most one entry for each opening that failed since |
| `ArtifactRuns.CorruptOnlyAfterFailedOpening` | controller/src/artifacts/store/disk.rs:27-73 | a root once trusted is found corrupt only after an opening that failed in between, however calls were cut off |
| `ArtifactDriver.CutOpeningsOverfill` | controller/src/artifacts/store/disk.rs:57-63 | for every accepted base, on a full root two openings cut off while saving the mark make the third answer Corrupt, although every record is whole |
| `ArtifactRuns.LookupsAreLive` | controller/src/artifacts/store.rs:319-420 | find, verify and read speak only of records that outlive the effective time, even after a rollback |
| `ArtifactRuns.RetainedIsLiveIffMillisecond` | controller/src/artifacts/format.rs:127-158 | in every state of every run a retained reference outlives the effective time if and only if the configured retention is at least one millisecond |
| `ArtifactDriver.AcceptedRetentionBornExpired` | controller/src/artifacts/store.rs:503-512 | a retention of one nanosecond is accepted, and for every report, evaluation and reading a fresh store answers the retain with a reference already past its end |
| `ArtifactRuns.RetainedReferenceIsStable` | controller/src/artifacts/store.rs:243-312 | until its end, across any failures and openings, a retained reference is found by every find that reads the clock and meets no failed write, returned by every repeat of its retain, and never a conflict |
| `ArtifactRuns.RecordIsKept` | controller/src/artifacts/store.rs:454-500 | a stored record stays unchanged until the saved mark reaches its end, through poisoned stores and openings |
| `ArtifactDriver.Drive` | controller/src/artifacts/store.rs:243-432 | any list of requests and openings served by the store, under any readings and failures, is a run in which every state is sound |
| `Mdbook.Pages` | controller/src/mdbook/context.rs:102-169 | the explicit stack visits the items in exactly document order |
| `Mdbook.CollectIsExact` | controller/src/mdbook/context.rs:114-181 | the walk succeeds if and only if no chapter is broken, no route repeats and the index is free, and then the rows are exactly the published pages and the index, which stands for the first published page |
| `Mdbook.Destinations` | controller/src/mdbook/html.rs:79-98 | a page's links are exactly its on-site targets that are pages, each once and in order |
| `Mdbook.CollectLinks` | controller/src/mdbook.rs:176-238 | every row gets its links entry and no link leaves the rows; it fails if and only if an output is missing or unreadable or the bytes, anchors or links of all pages exceed their limits, and the error names which |
| `Mdbook.Reach` | controller/src/mdbook/html.rs:105-113 | the worklist terminates with exactly the routes some trail of links leads to |
| `Mdbook.ReachableSources` | controller/src/mdbook/html.rs:100-120 | the answer is exactly the sources of reachable pages, in order; a navigation error if and only if something reachable has no links or page |
| `Mdbook.BuiltNavigationIsWhole` | controller/src/mdbook/html.rs:100-120 | on built rows and links everything reachable has both |
| `Mdbook.Navigate` | controller/src/mdbook.rs:176-238 | once pages and links are built the sources always are |
| `Relations.Register` | controller/src/relations.rs:107-182 | the registry accepts exactly the plans that are valid, distinct, consistent in credentials and unique in destinations, and freezes exactly what they say |
| `Relations.NormalizeAll` | controller/src/relations.rs:113-119 | every plan is put in role order and validated, or the error of the first invalid one is reported |
| `Relations.ValidatesExactly` | controller/src/relation_plan.rs:72-135 | a plan is valid if and only if its roles and repositories differ, every shared ceiling lies between its shares and their sum, both sources are selected and one or two destinations name distinct roles of its own |
| `Relations.NormalizingReorders` | controller/src/relations.rs:113-119 | normalizing keeps the same subjects and destinations and puts both in role order |
| `Relations.IdentitiesDiffer` | controller/src/relations.rs:120-126 | comparing neighbours of the sorted plans finds every repeated identity |
| `Relations.Allocate` | controller/src/relations.rs:127-156 | the two loops succeed if and only if no credential has two authorities and no destination two owners |
| `Relations.BuildTriggers` | controller/src/relations.rs:162-176 | for every trigger the index holds exactly what a scan over all plans finds, in the same order |
| `Relations.ScanFinds` | controller/src/relations.rs:184-211 | the scan finds exactly the subjects with that scope and object format |
| `Relations.ScanAscends` | controller/src/relations.rs:184-211 | the scan lists relations strictly by identity, so each at most once |
| `Relations.LookupIsScan` | controller/src/relations.rs:192-211 | for every accepted registry and consistent delivery the lookup answers exactly the relations with a subject in the delivery's provider, integration, repository and object format, each once, strictly by identity |
| `Relations.LookupAnswersIff` | controller/src/relations.rs:192-211 | a lookup answers if and only if the delivery agrees with itself about provider and object format |
| `Relations.AcceptedOwnership` | controller/src/relations.rs:127-156 | in an accepted registry a credential answers for one authority and a repository's status for one relation |
| `Relations.StatusHasOneOwner` | controller/src/relations.rs:127-156 | in an accepted registry one status name of one repository of one provider belongs to a single destination of a single relation |
| `Relations.FrozenSubjectsAlign` | controller/src/relation_plan.rs:169-205 | a frozen transition holds both snapshots, each beside its own subject and in that subject's object format |
| `Relations.FreezesExactly` | controller/src/relation_plan.rs:169-205 | a transition is frozen if and only if each of the two subjects has its snapshot, all four objects in that subject's format |

## Left out

- File locks and symbolic-link checks: a call is one atomic step per row, so interleavings of two calls inside one another on the same root are not modelled.
- Temporary directories are modelled in the artifact store only: the inbox removes its own before every write, so at most one is ever left, and the ledger puts no limit on them. On a damaged artifact root whose leftovers cannot be removed the answer may be Corrupt or Io; the code reads the metadata before it removes them and the payloads after.
- Creating a new artifact root: a store starts from a root that exists, sound or not.
- Opening a ledger root: the range checks of its lease duration and record count and the comparison with the saved configuration, there and at each clock reading, are assumed done.
- Legacy ledger metadata and its migration: only the current root layout is modelled; rows staged by earlier releases are.
- SHA-256: in the ledger digests are free terms, so equal digests mean equal values; in the inbox, frame, ingress and artifact store the hash is an arbitrary function to 32 bytes and injectivity is assumed only where a lemma names the pair that must not collide.
- JSON reading: encoders are modelled byte for byte where sizes or injectivity depend on them (inbox rows, content digests); readers, the ledger's and the artifact store's encodings are parameters or are taken as faithful.
- Clocks, randomness, HTML tokenizing (a page's anchors, links and their targets are given), URL parsing, the semantic validator and the projection checker are parameters of the methods.
- `FileArtifactStore::retain_audit` and `reopen_relation_audit`: the audit validators are not modelled; the record they retain goes through the modelled `RetainRecord`.
- `Inbox::entries` and the operator commands: they list rows without changing them.
- Worker threads, sleeping and shutdown: the worker's waits and arrivals are a list of ticks.
- Provider adapters, HTTP servers, Git transport, bootstrap supervision and audits: they would add only checks of fields or foreign calls.
- `spelled_segments`, `site_build_context`, `render_context`, `relative_path` and `verify_relation_plan`: short functions whose contracts would repeat them.
- Relations.RelationsFor: takes the candidate's object format as an argument, because object identifiers are not modelled.
