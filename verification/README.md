# Pocket Advisor, modelled and proved

Pocket Advisor ingests a mailbox and its attachments, indexes them, and answers questions over them through size-bounded
tools. This project models the parts of it whose guarantee holds over a whole run rather than one call, and proves that
guarantee.

- **Paged evidence and documents.** A search result is frozen and delivered in pages through opaque cursors, index first
  and then slices of each text (`EvidencePages`, `EvidenceDelivery`, `SnapshotStore`); documents use a stateless variant
  (`DocumentPages`, `DocumentDelivery`, `DocumentSizing`, `DocumentReading`, `DocumentCursors`). Both
  rest on a binary search against a size test (`Bisect`), on text as bytes (`Utf8`, after RFC 3629) and on a page that
  reports its own size (`ResponseBudget`).
- **Mailbox paging.** Keyset pages in two directions with undated rows, under a watermark, while mail is being ingested
  (`Keyset`, `Fingerprint`, `MailboxPaging`, `MailboxList`).
- **The worker runtime.** Claims, lanes, a shared gate and two-phase preparation as a state machine over every
  interleaving (`Gate`, `LaneProtocol`), the lease heartbeat (`Heartbeat`), and fenced verdicts over whole runs of claims
  (`Settling`, `JobLedger`).
- **Chunks.** Windows over variable-width characters (`Chunker`), embedding batches (`Batching`), the shared-passage table
  (`ChunkStore`) and the vector cache (`VectorCache`).
- **Retrieval and its measures.** The candidate pool and the final selection (`Pool`, `Selection`), nDCG and the recalls
  (`Ranking`).
- **Smaller loops.** Header repair, section 2.2.3 of RFC 5322 in mind (`HeaderRepair`), leader dots (`Leaders`), and the
  admission order that keeps concurrent handlers from deadlock (`Admission`).

Where the code works by changing state, the model is a class or a loop proved against a function of the old state, and the
guarantee is proved about that function. `fits` parameters stand for the encoded size of a page; `ResponseBudget` says
what the size is.

Places where the code and what is said of it part, each stated as a lemma:

- The document pager's search can refuse a remainder of a text that fits, when it is shorter than two of its first
  character (`DocumentSizing.ShortRemainderIsRefused`, exact; `OneCharacterDocumentFails`, an instance). Where one entry
  always fits, such a remainder is the one thing that fails a page (`DocumentReading.PageIsBuiltExactly`) and that keeps
  a reader from the end (`ReadingEndsExactly`). The evidence pager repairs the case
  (`EvidencePages.TextFailsOnlyOnOneCharacter`).
- The evidence pager's paragraph cut can turn a complete page into one with a continuation; such a page still fits
  (`EvidencePages.CutPageFits`).
- A chunk whose key the first chunk of that key in the call has for another model is not placed, unless its own model has
  the key stored already (`ChunkStore.PlacedExactlyWhenStored`, exact; `MixedModelsLoseAChunk`, an instance).
- The pool's floored flag is also raised when a reservation displaced nothing (`Pool.FalseAlarmExactly`, exact;
  `FlooredCanBeScoreOrder`, an instance); when it is not raised the pool is what score order would choose
  (`Pool.UnflooredIsScoreOrder`).
- Document recall divides by entries and delivered recall by documents, so the second stays within the first exactly when
  no document is expected twice (`Ranking.DeliveryStaysWithinRecallExactly`; `RepeatedEntriesSplitTheRecalls`, an
  instance).

`dafny verify dfyconfig.toml` checks the whole project.

## Model

| member | source | states |
|---|---|---|
| EvidenceDelivery.CompleteChainDeliversAll | internal/mcp/snapshot.go:271-386 | Following the cursors of a search to a complete page delivers every index packet once, in rank order, and then, for every admitted text in order, contiguous character-aligned ranges that join to exactly that text; the chain is bounded by what there was to deliver. Any page size choice, any behaviour of the size test. |
| EvidenceDelivery.SearchIsDelivered | internal/mcp/snapshot.go:130-386 | From packets to reader: a completed chain over a frozen result delivers one description of each packet in order, and then every non-empty text of every packet and neighbour, once and whole, in ranges that name its reference, relation and document. |
| EvidenceDelivery.PageIsBuilt | internal/mcp/snapshot.go:271-365 | Where a page has room for one packet, or for one character, no position a cursor can name is refused, whatever else the size test does. |
| EvidenceDelivery.ReadingDeliversAll | internal/mcp/snapshot.go:271-386 | So, whatever its page sizes, every such reading comes to its last page and has delivered the whole index and every text. |
| EvidenceDelivery.VisitAdvances | internal/mcp/snapshot.go:311-319 | Every page that is not the last names a readable position strictly later in (phase, index, offset), with less left to deliver. |
| EvidenceDelivery.OnlySizeFails | internal/mcp/snapshot.go:321-334 | A position that a cursor can name never fails the range or boundary checks: the only page error left is size. |
| EvidenceDelivery.TilesJoin | internal/mcp/snapshot.go:367-376 | Ranges that tile a text, each starting where the last one stopped and only the last marked complete, join to that text. |
| EvidencePages.EvidenceFrozen | internal/mcp/snapshot.go:130-157 | Freezing a result keeps one index packet for each packet, in rank order, and only valid, non-empty texts. |
| EvidencePages.FrozenCarriesAll | internal/mcp/snapshot.go:130-157 | The texts of a frozen result are, packet by packet, the packet's own text with no relation and then its neighbours' in order, each under the packet's reference with its own relation and document, each non-empty one exactly once and nothing else; the index repeats each packet's reference, rank, document and omission and counts its texts and neighbours. |
| EvidencePages.SnapshotFromEvidence | internal/mcp/snapshot.go:130-157 | The freezing loop computes that frozen form. |
| EvidencePages.BuildIndexPage | internal/mcp/snapshot.go:271-309 | The page loop returns the longest run of packets whose page fits, or the size error on the first packet. |
| EvidencePages.IndexFailsOnlyOnOnePacket | internal/mcp/snapshot.go:271-309 | An index page fails if and only if the single packet it must carry does not fit alone; otherwise the page returned fits. |
| EvidencePages.SearchEnd | internal/mcp/snapshot.go:336-358 | The binary search over ends, with its repair for a remainder of one character and its paragraph cut, computes the specified end. |
| EvidencePages.BuildTextPage | internal/mcp/snapshot.go:321-365 | The text page builder computes the specified page, successor and error. |
| EvidencePages.TextFailsOnlyOnOneCharacter | internal/mcp/snapshot.go:336-355 | Whatever the size test does, a text page fails only when the page of the single next character does not fit, and where shorter pages fit when longer ones do, exactly then: the repaired search never refuses a text it could have started. |
| EvidencePages.OneMoreCharacterDoesNotFit | internal/mcp/snapshot.go:336-355 | The text a page could hold fits, and with one more character it would not. |
| EvidencePages.PageStopsAtParagraph | internal/mcp/snapshot.go:356-365 | A text page stops after the last blank line that begins in the second half of what it could hold, and only without one at its end. |
| EvidencePages.CutPageFits | internal/mcp/snapshot.go:356-365 | The paragraph cut, which may turn a complete page into one with a continuation notice, still fits whenever shorter pages of whole characters with the same notice do: the search accepted the whole remainder only after accepting its shorter neighbour. |
| EvidenceDelivery.BuiltTextPageIsReturned | internal/mcp/snapshot.go:321-365 | With measured sizes, where encoding a longer valid text never takes less, every text page that is built is within bounds, so none fails when it is finally encoded. |
| SnapshotStore.RunKeepsInv | internal/mcp/snapshot.go:159-269 | In every state of every run of store, read, expiry, eviction and close: the byte count is the sum of the snapshot sizes and within its bound, so is the snapshot count, and each cursor names a live snapshot at a readable position whose successor token names the successor position. |
| SnapshotStore.RereadIsIdempotent | internal/mcp/snapshot.go:213-269 | After a successful read, and whatever else the session does while the cursor stays live, reading it again returns the same page and the same next cursor. |
| SnapshotStore.ReadFollowsChain | internal/mcp/snapshot.go:213-269 | A successful read is one step of the delivery chain, and the token it hands out names the position that continues it. |
| SnapshotStore.SessionDeliversAll | internal/mcp/snapshot.go:159-269 | Whatever other stores, reads, expiries and evictions a run holds in between: a client that stores a result and reads each token it is handed, until a page comes without one, has been given every packet of the index once, in order, and every text as contiguous ranges that join to it, provided no token is drawn again for another result. |
| SnapshotStore.SessionIsChain | internal/mcp/snapshot.go:213-269 | The reads of a client, finished or not, are successive legal visits of the one frozen result its first token was issued for. |
| SnapshotStore.EvictionTakesTheOldest | internal/mcp/snapshot.go:444-458 | What is evicted to make room was used no later than anything that survives. |
| SnapshotStore.ReadRenews | internal/mcp/snapshot.go:213-269 | A successful read sets the last access of the result it reads to now and its expiry to now plus the lifetime, and touches no other; a failed read renews nothing; the expired go and nothing else does. |
| SnapshotStore.InvalidExactly | internal/mcp/snapshot.go:213-230 | A cursor is refused as invalid if and only if it names nothing or a result that has expired. |
| SnapshotStore.ReadSucceeds | internal/mcp/snapshot.go:213-269 | A live cursor is answered whenever its page is within bounds and a token it still needs can be drawn. |
| SnapshotStore.StoreSucceeds | internal/mcp/snapshot.go:159-211 | A result that is not too large, whose first page is within bounds and for which one of sixteen draws is fresh, is stored whatever has to make room, last accessed now and expiring a lifetime later. |
| SnapshotStore.FreshTokenExactly | internal/mcp/snapshot.go:113-125 | A token is found if and only if one of sixteen draws names no cursor and none before it fails. |
| SnapshotStore.QueryTool.StoreSearchResult | internal/mcp/snapshot.go:159-211 | Storing a result checks, cleans, evicts and admits as specified, keeps the invariant, and on an error leaves what the code leaves. |
| SnapshotStore.QueryTool.ReadEvidencePage | internal/mcp/snapshot.go:213-269 | The new store and the answer are those of the specified read, in every branch: cancelled, unknown, expired, page error, settled token, fresh token. |
| SnapshotStore.QueryTool.CleanupExpired | internal/mcp/snapshot.go:436-442 | Exactly the expired snapshots go, each with its cursors. |
| SnapshotStore.QueryTool.EvictOldest | internal/mcp/snapshot.go:444-458 | The snapshot with the least last access goes, or nothing when there is none. |
| SnapshotStore.QueryTool.RemoveSnapshot | internal/mcp/snapshot.go:460-472 | A removed snapshot takes its cursors and its bytes with it and nothing else. |
| SnapshotStore.QueryTool.MakeRoom | internal/mcp/snapshot.go:178-182 | Eviction repeats until the new result fits both bounds. |
| SnapshotStore.QueryTool.NewResultID | internal/mcp/snapshot.go:85-103 | An identity is reserved that names no snapshot and no other reservation, or none after sixteen draws. |
| SnapshotStore.QueryTool.CloseSnapshots | internal/mcp/snapshot.go:474-483 | Closing leaves the empty store. |
| Bisect.LargestFitting | internal/mcp/document.go:446-460 | The search loop returns the specified value. |
| Bisect.LargestIsAnEdge | internal/mcp/document.go:446-460 | Whatever the predicate, the value found is accepted and the value above it is not. |
| Bisect.LargestIsMaximum | internal/mcp/document.go:446-460 | For a monotone predicate the value found is the maximum of all accepted ones, and something is found whenever anything fits. |
| Bisect.WindowFound | internal/mcp/document.go:446-460 | For a predicate that is false, then true, then false, the search succeeds if and only if its first probe that is not too large is inside the window, and then finds its top. |
| Bisect.WideWindowIsFound | internal/mcp/document.go:446-460 | Whatever else is accepted, a window that starts no later than the first probe below its end is found. |
| Utf8.BoundaryAtOrBefore | internal/mcp/snapshot.go:406-417 | The loop returns the last character boundary that is not after the end. |
| Utf8.ParagraphEndIsBoundary | internal/mcp/snapshot.go:427-434 | A paragraph cut falls on a character boundary. |
| Utf8.CharIsEncoded | internal/mcp/snapshot.go:406-425 | What is taken for one character is the encoding, by RFC 3629, of exactly its code point, never a surrogate and never past the last one. |
| Utf8.EncodedIsChar | internal/mcp/snapshot.go:406-425 | Every encoded code point is taken for one character, whatever comes after it. |
| ResponseBudget.FigureSettles | internal/mcp/result.go:394-427 | From either start value the reported size is its own fixed point after three rounds, whatever the page holds; the fourth round never changes it. |
| ResponseBudget.ThreePassesAreNotEnough | internal/mcp/result.go:394-427 | Three rounds would not do: the figure of a page of 9994 bytes still changes on the third. |
| ResponseBudget.Measure | internal/mcp/document.go:576-607 | The bounded loop ends with the exact encoded length, in the value and in the text, and accepts the page if and only if it is within bounds. |
| ResponseBudget.DigitsExact | internal/mcp/result.go:394-427 | The digit count used in the length is that of decimal notation. |
| DocumentDelivery.CompleteChainDeliversAll | internal/mcp/document.go:362-473 | Following the cursors of one lookup to a complete page over unchanged matches delivers, for each match in order, its text as contiguous ranges on character boundaries that join to it, then each of its attachments once, all text before any attachment. |
| DocumentDelivery.VisitAdvances | internal/mcp/document.go:362-444 | Every page that names a continuation names a readable position strictly later in (match, phase, offset), with less left to deliver. |
| DocumentDelivery.ChainIsBounded | internal/mcp/document.go:362-444 | No chain of pages, finished or not, is longer than what its start leaves to deliver, so every chain ends. |
| DocumentDelivery.ConsumingShrinks | internal/mcp/document.go:362-444 | Every entry placed takes something off what remains. |
| DocumentReading.PageIsBuiltExactly | internal/mcp/document.go:357-444 | Where a page has room for a match's identity beside seven bytes of its text or one attachment, building fails if and only if the page starts at a remainder shorter than two of its first character, less one byte. The source says only an outgrown identity fails. |
| DocumentReading.RefusedExactly | internal/mcp/document.go:357-444 | For any size test under which more attachments never take less room, building fails if and only if the text search comes back empty or, where no text is left, the first attachment left, or the bare identity when none is, does not fit. |
| DocumentReading.StartedIsNeverRefused | internal/mcp/document.go:387-432 | A page that already carries anything stops there rather than fail, whatever the size test does. |
| DocumentReading.ReadingEndsExactly | internal/mcp/document.go:362-444 | Under the same room, following cursors comes to a last page if and only if neither the start nor any position issued on the way is a short remainder. |
| DocumentReading.ReadingDeliversAll | internal/mcp/document.go:362-444 | When no text has a short remainder anywhere, every such reading comes to its end and delivers everything, whatever its page sizes. |
| DocumentReading.PlainTailIsEnough | internal/mcp/document.go:382-393 | A text that ends in three one-byte characters has no short remainder. |
| DocumentReading.BuiltPageIsReturned | internal/mcp/document.go:362-444 | With measured sizes a page that is built is within bounds beside whatever cursor it issues, or none. |
| DocumentPages.BuildDocumentPage | internal/mcp/document.go:362-444 | The page loop with its two phases, its stops and its fallback computes the specified page, position and error. |
| DocumentPages.FindTextStop | internal/mcp/document.go:382-402 | The text phase computes where the text placed stops, paragraph cut and its guard included. |
| DocumentPages.PlaceAttachments | internal/mcp/document.go:410-431 | The attachment phase computes how many are placed and whether the page ends there. |
| DocumentSizing.TextIsPlacedExactly | internal/mcp/document.go:382-393 | A page places some of a text if and only if the first probe of the search that fits is past the first character: the search is not monotone at its low end. |
| DocumentSizing.ShortRemainderIsRefused | internal/mcp/document.go:382-393 | When all that is left of a text fits, it is placed if and only if it has at least twice the bytes of its first character, less one. A shorter remainder is refused although it fits. |
| DocumentSizing.OneCharacterDocumentFails | internal/mcp/document.go:382-393 | A document of one two-byte character is refused as too large with no bound at all: the instance of the case above. |
| DocumentSizing.OneMoreCharacterDoesNotFit | internal/mcp/document.go:382-393 | The text a page could hold fits, and with one more character it would not. |
| DocumentSizing.LeftOverTextStopsAtParagraph | internal/mcp/document.go:394-402 | Text that is left over is cut after the last blank line in the second half of what the page could hold; text placed whole is not cut. |
| DocumentSizing.OneMoreAttachmentDoesNotFit | internal/mcp/document.go:408-416 | The attachments a page takes fit, and unless none is left one more would not. |
| DocumentSizing.RoomForTwoIsEnough | internal/mcp/document.go:382-393 | Room for two of the first character, less one byte, always places something. |
| DocumentSizing.ProgressNeedsNoFallback | internal/mcp/document.go:410-417 | Where shorter slices of whole characters never take more room, a text placed whole always leaves room for its own entry, so attachments never need the fallback to none. |
| DocumentSizing.BuiltPageFits | internal/mcp/document.go:362-444 | Where shorter slices of whole characters never take more room, every page that is built is within bounds beside a cursor of the maximum length. |
| DocumentSizing.FetchedPageFits | internal/mcp/document.go:366-376 | It is therefore within bounds beside the cursor it really issues, or none, since a shorter cursor takes no more room. |
| DocumentCursors.Resolve | internal/mcp/document.go:523-540 | A cursor resolves only to the first match of its identity, with the same text hash, at a position that is still legal; otherwise it is stale and no such match resumes it. |
| DocumentCursors.CursorRoundTrips | internal/mcp/document.go:490-540 | Over the same matches, with distinct non-empty ids, the cursor a page issues is accepted with the fingerprint it was issued for and starts exactly where the page stopped; with any other fingerprint it is invalid. |
| DocumentCursors.ResumesTheSameText | internal/mcp/document.go:519-540 | A cursor issued over one run of the lookup and accepted over any other resumes in a match of the same identity and the same text, at the same place; otherwise it is stale. |
| DocumentCursors.FetchesAreChain | internal/mcp/document.go:96-172 | The pages a client gets by passing back each cursor are a chain of the delivery above. |
| DocumentCursors.LookupIsRead | internal/mcp/document.go:96-172 | Where one entry always fits and no text has a short remainder, starting without a cursor and passing each one back never meets a refusal and comes to an end with every text and attachment delivered once. |
| DocumentCursors.Fetch | internal/mcp/document.go:96-172 | One fetch starts where its cursor resolves, or reports why it does not: invalid exactly for another version, another fingerprint or no id. Its page is a legal step, and its cursor that of the position the page stopped at. |
| MailboxPaging.SeriesIsExact | internal/mailbox/query.go:164-265 | Whatever the filters, the order, the page sizes and the points a transport truncates at, and whatever is ingested above the watermark between pages, the concatenated pages of a series are the sorted list of rows that matched at the first page, each exactly once. |
| MailboxPaging.SelectContinues | internal/mailbox/store_postgres.go:59-188 | Selecting past the c-th row of the first list, however the mailbox has grown since, gives the rest of that list up to the limit. |
| Keyset.KeysetIsAfterKey | internal/mailbox/store_postgres.go:259-275 | The SQL predicate is true, in three-valued logic with NULL dates, if and only if the row sorts strictly after the boundary. |
| Keyset.OrderByIsBefore | internal/mailbox/store_postgres.go:243-248 | ORDER BY with its NULLS clause is the order the service verifies with. |
| Keyset.OldestIsNewestReversed | internal/mailbox/keyset.go:46-72 | Oldest first enumerates exactly the reverse of newest first, undated rows included. |
| Keyset.BeforeIsStrictTotalOrder | internal/mailbox/keyset.go:52-72 | The browse order is irreflexive, transitive, total and asymmetric on keys. |
| Keyset.AfterBoundaryIsTheRest | internal/mailbox/keyset.go:74-80 | The rows after the c-th row of a sorted list, sorted, are the rest of that list. |
| Keyset.SortedIsUnique | internal/mailbox/keyset.go:83-87 | A sorted list is determined by its rows. |
| MailboxPaging.AcceptedExactly | internal/mailbox/query.go:369-379 | A page is accepted if and only if it is strictly sorted and wholly after the boundary: comparing neighbours is enough. |
| MailboxPaging.FirstFaultIsNamed | internal/mailbox/query.go:369-379 | A refused page has a first row at fault, and the error says whether it is not past the boundary or, being past it, not after the row before. |
| MailboxPaging.VerifyPage | internal/mailbox/query.go:369-379 | The loop returns the first refusal in row order, boundary before order. |
| MailboxPaging.ContinuationIsAccepted | internal/mailbox/query.go:369-379 | A store that returns the continuation of the list is never refused. |
| MailboxPaging.ListMessages | internal/mailbox/query.go:164-265 | The service call returns the specified listing or error in a fresh result, and its page is of the size asked for: at most that many messages, exactly that many when more remain, with the largest size for more and the usual size unasked. |
| MailboxPaging.PageIsSizedAsAsked | internal/mailbox/query.go:174-180 | For every store and request, the page is of the size asked for up to the maximum, of the maximum above it, and of the default at or below nothing. |
| MailboxPaging.ListResult.Truncate | internal/mailbox/query.go:138-156 | Shortening keeps the first n messages and re-issues the cursor after the last of them, and refuses any other n with nothing changed. |
| MailboxPaging.TruncatedContinues | internal/mailbox/query.go:138-156 | A truncated page still continues the series: what it dropped is the start of the next page. |
| MailboxPaging.CursorBindsItsRequest | internal/mailbox/cursor.go:117-148 | A cursor passes the check if and only if the order and every filter are those it was issued for, and is refused for the order when that differs and for the filters when they alone do. |
| MailboxPaging.VersionIsChecked | internal/mailbox/cursor.go:70-80 | A cursor is refused for its version if and only if that is not 3, whatever else it says. |
| Fingerprint.FingerprintIdentifies | internal/mailbox/cursor.go:150-185 | Equal fingerprints mean equal filters, field by field, for a digest without collisions. |
| Fingerprint.FieldsInjective | internal/mailbox/cursor.go:161-178 | Length-prefixed fields written one after another are read back in one way only, whatever the fields hold. |
| Fingerprint.FingerprintOf | internal/mailbox/cursor.go:161-178 | The loop over fields writes the specified text. |
| MailboxList.FinalizeMailboxList | internal/mcp/mailbox.go:177-205 | The result is sent unchanged when it fits and otherwise shortened in place to the prefix the search found, or not sent. |
| MailboxList.KeptIsLongest | internal/mcp/mailbox.go:177-205 | When pages shrink with their messages, the prefix kept is the longest that fits. |
| MailboxList.KeptIsAnEdge | internal/mcp/mailbox.go:177-205 | Whatever the sizes, the prefix kept cannot be extended by one message. |
| LaneProtocol.ReachableIsBounded | internal/worker/runtime.go:207-326 | In every reachable state of all pools sharing one gate, slots taken are exactly those held by claimers and by lanes that are not preparing, and open job transactions never exceed the capacity. |
| LaneProtocol.StepKeepsInv | internal/worker/runtime.go:251-316 | Every interleaved step of every pool keeps held slots plus free slots equal to the capacity, and loses no wake-up. |
| LaneProtocol.DrainedGateIsFull | internal/worker/runtime.go:319-326 | Once every pool has drained, early stops, partial claims and failed preparations included, every slot is back: each was returned exactly once. |
| LaneProtocol.PoolWithinGate | internal/worker/runtime.go:319-326 | No pool holds more than is out, so a return is never cut off at the capacity. |
| LaneProtocol.HolderCanStep | internal/worker/runtime.go:433-496 | While no slot is free, some agent that holds one can step, towards putting it back: nobody who holds a slot waits for one. |
| LaneProtocol.HoldersFreeASlot | internal/worker/runtime.go:433-496 | In any run, whatever else is interleaved, once slot holders have taken more steps than the debt the run started with, a state with a free slot has been passed: re-acquiring after preparation cannot deadlock. |
| LaneProtocol.ASlotComesFree | internal/worker/runtime.go:488-496 | From every reachable state there is a run of steps of slot holders alone, of bounded length, to a free slot. |
| LaneProtocol.ParkedLaneWakes | internal/worker/runtime.go:488-496 | A lane parked for a slot is enabled as soon as one is free: no wake-up is missed between the look and the wait. |
| Gate.Gate.TryReserve | internal/storage/postgres/job_gate.go:30-39 | A reservation takes what is free, up to what was asked. |
| Gate.Gate.Release | internal/storage/postgres/job_gate.go:42-51 | A release puts slots back up to the capacity and closes every channel handed out. |
| Gate.Gate.Wait | internal/storage/postgres/job_gate.go:55-59 | The channel handed out is open. |
| Heartbeat.EstimateIsConservative | internal/worker/runtime.go:373-426 | The local expiry never passes the true lease end, for any clock offset, any response delay and any sequence of renewals and transient errors. |
| Heartbeat.CancelledInTime | internal/worker/runtime.go:373-426 | With at least a minute of lease and a first look within 35 seconds of the claim, a handler whose renewals are not confirmed is stopped at least 25 seconds before the true lease end, or its own time budget ends first. |
| Heartbeat.LooksAgainInTime | internal/worker/runtime.go:373-426 | The next look always comes at least 25 seconds before the true lease end, or the budget ends first. |
| Heartbeat.Beat | internal/worker/runtime.go:373-426 | The loop stops at the first round that tells it to, with the estimate and the verdict specified. |
| Heartbeat.WatchEndsAtTheFirst | internal/worker/runtime.go:373-426 | The heartbeat ends at the first round that is not sent or is answered with a loss, with that verdict, and not before. |
| Heartbeat.SentExactly | internal/worker/runtime.go:385-400 | A renewal is sent if and only if more than half a minute is left of the estimate and some of the handler's own hour. |
| Heartbeat.EstimateExactly | internal/worker/runtime.go:373-426 | The estimate is what the last answered renewal left, counted from when it was sent, or else the claim's, counted from its start. |
| JobLedger.RunKeepsInv | internal/storage/postgres/jobs.go:164-192 | In every run of claims, expiries, completions and transitions presented by live and stale workers, generations, attempts and applied transitions stay consistent: each applied transition is one its claim's worker sent for its own outcome, attempts count exactly the charges not given back, and a claim that is over ended in an applied transition or in its lease running out. |
| JobLedger.AtMostOneVerdictPerClaim | internal/storage/postgres/jobs.go:351-374 | At most one fenced transition is ever applied for one claim generation. |
| JobLedger.FailureIsEarned | internal/worker/runtime.go:498-722 | In every run a job is FAILED only by the verdict of a claim whose own outcome was a terminal or store-rejected error, or after three different charged claims whose own outcomes were each evidence about the work, or whose lease ran out without a verdict: never through a shutdown, a deadlock, a held lock, a missing or changed source or a lost lease. |
| JobLedger.FailingWorkFailsTheJob | internal/worker/runtime.go:530-658 | From any reachable ledger, the claims that spend the attempts left, each failing transiently and applied, leave the job FAILED for the last one's reason: three of them on a fresh job. |
| JobLedger.ReturnedAttemptIsRefunded | internal/storage/postgres/jobs.go:376-411 | A charged claim given back or made to wait leaves the attempts and the last failure as they were before it. |
| JobLedger.LapsedVerdictsDoNothing | internal/storage/postgres/jobs.go:351-374 | Once a lease has run out, no verdict or completion touches the job until it is claimed again. |
| JobLedger.OnlyFreeJobsAreClaimed | internal/storage/postgres/jobs.go:164-192 | In every run a job is claimed only while nobody's lease is live and it is neither done, failed nor waiting. |
| JobLedger.FinishedIsFinal | internal/storage/postgres/jobs.go:351-374 | In every run a job that is completed or failed stays exactly as it is, whatever its workers still try. |
| JobLedger.OwnerCompletes | internal/storage/postgres/jobs.go:318-334 | The handler that still owns the job completes it, with the last failure cleared and the attempts as they were. |
| JobLedger.LapsedJobsAreClaimed | internal/storage/postgres/jobs.go:164-192 | A job whose lease has run out, and one whose source came back, can be claimed again. |
| JobLedger.ATerminalErrorFailsAtOnce | internal/worker/runtime.go:530-703 | The first claim of a fresh job whose handler ends in a terminal error is answered by that one transition, and it fails the job. |
| JobLedger.StaleVerdictsDoNothing | internal/storage/postgres/jobs.go:351-374 | A verdict or completion from a worker that no longer owns the job changes nothing and is never answered as applied. |
| JobLedger.WorkersStayWithinTheLedger | internal/worker/runtime.go:530-703 | Whatever a worker sends for its outcome, cause of cancellation and surroundings is a transition its claim permits for the reason that verdict was reached. |
| JobLedger.KeptAttemptsAreAboutTheWork | internal/worker/runtime.go:530-658 | A charged claim sends a retry or a failure only for an outcome that is evidence about the work, and a terminal one only for a terminal error. |
| Settling.Handle | internal/worker/runtime.go:498-527 | The handler runs if and only if the claim was charged; an uncharged claim is only failed. |
| Settling.Settle | internal/worker/runtime.go:530-658 | The transitions sent are those decided for the outcome and the cause of cancellation, in the order of the branches. |
| Settling.RecordFailure | internal/worker/runtime.go:674-703 | A failure counts as recorded if and only if it was applied, or a read after an unclear answer shows it. |
| Settling.VerdictIsPermitted | internal/worker/runtime.go:530-658 | A job is failed for a terminal reason only on a terminal error or a data exception, and never under shutdown, deadlock, a held lock, a missing or changed source or a lost lease. |
| Settling.WorkIsRetriedThenFailed | internal/worker/runtime.go:640-658 | A transient failure is answered by one retry under its reason, after half a minute or a minute and as much jitter, while attempts are left, and by a failure under its reason at the third. |
| Settling.TerminalIsFailedAtOnce | internal/worker/runtime.go:633-648 | A terminal error, and one the store rejects for its content, fails the job at once under its own reason. |
| Settling.GivenBackUncharged | internal/worker/runtime.go:571-616 | A held lock, a deadlock, a changed or missing source and a shutdown each send one transition that gives the job back, the earlier cause before the later, with the stated delays and reasons. |
| Settling.NothingIsSent | internal/worker/runtime.go:530-630 | Nothing is sent for work done, declined or pruned, for an uncertain commit that happened or is another claim's, or after a lost lease. |
| Settling.ExhaustedIsFailed | internal/worker/runtime.go:661-672 | A claim that found no attempt left fails the job for the reason recorded last. |
| Settling.FailIsSentOnce | internal/worker/runtime.go:674-703 | A failing verdict is followed by a busy return exactly when it was refused for the advisory lock, and by nothing else. |
| Settling.CeilingDoubles | internal/worker/runtime.go:753-759 | The ceiling of the wait is one, two and four minutes for the first three attempts and five from then on. |
| Settling.NakBackoff | internal/worker/runtime.go:753-764 | The delay is the lower half of the ceiling plus jitter over the other half, at least thirty seconds and below five minutes. |
| Settling.BackoffIsBounded | internal/worker/runtime.go:753-764 | The doubling loop stays within a minute and five minutes. |
| Chunker.ChunksQuoteTheDocument | internal/engine/embed/chunker.go:42-93 | Every chunk names exactly its own bytes of the stored document, runs over whole characters and at most 2048 of them, neither starts nor ends with white space, and is numbered by its place. |
| Chunker.EveryCharacterIsCovered | internal/engine/embed/chunker.go:42-93 | Every character of the document that is not white space lies in some chunk. |
| Chunker.OnlyBlankDocumentsHaveNoChunks | internal/engine/embed/chunker.go:42-46 | There are no chunks if and only if every character is white space. |
| Chunker.Split | internal/engine/embed/chunker.go:42-93 | The trimming, the short form and the window loop, with its forced-progress branch in place, compute the specified chunks. |
| Chunker.WindowAdvances | internal/engine/embed/chunker.go:84-90 | A window that is not the last moves the start by at least 300 characters and overlaps the next by exactly 256: the forced-progress branch is never taken. |
| Chunker.WindowStops | internal/engine/embed/chunker.go:61-72 | A window takes all that is left when that is at most 2048 characters, and is otherwise cut back from the 2048th. |
| Chunker.SpaceIsWhiteSpace | internal/engine/embed/chunker.go:42-93 | The bytes taken for white space are those of the characters with the Unicode property White_Space, and no others. |
| Chunker.WindowIsLong | internal/engine/embed/chunker.go:62-65 | A window that is not the last keeps at least 559 characters, whatever mix of character widths it holds. |
| Chunker.EndsIncrease | internal/engine/embed/chunker.go:61-91 | Window ends strictly increase. |
| Chunker.WindowsMarch | internal/engine/embed/chunker.go:61-91 | Any two neighbouring windows of a text overlap by exactly 256 characters, start at least 300 apart, and end one after the other. |
| Chunker.WindowsAreFew | internal/engine/embed/chunker.go:61-91 | A text has one window and at most one more for every 300 characters. |
| Chunker.CutPrefers | internal/engine/embed/chunker.go:121-142 | The cut is after the last blank line of the last two fifths of the window; with none, after the last newline; with none, after the last full stop, exclamation or question mark unless it is the final byte; then after the last space; and at the hard end only when there is none of these. |
| Chunker.BestCutIsBoundary | internal/engine/embed/chunker.go:121-155 | Every cut falls on a character boundary inside the part searched. |
| Chunker.AdvanceRunes | internal/engine/embed/chunker.go:99-106 | The forward walk computes the specified position. |
| Chunker.RetreatRunes | internal/engine/embed/chunker.go:109-118 | The backward walk computes the specified position. |
| Chunker.AdvanceCounts | internal/engine/embed/chunker.go:99-106 | The forward walk lands on a boundary, n characters on unless the text ends first. |
| Chunker.RetreatCounts | internal/engine/embed/chunker.go:109-118 | The backward walk lands on a boundary, n characters back unless the text starts first. |
| Batching.Batcher.Next | internal/engine/embed/chunker.go:196-211 | A batch is the next run of chunks, as long as both limits allow, or one chunk that is over the limit alone. |
| Batching.Batcher.Observe | internal/engine/embed/chunker.go:216-225 | The ratio becomes that of the batch counted, held between 0.5 and 4; a count of zero changes nothing. |
| Batching.BatchesPartition | internal/engine/embed/chunker.go:196-211 | Whatever the endpoint reports between batches, the batches are the chunks in order, each exactly once, and an empty batch comes only at the end. |
| Batching.GreedyIsUnique | internal/engine/embed/chunker.go:196-211 | Only one end satisfies the rule a batch is specified by. |
| Batching.BatchIsBounded | internal/engine/embed/chunker.go:163-182 | A batch of more than one chunk has at most 64 of them and at most 64000 characters: never more than the fixed estimate allows. |
| ChunkStore.ReplaceKeepsInv | internal/storage/postgres/chunk_repo.go:25-83 | From every state, a replacement keeps each passage unique by model and key and held by some placement, and each placement on a passage that exists. |
| ChunkStore.OthersAreUntouched | internal/storage/postgres/chunk_repo.go:25-83 | Another document keeps its placements and the text and vector behind each of them. |
| ChunkStore.SweptExactly | internal/storage/postgres/chunk_repo.go:61-70 | A passage that was there goes if and only if nothing is placed on it afterwards, and never changes before that. |
| ChunkStore.TwiceIsOnce | internal/storage/postgres/chunk_repo.go:20-24 | A document processed twice leaves the very rows that processing it once does, with the same placements under the new ids. |
| ChunkStore.PlacedExactlyWhenStored | internal/storage/postgres/chunk_repo.go:99-162 | A chunk is placed, with its own document, number, start, end and text, if and only if its name was stored before or the first chunk of its key in the call is of its model; the passage is of its model and key, and is the row stored before, unchanged, or a new one with the text and vector of that first chunk. |
| ChunkStore.OnlyTheCallIsPlaced | internal/storage/postgres/chunk_repo.go:25-83 | Every placement afterwards was another document's and is unchanged, or is of a chunk of the call. |
| ChunkStore.OneModelPlacesAll | internal/storage/postgres/chunk_repo.go:99-162 | A call whose chunks share one model places all of them. |
| ChunkStore.MixedModelsLoseAChunk | internal/storage/postgres/chunk_repo.go:106-131 | Two models in one call lose a chunk: new passages are told apart by key alone, the join asks for the model too. |
| ChunkStore.ChunkRepo.ReplaceChunks | internal/storage/postgres/chunk_repo.go:25-83 | The transaction does all the specified statements or, on a placement id already in use, leaves everything as it was. |
| ChunkStore.ChunkRepo.InsertChunks | internal/storage/postgres/chunk_repo.go:99-162 | The two loops and statements compute the specified rows. |
| Ranking.NdcgIsNormalized | internal/eval/metrics.go:59-106 | nDCG lies in [0,1] for every packet list and every graded expectation, repeated documents, repeated entries and non-positive grades included. |
| Ranking.IdealIsBest | internal/eval/metrics.go:59-96 | No packet list has a larger discounted gain than the grades in descending order. |
| Ranking.PrefixIsDominated | internal/eval/metrics.go:68-88 | The first k packets gain at most what the k best entries gain: each document earns once. |
| Ranking.DominatedDiscountsToLess | internal/eval/metrics.go:98-106 | Dominated prefixes discount to less, for any positive discount that never grows. |
| Ranking.IdealOrderScoresOne | internal/eval/metrics.go:59-96 | The expected documents in order of grade score 1, whatever follows them, or 0 when no grade is positive. |
| Ranking.GradedListScores | internal/eval/metrics.go:59-106 | One graded list with a repeat and a stranger has the value the definition gives: gains one and seven over ideal gains seven and one. |
| Ranking.GainDoubles | internal/eval/metrics.go:98-106 | The gain is nothing for no positive grade, one for the first, and twice and one more for each after. |
| Ranking.RelevanceAt | internal/eval/metrics.go:71-81 | A packet carries its grade if and only if it is the first of an expected document. |
| Ranking.NDCG | internal/eval/metrics.go:59-96 | The loops compute the specified value. |
| Ranking.RecallsAreNormalized | internal/eval/metrics.go:13-34 | Every recall lies in [0,1], and union delivery is at least primary delivery, whatever is repeated on either side. |
| Ranking.DocumentRecallCounts | internal/eval/metrics.go:13-34 | Document recall is the expected documents among the first k packets, or all packets when k is not positive, over the entries. |
| Ranking.DeliveredRecallCounts | internal/eval/metrics.go:193-275 | Delivered recall is the expected documents that came with a text of their own, over the documents. |
| Ranking.SupplementaryRecallCounts | internal/eval/metrics.go:212-287 | Supplementary recall is those whose text came with a neighbour only, over the documents. |
| Ranking.UnionRecallCounts | internal/eval/metrics.go:292-301 | Union recall is those whose text came either way, over the documents. |
| Ranking.DocsAre | internal/eval/metrics.go:235-241 | The documents expected are those of the entries, each once. |
| Ranking.PastKDoesNotCount | internal/eval/metrics.go:13-34 | Packets past the k-th change no recall. |
| Ranking.NothingExpectedIsFound | internal/eval/metrics.go:13-62 | Where nothing is expected every measure is one. |
| Ranking.UnionIsTheSum | internal/eval/metrics.go:282-301 | Union delivery is primary delivery plus supplementary delivery: no identity counts twice. |
| Ranking.DeliveredIsRanked | internal/eval/metrics.go:270-275 | With distinct entries delivery never exceeds document recall. |
| Ranking.DeliveryStaysWithinRecallExactly | internal/eval/metrics.go:270-275 | For a non-empty expectation, delivery stays within document recall for every packet list and every k if and only if no document is expected twice. |
| Ranking.RepeatedEntriesSplitTheRecalls | internal/eval/metrics.go:33-33 | The instance: with an entry listed twice delivery exceeds document recall, since the one divides by documents, the other by entries. |
| Ranking.FirstDeliveredRank | internal/eval/metrics.go:317-334 | The rank of the first expected document with text, or 0 when there is none. |
| Ranking.FirstExpectedDocumentRank | internal/eval/metrics.go:338-352 | The rank of the first expected document, or 0 when there is none. |
| Ranking.RankAgreesWithRecall | internal/eval/metrics.go:270-352 | Something is delivered within k if and only if the first delivered rank is within k, and likewise for ranking; delivery never comes first. |
| Pool.PoolIsSound | internal/retrieval/select.go:24-86 | The pool has distinct ids, all from the groups, never exceeds the limit, starts with its reservations, and holds every id when it is not full. |
| Pool.PoolByParts | internal/retrieval/select.go:24-86 | The pool is first candidates of their groups, there when there are several; then at most the floor of candidates with a dense rank and no lexical one, fewer only when the pool is full or none is left; then the rest by score, none of them beaten by a candidate left out. The flag says that something was reserved and the pool is full. |
| Pool.FloorsAreKept | internal/retrieval/select.go:35-47 | With several groups and a limit of at least groups times floor, each group's first candidates are in. |
| Pool.DenseOnlyFloorIsKept | internal/retrieval/select.go:49-65 | A candidate with a dense rank and no lexical one is left out only when the dense-only floor was filled or the pool is full. |
| Pool.NothingBetterIsLeftOut | internal/retrieval/select.go:67-78 | No candidate left out has a better score than one the score fill admitted, and what it admitted is in score order. |
| Pool.UnflooredIsScoreOrder | internal/retrieval/select.go:80-85 | A pool not reported as floored holds exactly the ids score order alone would choose. |
| Pool.FullPoolIsScoreOrderExactly | internal/retrieval/select.go:67-86 | A full pool holds the ids score order alone would choose if and only if score order would have chosen everything reserved. |
| Pool.FalseAlarmExactly | internal/retrieval/select.go:80-85 | The flag is raised over a pool that score order would have chosen if and only if something was reserved, the pool is full, and every reserved id is one score order would choose. |
| Pool.FlooredCanBeScoreOrder | internal/retrieval/select.go:80-85 | The instance: a full pool that score order would have chosen is reported as floored. |
| Pool.PoolCandidates | internal/retrieval/select.go:24-86 | The reservation loops and the score fill compute the specified pool and flag. |
| StableSort.SortIsStable | internal/retrieval/select.go:72-72 | Candidates of one score keep the order they came in. |
| Selection.PicksAreSound | internal/retrieval/select.go:173-205 | Picks come in rank order, reach the floor, are at most topK, and repeat neither a document nor a passage. |
| Selection.NothingIsPassedOverFreely | internal/retrieval/select.go:173-205 | A candidate passed over is below the floor, repeats a better-ranked pick, or came when topK were picked. |
| Selection.MoreOnlyAppends | internal/retrieval/select.go:173-205 | A larger topK only appends picks. |
| Selection.OffDomainReturnsNothing | internal/retrieval/select.go:157-162 | Nothing is returned if and only if every candidate is below the floor. |
| Selection.SelectPackets | internal/retrieval/select.go:173-205 | The loop with its two sets computes the specified picks and the count below the floor. |
| HeaderRepair.RepairOnlyInserts | internal/engine/email/rawheader.go:44-79 | A repair only inserts, one space or one line break for each warning, the break at most once and last; deleting what was inserted gives the message back. |
| HeaderRepair.RepairKeepsFields | internal/engine/email/rawheader.go:44-79 | A repaired header starts the same field lines in the same order, and every line of it continues a field or starts one. |
| HeaderRepair.FieldsByLine | internal/engine/email/rawheader.go:81-105 | Which lines start a field, from their bytes: printable ASCII up to a colon that is not the first byte, on a line before the first one that is only line breaks. |
| HeaderRepair.RepairByLine | internal/engine/email/rawheader.go:44-79 | What becomes of the first line, from its bytes, in each of the branches: the end, a continuation, a field, a joined line behind a space, the body behind a line break like its own, and giving up. |
| HeaderRepair.FieldFollowsExactly | internal/engine/email/rawheader.go:107-120 | A field is found to follow if and only if some line before the end of the header starts one. |
| HeaderRepair.RepairIsIdempotent | internal/engine/email/rawheader.go:25-39 | A repaired message needs no further repair: a second pass changes nothing and warns of nothing. |
| HeaderRepair.WellFormedIsLeftAlone | internal/engine/email/rawheader.go:41-43 | A header is left alone, with no warning, if and only if every line continues a field or starts one. |
| HeaderRepair.GivesUpExactly | internal/engine/email/rawheader.go:59-60 | A repair is given up on if and only if the first line that continues nothing is neither blank nor a field. |
| HeaderRepair.WarningNamesTheFieldBefore | internal/engine/email/rawheader.go:61-63 | Each joined line is reported under the field last named before it. |
| HeaderRepair.RepairHeader | internal/engine/email/rawheader.go:44-79 | The scanning loop computes the specified bytes and warnings. |
| HeaderRepair.FindFieldFollows | internal/engine/email/rawheader.go:107-120 | The look-ahead loop finds a field line before the end of the header, or none. |
| Leaders.FitOnlyTakesLeaders | internal/worker/layout.go:589-642 | Only runs of more than three leaders change, each to a length from three to what it was; everything else survives in its place. |
| Leaders.FitIsShortEnough | internal/worker/layout.go:589-642 | The result is at most the width, and short of it by no more than the number of runs that gave; or, when the excess is at least the slack, exactly the text without its slack. |
| Leaders.FitTakesAllItMay | internal/worker/layout.go:589-642 | When the excess is at least the slack, every run of more than three leaders is left with exactly three. |
| Leaders.TokensSpellRuns | internal/worker/layout.go:567-613 | The runs are those of full stop, underscore, middle dot and hyphenation point: each run of one of them is one token as long as it is, every other character is its own, and together they spell the text. |
| Leaders.SlackSnoc | internal/worker/layout.go:617-625 | The slack is what runs of more than three have beyond three, summed, and so many runs give. |
| Leaders.ShareIsGiven | internal/worker/layout.go:626-634 | While the slack covers the excess each run gives its share of it, rounded up, and always has that much. |
| Leaders.FitLeavesAlone | internal/worker/layout.go:590-620 | A text that fits, and one without long leaders, is unchanged. |
| Leaders.FitToWidth | internal/worker/layout.go:589-642 | The run list, the sum of slack and the rebuilding loop compute the specified text. |
| VectorCache.HoldsTheMostRecent | internal/worker/vector_cache.go:46-81 | After any operations, whatever the bound, the cache is a front of the list of entries by last use with nothing evicted: what goes is always the least recently used end. |
| VectorCache.StaysWithinBound | internal/worker/vector_cache.go:62-81 | After any operations the vectors kept take no more than the bound. |
| VectorCache.EveryVectorWasPut | internal/worker/vector_cache.go:46-58 | Every vector a hit can return was put in for that very key. |
| VectorCache.NothingIsLostInARoomyCache | internal/worker/vector_cache.go:62-81 | While everything fits the bound nothing put in is ever missed. |
| VectorCache.FrontIsLongest | internal/worker/vector_cache.go:75-80 | Eviction stops as soon as the rest fits. |
| VectorCache.VectorCache.Get | internal/worker/vector_cache.go:46-58 | A hit returns the vector of its key and moves it to the front; a miss changes nothing. Map, list and byte count stay in step. |
| VectorCache.VectorCache.Put | internal/worker/vector_cache.go:62-81 | A known key moves to the front with its old vector; a new one is pushed and the oldest evicted. Map, list and byte count stay in step. |
| Admission.WaitsAreAcyclic | internal/worker/email_worker.go:97-107 | In every reachable state, with any number of concurrent handlers sharing any members, no chain of waits closes on itself. |
| Admission.SomeHandlerCanStep | internal/worker/email_worker.go:97-107 | While any handler is live, some handler can admit its next member or commit: admission never deadlocks. |
| Admission.StepsRunOut | internal/worker/email_worker.go:97-107 | Every step but a new start leaves less to do, so all handlers end. |
| Admission.UnorderedDeadlocks | internal/worker/email_worker.go:172-177 | Without the order, two messages with the same two members in opposite orders stop each other. |
| Admission.StepKeepsInv | internal/worker/email_worker.go:192-244 | Every step keeps held stubs disjoint and uncommitted: one content is inserted once. |
| Admission.OrderedByHash | internal/worker/email_worker.go:172-188 | The order holds the members that are not empty, each as often as it is listed and nothing else, by ascending hash, and those of one hash in the order listed. |
| Admission.AdmissionOrder | internal/worker/email_worker.go:178-188 | The filtering loop and the sort compute the specified order. |

## Left out

- The SQL text, PostgreSQL, `LISTEN` and notification, the document, source and inventory repositories: tables are maps and sets, a statement is what it does to them, and a transaction takes effect as a whole.
- JSON, base64, SHA-256 and random bytes: a length function, injective functions and arbitrary draws stand for them. A cursor token, a digest and a result identity are opaque values.
- Clocks and network delays are parameters, arbitrary but for the inequalities stated; the delay between a timer firing and the goroutine running is not modelled.
- HTTP and model clients, OCR, PDF, charset detection, configuration, logging, rendering, command-line parsing.
- Argument validation of the tools, recipient lists, address normalisation, container paths and shared identifiers: branch tables that would add only easy members.
- SnapshotStore.QueryTool.ReadEvidencePage: the mutex is not modelled, each call is atomic, as it is under the lock; snapshot and cursor records are values in the maps, so sharing of a record between two names is not captured. That there is none follows from the fresh tokens.
- DocumentCursors.Fetch: an encoded cursor longer than 256 bytes, which the code reports as an error, does not occur; the position it would hold is not bounded.
- EvidencePages.BuildTextPage: errors other than size from encoding a page are not modelled.
- Keyset.OrderByIsBefore: a date before the zero value of the code's time type cannot be told from an undated row there; dates here are integers and undated is a value of its own.
- The in-memory sorts of messages by order and by conversation: the list theorem covers the sorted list itself.
- LaneProtocol.HoldersFreeASlot: that a running handler ends is assumed of it, as a step it can take; fairness between claimers for a slot that is free is not stated, since the gate gives none.
- Heartbeat.CancelledInTime: starts from a lease of at least a minute and a first look within 35 seconds, which is what the constants give when the process is scheduled.
- JobLedger.FailureIsEarned: one job at a time; jobs do not share rows.
- SnapshotStore.SessionDeliversAll: a token still in a client's hand is taken not to be drawn again for another result; the draws are 24 random bytes, arbitrary here.
- Chunker.Split: the text is valid UTF-8, which is what the pipeline stores; white space is that of the Unicode property the code asks for, by its byte patterns.
- Batching.Batcher.Next: chunks are their character counts, and the division and the sum of tokens are exact, where the code rounds to double precision.
- Ranking.NDCG: the discount is any positive function that never grows, of which 1/log2(rank + 2) is one; arithmetic is exact.
- Distribution percentiles and the reciprocal ranks, which are one over the ranks proved here.
- Pool.PoolCandidates: reranking and the scores themselves are parameters.
- Selection.SelectPackets: a candidate carries its collapsed text as a key; collapsing white space is not modelled.
- ChunkStore.ChunkRepo.ReplaceChunks: the hash of a chunk's collapsed text is a field of it; the document's status update and its existence are not part of the model.
- HeaderRepair.RepairHeader: a field name is the bytes before the colon, without the change of letter case that warnings show.
- The re-reading of header values in legacy charsets.
- Leaders.FitToWidth: the share of the excess is exact, where the code computes it in double precision; the two agree while excess times run length is below 2^53.
- The geometry of page layout and the emission of rows, which are floating-point heuristics.
- VectorCache.VectorCache.Put: the nil cache and the mutex are not modelled; each call is atomic, as it is under the lock.
- Admission.StepKeepsInv: only the waits of stub insertion are modelled, which are the ones the order is for; rows written after it are taken not to wait.
