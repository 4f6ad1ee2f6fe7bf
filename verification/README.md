# Fetchit: verified models

Dafny models of the stateful core of Fetchit, a private messenger, fediverse
client and browser: the bridge server's tables and limiter, the device's inbox
synchronisation, follow protocol, caches and encodings, and the desktop tab strip.
`dafny verify dfyconfig.toml` checks the whole project.

| files | what they model |
|---|---|
| `InboxSync`, `InboxRuns`, `InboxLoss`, `InboxSaves` | bridge inbox table and device sync as a transition system with interleaved load, fetch and save steps |
| `FediThreads`, `FediThreadStore`, `StableSorting`, `WhiteSpace` | the device's thread store |
| `FollowStore`, `FollowingRuns`, `FollowQueue`, `FollowDamping`, `DampingOverlap` | follow tables of the bridge, the follow protocol between remote servers, bridge and device, and the damping of deliveries |
| `RateLimiter`, `RateTightness` | token buckets in a bounded map with sampled eviction |
| `JsonText`, `CanonicalJson`, `CanonicalWriter`, `JsonReader`, `ShareCard`, `TextOrder` | canonical JSON, a reader for it, and the signed share card |
| `EventStream`, `EventFrames`, `EventReader`, `Utf8` | server-sent event framing over byte chunks |
| `Reachability` | reachability cache, bridge-loopback shadow and routing |
| `AgentCertificate` | device certificates and their signing input |
| `LikedPosts`, `AvatarCache` | bounded stores with oldest-first eviction |
| `Base64Url`, `BookmarkShare` | share links |
| `TabStore`, `TabNavigation` | tabs and their back stacks |
| `Basics`, `Decimal` | shared types, sets and decimal numbers |

State that the source changes in place is a class whose methods are proved
against functions on values; what the source promises is proved about those
functions, over all runs where the promise is about runs.

## Main results

- **Inbox.** The claim that a cursor never outlives its messages holds throughout
  an interleaving if and only if every delivery and fetch in it is safe; nothing
  else can break it (`RunExact`). A strictly increasing receive clock and note ids
  apart from ours are enough (`CursorNeverSkips`), and repeated syncs then drain
  the bridge (`SyncDrainsIff`). Ties at a page end, and rows arriving in a
  millisecond already read, are lost for good (`TieReachable`,
  `LateArrivalReachable`, `LossIsPermanent`). A save loses nothing exactly when all
  that was persisted since its load is its own (`NothingLostIff`).
- **Follows.** A queued request leaves exactly on one of four causes, and a confirm
  is one only for the id whose Accept was delivered (`LeavesIff`,
  `RequestLeavesOnlyForACause`). A follower is recorded if and only if a confirm
  comes after its last Undo (`FollowerIffStands`). A follow of ours is in the table
  if and only if it was made and neither taken back nor rejected (`PresentIff`), and
  accepted if and only if it was answered (`AcceptedIffAnswered`).
- **Limiter.** Eviction never costs an address admissions (`EvictionNeverCosts`),
  and the rate bound holds with the forward movement of the clock as the measure
  of time (`RateBound`), which is the least measure for which it does
  (`BoundedIff`).
- **Encodings.** Canonical JSON is faithful in both directions
  (`CanonicalFaithful`), and a reader of RFC 8259 gets the value back from it with
  its keys in order (`CanonicalReads`). The card signature covers every field but
  the hints (`SignatureCoversCard`), so a changed card is refused exactly when one
  of those fields changed (`TamperedIsRefused`). The certificate input is injective
  and reads back (`SigningInputInjective`, `LayoutReadsBack`).
- **Streams and caches.** A block of event lines is exactly the frame its lines
  say (`BlockFrame`). The event reader gets the whole text exactly when no
  chunk begins inside a character (`WholeTextIff`), and then its frames do not
  depend on the cutting (`ByteChunkingIndependent`); routing trusts gossip exactly
  on evidence (`GossipCarriesIff`); online eviction of likes equals batch selection
  (`StoreIsNewest`); avatar eviction is minimal (`EnforceBounds`).

## Where the code and its promises part

- Two overlapping operations on the thread store can lose a sent message that was
  already saved (`OverlapDropsSent`); without overlap nothing is ever lost
  (`SerialKeepsEverything`).
- An inbound message whose note id we have used in that thread is taken for a
  repeat and dropped, and the cursor passes it (`SentIdReachable`, `FetchExact`).
- `canonical_thread_label` is not idempotent on handles with a doubled at sign, and
  then the thread list and the unread count disagree (`CanonicalIdempotentIff`,
  `TypedHandleAgreesIff`).
- Each chunk of the event stream is decoded by itself, so a chunk boundary inside a
  character fails both chunks and drops their text (`CutLetterLosesFrame`).
- Frames completed by one chunk come out newest first, and a last line without a
  newline is dropped at the end of the stream (`TwoInOneChunk`, `InOrderIff`,
  `UnterminatedLineIsDropped`).
- Empty data lines at the start of an event leave no newline in its data, unlike
  those behind the first text (`PlainJoinIff`).
- An Undo between a delivered Accept and its confirm is overridden by the confirm
  (`UndoBeforeConfirmIsOverridden`, `UndoStandsIff`).
- A card that already has one of the five reserved keys is signed over a body that
  verification does not rebuild (`VerifyRebuildsIff`).
- The comment on the marks map says that a wrap only resets damping. It does, in
  both directions at once (`InboundSparesIff`, `FloodLetsReassertAgain`).
- A pass marks an attempt some time after it has looked at the marks, so two
  overlapping passes can answer one request twice (`OverlapAttemptsTwice`,
  `SpacedIff`).
- The limiter's callers read the clock before they get its lock, so readings can
  arrive out of order. A step back, however small, is enough for the length of the
  window no longer to bound the admissions; the forward movement of the readings
  does, exactly (`LateReadingBreaksBound`, `BoundedIff`).

## Model

| member | source | states |
|---|---|---|
| `InboxRuns.CursorNeverSkips` | crates/fetchit-chat/src/fedi_dm.rs:222-308 | In every interleaving of deliveries, syncs with any page limits, sends, read marks, overwriting saves and abandoned operations, with strictly increasing positive receive stamps and no inbound id equal to one we send, the stored threads and every loaded copy hold each bridge message up to their cursor exactly once, in its sender's thread |
| `InboxRuns.RunExact` | crates/fetchit-chat/src/fedi_dm.rs:222-308 | In every interleaving the stored threads and every loaded copy hold each bridge message up to their cursor at every moment, if and only if no new row is delivered at or below a cursor some copy has reached, no fetched page is cut inside equal stamps, and no page item has the id of a message we sent in its thread; sends, read marks, saves and crashes are always safe |
| `InboxRuns.RunSound` | crates/fetchit-chat/src/fedi_dm.rs:222-308 | In every run whatsoever every copy is sorted without repeated ids, and its inbound messages are bridge rows in their sender's thread at or below its cursor |
| `InboxRuns.StepExact` | crates/fetchit-chat/src/fedi_dm.rs:222-308 | From a state where the promise holds, one step keeps it exactly when that step is safe |
| `InboxRuns.DisciplinedGood` | crates/fetchit-chat/src/fedi_dm.rs:247-269 | A strictly increasing receive clock and disjoint note ids make every prefix of every run good |
| `InboxRuns.StoredOnce` | crates/fetchit-chat/src/fedi_thread.rs:129-140 | In a good store a bridge message at or below the cursor is in its sender's thread once and in no other thread |
| `InboxSync.DeliverExact` | crates/fetchit-bridge-server/src/store.rs:265-283 | A newly inserted row keeps the promise of a store exactly when its stamp is past the store's cursor |
| `InboxSync.DeliverForeign` | crates/fetchit-bridge-server/src/store.rs:265-283 | A row for another actor changes nothing for this device |
| `InboxSync.InOrderMembers` | crates/fetchit-bridge-server/src/store.rs:291-321 | The listing holds exactly the actor's rows with a stamp strictly after the cursor |
| `InboxSync.InOrderSorted` | crates/fetchit-bridge-server/src/store.rs:291-321 | The listing is in ascending stamp order |
| `InboxSync.InOrderDistinct` | crates/fetchit-bridge-server/src/store.rs:291-321 | The listing shows no row twice |
| `InboxSync.FetchExact` | crates/fetchit-chat/src/fedi_dm.rs:257-269 | Folding a fetched page keeps the promise if and only if LIMIT does not cut a group of equal stamps and no item has the id of a message we sent in its thread |
| `InboxSync.TakeExact` | crates/fetchit-chat/src/fedi_dm.rs:257-269 | The same, for any prefix of the listing and any store that took it |
| `InboxSync.PrefixCovers` | crates/fetchit-chat/src/fedi_dm.rs:257-269 | A prefix that ends between different stamps and has no such id leaves nothing behind the new cursor |
| `InboxSync.SentIdBlocks` | crates/fetchit-chat/src/fedi_thread.rs:134-136 | A bridge item is not stored in a thread where a message we sent has its id |
| `InboxSync.CutLoses` | crates/fetchit-bridge-server/src/store.rs:291-321 | A prefix that ends inside equal stamps leaves the next row out with the cursor already at its stamp |
| `InboxSync.PageStored` | crates/fetchit-chat/src/fedi_thread.rs:159-177 | Every item of a fetched page without such an id ends up stored in its sender's thread |
| `InboxSync.SendKeepsOk` | crates/fetchit-chat/src/fedi_dm.rs:222-227 | Recording a sent message keeps the promise, whatever its id |
| `InboxSync.SendStores` | crates/fetchit-chat/src/fedi_dm.rs:222-227 | A sent message with an id new to its thread is stored there as outbound, with its text, id, stamp, recipient and delivery flag |
| `InboxSync.StoredSays` | crates/fetchit-chat/src/fedi_dm.rs:257-269 | Stored means that the sender's thread has an inbound message with the row's text, id, stamp and sender |
| `InboxSync.MarkKeepsOk` | crates/fetchit-chat/src/fedi_dm.rs:300-308 | Marking a thread read keeps the promise |
| `InboxLoss.SyncTakesPage` | crates/fetchit-chat/src/fedi_dm.rs:257-269 | With distinct stamps one sync takes exactly one page off the front of what is left |
| `InboxLoss.SyncDrainsIff` | crates/fetchit-chat/src/fedi_dm.rs:257-269 | With distinct stamps, n syncs at page limit l with n times l at least the number of waiting rows store every bridge row, exactly when no waiting row has the id of a message we sent in its thread |
| `InboxLoss.LossIsPermanent` | crates/fetchit-chat/src/fedi_dm.rs:257-269 | A row below every copy's cursor and in no copy is never stored again, whatever happens afterwards |
| `InboxLoss.TieCutLoses` | crates/fetchit-bridge-server/src/store.rs:291-321 | When a page ends inside equal stamps, the first row behind the cut is lost once the sync is saved |
| `InboxLoss.LateArrivalLost` | crates/fetchit-bridge-server/src/store.rs:265-283 | In every reachable state with no operation under way, a row received in a millisecond the stored cursor has reached is lost on arrival |
| `InboxLoss.LateArrivalReachable` | crates/fetchit-bridge-server/src/store.rs:265-283 | The run from an empty store: a row is synced and saved, a second one of the same millisecond follows and is lost, at any page limit |
| `InboxLoss.SentIdReachable` | crates/fetchit-chat/src/fedi_thread.rs:134-136 | The run from an empty store: a message is sent and saved, a bridge message with its note id follows in that thread, is synced, and is lost, at any page limit |
| `InboxLoss.TieReachable` | crates/fetchit-bridge-server/src/routes/inbox.rs:676-676 | At every page limit, the route's 200 among them, one row more than a page holds, all received in one millisecond, loses the last one: the run from an empty store |
| `InboxSaves.NothingLostIff` | crates/fetchit-chat/src/fedi_dm.rs:222-308 | Over a whole run no event takes a message off the disk, if and only if for every save all that was persisted since its load was inserted by its own operation |
| `InboxSaves.SaveKeepsIff` | crates/fetchit-chat/src/fedi_dm.rs:222-308 | The same for each single save |
| `InboxSaves.CopyHolds` | crates/fetchit-chat/src/fedi_dm.rs:222-308 | An open copy holds what was on disk when it was loaded and what its own fetch or send inserted since, and nothing else |
| `InboxSaves.NeverLosesForever` | crates/fetchit-chat/src/fedi_dm.rs:222-308 | Then what was on disk once is on disk ever after |
| `InboxSaves.SerialKeepsEverything` | crates/fetchit-chat/src/fedi_dm.rs:216-308 | Operations that never overlap lose nothing |
| `InboxSaves.OverlapDropsSent` | crates/fetchit-chat/src/fedi_dm.rs:222-269 | The run from an empty store in which a sync has fetched, a message is sent and saved, and the sync's save drops it, at any page limit |
| `FediThreads.CanonicalIdempotentIff` | crates/fetchit-chat/src/fedi_thread.rs:43-47 | The canonical label is idempotent on a handle exactly unless its trimmed form has an at sign in front of another at sign or white space |
| `FediThreads.FixedPointIff` | crates/fetchit-chat/src/fedi_thread.rs:43-47 | Which lower-cased strings are fixed points of the canonical label |
| `FediThreads.LabelParts` | crates/fetchit-chat/src/fedi_thread.rs:43-47 | A handle is white space, at most one at sign, the name and white space; its label is the name with capital letters made small, and nothing else is taken off |
| `FediThreads.DoubledAtIsNotAFixedPoint` | crates/fetchit-chat/src/fedi_thread.rs:43-47 | A concrete handle whose canonical label is not canonical |
| `FediThreads.InsertSplits` | crates/fetchit-chat/src/fedi_thread.rs:129-140 | A new message goes behind every message stamped no later, before every later one, and nothing else moves |
| `FediThreads.InsertKeepsWellFormed` | crates/fetchit-chat/src/fedi_thread.rs:129-140 | Insertion keeps every thread sorted by stamp with unique note ids |
| `FediThreads.InsertMembers` | crates/fetchit-chat/src/fedi_thread.rs:129-140 | Insertion adds exactly the message if its id is new to the thread; other threads, cursor and read marks stay |
| `FediThreads.ThreadIsSortedArrivals` | crates/fetchit-chat/src/fedi_thread.rs:123-140 | Whatever the interleaving, a thread is the stable sort of the first arrivals of each note id in it |
| `StableSorting.StableSortCorrect` | crates/fetchit-chat/src/fedi_thread.rs:138-138 | The sort orders by key and leaves the subsequence of each key unchanged, so it is a stable permutation |
| `FediThreads.FoldMembers` | crates/fetchit-chat/src/fedi_thread.rs:159-177 | A folded store holds what it held plus exactly the new items, each in its sender's thread |
| `FediThreads.FoldStores` | crates/fetchit-chat/src/fedi_thread.rs:159-177 | After a fold each new item is said exactly once in its sender's thread: one inbound message with its id, and that message has its text, receive stamp and sender |
| `FediThreads.FoldKeepsWellFormed` | crates/fetchit-chat/src/fedi_thread.rs:159-177 | Folding a batch keeps every thread sorted with unique note ids |
| `FediThreads.FoldCursor` | crates/fetchit-chat/src/fedi_thread.rs:159-162 | The cursor never moves back, is at or past every folded item, and if it moved it is the stamp of one |
| `FediThreads.MarkReadClears` | crates/fetchit-chat/src/fedi_thread.rs:183-211 | Marking a thread read makes its unread count 0 and changes no other thread's |
| `FediThreads.MarkIsNewest` | crates/fetchit-chat/src/fedi_thread.rs:196-211 | The mark moves to the newest stamp of the thread and no further, never back, and touches nothing else |
| `FediThreads.MarkReadRearms` | crates/fetchit-chat/src/fedi_thread.rs:183-211 | A later inbound message after marking counts as exactly one unread |
| `FediThreads.NewerCounts` | crates/fetchit-chat/src/fedi_thread.rs:94-102 | The count is the number of positions with an inbound message stamped after the mark |
| `FediThreads.FoldNewer` | crates/fetchit-chat/src/fedi_thread.rs:94-102 | The inbound messages newer than a mark grow by exactly the batch rows new to the thread and newer than the mark |
| `FediThreads.FoldRaisesUnread` | crates/fetchit-chat/src/fedi_thread.rs:159-190 | A folded batch raises a thread's unread count by exactly the rows new to it and newer than its read mark, saturating at the 32-bit maximum |
| `FediThreadStore.Store.constructor` | crates/fetchit-chat/src/fedi_thread.rs:72-92 | A store starts as the given value |
| `FediThreadStore.Store.Insert` | crates/fetchit-chat/src/fedi_thread.rs:129-140 | The in-place insertion refines the value-level one and reports whether the id was new |
| `FediThreadStore.Store.FoldInbox` | crates/fetchit-chat/src/fedi_thread.rs:159-177 | The fold loop refines the value-level fold and counts exactly the newly stored rows |
| `FediThreadStore.Store.FoldOne` | crates/fetchit-chat/src/fedi_thread.rs:161-175 | One turn of the loop: cursor first, then the insertion |
| `FediThreadStore.Store.MarkRead` | crates/fetchit-chat/src/fedi_thread.rs:196-211 | Refines the value-level mark and reports exactly whether the store changed |
| `FediThreadStore.Store.Overview` | crates/fetchit-chat/src/fedi_thread.rs:217-239 | The loop yields one row per non-empty thread, newest first with the label breaking ties |
| `FediThreadStore.OverviewUnique` | crates/fetchit-chat/src/fedi_thread.rs:217-239 | That description determines the overview |
| `FediThreadStore.OverviewShowsNewest` | crates/fetchit-chat/src/fedi_thread.rs:217-239 | A row shows text, stamp and direction of the newest message of its thread and counts the inbound ones after its read mark, saturating |
| `FediThreadStore.OverviewRunsBackwards` | crates/fetchit-chat/src/fedi_thread.rs:217-239 | The list runs from the latest activity to the earliest, equal stamps in label order, and has exactly the threads with messages |
| `FediThreadStore.BadgeAgreesIff` | crates/fetchit-chat/src/fedi_thread.rs:183-239 | A thread's badge in the overview equals the unread count looked up by its label in every store, if and only if the label is a fixed point of the canonical label |
| `FediThreadStore.TypedHandleAgreesIff` | crates/fetchit-chat/src/fedi_thread.rs:43-47 | For a handle as typed: exactly unless its trimmed form has an at sign in front of another at sign or white space |
| `FediThreadStore.FirstMessageDisagrees` | crates/fetchit-chat/src/fedi_thread.rs:183-239 | For every label that is not a fixed point, a store with one inbound message shows one unread in the list and none in the look-up |
| `FollowQueue.RequestLeavesOnlyForACause` | crates/fetchit-chat/src/fedi_follow_sync.rs:180-275 | Over every run, a queued request that is gone left at some step by a replacing Follow, an Undo, the cap, or a confirm carrying its very id after an Accept echoing that id was delivered |
| `FollowQueue.LeavesForACause` | crates/fetchit-bridge-server/src/store_follow.rs:449-467 | The same for one step of any run |
| `FollowQueue.LeavesIff` | crates/fetchit-bridge-server/src/store_follow.rs:352-467 | At each step of any run a waiting request leaves if and only if another id of the same follower replaces it, 200 others rank ahead of it, its follower undoes it, or a recorded confirm names its very id |
| `FollowQueue.ConfirmConsumes` | crates/fetchit-bridge-server/src/store_follow.rs:449-467 | A recorded confirm of the queued id, and an Undo, remove that request and leave every other row as it is |
| `FollowQueue.RecordedIff` | crates/fetchit-bridge-server/src/routes/follow.rs:310-355 | A confirm counts as recorded exactly when it came after its Accept was delivered |
| `FollowQueue.OlderConfirmSpares` | crates/fetchit-bridge-server/src/store_follow.rs:449-467 | A confirm for another Follow id, or for another follower, leaves the request waiting |
| `FollowQueue.QueueStaysBounded` | crates/fetchit-bridge-server/src/store_follow.rs:352-397 | In every interleaving each actor's queue holds at most 200 requests |
| `FollowQueue.TrimDropsOldest` | crates/fetchit-bridge-server/src/store_follow.rs:352-397 | Trimming drops only rows no newer than every row kept, none below the cap, and none of another actor |
| `FollowQueue.NewestSurvives` | crates/fetchit-bridge-server/src/store_follow.rs:352-397 | A request received strictly after every other one of its actor survives its own trimming, with the inbox, id and clamped time it came with |
| `FollowQueue.CapDropsIff` | crates/fetchit-bridge-server/src/store_follow.rs:352-397 | Over every run, when a Follow reaches its actor's queue, a request of that actor is dropped by the cap exactly when 200 others rank ahead of it, and is otherwise left as it is |
| `FollowQueue.AheadIsNewer` | crates/fetchit-bridge-server/src/store_follow.rs:352-397 | Ranked ahead of a request are all strictly newer ones of its actor and none older |
| `FollowQueue.FollowerIffStands` | crates/fetchit-bridge-server/src/routes/follow.rs:310-355 | Over every run a follower is recorded if and only if a confirm of a delivered Accept recorded it and no Undo for it came after that confirm |
| `FollowQueue.FollowerInboxIsFirst` | crates/fetchit-bridge-server/src/store_follow.rs:264-291 | Over every run a follower's inbox is that of the confirm that put it on the list since its last Undo; later confirms do not change it |
| `FollowQueue.UndoStandsIff` | crates/fetchit-bridge-server/src/routes/inbox.rs:616-650 | The last Undo for a follower stands exactly when no confirm of a delivered Accept comes after it |
| `FollowQueue.DeliveredIff` | crates/fetchit-chat/src/fedi_follow_sync.rs:180-275 | An Accept counts as delivered exactly when the device listed the waiting request and then delivered for it |
| `FollowQueue.FollowersWereAnswered` | crates/fetchit-bridge-server/src/routes/follow.rs:310-355 | Every recorded follower was listed while waiting, answered and then confirmed |
| `FollowQueue.UndoBeforeConfirmIsOverridden` | crates/fetchit-bridge-server/src/routes/inbox.rs:616-650 | The run from an empty bridge in which the Undo falls between the delivered Accept and its confirm: the confirm records the follower all the same |
| `FollowingRuns.AcceptedIffAnswered` | crates/fetchit-bridge-server/src/store_follow.rs:83-231 | Over every run each row goes back to one insert, and it is accepted if and only if after that insert an Accept came with its activity id, from its target, for its owner |
| `FollowingRuns.PresentIff` | crates/fetchit-bridge-server/src/store_follow.rs:83-231 | Over every run a follow is in the table if and only if some request inserted it and neither an unfollow nor a Reject from its target with its id came after |
| `FollowingRuns.RunUnique` | crates/fetchit-bridge-server/src/store.rs:95-104 | Activity ids are unique in every reachable table |
| `FollowingRuns.AcceptExact` | crates/fetchit-bridge-server/src/store_follow.rs:148-169 | An Accept changes the table exactly when id, sender and recipient match a pending row, and then flips that row alone |
| `FollowingRuns.RejectExact` | crates/fetchit-bridge-server/src/store_follow.rs:178-196 | A Reject changes the table exactly when its sender is the target of the row with that id, and then removes that row alone |
| `FollowStore.Store.constructor` | crates/fetchit-bridge-server/src/store.rs:76-145 | The tables start empty |
| `FollowStore.Store.FollowRequest` | crates/fetchit-bridge-server/src/store_follow.rs:83-128 | Inserts a pending row, or reports the row that is there, or a constraint failure on a taken id; the table changes in the first case only |
| `FollowStore.Store.FollowAccepted` | crates/fetchit-bridge-server/src/store_follow.rs:148-169 | Refines the table-level Accept and reports exactly whether a row flipped |
| `FollowStore.Store.FollowRejected` | crates/fetchit-bridge-server/src/store_follow.rs:178-196 | Refines the table-level Reject and reports exactly whether a row went |
| `FollowStore.Store.Unfollow` | crates/fetchit-bridge-server/src/store_follow.rs:204-231 | Removes the row and returns it |
| `FollowStore.Store.AddFollower` | crates/fetchit-bridge-server/src/store_follow.rs:264-291 | Performs the record step of the follow protocol, whose outcome over runs FollowQueue.FollowerIffStands gives; reports exactly whether the table changed |
| `FollowStore.Store.RemoveFollower` | crates/fetchit-bridge-server/src/store_follow.rs:298-313 | Performs the Undo step of the follow protocol on the followers; reports exactly whether the table changed |
| `FollowStore.Store.AddFollowRequest` | crates/fetchit-bridge-server/src/store_follow.rs:352-397 | Upserts the request, then trims the actor's queue |
| `FollowStore.Store.RemoveFollowRequest` | crates/fetchit-bridge-server/src/store_follow.rs:449-467 | Removes the request when no id is given or the id matches, and reports exactly whether a row went |
| `FollowStore.Store.HasId` | crates/fetchit-bridge-server/src/store.rs:95-104 | The scan decides whether any row carries an activity id |
| `FollowDamping.AttemptsSpaced` | crates/fetchit-chat/src/fedi_follow_sync.rs:60-113 | In passes that do not overlap, two attempts for one id in one direction are at least the cooldown apart, within and across passes and for any clock, unless the marks were cleared between them |
| `FollowDamping.SendsIff` | crates/fetchit-chat/src/fedi_follow_sync.rs:96-113 | A queued follow is answered exactly when it may be and its last attempt is ten minutes past; a follow of ours is re-sent exactly when it is pending with an inbox, ten minutes old and not attempted for thirty |
| `FollowDamping.NeverAnswersDenied` | crates/fetchit-chat/src/fedi_follow_sync.rs:198-230 | No pass answers a denylisted request or one whose inbox does not parse, whatever the marks |
| `FollowDamping.NeverResendsYoung` | crates/fetchit-chat/src/fedi_follow_sync.rs:295-306 | No pass re-sends a follow that is not pending, has no inbox, or is younger than ten minutes, whatever the marks |
| `DampingOverlap.SpacedIff` | crates/fetchit-chat/src/fedi_follow_sync.rs:198-230 | With passes that overlap between look and mark, all finished and the marks not cleared: all attempts for an id are a cooldown apart, if and only if at each attempt no other pass is between its look and its mark for that id with a time less than a cooldown later |
| `DampingOverlap.OverlapAttemptsTwice` | crates/fetchit-chat/src/fedi_follow_sync.rs:198-230 | Two passes that look before either marks attempt the same request twice in one millisecond |
| `DampingOverlap.SeriallyIsRun` | crates/fetchit-chat/src/fedi_follow_sync.rs:198-230 | Passes that do not overlap are exactly the runs of visits |
| `FollowDamping.MarkStays` | crates/fetchit-chat/src/fedi_follow_sync.rs:72-81 | Without a clear an attempt's mark stays and only moves later |
| `FollowDamping.MarksBounded` | crates/fetchit-chat/src/fedi_follow_sync.rs:72-81 | The marks map never exceeds 10,001 entries |
| `FollowDamping.KeysApart` | crates/fetchit-chat/src/fedi_follow_sync.rs:83-93 | Mark keys of the two directions never coincide and are injective in the id |
| `FollowDamping.InboundIdsDoNotInterfere` | crates/fetchit-chat/src/fedi_follow_sync.rs:83-113 | As long as nothing clears the marks, the outbound marks of a run are those of the run without its inbound rows |
| `FollowDamping.InboundIdsChangeNoReassert` | crates/fetchit-chat/src/fedi_follow_sync.rs:295-306 | As long as nothing clears the marks, every re-assert decision is the one taken had no inbound follow been seen |
| `FollowDamping.InboundSparesIff` | crates/fetchit-chat/src/fedi_follow_sync.rs:74-81 | An inbound row leaves the outbound marks as they are exactly unless it clears a map that holds one |
| `FollowDamping.FloodLetsReassertAgain` | crates/fetchit-chat/src/fedi_follow_sync.rs:74-113 | The run from empty marks: a follow is re-asserted, 10,001 follows of different ids arrive at whatever times, and it is re-asserted again inside its cooldown; after 10,000 it is not |
| `FollowDamping.Damper.constructor` | crates/fetchit-chat/src/fedi_follow_sync.rs:60-63 | The marks start empty |
| `FollowDamping.Damper.MarkAttempt` | crates/fetchit-chat/src/fedi_follow_sync.rs:72-81 | Clears an oversized map, then records |
| `FollowDamping.Damper.AcceptQueued` | crates/fetchit-chat/src/fedi_follow_sync.rs:180-275 | The loop over queued requests marks and sends exactly as the run of its visits, and counts the sends that the transport takes |
| `FollowDamping.Damper.ReassertPending` | crates/fetchit-chat/src/fedi_follow_sync.rs:279-336 | The loop over follow rows marks and sends exactly as the run of its visits, and counts the sends that the transport takes |
| `RateLimiter.EvictionNeverCosts` | crates/fetchit-bridge-server/src/ratelimit.rs:74-107 | For every trace, every evicted sample and any clock, each address has at each moment been admitted at least as often as by the limiter without a bound, and is also ahead in admissions plus tokens |
| `RateLimiter.SameAddressStep` | crates/fetchit-bridge-server/src/ratelimit.rs:94-106 | That lead survives one charge of the same address in both limiters |
| `RateLimiter.DecisionsMayDiffer` | crates/fetchit-bridge-server/src/ratelimit.rs:74-107 | Single decisions may differ: a trace after which the bounded limiter refuses what the unbounded one admits |
| `RateLimiter.RateBound` | crates/fetchit-bridge-server/src/ratelimit.rs:94-106 | In any window in which an address keeps its bucket its admissions are at most capacity plus refill times the forward movement of the clock |
| `RateLimiter.RateBoundMonotone` | crates/fetchit-bridge-server/src/ratelimit.rs:56-107 | With a nondecreasing clock that is capacity plus refill times the window length |
| `RateTightness.BoundedIff` | crates/fetchit-bridge-server/src/ratelimit.rs:74-107 | For any clock readings, capacity plus refill times w bounds the admissions of every limiter and every burst of requests at those readings, if and only if the clock moved forward by at most w between them |
| `RateTightness.TightBurst` | crates/fetchit-bridge-server/src/ratelimit.rs:94-106 | For any smaller w a limiter with whole capacity and a burst that exceeds it |
| `RateTightness.OrderedReadingsBounded` | crates/fetchit-bridge-server/src/ratelimit.rs:74-107 | For readings in order: if and only if w is at least the length of their window |
| `RateTightness.LateReadingBreaksBound` | crates/fetchit-bridge-server/src/ratelimit.rs:74-80 | Readings taken before the lock and arriving out of order, with a step back of any positive size: four readings not bounded by the length of their window |
| `RateTightness.BurstEnumerates` | crates/fetchit-bridge-server/src/ratelimit.rs:74-107 | A burst is a run of the limiter: each request meets the map as the requests before left it |
| `RateLimiter.RunKeepsBounds` | crates/fetchit-bridge-server/src/ratelimit.rs:56-107 | Along every trace tokens stay between 0 and capacity and the map within its bound |
| `RateLimiter.CheckFrame` | crates/fetchit-bridge-server/src/ratelimit.rs:74-107 | A check touches no other bucket, and drops at most one address, from a full map, least recently refilled of a sample of at most eight |
| `RateLimiter.CheckKeepsTokens` | crates/fetchit-bridge-server/src/ratelimit.rs:94-106 | One check keeps tokens between 0 and capacity |
| `RateLimiter.CheckKeepsSize` | crates/fetchit-bridge-server/src/ratelimit.rs:82-97 | One check keeps the map within its bound |
| `RateLimiter.VictimIsOldest` | crates/fetchit-bridge-server/src/ratelimit.rs:85-90 | The scan's victim is a least recently refilled address of a sample of at most eight |
| `RateLimiter.Limiter.constructor` | crates/fetchit-bridge-server/src/ratelimit.rs:56-63 | An empty map and a bound of at least one |
| `RateLimiter.Limiter.FindVictim` | crates/fetchit-bridge-server/src/ratelimit.rs:85-90 | The scan over the first eight entries finds the specified victim |
| `RateLimiter.Limiter.Check` | crates/fetchit-bridge-server/src/ratelimit.rs:74-107 | The in-place check refines the value-level one; a disabled limiter admits and changes nothing |
| `RateLimiter.Limiter.Charge` | crates/fetchit-bridge-server/src/ratelimit.rs:94-106 | Refill, then take a token if there is one |
| `CanonicalJson.CanonicalFaithful` | crates/fetchit-chat/src/card.rs:442-491 | Two values have the same canonical text if and only if they are equal up to object key order at every depth |
| `JsonReader.CanonicalReads` | crates/fetchit-chat/src/card.rs:442-491 | A reader of the grammar of RFC 8259 consumes the whole canonical text and gives the value back, up to key order, with the keys of every object in order |
| `JsonReader.ReadEmit` | crates/fetchit-chat/src/card.rs:449-491 | That reader gets back any value from its text, in front of whatever follows |
| `JsonReader.EscapeIs` | crates/fetchit-chat/src/card.rs:458-462 | Exactly quotes, backslashes and control characters are escaped, seven of them with two characters and the others with six |
| `CanonicalJson.NormalThenSame` | crates/fetchit-chat/src/card.rs:449-491 | Equal sorted forms mean equality up to key order |
| `CanonicalJson.SameThenNormal` | crates/fetchit-chat/src/card.rs:449-491 | Equality up to key order means equal sorted forms |
| `CanonicalJson.SortAscending` | crates/fetchit-chat/src/card.rs:475-476 | The members come out in strictly ascending key order |
| `CanonicalJson.SortOrdersKeys` | crates/fetchit-chat/src/card.rs:475-476 | That order is by prefix or by the smaller character at the first difference, and no member is lost or added |
| `TextOrder.LessIff` | crates/fetchit-chat/src/card.rs:475-476 | One string is before another exactly when it is a proper prefix of it or has the smaller character where they first differ |
| `CanonicalJson.AscendingUnique` | crates/fetchit-chat/src/card.rs:475-476 | Ascending order of a set of members is unique |
| `JsonText.EmitUnique` | crates/fetchit-chat/src/card.rs:449-491 | The text of a value determines the value and what follows it |
| `JsonText.QuoteUnique` | crates/fetchit-chat/src/card.rs:458-462 | A quoted string determines its content and what follows |
| `JsonText.EscapeUnique` | crates/fetchit-chat/src/card.rs:458-462 | Escapes form a prefix code |
| `JsonText.LexemeInjective` | crates/fetchit-chat/src/card.rs:456-457 | Different numbers have different texts |
| `JsonText.ItemsUnique` | crates/fetchit-chat/src/card.rs:463-472 | The text of an array body determines its items and what follows |
| `JsonText.MembersUnique` | crates/fetchit-chat/src/card.rs:473-488 | The text of an object body determines its members and what follows |
| `CanonicalWriter.WriteCanonical` | crates/fetchit-chat/src/card.rs:449-491 | The buffer-appending recursion writes exactly the canonical text behind what was there |
| `CanonicalWriter.WriteArray` | crates/fetchit-chat/src/card.rs:463-472 | The same for the loop over items |
| `CanonicalWriter.WriteObject` | crates/fetchit-chat/src/card.rs:473-488 | The same for the loop over sorted keys with a look-up of each |
| `CanonicalWriter.SortKeysFollows` | crates/fetchit-chat/src/card.rs:475-476 | Sorting the keys gives the keys of the sorted members |
| `CanonicalWriter.SortedKeyAt` | crates/fetchit-chat/src/card.rs:475-485 | Each sorted key looks up the member at the same place of the sorted object |
| `CanonicalWriter.Find` | crates/fetchit-chat/src/card.rs:485-485 | The look-up finds a member with the key |
| `ShareCard.VerifyRebuildsIff` | crates/fetchit-chat/src/card.rs:185-247 | Verification rebuilds the signed body character for character exactly when the card had none of the five reserved keys, whatever the hints |
| `ShareCard.ExtendThenVerify` | crates/fetchit-chat/src/card.rs:353-430 | A card extended by an honest signer verifies and yields its own fields |
| `ShareCard.TamperedIsRefused` | crates/fetchit-chat/src/card.rs:353-430 | With signatures that fit one body only, a card carrying the signature of an extended card is accepted if and only if it agrees with that card, up to key order, on every field but the hints |
| `ShareCard.VerifyAcceptsIff` | crates/fetchit-chat/src/card.rs:353-430 | An extension is returned if and only if version 1, both keys and the signature are there as strings with those values and the check takes the rebuilt body |
| `ShareCard.VerifyRefuses` | crates/fetchit-chat/src/card.rs:353-430 | Refused: what is no object, lacks a field or has another version, or fails the check |
| `ShareCard.HintsDoNotMatter` | crates/fetchit-chat/src/card.rs:353-430 | Writing, replacing or removing the hints changes no verdict |
| `ShareCard.SignatureCoversCard` | crates/fetchit-chat/src/card.rs:382-430 | Two cards give the check the same body and signature exactly when they agree, up to key order, on every field but the hints |
| `ShareCard.StripRestoresIff` | crates/fetchit-chat/src/card.rs:382-409 | Stripping restores the original card's text exactly when it had no reserved key |
| `ShareCard.ExtendedFields` | crates/fetchit-chat/src/card.rs:185-247 | The extension stamps its four fields, writes the hints if given, and leaves everything outside the reserved keys |
| `ShareCard.SameByField` | crates/fetchit-chat/src/card.rs:442-491 | Objects are equal up to key order exactly when every field is |
| `EventReader.WholeTextIff` | crates/fetchit-chat/src/events.rs:148-158 | For every cutting of a valid UTF-8 byte stream, the reader gets hold of the whole text if and only if no chunk begins inside a character |
| `EventReader.ByteChunkingIndependent` | crates/fetchit-chat/src/events.rs:124-180 | Then completed frames, open frame and open line are those of the whole text, however it was cut |
| `EventReader.SameBytesSameFrames` | crates/fetchit-chat/src/events.rs:124-180 | So two such cuttings of the same bytes end in the same frames and state |
| `EventReader.CutInsideLosesBoth` | crates/fetchit-chat/src/events.rs:149-157 | A cut inside a character fails both chunks and loses the text of both |
| `EventReader.CutLetterLosesFrame` | crates/fetchit-chat/src/events.rs:149-157 | A data frame with one accented letter: whole it is an event, cut between the letter's two bytes it is two errors and no event |
| `EventReader.StreamIsPerChunkReversal` | crates/fetchit-chat/src/events.rs:124-180 | Whatever the source yields, the frames handed out are, for each chunk that could be read and decoded, those it completed newest first, then the frame left open at the end if it has content |
| `Utf8.TakenWholeIff` | crates/fetchit-chat/src/events.rs:148-158 | Decoding chunk by chunk takes the whole of a valid stream exactly when no chunk begins with a continuation byte |
| `Utf8.TakenWholeIffEachValid` | crates/fetchit-chat/src/events.rs:148-158 | Equivalently, exactly when every chunk is valid by itself |
| `Utf8.CutIff` | crates/fetchit-chat/src/events.rs:149-149 | A cut of a valid text leaves two valid parts in front of a byte that is no continuation, and otherwise two invalid ones |
| `Utf8.DecodeEncode` | crates/fetchit-chat/src/events.rs:149-149 | The decoder inverts the encoding of section 3 of RFC 3629 |
| `Utf8.EncodeDecode` | crates/fetchit-chat/src/events.rs:149-149 | What the decoder accepts is the encoding of what it returns |
| `Utf8.RfcExamples` | crates/fetchit-chat/src/events.rs:149-149 | Characters of the examples of RFC 3629, of one to four bytes |
| `EventReader.ErrorsAreTransparent` | crates/fetchit-chat/src/events.rs:145-157 | A chunk that cannot be read or decoded yields its error in its place and its bytes are gone; line and frame under construction survive |
| `EventReader.UnterminatedLineIsDropped` | crates/fetchit-chat/src/events.rs:137-174 | Text behind the last newline is never handed out |
| `EventReader.Reader.constructor` | crates/fetchit-chat/src/events.rs:128-131 | Nothing is buffered at first |
| `EventReader.Reader.Next` | crates/fetchit-chat/src/events.rs:124-180 | Each poll hands out the first item of the specified stream, and ends exactly when it is exhausted |
| `EventReader.Reader.TakeText` | crates/fetchit-chat/src/events.rs:158-174 | The inner loop consumes complete lines exactly as the scan |
| `EventReader.Reader.TakeLine` | crates/fetchit-chat/src/events.rs:160-173 | One line updates the frame under construction, a blank one completes it |
| `EventStream.ChunkingIndependent` | crates/fetchit-chat/src/events.rs:158-174 | Completed frames, partial line and open frame depend only on the text received, not on how it was cut |
| `EventStream.SameTextSameFrames` | crates/fetchit-chat/src/events.rs:158-174 | Two ways of cutting one text end in the same frames and state |
| `EventStream.ScanConcat` | crates/fetchit-chat/src/events.rs:158-174 | Scanning a text in two parts completes the same frames as scanning it whole |
| `EventStream.ScanIsLineFold` | crates/fetchit-chat/src/events.rs:158-174 | The scan is splitting into lines and folding the lines into frames |
| `EventFrames.BlockFrame` | crates/fetchit-chat/src/events.rs:158-174 | Lines and a blank one hand out the last event line's text, trimmed, and the data lines' texts without leading white space, joined by newlines from the first non-empty one on; a block without content hands out nothing |
| `EventFrames.PlainJoinIff` | crates/fetchit-chat/src/events.rs:168-172 | That is the plain join of the data lines exactly unless there are several and the first is empty |
| `EventFrames.TrimCrParts` | crates/fetchit-chat/src/events.rs:161-161 | All carriage returns at the end of a line are taken off and nothing else |
| `EventStream.HandOutPermutes` | crates/fetchit-chat/src/events.rs:134-174 | No frame is lost, added or doubled by the hand-out order |
| `EventStream.InOrderIff` | crates/fetchit-chat/src/events.rs:134-174 | Frames come out in arrival order exactly when each chunk's completed frames read the same backwards |
| `EventStream.AtMostOnePerChunk` | crates/fetchit-chat/src/events.rs:134-174 | In particular when no chunk completes two frames |
| `EventStream.FewBlanksKeepOrder` | crates/fetchit-chat/src/events.rs:134-174 | And so when no chunk's own text has two blank lines, whatever was left from the chunk before |
| `EventStream.TwoInOneChunk` | crates/fetchit-chat/src/events.rs:134-174 | Any two one-line data frames in one chunk come out in the wrong order |
| `EventStream.DifferentEndsReorder` | crates/fetchit-chat/src/events.rs:134-174 | Order is lost whenever the first and the last frame some chunk completes differ |
| `Reachability.GossipCarriesIff` | crates/fetchit-chat/src/groups_reachability.rs:463-478 | Over every run with a nondecreasing clock, routing lets gossip carry exactly on evidence: within 60 s a metadata frame for the group from that non-local member, with no bridge mark on the hash of its payload in the 30 s before, and not forgotten since |
| `Reachability.ConsentDecides` | crates/fetchit-chat/src/groups_reachability.rs:463-478 | Without that evidence: sent over the bridge exactly when the group opted in, dropped exactly when it opted out, asked for otherwise |
| `Reachability.ReachableIff` | crates/fetchit-chat/src/groups_reachability.rs:96-114 | The cache finds a member reachable exactly on that evidence |
| `Reachability.ShadowIff` | crates/fetchit-chat/src/groups_reachability.rs:345-367 | The shadow answers exactly whether the history has a mark within the window |
| `Reachability.SweepsAreInvisible` | crates/fetchit-chat/src/groups_reachability.rs:364-367 | Sweeping with any cutoff of at least the window changes no answer then or later |
| `Reachability.SmallCutoffUnmasks` | crates/fetchit-chat/src/groups_reachability.rs:364-367 | Every smaller cutoff has a run in which a bridge loopback counts as reachability |
| `Reachability.TopicRoundTrip` | crates/fetchit-chat/src/groups_reachability.rs:402-406 | A topic parses to a group id exactly when it is the metadata topic of that well-formed id |
| `Reachability.GroupIdIsSegment` | crates/fetchit-chat/src/groups_reachability.rs:402-406 | A parsed group id is not empty and has only letters, digits, underscores and hyphens |
| `Reachability.EqIgnoreCaseIff` | crates/fetchit-chat/src/groups_reachability.rs:437-454 | The local sender is recognised whatever the case of the ASCII letters of its id, and no other id is |
| `Reachability.Tracker.constructor` | crates/fetchit-chat/src/groups_reachability.rs:86-88 | Cache and shadow start empty |
| `Reachability.Tracker.Mark` | crates/fetchit-chat/src/groups_reachability.rs:345-347 | Marking refines the history step |
| `Reachability.Tracker.EvictOlderThan` | crates/fetchit-chat/src/groups_reachability.rs:364-367 | Sweeping refines the history step |
| `Reachability.Tracker.OnGossip` | crates/fetchit-chat/src/groups_reachability.rs:437-454 | The recorder's reaction refines the history step |
| `Reachability.Tracker.Forget` | crates/fetchit-chat/src/groups_reachability.rs:118-120 | Forgetting refines the history step |
| `AgentCertificate.SigningInputInjective` | crates/fetchit-chat/src/fabric.rs:199-214 | Two certificates with fields below 2^32 bytes have the same signing input exactly when all five fields are equal |
| `AgentCertificate.MintedVerifiesAlone` | crates/fetchit-chat/src/fabric.rs:225-313 | With ideal signatures every minted certificate verifies under its user key, and its signature fits no certificate with a changed field |
| `AgentCertificate.MintStates` | crates/fetchit-chat/src/fabric.rs:225-258 | Minting refuses exactly a foreign device key or an oversized field, and otherwise states what was asked for, under the user id of the signing key |
| `AgentCertificate.RefusesForeign` | crates/fetchit-chat/src/fabric.rs:272-313 | A certificate of another account, for a foreign device key or with a failing signature is refused |
| `AgentCertificate.LayoutReadsBack` | crates/fetchit-chat/src/fabric.rs:199-214 | Reading the signing input field by field, in the order of the layout, gives all five fields back |
| `AgentCertificate.DomainText` | crates/fetchit-chat/src/fabric.rs:51-51 | The input begins with the domain separator |
| `AgentCertificate.LpUnique` | crates/fetchit-chat/src/fabric.rs:177-187 | A length-prefixed field determines its content and what follows |
| `AgentCertificate.BigEndianInjective` | crates/fetchit-chat/src/fabric.rs:177-214 | Fixed-width big-endian numbers are injective below the width |
| `AgentCertificate.PushLp` | crates/fetchit-chat/src/fabric.rs:177-187 | Appends one length-prefixed field, or refuses a field of 2^32 bytes or more |
| `AgentCertificate.BuildSigningInput` | crates/fetchit-chat/src/fabric.rs:199-214 | The field-by-field buffer is the specified layout, or the refusal |
| `LikedPosts.StoreIsNewest` | crates/fetchit-chat/src/fedi_like.rs:63-97 | After any run of likes in which no post's stamp decreases, the store is exactly the 2000 greatest stamp and URL pairs over every post's latest like |
| `LikedPosts.LikeKeepsNewestIff` | crates/fetchit-chat/src/fedi_like.rs:63-97 | One like keeps the store the newest 2000 exactly when it does not make a remembered post older than a forgotten one |
| `LikedPosts.ForgottenOnlyForNewer` | crates/fetchit-chat/src/fedi_like.rs:63-97 | Over every run of likes and unlikes and any clock, a like that is gone without an unlike has at least 2000 other posts with a newer like |
| `LikedPosts.NewestUnique` | crates/fetchit-chat/src/fedi_like.rs:83-97 | Which entries are the newest is determined |
| `LikedPosts.AlwaysBounded` | crates/fetchit-chat/src/fedi_like.rs:39-97 | The store never holds more than 2000 posts |
| `LikedPosts.EveryEntryWasLiked` | crates/fetchit-chat/src/fedi_like.rs:60-75 | Every entry is the stamp of an actual like of that post |
| `LikedPosts.Store.constructor` | crates/fetchit-chat/src/fedi_like.rs:44-51 | A fresh store is empty |
| `LikedPosts.Store.FindOldest` | crates/fetchit-chat/src/fedi_like.rs:85-92 | The scan finds the least stamp and URL pair |
| `LikedPosts.Store.Evict` | crates/fetchit-chat/src/fedi_like.rs:83-97 | The loop leaves exactly the newest 2000 of what was there |
| `LikedPosts.Store.Like` | crates/fetchit-chat/src/fedi_like.rs:60-69 | A like of a new post inserts and evicts and says so; of a known one it only refreshes the stamp |
| `LikedPosts.Store.Unlike` | crates/fetchit-chat/src/fedi_like.rs:71-75 | Removes the post and reports whether it was there |
| `AvatarCache.Cache.EnforceBounds` | crates/fetchit-chat/src/fedi_avatar.rs:316-363 | The loop removes exactly the shortest run of oldest unpinned entries that meets both bounds, or all unpinned ones; its running count and total are those of what is left; a failed delete stops it at the next entry to go, with only needed entries gone, and that entry without its image if the sidecar is what failed |
| `AvatarCache.EvictionUnique` | crates/fetchit-chat/src/fedi_avatar.rs:316-363 | The bounds and the order determine the eviction |
| `AvatarCache.EvictsOldest` | crates/fetchit-chat/src/fedi_avatar.rs:316-363 | Pinned entries survive, and every other survivor was fetched after everything evicted, or at the same time with a later key |
| `AvatarCache.BoundedIffPinnedFit` | crates/fetchit-chat/src/fedi_avatar.rs:334-342 | Both bounds hold afterwards exactly when the pinned entries alone meet them |
| `AvatarCache.SecondPassIsIdle` | crates/fetchit-chat/src/fedi_avatar.rs:316-363 | A second pass straight after evicts nothing |
| `AvatarCache.OldestFirstSorts` | crates/fetchit-chat/src/fedi_avatar.rs:324-329 | The order is by fetch time with the key breaking ties and loses no entry |
| `AvatarCache.Cache.constructor` | crates/fetchit-chat/src/fedi_avatar.rs:279-314 | A cache holds the scanned entries |
| `Base64Url.DecodeEncode` | apps/fetchit-desktop/src/bookmarkShare.ts:95-109 | Every byte sequence survives encoding and decoding |
| `Base64Url.EncodeDecodeIff` | apps/fetchit-desktop/src/bookmarkShare.ts:95-109 | A text is the encoding of what it decodes to exactly when it is URL-safe, not one over a group of four, and has no stray low bits |
| `Base64Url.EncodeInjective` | apps/fetchit-desktop/src/bookmarkShare.ts:95-99 | Different bytes never share a text |
| `Base64Url.EncodeUrlSafe` | apps/fetchit-desktop/src/bookmarkShare.ts:95-99 | The text has only the URL-safe alphabet |
| `Base64Url.SameBits` | apps/fetchit-desktop/src/bookmarkShare.ts:95-99 | Three bytes and their four sextets are the same 24 bits, most significant first, short groups filled with zeros |
| `Base64Url.RfcVectors` | apps/fetchit-desktop/src/bookmarkShare.ts:95-99 | A test vector of RFC 4648 and the two characters of its URL-safe alphabet |
| `Base64Url.AlphabetRuns` | apps/fetchit-desktop/src/bookmarkShare.ts:95-99 | The alphabet counts up through the runs of table 1 of RFC 4648 |
| `Base64Url.PaddingRestored` | apps/fetchit-desktop/src/bookmarkShare.ts:101-104 | The decoder's replacement and padding restore exactly what the encoder stripped |
| `Base64Url.SextetsComeBackIff` | apps/fetchit-desktop/src/bookmarkShare.ts:101-109 | Sextets survive regrouping exactly when the dropped low bits are zero |
| `BookmarkShare.ShareRoundTripIff` | apps/fetchit-desktop/src/bookmarkShare.ts:35-93 | A link of one to twenty bookmarks always decodes, to the same addresses and names in order exactly when every address is 64 lower-case hex digits, and never to an address that is not |
| `BookmarkShare.ShareRefuses` | apps/fetchit-desktop/src/bookmarkShare.ts:35-43 | No bookmarks, or more than twenty, are refused |
| `BookmarkShare.NoneDroppedIff` | apps/fetchit-desktop/src/bookmarkShare.ts:79-93 | The import filter drops nothing exactly when every address is valid |
| `BookmarkShare.BytesToBase64Url` | apps/fetchit-desktop/src/bookmarkShare.ts:95-99 | The loop through a binary string encodes the bytes |
| `BookmarkShare.Base64UrlToBytes` | apps/fetchit-desktop/src/bookmarkShare.ts:101-109 | The loop filling the array yields the decoded bytes, or the failure |
| `TabStore.RunKeepsInv` | apps/fetchit-desktop/src/tabs.ts:50-173 | Every run keeps ids distinct, and nothing is active exactly when there is no tab |
| `TabStore.NextThenPrev` | apps/fetchit-desktop/src/tabs.ts:155-173 | Next then previous, and previous then next, change nothing |
| `TabStore.FullCircle` | apps/fetchit-desktop/src/tabs.ts:155-173 | As many nexts as there are tabs change nothing |
| `TabStore.ShiftMoves` | apps/fetchit-desktop/src/tabs.ts:168-173 | A step moves the active position by one around the ends |
| `TabStore.IdInjective` | apps/fetchit-desktop/src/tabs.ts:50-53 | Different counter values give different ids |
| `TabNavigation.TrailsNeverRepeat` | apps/fetchit-desktop/src/controller.ts:326-598 | Over every run of the controller's moves (links, submitted addresses, profiles, refresh, back and the strip's own operations), no tab's back stack followed by its address names an address twice in a row |
| `TabStore.RunShows` | apps/fetchit-desktop/src/tabs.ts:50-129 | In every run a blank or loading tab shows nothing, a failed one has its error message, and a rendered one its page or profile name |
| `TabStore.EndingShows` | apps/fetchit-desktop/src/tabs.ts:100-129 | The end of a load shows its outcome in that tab, labelled by an envelope's title or a profile's name cut to 22 characters, and leaves its address, its back stack and every other tab alone |
| `TabStore.CloseActivatesNeighbour` | apps/fetchit-desktop/src/tabs.ts:131-146 | Closing keeps the other tabs in order; if the tab was active, the one behind it becomes active, else the one before it, else none |
| `TabStore.ShortLabelEnds` | apps/fetchit-desktop/src/tabs.ts:184-186 | A long address is labelled by its first six and last four characters |
| `TabNavigation.ForwardThenBack` | apps/fetchit-desktop/src/controller.ts:544-564 | n moves away and n backs restore the active tab's address and back stack, and leave every other tab alone |
| `TabNavigation.PopThenFetch` | apps/fetchit-desktop/src/controller.ts:544-554 | Going back moves the active tab to its last past address and shortens its stack by it |
| `TabNavigation.SubmitLands` | apps/fetchit-desktop/src/controller.ts:566-578 | A submitted address ends in the active tab with its query and not failed; a tab is opened exactly when none has the address and the active one is not blank |
| `TabNavigation.ProfileLands` | apps/fetchit-desktop/src/controller.ts:326-339 | The same for a profile |
| `TabNavigation.NavigateLands` | apps/fetchit-desktop/src/controller.ts:556-564 | A followed link ends in the active tab, or in a new one when asked or when there is none |
| `TabNavigation.RefreshStays` | apps/fetchit-desktop/src/controller.ts:396-400 | A refresh loads the same address and query and keeps the back stack |
| `TabNavigation.NavigatePushes` | apps/fetchit-desktop/src/controller.ts:556-564 | Following a link in place pushes the old address on that tab's stack only |
| `TabStore.Store.constructor` | apps/fetchit-desktop/src/tabs.ts:25-29 | No tabs, nothing active |
| `TabStore.Store.CreateEmpty` | apps/fetchit-desktop/src/tabs.ts:50-68 | A new last tab, active, with a fresh id |
| `TabStore.Store.StartFetch` | apps/fetchit-desktop/src/tabs.ts:77-91 | Moves a tab and records the old address when asked and different; unknown ids change nothing |
| `TabStore.Store.PopHistory` | apps/fetchit-desktop/src/tabs.ts:93-98 | Pops and returns the last past address, or nothing |
| `TabStore.Store.SetRendered` | apps/fetchit-desktop/src/tabs.ts:100-110 | Shows a page in one tab; an envelope with a title names the tab |
| `TabStore.Store.RenderProfile` | apps/fetchit-desktop/src/tabs.ts:112-121 | Shows a profile page in one tab under its name |
| `TabStore.Store.SetError` | apps/fetchit-desktop/src/tabs.ts:123-129 | Shows an error in one tab |
| `TabStore.Store.Close` | apps/fetchit-desktop/src/tabs.ts:131-146 | Removes the tab; closing the active one activates its right neighbour, else its left |
| `TabStore.Store.Activate` | apps/fetchit-desktop/src/tabs.ts:148-153 | Activates an existing tab |
| `TabStore.Store.Shift` | apps/fetchit-desktop/src/tabs.ts:168-173 | The index arithmetic with the JavaScript remainder is the specified step |

## Left out

- HTTP, routing, authentication and the other bridge route handlers: the follow protocol takes the confirm and Undo steps as the routes perform them, and nothing else of the routes.
- Confirms without an activity id, as older clients send them: they consume whatever request is queued; the protocol modelled is that of the current device, which always names the id.
- SQLite: tables are sequences and maps with the declared keys; which of several rows with equal stamps comes first is an argument or the insertion order, and the 64-bit range of stamps is explicit where it clamps.
- Cryptography (signatures, key exchange, sealing, hashes): ideal functions or arguments; a payload hash is a function of the payload.
- File sealing, atomic writes and key derivation: a save is one step and a load reads it back.
- Floating point: the limiter's tokens and times are real numbers, so rounding is not modelled.
- Hash-map iteration order: the limiter's sample comes from an order given as an argument, any enumeration of the map.
- Letter case beyond ASCII: thread labels and agent ids lower-case ASCII letters only.
- Actor-URL parsing: the label of a sender's URL is an arbitrary function, so what is proved holds for any labelling.
- Decimal JSON numbers: the text of a non-integer number is part of the value; formatting of floats is not modelled.
- The card's URI form, compression and endpoint hint checks: not part of this model.
- The transport: whether a remote inbox takes a delivery is an argument, and so is which avatar files cannot be deleted.
- UTF-16: the lengths the tab strip cuts its labels at count characters.
- JSON decoding, UTF-8 and URL syntax of share links: a pair of functions with a left inverse; the model starts from the data parameter.
- Decoding of event frames into typed events, and the client address taken from forwarding headers: each claim is settled by one branch.
- The consent store's file and the avatar refresh schedule: no property beyond single branches.
- Listener notification, DOM elements and the cancelling of fetches in the tab strip: not part of this model.
