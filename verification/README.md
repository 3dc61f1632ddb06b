# Golioth Firmware SDK: a verified model of the CoAP client, block transfers and firmware update

This project models the protocol core of the Golioth Firmware SDK in Dafny and proves what it promises
over whole runs. `dafny verify dfyconfig.toml` checks everything.

| part | files |
|---|---|
| list of outstanding CoAP requests: retransmission, observe reordering, cancelling | `Basics`, `Machine32`, `Retransmission`, `ObserveOrder`, `CoapRequests`, `Transmissions` |
| client around it: observation slots, reconnecting, tokens, notifications, whole runs | `CoapClient`, `ObservationThreads`, `CoapRuns`, `NotificationRuns`, `Tokens` |
| the same client on mutable objects, walked and changed in place | `ZephyrClient` |
| request queue: ring buffer, concurrent mailbox, ownership of payloads | `RingBuffer`, `Mailbox`, `Payloads` |
| blockwise upload and download (RFC 7959) | `BlockUpload`, `BlockDownload` |
| firmware download session and update loop | `FirmwareDownload`, `FirmwareUpdate` |
| encoders: URI-Path options (RFC 7252 section 3.1) and network info | `UriPath`, `CborTokens`, `NetInfo` |

Most parts have two layers. A class does the work in place, with the source's branches and loops, and each
method is proved equal to a function on values. The properties are proved about those functions, over every
input or every run. Two parts are modelled under concurrency, as state machines with interleaved steps: the
mailbox, whose steps are single shared accesses (its copies move one byte per step), and the observation
slots, which the client's thread and cancelling threads work on without a common lock. Steps take effect in
program order (sequential consistency): the ring's indices are `volatile` but there are no memory barriers
(`ringbuf.h:17-18`), so on hardware that reorders the copy and the index write its guarantees need more than
is modelled.

Time is a true millisecond count of which the program sees the low 32 bits. Signed subtraction in
`golioth_coap_req_poll_prepare` is modelled as two's complement wrap-around. The drawn acknowledgement
timeout T satisfies T > 0 and 15T < 2^31, and a request is polled within 2^31 ms of being scheduled; the
theorems that need this say so in their preconditions. What libraries and the outside world decide (packet
contents, memory, flash, the hash unit, statuses of callbacks and of the queue) are parameters.

## Findings

- `psa_hash_setup` and `psa_hash_finish` results are not looked at (`fw_update.c:699-703`, `759-763`), so a
  digest left over from an earlier download can be compared. `FirmwareUpdate.SwitchIsSafeExactlyWhen` gives
  the exact condition and `FirmwareUpdate.StaleDigestIsReachable` a run that gets there.
- Nothing ties the block handed to a download's callback to the block asked for. All requests of a transfer
  share a token, message ids are compared only for empty tokens (`zephyr_coap_req.c:338-346`), a block 0
  restarts the offset check (`174-179`), later offsets pass it (`200`), and the offset is not passed on to
  `on_block_rcvd`. A second answer to the request for block 0 is therefore stored as block 1, and the real
  block 1 is dropped. `CoapRequests.BlockIsServedExactlyWhenDeliverable` says exactly which blocks get
  through, `CoapRequests.RepeatedBlockZeroIsServed` shows the case, and `FirmwareDownload.SessionIsExact`
  gives the exact condition under which the bytes stored are the image; a working hash check of the
  updater catches the rest.
- For the same reason a download need not end, and 16 requests per block are no bound: as long as block 0 is
  repeated, the retry counter is reset and the next block asked for (`FirmwareDownload.RepeatedZerosGoOn`).
  `FirmwareDownload.BoundHoldsExactlyWhen` gives the exact condition.
- `golioth_cancel_all_observations_by_prefix` works on the slots in an application's thread
  (`settings.c:506`, `rpc.c:267`) without a lock. If the client sets an observation up again between its two
  halves (`coap_client_zephyr.c:566` and `571`), a live request is left without a slot, and the next
  observation shares the slot with it, so that notifications of the old one reach the new callback
  (`ObservationThreads.CancelAcrossReconnect`). `CancelKeepsMappingExactlyWhen` gives the exact condition.
  Responses still reach the right request (`RoutingUnderInterleaving`).
- The reply state of an observation is lost when it is set up again (`zephyr_coap_req.c:443-444`,
  `coap_client_zephyr.c:637-648`), so after a reconnect its callback can see an older notification than before
  (`NotificationRuns.OlderAfterReconnect`). `SlotIncreasesExactlyWhen` gives the exact condition.
- `golioth_blockwise_get` leaves its context allocated when its first request is refused
  (`coap_blockwise.c:506-527`); `BlockDownload.GetForm` states both cases.
- A comment at `coap_client_zephyr.c:1292-1294` says tokens are updated when observations are set up again.
  The code reuses the token stored in the slot; the model follows the code.
- A comment at `coap_blockwise.c:434-436` explains the suppressed end callback by an error already
  delivered. It is also suppressed when the block callback itself refuses block 0; the model follows the code.
- No assumption about the server's block sizes is needed for uploads: the engine only ever lowers the size
  (`zephyr_coap_req.c:264-282`).

## Model

| member | source | states |
|---|---|---|
| Machine32.SignedDifference | src/zephyr_coap_req.c:678 | the wrapped signed subtraction of two clock words is the true difference whenever that lies within half the clock's range |
| Machine32.UnsignedDifference | examples/zephyr/fw_update/src/fw_update.c:420 | the wrapped unsigned subtraction gives the true elapsed time modulo 2^32 |
| Retransmission.CycleClosedForm | src/zephyr_coap_req.c:647-667 | after k retries t0 has advanced by T(2^k - 1) and the timeout is T * 2^k, without overflow; the fifth attempt is refused |
| Retransmission.TimeLeftClosedForm | src/zephyr_coap_req.c:678 | the time left computed on wrapping words is the true deadline of the period minus the true time |
| Retransmission.WaitingIsPositive | src/zephyr_coap_req.c:676-705 | a poll that keeps a request returns a strictly positive time that still belongs to its new period |
| Retransmission.PollClosedForm | src/zephyr_coap_req.c:669-705 | one poll, however late, lands in the period the request's age demands, sends exactly if that period is new, and drops it exactly from t0 + 15T on; the loop ends |
| Retransmission.UnansweredRequest | src/zephyr_coap_req.c:647-725 | for every poll schedule an unanswered request is dropped at the first poll at or after t0 + 15T and at no other, and sent exactly at the polls that begin one of its at most four periods |
| ObserveOrder.NewerIsHalfCircleAhead | src/zephyr_coap_req.c:105-109 | on 24-bit numbers the test holds exactly when 0 < (v2 - v1) mod 2^24 < 2^23 |
| ObserveOrder.NewerByCounter | src/zephyr_coap_req.c:105-109 | for unbounded counters less than 2^23 apart, sent modulo 2^24, the test is "greater" |
| ObserveOrder.AcceptedIncrease | src/zephyr_coap_req.c:111-115 | over a network that drops, duplicates and reorders within a window, accepted notifications strictly increase in the server's counter, from any reply state |
| ObserveOrder.AcceptedAreExactlyTheFreshest | src/zephyr_coap_req.c:348-365 | if gaps are bounded too, a notification is accepted if and only if its counter exceeds every earlier one, starting from the state of a new request |
| CoapRequests.SubmitKeepsInv | src/zephyr_coap_req.c:45-69 | while connected the new request is live, with no callback and no free recorded for it; otherwise nothing changes; the accounting is kept |
| CoapRequests.SubmitOutcome | src/zephyr_coap_req.c:412-470 | while connected the request becomes the last of the list with its token, message, block context and size as handed in, nothing sent yet and three retries; otherwise nothing changes |
| CoapRequests.HandleFacts | src/zephyr_coap_req.c:117-311 | whatever a response contains, a plain request is called back exactly when it does not stay; a request that stays keeps its identity; the size reported back never exceeds the one sent |
| CoapRequests.MatchingRules | src/zephyr_coap_req.c:332-346 | a packet with a token matches exactly the requests whose token begins with it; one without, those with its message id |
| CoapRequests.WholeAnswerIsHandedOver | src/zephyr_coap_req.c:144-310 | a matching packet that is no block calls the first match back once: a success with the whole payload, offset 0, its length and the negotiated block size, any other class with the code and no data; then a plain request is freed, and an observation stays, idle, in its place |
| CoapRequests.UnusableBlockFails | src/zephyr_coap_req.c:185-259 | a block that cannot be applied or followed fails the request without data; a notification in blocks is handed over once, as a failure, and ends the observation |
| CoapRequests.EngineNegotiates | src/zephyr_coap_req.c:264-282 | the block size reported for an uploaded block is the one the upload goes on with |
| CoapRequests.ReceiveKeepsInv | src/zephyr_coap_req.c:313-371 | receiving keeps the accounting: freed once when leaving, called back once directly before |
| CoapRequests.PollKeepsInv | src/zephyr_coap_req.c:741-770 | polling the list keeps the accounting although entries are removed during the walk |
| CoapRequests.DisconnectKeepsInv | src/zephyr_coap_req.c:772-791 | a disconnect empties the list, calling each plain request back once and freeing every request once |
| CoapRequests.DisconnectTells | src/zephyr_coap_req.c:772-791 | a disconnect gives each plain request exactly a callback with a failure and no data, then its free; observations only their free |
| CoapRequests.CancelKeepsInv | src/zephyr_coap_req.c:793-857 | cancelling an observation keeps the accounting |
| CoapRequests.CancelReleases | src/zephyr_coap_req.c:793-857 | cancelling releases the token of the first request of the message at the server, then frees it, and leaves all others in place; without one nothing happens |
| CoapRequests.PollDeadlines | src/zephyr_coap_req.c:741-770 | after a poll every remaining request that is not an idle observation has its deadline strictly ahead, and the value returned is exactly the minimum time left (the maximum value if there is none) |
| CoapRequests.PollDropsExactlyOverdue | src/zephyr_coap_req.c:669-770 | one poll of the list drops exactly the requests whose 15 timeouts are over and leaves every other in its proper period |
| CoapRequests.PollReaches | src/zephyr_coap_req.c:707-724 | the events of a poll for each request, exactly: sent if a period of it begins, the timeout callback and the free if none is left, nothing for idle observations |
| Transmissions.PollSendsExactlyWhenDue | src/zephyr_coap_req.c:669-739 | in terms of its age: a poll sends a request exactly when its age has reached a later period, tells it of its timeout and frees it exactly when 15T are over, and otherwise logs nothing for it |
| Transmissions.TransmissionsOfARequest | src/zephyr_coap_req.c:669-770 | over every run from the step that schedules a request on: as long as it waits for an answer it is sent exactly at the polls that begin one of its at most four periods, and by no other step, and told of its timeout exactly at the first poll from 15T on |
| CoapRequests.ResponseTouchesOnlyItsRequest | src/zephyr_coap_req.c:325-368 | with distinct full-length tokens a response keeps, updates or drops the request with its token and nothing else; without such a request nothing changes |
| CoapRequests.BlockIsServedExactlyWhen | src/zephyr_coap_req.c:163-260 | for every response with a Block2 option and every plain request: the callback gets a success exactly when the response is one, its option can be applied, and it is block 0 or not before the offset asked for; the offset handed over is the response's own, so it is the one asked for if and only if the response's is |
| CoapRequests.BlockIsServedExactlyWhenDeliverable | src/zephyr_coap_req.c:313-371 | while block idx is asked for, a matching response with block d ends the request with a success if and only if d = 0 or d >= idx; any other is ignored and the request stays |
| CoapRequests.RepeatedBlockZeroIsServed | src/zephyr_coap_req.c:174-207 | a repeated block 0 is handed over for a request for a later block, and the late answer to that request is then dropped as already received |
| CoapClient.ExactlyOneCallback | src/zephyr_coap_req.c:45-83 | over every run a scheduled plain request is called back exactly once, directly before it is freed on leaving the list; the list is empty whenever the client is disconnected |
| CoapClient.CancelByPrefixIsExact | src/coap_client_zephyr.c:554-574 | cancelling by prefix, if nothing comes between its steps, frees exactly the slots in use whose prefix equals the one given, or all in use if none is given, and removes exactly their requests; all others stay unchanged and in order |
| CoapClient.WithoutKeeps | src/zephyr_coap_req.c:793-857 | what is left of the list is exactly the requests that are not observations of the freed slots |
| CoapClient.ReconnectRestoresObservations | src/coap_client_zephyr.c:637-648 | after disconnect and reconnect (allocations succeeding, nothing in between) every slot in use has exactly one live request with the slot's token, and nothing else is in the list |
| CoapClient.AddKeepsSlots | src/coap_client_zephyr.c:516-552 | adding an observation, whether or not it finds a slot, memory and a connection, keeps live observations mapped one-to-one into slots in use |
| CoapClient.AddOutcome | src/coap_client_zephyr.c:516-552 | a new observation takes the first free slot, which is in use exactly if its request was scheduled, with the slot's token; without a free slot nothing changes |
| CoapClient.RequestOutcome | src/coap_client_zephyr.c:694-738 | a request enters the list as it was taken from the queue |
| CoapClient.CancelKeepsSlots | src/coap_client_zephyr.c:558-572 | cancelling one slot, if nothing comes between its two halves, keeps that mapping although the slot is no longer in use |
| CoapClient.CancelFromIsRun | src/coap_client_zephyr.c:554-574 | uninterrupted, the loop over the slots is the run of its single steps |
| CoapClient.ReestablishFromIsRun | src/coap_client_zephyr.c:637-648 | so is the loop that sets the observations up again |
| ObservationThreads.ThreadsRunTheClient | src/coap_client_zephyr.c:554-648 | every interleaving of the client's thread with cancelling threads is a run of the client, so what holds of all runs holds of it |
| ObservationThreads.UninterruptedWalk | src/coap_client_zephyr.c:637-648 | if nothing comes between, the walk over the slots sets up the observations of all slots in use, and ends |
| ObservationThreads.RoutingUnderInterleaving | src/coap_client_zephyr.c:495-648 | however cancelling and reconnecting interleave, if requests take fresh tokens all live tokens are distinct and full-length |
| ObservationThreads.StepKeepsMappingExactlyWhenSafe | src/coap_client_zephyr.c:516-648 | each step keeps live observations mapped one-to-one into slots in use, if and only if it does not free a slot to which a live request refers and does not set up an observation whose slot was freed since it was tested |
| ObservationThreads.ObservationsMapExactlyWhenSafe | src/coap_client_zephyr.c:516-648 | over every run with fresh tokens the mapping holds at every point if and only if all steps are such |
| ObservationThreads.CancelKeepsMappingExactlyWhen | src/coap_client_zephyr.c:566-571 | whatever falls between the two halves of cancelling a slot, the mapping survives the second if and only if no request set up again for the slot in between is still live |
| ObservationThreads.CancelAcrossReconnect | src/coap_client_zephyr.c:554-648 | a cancel that straddles a reconnect leaves a live request without a slot in use; the next observation then shares the slot with it, under another token |
| ObservationThreads.LostConnectionIsReachable | src/coap_client_zephyr.c:516-552 | the state in which that begins is reached from the start |
| CoapRuns.UnusedTokenIsFresh | src/coap_client.c:42-77 | the token of a call of the store that has not been used is held by no live request and no slot in use, if the store is called fewer than 2^64 times |
| CoapRuns.ResponsesReachTheirRequests | src/zephyr_coap_req.c:313-371 | in every run whose requests take tokens of a store called fewer than 2^64 times, drawn in any order and with any of them lost on the way, and under every interleaving with cancelling threads, a full-token response leaves every request but its own in the list, uncalled and unfreed; a transfer may go on with its token once its request before has left |
| CoapRuns.DistinctDrawsSuffice | src/coap_client.c:42-77 | every run whose requests have tokens of pairwise different calls is such a run |
| CoapRuns.NotificationIsServedIffNewer | src/zephyr_coap_req.c:348-365 | one received packet: a plain notification reaches its callback, with its payload, if and only if it is newer; only then is it remembered; otherwise nothing changes |
| NotificationRuns.NotificationStep | src/zephyr_coap_req.c:348-365 | a notification matched to a request is accepted exactly when it is newer than the request's reply state and then becomes it; none that is not accepted reaches the callback, every plain one that is accepted does |
| NotificationRuns.NotificationsIncrease | src/zephyr_coap_req.c:313-371 | over every run of the client, the notifications handed to the callback for one registration (one request, from scheduling until it leaves the list) strictly increase in the server's own counter, under bounded reordering |
| NotificationRuns.ExactlyTheFreshestAreServed | src/zephyr_coap_req.c:313-371 | over every run, if gaps are bounded too, a plain notification reaches the callback if and only if it is newer than all that arrived for the same registration before |
| NotificationRuns.SlotIncreasesExactlyWhen | src/coap_client_zephyr.c:637-648 | across the registrations of one slot, the notifications handed to its callback strictly increase if and only if the first one served after each new registration is newer than the last one served before |
| NotificationRuns.NewRegistrationServesAnything | src/zephyr_coap_req.c:443-444 | a new registration serves the first plain notification it gets once the clock is past 0, whatever its number |
| NotificationRuns.OlderAfterReconnect | src/coap_client_zephyr.c:637-648 | a run from the start, with reordering within bounds, in which the callback sees an older notification after a newer one because the observation was set up again in between |
| CoapRuns.StepKeepsTimed | src/zephyr_coap_req.c:451-470 | every step of the client keeps every request in one of the transmission periods of its own schedule |
| CoapRuns.PollsInRuns | src/zephyr_coap_req.c:669-770 | in every run, a poll drops a live request if and only if it is no idle observation and 15T have passed since it was scheduled; the wait returned is exact |
| Tokens.TokenClosedForm | src/coap_client.c:42-77 | the n-th token, read as a number, is (seed + n) mod 2^64 |
| Tokens.TokensRepeatExactlyAfterAllAreUsed | src/coap_client.c:42-77 | two calls hand out the same token exactly when their numbers differ by a multiple of 2^64 |
| Tokens.TokenStore.Next | src/coap_client.c:42-77 | each call advances the stored bytes in place and hands out the next token of the sequence |
| ZephyrClient.CoapReq.PendingCycle | src/zephyr_coap_req.c:647-667 | the in-place update is `Retransmission.Cycle`; a refusal leaves the state alone |
| ZephyrClient.CoapReq.WaitOrCycle | src/zephyr_coap_req.c:676-705 | the loop ends and computes `Retransmission.Poll`: expired, or the remaining time and whether to send |
| ZephyrClient.CoapReq.PollInPlace | src/zephyr_coap_req.c:669-739 | an expired request is reported to time out, another keeps its new period and is sent when due |
| ZephyrClient.CoapReq.HandleInPlace | src/zephyr_coap_req.c:117-311 | what the callback is told, whether the request stays, and its new fields are those of `CoapRequests.Handle` |
| ZephyrClient.GoliothClient.SubmitReq | src/zephyr_coap_req.c:45-69 | appends a fresh request object, or refuses while disconnected |
| ZephyrClient.GoliothClient.CancelAndFree | src/zephyr_coap_req.c:71-83 | exactly one object leaves the list, in order, and is freed |
| ZephyrClient.GoliothClient.ReplyHandler | src/zephyr_coap_req.c:117-311 | the callback and then the request's update or removal, nothing else in the list changed |
| ZephyrClient.GoliothClient.ProcessRx | src/zephyr_coap_req.c:313-371 | the search and dispatch over the object list is `CoapRequests.Receive` |
| ZephyrClient.GoliothClient.PollPrepare | src/zephyr_coap_req.c:669-739 | polls one object in place and removes it when it expires |
| ZephyrClient.GoliothClient.ReqsPollPrepare | src/zephyr_coap_req.c:741-770 | the walk that removes entries as it goes ends in the state and the minimum of `CoapRequests.PollAll` |
| ZephyrClient.GoliothClient.CancelAllWithReason | src/zephyr_coap_req.c:772-791 | empties the list from its front with the callbacks and frees of `CoapRequests.CancelEvents` |
| ZephyrClient.GoliothClient.OnDisconnect | src/zephyr_coap_req.c:876-884 | is `CoapRequests.Disconnect` on the object list |
| ZephyrClient.GoliothClient.FindAndCancelObservation | src/zephyr_coap_req.c:793-857 | releases and frees the first observation of the message and nothing else |
| ZephyrClient.GoliothClient.ObserveSlot | src/coap_client_zephyr.c:495-514 | schedules an observation with the token it is given; nothing happens without memory |
| ZephyrClient.GoliothClient.AddObservationInPlace | src/coap_client_zephyr.c:516-552 | the first free slot is filled, and in use only if the request was scheduled |
| ZephyrClient.GoliothClient.CancelAllObservationsByPrefix | src/coap_client_zephyr.c:554-574 | the loop over the slots is `CoapClient.CancelFrom`, hence exact |
| ZephyrClient.GoliothClient.ConnectAndReestablish | src/coap_client_zephyr.c:637-648 | connects and schedules one observation per slot in use, in slot order |
| Ring.PushUnread | src/ringbuf.c:45-47 | advancing the write index appends exactly the item in the write slot to the unread items |
| Ring.PopUnread | src/ringbuf.c:65-68 | advancing the read index removes exactly the oldest unread item |
| Ring.WriteOutsideUnread | src/ringbuf.c:45-46 | writing the write slot changes no unread item |
| RingBuffer.WriteSlot | src/ringbuf.c:45-46 | the byte copy changes one slot of the flat buffer and no other |
| RingBuffer.RingBuf.constructor | src/mbox.c:22-32 | a buffer for maxItems items has maxItems + 1 slots and starts empty |
| RingBuffer.RingBuf.IsEmpty | src/ringbuf.c:22-25 | true exactly when nothing is unread |
| RingBuffer.RingBuf.IsFull | src/ringbuf.c:27-31 | true exactly when one slot less than there are is unread |
| RingBuffer.RingBuf.Put | src/ringbuf.c:33-50 | appends the item exactly when it is not NULL and the ring is not full, else changes nothing |
| RingBuffer.RingBuf.GetInternal | src/ringbuf.c:52-71 | returns the oldest item exactly when there is one, and removes it exactly when asked to |
| RingBuffer.RingBuf.Size | src/ringbuf.c:83-100 | the number of unread items |
| RingBuffer.RingBuf.Capacity | src/ringbuf.c:102-108 | the largest number of items it can hold |
| RingBuffer.RingBuf.Reset | src/ringbuf.c:110-114 | nothing is unread afterwards |
| Mailbox.CreateInv | src/mbox.c:14-41 | a new mailbox is empty, has the capacity asked for and satisfies the invariant |
| Mailbox.StepRefinesQueue | src/mbox.c:49-78 | every atomic step of any producer or the consumer keeps the invariant (no assert fails) and is a step of a bounded first-in-first-out queue |
| Mailbox.MailboxIsBoundedFifo | src/mbox.c:49-78 | under every schedule items come out in put order, at most numItems are held, and size = semaphore count + gives owed + take not yet fetched |
| Mailbox.RefusedExactlyWhenFull | src/mbox.c:53-55 | a send is refused exactly when the queue is full at the check made under the mutex |
| Mailbox.WriterNeverTouchesUnread | src/ringbuf.c:45-46 | while any producer copies, its slot is none of the unread ones, whatever the consumer does meanwhile |
| Mailbox.StepIsPossibleExactlyWhen | src/mbox.c:49-78 | every step is possible exactly at its control point; only the mutex and the semaphore make anyone wait |
| Mailbox.NeverStuck | src/mbox.c:49-78 | as long as someone is inside the mailbox or something is queued, a step that is no new call is possible; with nobody inside, the consumer can take the next item |
| Payloads.StepKeepsInv | src/coap_client.c:109-201 | enqueueing, a full queue, ageing out, sending and purging keep live payloads equal to those referenced from the mailbox, freeing none twice and losing none |
| Payloads.SetInternalOutcome | src/coap_client.c:109-201 | a request is queued, as the newest and with its own copy of the payload, exactly when it is accepted, the copy could be made and there is room; otherwise nothing changes but, with a full queue, a copy made and freed |
| Payloads.EnqueueOutcome | src/mbox.c:49-65 | any other request is queued exactly when there is room |
| Payloads.IoLoopOutcome | src/coap_client_zephyr.c:650-784 | the loop takes exactly the oldest message and frees exactly its payload |
| Payloads.EachPayloadFreedOnce | src/coap_client_zephyr.c:650-784 | over every run each copied payload is either referenced by a queued message or was freed exactly once; after a purge all were |
| Payloads.RequestQueue.SetInternalInPlace | src/coap_client.c:142-201 | allocation, enqueueing and the release on a full queue, in place |
| Payloads.RequestQueue.IoLoopOnceInPlace | src/coap_client_zephyr.c:650-784 | takes the oldest message and frees its payload on every path that drops it |
| Payloads.RequestQueue.PurgeRequestMbox | src/coap_client_zephyr.c:1685-1708 | the loop empties the mailbox and frees every payload left in it |
| BlockUpload.SzxRoundTrip | src/coap_client.h:18-28 | the two size conversions are inverse on exponents 0..6 and sizes 16..1024 |
| BlockUpload.NextBlockIdx | src/coap_blockwise.c:149-157 | the rescaled index times the smaller size is the byte position after the block sent in the larger size |
| BlockUpload.NextBlockIdxFitsInt | src/coap_blockwise.c:149-157 | the rescaled index fits an `int` for any source a 32-bit size can count |
| BlockUpload.ReadChunkInOrder | examples/zephyr/location/src/main.c:149-186 | asked for the block after the bytes already sent, the reader delivers exactly the next stretch, never past the end, and no word-sized computation wraps |
| BlockUpload.UploadStep | src/coap_blockwise.c:160-219 | handing over the block read next keeps every block in its place and equal to what the reader returned |
| BlockUpload.PostBlockCtx.CallReadBlockCallback | src/coap_blockwise.c:122-146 | accepts exactly a non-empty block that is full unless last; any other ends the upload with the reader's error or an invalid size |
| BlockUpload.PostBlockCtx.UploadSingleBlock | src/coap_blockwise.c:160-201 | the block carries the context's number and size; afterwards number times size again equals the bytes sent, also when the size shrank |
| BlockUpload.PostBlockCtx.ProcessBlockwiseUploads | src/coap_blockwise.c:204-219 | an acceptable block is sent, in its place, with the reader's last flag; anything else is not sent |
| BlockUpload.BlockwisePost | src/coap_blockwise.c:221-300 | for every reader that ends, by position or by number of calls, every status and size the server answers with, with or without a set callback: each block sent is what the reader returned for it, num * 2^(szx+4) is the bytes sent before, only the final block is marked last, each size is the one the server asked for if smaller than the one before and else the one before; the loop terminates, stops exactly at the first block not delivered or not acceptable with that status, and is OK only when the last block was delivered |
| BlockUpload.UploadOfSource | examples/zephyr/location/src/main.c:149-186 | reading a buffer, the payloads are a prefix of it in order, whatever sizes are negotiated, and a block is marked last exactly when it completes the buffer |
| BlockUpload.UploadBuffer | src/coap_blockwise.c:221-300 | uploading a buffer that is not empty stops exactly at the first block not delivered, and on OK the payloads concatenate to the whole buffer; an empty one is refused by the reader |
| BlockUpload.BlockNumberFits | src/coap_blockwise.c:160-201 | block numbers of a source of up to 16 MiB stay below 2^20 (RFC 7959 section 2.2) |
| BlockUpload.Block1RoundTrip | src/coap_client_zephyr.c:110-135 | number, more flag and size exponent are recovered from the option value, which fits three bytes |
| BlockDownload.ReceiveKeepsForm | src/coap_blockwise.c:408-458 | one answer shows its block, with its payload and last flag, under the next index; the transfer goes on exactly if the answer does not end it, and otherwise is in its final form with the status the answer gives |
| BlockDownload.TransferForm | src/coap_blockwise.c:408-490 | over every sequence of answers: the i-th callback gets index start + i and what the i-th answer carried; the first answer that fails, is refused, is last or cannot be followed ends the transfer with its status, callback's status, OK or enqueue's status; then the end callback once with the resume index, then one free and nothing after it |
| BlockDownload.GetForm | src/coap_blockwise.c:492-527 | a get that returned OK hands over what the answers carry, one by one, and always ends with its end callback, with the status of the answer that ended it; one that did not makes no callback and leaves its context allocated |
| BlockDownload.PostResponseForm | src/coap_blockwise.c:369-382 | a post response differs only in that the end callback is missing exactly when block 0 fails, by its answer or in the application's callback |
| BlockDownload.GetBlockCtx.OnBlockRcvd | src/coap_blockwise.c:408-458 | the callback in place, which reads its context only while it is allocated, is `Receive` |
| FirmwareDownload.StepKeepsInv | examples/zephyr/fw_update/src/fw_update.c:231-308 | whatever deliverable block an answer carries: hash and flash hold exactly the blocks stored, the next block asked for follows as many as were stored, at most 16 requests are made per stored block, and the final block comes at the end |
| FirmwareDownload.SessionIsExact | examples/zephyr/fw_update/src/fw_update.c:231-308 | over every pattern of failures, refusals, resumptions and repeated answers: hash and flash (unless flash itself failed) are the concatenation of the blocks stored; completion is given at most once; a success ends with the final block after at most n blocks and 16n requests. The blocks are 0..k-1 in order, each once, and the whole image on success, if and only if every block stored was the one asked for; at most 16n requests are made then |
| FirmwareDownload.InOrderExactlyWhenAsRequested | examples/zephyr/fw_update/src/fw_update.c:231-308 | the numbers of the stored blocks are 0..k-1 if and only if every stored answer carried the block asked for |
| FirmwareDownload.DeliveriesAreStored | examples/zephyr/fw_update/src/fw_update.c:231-296 | every list of deliverable blocks with the final one at most at its end is stored by some session |
| FirmwareDownload.RepeatedBlockZero | examples/zephyr/fw_update/src/fw_update.c:264-283 | three blocks, a second answer to the request for block 0: the session ends with OK holding blocks 0, 0, 2 |
| FirmwareDownload.BoundHoldsExactlyWhen | examples/zephyr/fw_update/src/fw_update.c:264-296 | for each list of blocks that can be stored: no session that stores it makes more than 16n requests if and only if it is shorter than the image or ends with the final block; otherwise it holds a block that was not asked for, and some session exceeds the bound |
| FirmwareDownload.BoundHolds | examples/zephyr/fw_update/src/fw_update.c:264-296 | a session that has stored fewer than n blocks, or the final one, has made at most 16n requests |
| FirmwareDownload.RepeatedZerosGoOn | examples/zephyr/fw_update/src/fw_update.c:264-289 | for every k, k repeated blocks 0 leave a session of two or more blocks still asking, with k + 1 requests made: nothing bounds it |
| FirmwareDownload.CompletedIsFinal | examples/zephyr/fw_update/src/fw_update.c:271-296 | a session that completed or never started does not change again, so it gives no further completion |
| FirmwareDownload.SixteenTriesPerBlock | examples/zephyr/fw_update/src/fw_update.c:279-295 | the bound is reached: a block that keeps failing is asked for sixteen times before the session gives up |
| FirmwareDownload.FailureOutcome | examples/zephyr/fw_update/src/fw_update.c:271-308 | a failed answer ends the session with its own status if it is an I/O error or no retry is left; otherwise the timer asks for the same block again, unless that is refused |
| FirmwareDownload.FlashErrorOutcome | examples/zephyr/fw_update/src/fw_update.c:246-262 | a block that flash does not take ends the session with an I/O error at once |
| FirmwareDownload.EveryEventMakesProgress | examples/zephyr/fw_update/src/fw_update.c:264-289 | blocks left and tries left, compared lexicographically, decrease with every event, and are bounded from below while the blocks stored are the ones asked for (`RepeatedZerosGoOn` is what happens otherwise) |
| FirmwareDownload.DownloadProgress.FwWriteBlockCb | examples/zephyr/fw_update/src/fw_update.c:231-269 | its status and all its effects on flash, hash, counters |
| FirmwareDownload.DownloadProgress.FwDownloadEndCb | examples/zephyr/fw_update/src/fw_update.c:271-296 | completes, or arms the timer with the block to resume from |
| FirmwareDownload.DownloadProgress.BlockRetryTimerExpiry | examples/zephyr/fw_update/src/fw_update.c:298-308 | requests the remembered block; a refusal goes unnoticed |
| FirmwareDownload.DownloadProgress.OnBlockRcvd | src/coap_blockwise.c:408-458 | blockwise download with the two callbacks above, for whatever block is handed over, is `OnAnswer` |
| FirmwareUpdate.StepKeepsInv | examples/zephyr/fw_update/src/fw_update.c:618-793 | every turn of the loop keeps the log sound and the backoff equal to the number of failures it has |
| FirmwareUpdate.DownloadOutcome | examples/zephyr/fw_update/src/fw_update.c:739-791 | every download that ends with OK and a digest equal to the target's is switched to, with the backoff cleared, and reboots if the boot loader accepts; every other one has failed, with the backoff raised to min(60000 * 2^k, 86400000) after k failures before |
| FirmwareUpdate.GoodImageIsInstalled | examples/zephyr/fw_update/src/fw_update.c:739-791 | a target whose blocks all arrive as asked for and whose image has the target's hash is switched to, if the hash unit works |
| FirmwareUpdate.ManifestOutcome | examples/zephyr/fw_update/src/fw_update.c:430-684 | a manifest is acted on exactly when its first component of the configured package has another version than the running one and is not the target backed off from; then it is adopted, checked, switched to or downloaded; any other changes nothing |
| FirmwareUpdate.TimeoutOutcome | examples/zephyr/fw_update/src/fw_update.c:654-658 | a wait that runs out starts the download of the same target again |
| FirmwareUpdate.SwitchesOnlyVerifiedImages | examples/zephyr/fw_update/src/fw_update.c:662-793 | on every run a switch directly follows a passed candidate check or a verified download: flash holds the stream, which consists of blocks of the server's image up to the final one and is the whole image if each was the one asked for; if the hash unit worked the stream has the current target's hash; the target has the configured name and another version than the running one |
| FirmwareUpdate.NoCompletionIsLeftOver | examples/zephyr/fw_update/src/fw_update.c:720-731 | on every run the semaphore is at 0 when a download starts, and when the wait for it ends the session is over and can give no more, so no download takes an earlier one's completion for its own |
| FirmwareUpdate.SwitchIsSafeExactlyWhen | examples/zephyr/fw_update/src/fw_update.c:759-771 | a successful download is switched to only with the right hash, whatever was downloaded, if and only if the hash unit worked or the digest buffer does not already hold the target's hash |
| FirmwareUpdate.StaleDigestIsReachable | examples/zephyr/fw_update/src/fw_update.c:699-763 | a run from the start in which an image with the wrong hash is switched to |
| FirmwareUpdate.BackoffClosedForm | examples/zephyr/fw_update/src/fw_update.c:399-416 | on 32-bit words the backoff after k failures is min(60000 * 2^(k-1), 86400000), and doubling never overflows |
| FirmwareUpdate.WaitCoversBackoff | examples/zephyr/fw_update/src/fw_update.c:418-428 | a wait that runs out ends no earlier than the backoff after the failure, across any number of clock wraps, and no later than it must within one turn of the clock |
| FirmwareUpdate.DownloadsRespectBackoff | examples/zephyr/fw_update/src/fw_update.c:629-742 | on every run, after k >= 1 consecutive failures the next download of the same target starts no earlier than min(60000 * 2^(k-1), 86400000) ms after the last, and no manifest repeating its version cuts that short |
| FirmwareUpdate.Updater.BackoffIncrementInPlace | examples/zephyr/fw_update/src/fw_update.c:399-416 | the two fields are updated as the word-sized function says |
| FirmwareUpdate.Updater.Find | src/ota.c:72-89 | the scan returns the first component with the package name, and none exactly when there is none |
| FirmwareUpdate.Updater.TakeManifest | examples/zephyr/fw_update/src/fw_update.c:430-684 | one manifest: refused, or adopted with the backoff reset, checked and possibly switched to |
| FirmwareUpdate.Updater.AfterDownload | examples/zephyr/fw_update/src/fw_update.c:727-791 | the wait and the end of one turn of the loop: backoff first, then failure, hash mismatch, or reset and switch |
| FirmwareUpdate.Updater.WaitForCompletion | examples/zephyr/fw_update/src/fw_update.c:727-731 | takes the semaphore exactly when the download was started |
| UriPath.JoinSegments | src/zephyr_coap_utils.c:66-106 | joining the segments with slashes gives back the path without leading slashes and without one trailing slash; no segment contains a slash |
| UriPath.SegmentsJoin | src/zephyr_coap_utils.c:66-106 | conversely every list of slash-free segments with non-empty ends is what its joined path is split into |
| UriPath.OptionRoundTrip | src/zephyr_coap_utils.c:86-88 | an option in the format of RFC 7252 section 3.1 is read back with its delta and value, for all three length forms |
| UriPath.PathRoundTrip | src/zephyr_coap_utils.c:66-106 | the options emitted for a path are read back, all as number 11, with exactly its segments |
| UriPath.EstimateCovers | src/zephyr_coap_utils.c:124-146 | for every path vector the estimate is at least the exact encoded size of all options emitted, empty interior segments and the long length forms included, whatever option precedes |
| UriPath.EstimateIsExactForShort | src/zephyr_coap_utils.c:132-142 | for one segment of fewer than 26 bytes the estimate is exact |
| UriPath.Packet.AppendOption | src/zephyr_coap_utils.c:86-90 | appends the encoded option exactly when it fits, else changes nothing |
| UriPath.AppendAllForm | src/zephyr_coap_utils.c:81-105 | appending one by one leaves exactly the first n segments in the option format, in order; it succeeds if and only if n is all of them, and otherwise the next one does not fit |
| UriPath.AppendAllFits | src/zephyr_coap_utils.c:81-105 | with room for the exact encoding all segments are appended |
| UriPath.EstimateSuffices | src/zephyr_coap_utils.c:124-146 | with room for the estimate all segments of the vector are appended, as options with number 11, and decode back to themselves |
| UriPath.AppendAllConcat | src/zephyr_coap_utils.c:112-119 | appending the strings of a vector in turn, stopping at the first refusal, is appending all their segments |
| UriPath.SkipSlashes | src/zephyr_coap_utils.c:73-77 | stops at the first byte that is no slash, inside the string |
| UriPath.AppendFromStringRange | src/zephyr_coap_utils.c:66-106 | leaves in the packet what appending one by one the segments of the string, cut off at `end`, leaves there, and succeeds exactly when that does; like the source, the trimming of leading slashes alone looks past `end` |
| UriPath.AppendFromPathv | src/zephyr_coap_utils.c:108-122 | for every packet: the segments of all strings are appended one by one up to the first that does not fit, which is reported; with room for the estimate none is refused and the bytes added decode to URI-Path options with exactly the segments |
| UriPath.EstimateAllocLen | src/zephyr_coap_utils.c:124-146 | the accumulating loop computes the estimate |
| CborTokens.RoundTrip | src/net_info.c:43-120 | the parser gives back every serialised value and leaves what follows it |
| NetInfo.FlagsDecide | src/net_info.c:58-88 | the flag word tells which groups are open, closed and absent |
| NetInfo.AppendKeepsForm | src/net_info.c:43-98 | one append is accepted exactly when its kind is the open group or unused so far, extends the document by exactly that entry, and otherwise emits nothing |
| NetInfo.AppendAllForm | src/net_info.c:43-98 | over every sequence of appends the tokens are those of the document of the accepted entries, and each status says whether its entry was accepted |
| NetInfo.FinishedDocument | src/net_info.c:100-120 | after finish the tokens parse as one map and nothing else: that document; the flags are clear for the next |
| NetInfo.GroupsInFirstUseOrder | src/net_info.c:43-120 | the document's groups are in first-use order, each kind once, each holding exactly its accepted entries in order |
| NetInfo.Names | src/net_info_cellular.c:15-26 | the names of the groups and of the cellular types, literally |
| NetInfo.MacTextByPosition | src/net_info_wifi.c:28-35 | the text of a MAC has two lower-case hexadecimal digits for each byte, which give the byte back, with colons in between |
| NetInfo.WifiTokens | src/net_info_wifi.c:37-70 | the tokens of one scan result, literally |
| NetInfo.CellTokens | src/net_info_cellular.c:41-74 | the tokens of one cell, literally, the strength only if not zero |
| NetInfo.Encoder.Append | src/net_info.c:43-98 | opens, closes and refuses groups in place |
| NetInfo.Encoder.WifiAppend | src/net_info_wifi.c:15-75 | emits the serialisation of one scan result |
| NetInfo.Encoder.CellularAppend | src/net_info_cellular.c:28-84 | emits the serialisation of one cell, its strength only if not zero |
| NetInfo.Encoder.FinishInPlace | src/net_info.c:100-120 | closes the list and the map; refuses when nothing was appended |

## Left out

- Callbacks that re-enter cancellation while the request list is being walked; callbacks are taken to enqueue requests only.
- The mutex around the request list: each single operation on the list is atomic in the model, as the lock makes it. The loops over the slots are not; adding an observation is one step because only the client's thread takes slots into use. What the compiler or the hardware may do with the unlocked accesses to the slots is not modelled.
- Scheduling or allocation failing before a request enters the list: no callback is made then, so the accounting starts at successful scheduling.
- Building and parsing CoAP packets, appending Block1 and Block2 options to requests, and the library's block context arithmetic: what they yield is a parameter of a received packet.
- Counting and logging of resends (`zephyr_coap_req.c:727-736`).
- Freeing of the request message structures themselves; the ownership claims are about payloads.
- CoapRuns.ResponsesReachTheirRequests: leaves out DELETE and EMPTY requests and asynchronous uploads with several blocks outstanding, which share a token by design.
- Tokens.TokenStore.Next: does not model the loop that seeds the store from the random source; the seed is arbitrary.
- Mailbox.MailboxIsBoundedFifo: does not cover `golioth_mbox_num_messages`, whose two index reads are not one atomic step.
- FirmwareDownload.SessionIsExact: does not claim that a session finishes, because `block_retry_timer_expiry` ignores a refused restart, after which nothing is outstanding; and after an error of flash itself the content of flash is unspecified.
- FirmwareDownload.DownloadProgress.BlockRetryTimerExpiry: models the one-shot timer of the Zephyr port; other ports reload theirs.
- FirmwareUpdate.SwitchesOnlyVerifiedImages: takes a download as one step of the loop, because only the loop's own thread writes the target (`fw_update.c:456`); does not model SHA-256, the candidate check of the flash library, reporting states to the cloud, or the wait for confirming a running image at the start.
- UriPath.EstimateCovers: covers strings shorter than 65805 bytes, the longest value the option format can express.
- NetInfo.FinishedDocument: does not model running out of buffer space, and the byte encoding below tokens.
- BlockUpload.BlockwisePost: is about readers that end, with one that never returns a last block or an error the source loops for ever; and takes every queued block to get its callback. A block that the client drops after queueing it (`coap_client_zephyr.c:773-783`, or the purge at its destruction) leaves the source waiting on its semaphore for ever (`coap_blockwise.c:182`).
- CoapRequests.BlockIsServedExactlyWhenDeliverable: takes a transfer to keep to one block size, so that the block number determines the offset; `BlockIsServedExactlyWhen` does without.
- The asynchronous upload context apart from the response transfer attached to its last block.
- The libcoap port, settings, RPC, sockets, DTLS, DNS, credentials, logging backends, shells and the sample applications.
