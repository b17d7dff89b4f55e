# Verified model of the messaging and proxy core

This project models five parts of the repository in Dafny and proves what they promise over all inputs
and all runs. `dafny verify dfyconfig.toml` checks everything.

| part | source | files |
|---|---|---|
| ARQ registry of the client daemon | `katzenpost/client/pigeonhole.go` | `ArqSystem`, `ArqInvariants`, `ArqTheorems`, `ArqRace`, `ArqDaemon` |
| Payload chunking and box indices | `katzenpost/client/pigeonhole.go` | `Chunking` |
| Group chat and mailboxes | `katzenpost/cmd/chatd/main.go` | `ChatStore`, `ChatGroups`, `ChatLedger`, `ChatRuns`, `ChatEffects`, `Chatd` |
| JSON-RPC batches, rate limiter | `zknode-dashboard/server/index.js` | `BatchSplit`, `BatchForward`, `BatchAnswer`, `RateLimiter` |
| Merkle prover and verifier | `cmd/storage-proved-rs/src/prover.rs` | `MerkleTree`, `MerklePaths`, `MerkleTheorems`, `MerkleRoots`, `MerkleLevels`, `MerkleHash`, `MerkleProver` |
| Thin client protocol | `katzenpost/client/thin/thin.go` | `ThinFraming`, `ThinFanout`, `ThinReconnect`, `ThinPkiCache` (`Wrappers` and `Powers` are shared) |

Code that changes state in place is a class or a method with loops, proved against functions on values;
the theorems are about those functions and about runs of them.

## The ARQ registry

`ArqSystem` cuts the daemon's code at its locks: each region under `replyLock`, each timer-queue call and
each read of a shared message between two locks is one event of a goroutine, and goroutines interleave
freely. `ArqDaemon` has the same steps as methods on two maps, a timer queue and message objects; its ghost
`trace` records which events a call amounts to, so that everything proved about runs holds of the objects. Its
methods also state what they do to the fields themselves, and `PayloadVerdict`, `EnvelopeVerdict`, `CopyVerdict` and
`ReplyVerdict` say what one reply does for every answer of the state machine: which code the owner is told, when an
operation ends well, and under which SURB ID and with which timer entry a message goes on.

What holds in every interleaving: a cancelled message never returns to either map, a SURB ID that has left
the map never comes back, no tracked message is without a timer entry or a goroutine bound to file one, and
every message is tracked, discarded, or reported on.

What does not hold in every interleaving, with the exact condition:

* The two maps stay inverse exactly as long as no start repeats a hash still in flight (lines 1219-1220 do
  not look) and no handler deletes the entries of a message it no longer tracks while the hash belongs to
  another (lines 1475-1476, 1485-1488, 1609-1610, 1990-1991, 2001-2002 and 2019-2020 have no guard, unlike
  the rotations).
* An operation has at most one outcome exactly as long as no handler completes a message that a cancel or
  another handler has reported on already.

`ArqRace` gives a run of seven events with both harms: start, reply looked up, cancel, the same hash started
again, the held reply completes. Where handlers run one at a time neither condition can fail, and
`AtomicHandlers` and `QuietSafe` give all the guarantees without it.

Assumptions:

* `rotateARQSurbIDLocked`, `computeARQStateTransition`, `dropARQMessage`, `rescheduleARQAfterComposeFailure`,
  `handleReply` and `arqDoResend` live in files that are not part of this model. Rotation is taken to do what
  lines 1683-1688 do; the state machine is an arbitrary function; dropping deletes both entries as lines
  1475-1476 do and tells nobody; rescheduling pushes a timer entry for the message's current SURB ID; the timer
  handler does what lines 1655-1656 describe.
* Looking a reply up does not remove the map entry. The comment at line 1658 says it does, but then the checks
  at lines 1534, 1678 and 1962 would never pass.
* SURB IDs are fresh. One is drawn at the commit that files it, since nothing can observe it earlier. The
  `SURBID` and `EnvelopeHash` fields of a started message are not nil.
* A notice is appended at the lock region that settles the operation. Durations, priorities, retransmission
  counters and the packets themselves are left out.

## Group chat

Handlers are atomic. The code does not make them so, since the mutex at line 73 is never taken;
`OverlapLosesEntry` shows what two overlapping additions to a user's list lose. File
operations succeed, new IDs are fresh, and messages are stored locally (`useAnt` false). A directory lists its
message files by name, that is by ID. Any member's poll takes a group's messages away from all members, so a
message is returned at most once in all. `ChatLedger` keeps a ledger of messages beside the store; the theorems of
`ChatRuns` are about the requests of a run, which of them were accepted and what each returned. `ChatEffects` says
who may do what: which sends are accepted, who becomes a member and stays one, which error is met when, and that a
message is out by the time its recipient, or a member of its group, polls.

## Batches and the rate limiter

A `Map` distinguishes objects by identity and numbers or strings by value; `Item.ref` is that key. Elements
that share a key share the slot of the last of them, and their other slots stay empty: no slot stays empty exactly
when no element repeats, and the batch [1, 1] leaves its first slot empty. Besides, the ids within one sub-batch
must be distinct, or repeated ones have equal answers: the detour equals direct answering exactly then. When calls
fail, an element is given a cached value only where its method is one of the two cached, and never a value other
than the upstream's own as long as the cache holds those (`FailuresStayTrue`).
Sub-batches of several items are at most 1899 bytes, a little less than the 1900 the code aims at.

Time is monotone. The limiter admits at most 479 requests of one address in any 60000 ms, one less than twice
its maximum of 240, and 479 is reached.

## Merkle proofs

Digests are an arbitrary type and hashing two of them is an arbitrary function f (`MerkleTree` to `MerkleLevels`).
Proofs are accepted for every power-of-two leaf count whatever the function is. A function on 32-byte strings always
has collisions, so what needs their absence names them instead: a pair of different inputs of f with one result. For
every other count and any two different digests, either the proof of a first leaf unlike the rest is rejected, or
`CountCollision` is such a pair; and two proofs of one position with paths of one length either agree or `Collision`
is such a pair.

Path elements are pinned for every count: level by level, the other child of the parent on the way to the root, where
there is one (`PathCarries`). For every count n = p * m, p a power of two and m odd, the stored root is the Merkle
root of the last p leaves hashed with itself repeatedly (`RootOfTail`). The root over 12 files commits to the last 4
only.

`MerkleHash` is about the program's own f, the hash of two byte strings one after the other, where two different
inputs can be one and the same string cut elsewhere. The verifier checks neither the length of the path, nor the
number of chunks, nor the lengths of leaf and siblings, and it uses only as many bits of the index as the path is
long. Against a power-of-two tree of 32-byte leaves an accepted proof with a 32-byte leaf shows a stored leaf if its
path is as long as the tree is high, a node above the leaves if it is shorter, and with a longer path a value that
leads to a stored leaf; or two different byte strings with one hash are named. The root with an empty path passes for
any index. A leaf of any other length up to 64 bytes is accepted with a path of full length too, by moving the cut
between leaf and sibling, and is never a stored one. So accepted leaves are always stored ones, collisions aside, if
and only if the path is of full length and the leaf has 32 bytes (`StoredExactly`); a caller can check both.

## Thin client

Messages are opaque bytes. After a frame over 40 MiB the client reads on from behind the prefix, so it takes the
body for frames (`OversizedIsReread`); the handshake gives up instead. A daemon instance keeps what it holds.
`ThinReconnect` follows whole histories of dials, half-finished handshakes and replays. The PKI document cache
differs from its documentation, which promises the last five epochs. While epochs rise the code keeps six exactly
if the newest one and the five before it were all received, and at most five otherwise. For epochs below five the
unsigned subtraction at line 1379 wraps around, so that a document of epoch 4 can empty the cache, itself included.

## Model

| member | source | states |
|---|---|---|
| ArqInvariants.StepTracked | katzenpost/client/pigeonhole.go:1525-1545 | In any interleaving, a message stays tracked under its current SURB ID until it is finished, dropped or cancelled, and never becomes tracked again |
| ArqInvariants.StepActOk | katzenpost/client/pigeonhole.go:1520-1548 | What a goroutine has read between two locks (the SURB ID it will rotate away from, the timer it will cancel) stays valid through other goroutines' events |
| ArqInvariants.StepCovered | katzenpost/client/pigeonhole.go:1547-1554 | No event takes the last timer entry, or promise of one, away from a tracked SURB ID |
| ArqInvariants.StepCount | katzenpost/client/pigeonhole.go:1392-1407 | Only completing and cancelling report, each on one message |
| ArqInvariants.StepSettled | katzenpost/client/pigeonhole.go:1472-1493 | A message is tracked and unreported, or discarded and unreported, or reported: kept by every event |
| ArqInvariants.StepInv | katzenpost/client/pigeonhole.go:1197-2050 | Every event keeps the whole registry invariant |
| ArqTheorems.RunInv | katzenpost/client/pigeonhole.go:1197-2050 | The invariant holds after every run |
| ArqTheorems.StaysUntracked | katzenpost/client/pigeonhole.go:1526-1537 | A message that has left the maps is reachable through neither map after any further run |
| ArqTheorems.CancelledStaysCancelled | katzenpost/client/pigeonhole.go:1328-1336 | A cancelled message is never put back by a rotation, retry or copy poll, even if its hash is started again; its owner is told of the cancellation |
| ArqTheorems.RetiredStaysRetired | katzenpost/client/pigeonhole.go:1683-1688 | A SURB ID that left the map is never filed again |
| ArqTheorems.InverseMeansCancellable | katzenpost/client/pigeonhole.go:1650-1660 | The maps are inverse exactly when a cancel reaches every tracked message |
| ArqTheorems.InverseExact | katzenpost/client/pigeonhole.go:1474-1477 | A step keeps the maps inverse if and only if it is not an unguarded delete of another message's entry or a repeated start |
| ArqTheorems.InverseOverRuns | katzenpost/client/pigeonhole.go:1218-1222 | The maps are inverse throughout a run if and only if no step is such a conflict |
| ArqTheorems.OutcomeExact | katzenpost/client/pigeonhole.go:1607-1648 | A step keeps every operation at one outcome or none if and only if it is not a stale report |
| ArqTheorems.OutcomeOverRuns | katzenpost/client/pigeonhole.go:1392-1407 | Over a run, at most one outcome each if and only if no stale report; then an operation has one exactly when it is neither tracked nor discarded |
| ArqTheorems.CountGrows | katzenpost/client/pigeonhole.go:1392-1407 | A report once made is never taken back |
| ArqTheorems.AtomicHandlers | katzenpost/client/pigeonhole.go:1409-1571 | With handlers one at a time, for any FSM: maps inverse, at most one outcome, a timer entry for every tracked message |
| ArqRace.RaceDoesHarm | katzenpost/client/pigeonhole.go:1482-1492 | A run of seven events, as the code can produce it, that ends with two outcomes for one operation and a tracked message no cancel can reach |
| ArqDaemon.PayloadOutcome | katzenpost/client/pigeonhole.go:1919-2050 | When a payload ends its operation, when it ends it well, and who gets plaintext |
| ArqDaemon.PayloadVerdict | katzenpost/client/pigeonhole.go:1883-2050 | Each code is told exactly under its own condition; a repeated read is told nothing and, if tracked, waits for an acknowledgement under the drawn SURB ID alone |
| ArqDaemon.EnvelopeVerdict | katzenpost/client/pigeonhole.go:1460-1565 | An envelope operation ends with Success if and only if the FSM says complete, or says payload and the payload ends well; the courier's code is told exactly for its error; asking for the payload keeps a tracked message tracked, under the drawn ID and in the FSM's state |
| ArqDaemon.CopyVerdict | katzenpost/client/pigeonhole.go:1586-1648 | A copy command ends exactly if its status is not InProgress, and each code is told exactly for its own status |
| ArqDaemon.ReplyVerdict | katzenpost/client/pigeonhole.go:1409-1450 | Without a connection nothing changes; an unreadable or misfit reply untracks the message without a notice; no reply adds more than one |
| ArqDaemon.OthersUntouched | katzenpost/client/pigeonhole.go:1409-1571 | A reply leaves the entries of other SURB IDs and hashes alone |
| ArqDaemon.Daemon.ValidInv | katzenpost/client/pigeonhole.go:1197-2050 | The daemon's fields satisfy the registry invariant after any calls |
| ArqDaemon.Daemon.HashLeadsBack | katzenpost/client/pigeonhole.go:1328-1333 | A hash on file leads to a tracked message with that hash, so a cancel that finds it always has a message |
| ArqDaemon.Daemon.FileMessage | katzenpost/client/pigeonhole.go:1218-1222 | The lock region of a start is the Start event |
| ArqDaemon.Daemon.ArqSend | katzenpost/client/pigeonhole.go:1197-1232 | A start files the message under its hash and SURB ID, then its timer entry, and tells nobody |
| ArqDaemon.Daemon.TakeCancelled | katzenpost/client/pigeonhole.go:1328-1336 | A cancel's lock region takes out exactly what the hash leads to and reports the cancellation |
| ArqDaemon.Daemon.CancelResending | katzenpost/client/pigeonhole.go:1823-1836 | A cancel removes both entries and the timer entry of the message it took, if any, and tells its owner |
| ArqDaemon.Daemon.Finish | katzenpost/client/pigeonhole.go:1472-1480 | Completion deletes both entries unguarded and reports exactly the outcome given |
| ArqDaemon.Daemon.DropARQMessage | katzenpost/client/pigeonhole.go:1417-1430 | An unreadable reply drops the operation without a report |
| ArqDaemon.Daemon.RotateSurbLocked | katzenpost/client/pigeonhole.go:1683-1688 | Both maps and the message move to the new SURB ID |
| ArqDaemon.Daemon.CommitRotation | katzenpost/client/pigeonhole.go:1525-1545 | The guarded lock region rotates exactly if the map still holds this object under the SURB ID read before |
| ArqDaemon.Daemon.RotateSurb | katzenpost/client/pigeonhole.go:1520-1554 | A tracked message moves to the new SURB ID in both maps and the timer queue, the old entry going; any other is left as it is |
| ArqDaemon.Daemon.CommitPlaceholder | katzenpost/client/pigeonhole.go:1668-1689 | The placeholder replaces the SURB ID exactly if the message is tracked |
| ArqDaemon.Daemon.ScheduleCopyCommandPoll | katzenpost/client/pigeonhole.go:1661-1700 | A tracked copy command goes on under the drawn placeholder with a timer entry for it; a failed draw or a cancelled message changes nothing |
| ArqDaemon.Daemon.HandleCopyCommandARQReply | katzenpost/client/pigeonhole.go:1586-1648 | Success for Succeeded, CopyCommandFailed for Failed, InternalError for an unknown status; InProgress keeps a tracked message tracked under the drawn ID, with a timer entry; another kind of reply changes nothing |
| ArqDaemon.Daemon.HandlePayloadReply | katzenpost/client/pigeonhole.go:1919-2050 | The outcome of each decrypted or failed payload, and the repetition of a read whose box does not exist yet |
| ArqDaemon.Daemon.SendNewSurb | katzenpost/client/pigeonhole.go:1500-1560 | The second round trip of a read: the message moves to the drawn SURB ID, is rescheduled if no packet can be composed, and is left alone in the other early returns |
| ArqDaemon.Daemon.HandlePigeonholeARQReply | katzenpost/client/pigeonhole.go:1409-1571 | What a reply does to maps, timers, notices and message for every action of the FSM, and that it is exactly the event sequence the FSM selects |
| ArqDaemon.Daemon.ArqDoResend | katzenpost/client/pigeonhole.go:1653-1656 | A fired timer moves the message it finds to a new SURB ID in the same state and files a new entry; a failed composition restores the entry; a stale one is dropped |
| ArqDaemon.Daemon.QuietSafe | katzenpost/client/pigeonhole.go:1409-1571 | Between handlers that never overlapped: maps inverse, a timer entry per tracked SURB ID, one outcome exactly for settled operations |
| ArqDaemon.Daemon.StartResending | katzenpost/client/pigeonhole.go:1254-1298 | A start of a hash not in flight tracks the message with a timer entry and keeps handlers one at a time |
| ArqDaemon.Daemon.Cancel | katzenpost/client/pigeonhole.go:1311-1370 | A cancel hits exactly if its hash is on file, then removes both entries and the timer entry and tells the owner; it keeps handlers one at a time |
| ArqDaemon.Daemon.HandleReply | katzenpost/client/pigeonhole.go:1409-1571 | Lookup and handler do what the reply says to the message looked up and keep handlers one at a time; an unknown SURB ID changes nothing |
| ArqDaemon.Daemon.HandleTimer | katzenpost/client/pigeonhole.go:1653-1656 | A timer firing moves the tracked message to the new SURB ID and keeps handlers one at a time |
| Chunking.CeilDivLeast | katzenpost/client/pigeonhole.go:388-401 | The number of chunks is the least that covers the payload |
| Chunking.BoxesCut | katzenpost/client/pigeonhole.go:531-551 | Consecutive indices, non-empty chunks that fit, only the last one short, together the payload, ceil(len/max) of them |
| Chunking.BoxesAreChunks | katzenpost/client/pigeonhole.go:475-498 | The advancing writer and the caller-advanced index give the same boxes |
| Chunking.ChainNeverReusesABox | katzenpost/client/pigeonhole.go:585 | Calls chained through the returned index use each index once and write the payloads in order |
| Chunking.AllBoxesServe | katzenpost/client/pigeonhole.go:682-754 | Of a call's boxes, each destination's share, in destination order, is its own payload cut into chunks that fit at its own consecutive indices |
| Chunking.ChunkPayload | katzenpost/client/pigeonhole.go:388-401 | The offset loop cuts as specified |
| Chunking.CreateFromPayload | katzenpost/client/pigeonhole.go:500-591 | Boxes and next index of a single-destination call, and when it is refused |
| Chunking.CutDestination | katzenpost/client/pigeonhole.go:682-732 | Boxes and next index of one destination, cut in place |
| Chunking.CreateFromPayloads | katzenpost/client/pigeonhole.go:607-764 | Boxes that serve every destination, their next indices, and which error wins |
| Chunking.CreateFromTombstoneRange | katzenpost/client/pigeonhole.go:822-849 | Exactly maxCount consecutive tombstones |
| ChatGroups.StepKeepsMembership | katzenpost/cmd/chatd/main.go:229-264 | Members and per-user lists agree, lists have no duplicates, no group is empty, the owner is the first member: kept by every request |
| ChatGroups.InviteKeeps | katzenpost/cmd/chatd/main.go:437-481 | Invitations keep it, also with repeated names |
| ChatGroups.LeaveKeeps | katzenpost/cmd/chatd/main.go:483-519 | Departures keep it, also the owner's and the last member's |
| ChatGroups.OwnerSucceeds | katzenpost/cmd/chatd/main.go:496-515 | A departure removes the leaver only and keeps the others in order, deletes the group exactly if nobody else is in it, and passes a leaving owner's group to the first of them |
| ChatGroups.OverlapLosesEntry | katzenpost/cmd/chatd/main.go:583-602 | When two additions to one list both read before either writes, the first entry is lost if and only if both are new and different; one after the other they lose nothing |
| ChatLedger.InsertMeans | katzenpost/cmd/chatd/main.go:151-155 | A new message file joins the directory listing in order and displaces none |
| ChatLedger.DrainAllMeans | katzenpost/cmd/chatd/main.go:404-428 | Polling groups reads exactly their messages and empties exactly their directories |
| ChatLedger.StepEffect | katzenpost/cmd/chatd/main.go:93-123 | After any request a directory holds what it held, less what was read or deleted, plus what was accepted |
| ChatLedger.ReadWasPending | katzenpost/cmd/chatd/main.go:208-223 | What a request reads or deletes was pending, each message once |
| ChatRuns.NextKeepsLedger | katzenpost/cmd/chatd/main.go:93-123 | Every request keeps the ledger of all messages exact |
| ChatRuns.ReachableKeeps | katzenpost/cmd/chatd/main.go:93-123 | Both invariants hold in every reachable state |
| ChatRuns.AcceptedIsOnLedger | katzenpost/cmd/chatd/main.go:146-155 | Every accepted message of a run is on its ledger, unchanged and at the place it was sent to |
| ChatRuns.LedgerIsAccepted | katzenpost/cmd/chatd/main.go:146-155 | Whatever is on the ledger was accepted by a request of the run |
| ChatRuns.LogIsReturned | katzenpost/cmd/chatd/main.go:208-223 | The log is what the requests of the run returned, and to whom |
| ChatRuns.ReturnedOnce | katzenpost/cmd/chatd/main.go:404-428 | No two requests of a run return the same message |
| ChatRuns.MessageConservation | katzenpost/cmd/chatd/main.go:388-430 | After any run, every message accepted by one of its requests is pending in exactly the directory it was sent to, or was returned by exactly one request and once, or was never returned and its group is deleted |
| ChatRuns.ConditionsExclude | katzenpost/cmd/chatd/main.go:388-430 | The three conditions exclude each other |
| ChatRuns.OnlyAcceptedIsReturned | katzenpost/cmd/chatd/main.go:208-223 | What a request returns was accepted, as it is, by an earlier request, for a place the caller may read |
| ChatRuns.PollReadsOwn | katzenpost/cmd/chatd/main.go:398-404 | A poll returns only messages to the poller or to groups the poller is in, although polling all groups checks no membership |
| ChatRuns.PollAllIsComplete | katzenpost/cmd/chatd/main.go:398-430 | Polling all groups empties all of the poller's groups and no other |
| ChatRuns.ListIsExact | katzenpost/cmd/chatd/main.go:521-543 | Listing shows each group of the user once and no other |
| ChatEffects.ErrorsExact | katzenpost/cmd/chatd/main.go:93-123 | Each error is met exactly under its own condition, and a failed request changes nothing |
| ChatEffects.AcceptedExactly | katzenpost/cmd/chatd/main.go:270-303 | Which sends are accepted: those with a user and content, to a group by its members only; the message and the place as sent |
| ChatEffects.MembershipExactly | katzenpost/cmd/chatd/main.go:437-481 | After a request a user is in a group if and only if it creates the group naming the user, or is its owner's invitation of the user, or the user was in it and does not leave |
| ChatEffects.InvitationsAreOwners | katzenpost/cmd/chatd/main.go:449-456 | An invitation is answered Done exactly if it is the owner's; any other leaves the store as it is |
| ChatEffects.GroupsExactly | katzenpost/cmd/chatd/main.go:229-264 | A created group has the name, owner, members and time of its request; later requests keep name and time; only the owner's departure changes the owner; a group goes exactly with its last member |
| ChatEffects.PollIsComplete | katzenpost/cmd/chatd/main.go:208-227 | A poll hands out the whole mailbox, empties it and touches no other directory |
| ChatEffects.GroupPollIsComplete | katzenpost/cmd/chatd/main.go:388-430 | A member's poll of one group does the same for the group; anyone else's is refused and changes nothing |
| ChatEffects.MembersOverRuns | katzenpost/cmd/chatd/main.go:437-519 | After any run a user is in a group if and only if some request of its creator or its owner at that time put the user there and the user has not left since |
| ChatEffects.PolledIsReturned | katzenpost/cmd/chatd/main.go:194-227 | A message accepted at some point of a run has been returned, after its acceptance, by the time its recipient or a member of its group polls: by that poll if it is still pending |
| Chatd.Server.AddUserGroup | katzenpost/cmd/chatd/main.go:583-602 | The search loop and append are the index step |
| Chatd.Server.RemoveUserGroup | katzenpost/cmd/chatd/main.go:604-617 | The filter loop is the index step |
| Chatd.Server.IsMember | katzenpost/cmd/chatd/main.go:619-626 | The search finds a member exactly if there is one |
| Chatd.Server.DrainGroup | katzenpost/cmd/chatd/main.go:405-428 | Reading and deleting file by file returns all and leaves none |
| Chatd.Server.HandleSend | katzenpost/cmd/chatd/main.go:125-170 | A valid send changes the recipient's mailbox alone, the sender's own if no recipient is named; an invalid one changes nothing |
| Chatd.Server.HandlePoll | katzenpost/cmd/chatd/main.go:194-227 | Reading and deleting file by file returns the mailbox in listing order and leaves it empty; no group is touched |
| Chatd.Server.HandleGroupCreate | katzenpost/cmd/chatd/main.go:229-268 | The creator comes first among the members and owns the group, and the loop lists it for every member |
| Chatd.Server.HandleGroupSend | katzenpost/cmd/chatd/main.go:270-326 | Only members add messages, and only to that group; which of the five errors wins otherwise |
| Chatd.Server.HandleGroupPoll | katzenpost/cmd/chatd/main.go:381-435 | The loops over groups and files drain the named group, or all listed ones in list order |
| Chatd.Server.HandleGroupInvite | katzenpost/cmd/chatd/main.go:437-481 | Done exactly for the owner of the group, and otherwise nothing changes; newcomers are appended once each and listed |
| Chatd.Server.HandleGroupLeave | katzenpost/cmd/chatd/main.go:483-519 | The filter loop removes every occurrence of the leaver, and the last one out deletes the group |
| Chatd.Server.HandleGroupList | katzenpost/cmd/chatd/main.go:521-543 | The metadata of the listed groups in list order, missing ones skipped |
| Chatd.Server.Process | katzenpost/cmd/chatd/main.go:93-123 | Dispatch: every request is the specified step on the store |
| BatchSplit.Split | zknode-dashboard/server/index.js:1186-1195 | The splitting loop computes the groups |
| BatchSplit.SplitsTightly | zknode-dashboard/server/index.js:1186-1195 | Forwarded groups are an ordered partition of the items that fit, each within the limit, none able to take the next one's first item |
| BatchSplit.SinglesAreOversized | zknode-dashboard/server/index.js:1190 | The single groups are exactly the oversized items |
| BatchSplit.PostedSize | zknode-dashboard/server/index.js:1209 | What is posted is at most 1902 bytes, at most 1899 for several items |
| BatchSplit.FewestGroups | zknode-dashboard/server/index.js:1186-1195 | No ordered split into groups that fit by the splitter's own charge, two bytes per item for separators, needs fewer groups |
| BatchSplit.ChargeIsStricter | zknode-dashboard/server/index.js:1191-1192 | Measured by the bytes posted fewer can do: 105 items of 17 bytes would post as 1891 bytes in one group, and are split |
| BatchForward.RepliesCarryIds | zknode-dashboard/server/index.js:1215-1224 | Whatever happens upstream, an item's reply carries its id |
| BatchForward.KeysApart | zknode-dashboard/server/index.js:1213-1216 | Ids are told apart, except that an absent one and the number 1 are one |
| BatchForward.FailedGives | zknode-dashboard/server/index.js:1159-1165 | After a failed call a value is given if and only if the method is one whose value is cached, and then that value; every other item gets -32603 with the failure, under its own id |
| BatchForward.AnsweredGives | zknode-dashboard/server/index.js:1211-1218 | An answered call gives an item the last reply with its id, and the missing-reply error if and only if there is none |
| BatchForward.GivenExactly | zknode-dashboard/server/index.js:1211-1224 | These two cases determine the reply |
| BatchForward.FailedGivesOwnAnswer | zknode-dashboard/server/index.js:1220-1223 | If the cache holds the upstream's own answers, a failed call gives the items of the two methods cached exactly what the upstream would |
| BatchForward.ForwardedExactly | zknode-dashboard/server/index.js:1179-1192 | An element is forwarded if and only if it has at most 1900 bytes |
| BatchForward.ScatterExact | zknode-dashboard/server/index.js:1211-1218 | Items get their own answers, for any order of replies, exactly if equal ids have equal answers |
| BatchForward.IndexByRef | zknode-dashboard/server/index.js:1199-1200 | The index maps each element to its last position |
| BatchForward.ScatterGroup | zknode-dashboard/server/index.js:1215-1224 | One group's replies go to its own slots and no others |
| BatchAnswer.FillOversized | zknode-dashboard/server/index.js:1201-1205 | Every oversized element, and no other, has the size error before anything is sent |
| BatchAnswer.AwaitAll | zknode-dashboard/server/index.js:1207-1225 | In any completion order every group's slots are filled, by its own call's replies if no element repeats |
| BatchAnswer.AnswerBatch | zknode-dashboard/server/index.js:1184-1226 | Under any failures every element has a reply with its own id at its last position: oversized ones the size error, the others what some call that carried them gave, by `GivenBy`; no wrong value is given; no slot stays empty if and only if no element repeats; if every call is answered item by item, the array is the direct answer if and only if, besides, no sub-batch clashes |
| BatchAnswer.FilledExactly | zknode-dashboard/server/index.js:1198-1200 | Every slot is filled if and only if no element repeats |
| BatchAnswer.SplitRefinesDirect | zknode-dashboard/server/index.js:1173-1226 | The detour equals answering each element directly if and only if no element repeats and no sub-batch has clashing ids |
| BatchAnswer.FailuresStayTrue | zknode-dashboard/server/index.js:1207-1225 | Whichever calls fail, no element is given a value other than the upstream's answer to it, provided cache and answered calls are the upstream's and no sub-batch clashes |
| BatchAnswer.ClashSwapsAnswers | zknode-dashboard/server/index.js:1211-1217 | Any two items with one id and different answers that fit into one sub-batch: the first is given the second's answer |
| BatchAnswer.ClashIsReached | zknode-dashboard/server/index.js:1211-1217 | A request without an id beside one with id 1 is such a pair |
| BatchAnswer.RepeatLeavesGap | zknode-dashboard/server/index.js:1199-1200 | The batch [1, 1] leaves its first slot empty, whatever the upstream does |
| RateLimiter.Limiter.RateLimit | zknode-dashboard/server/index.js:49-57 | Whether a request passes depends on its own address's arrival times alone |
| RateLimiter.AddressesAreIndependent | zknode-dashboard/server/index.js:48-53 | An address's entry is a function of its own arrival times |
| RateLimiter.SlidingBound | zknode-dashboard/server/index.js:47-57 | At most 479 requests pass in any interval of 60000 ms |
| RateLimiter.BoundIsTight | zknode-dashboard/server/index.js:47-57 | 479 is reached |
| RateLimiter.RefusedOnlyWhenBusy | zknode-dashboard/server/index.js:53-55 | A refused request was preceded by 240 others within 60000 ms |
| MerkleTree.Tree | cmd/storage-proved-rs/src/prover.rs:91-126 | The tree's length is the sum of the level sizes |
| MerkleTree.HeightIsLog | cmd/storage-proved-rs/src/prover.rs:128-149 | The bound on path lengths is the rounded-up logarithm |
| MerkleTree.IsPow2Means | cmd/storage-proved-rs/src/prover.rs:97-101 | The counts that stay even while halved are the powers of two |
| MerklePaths.PathCarries | cmd/storage-proved-rs/src/prover.rs:128-150 | For every number of leaves, tree, index and level: if the way up has another child beside it there, the path carries exactly that node of that level, after those of the levels below |
| MerklePaths.PathCarriesOnly | cmd/storage-proved-rs/src/prover.rs:128-150 | The path carries nothing else |
| MerklePaths.LevelsFill | cmd/storage-proved-rs/src/prover.rs:132-147 | The level starts that the extractor computes fill the tree, and its last node is the topmost level |
| MerkleTheorems.RootOfPairs | cmd/storage-proved-rs/src/prover.rs:104-119 | Hashing neighbours level by level gives the recursively defined Merkle root |
| MerkleTheorems.PowerOfTwoComplete | cmd/storage-proved-rs/src/prover.rs:153-180 | For power-of-two counts the root is the Merkle root and every proof is accepted |
| MerkleTheorems.OtherCountsIncomplete | cmd/storage-proved-rs/src/prover.rs:100-101 | For every other count and any two digests, the proof of a first leaf unlike the rest is rejected, or a named pair of inputs collides |
| MerkleTheorems.CompletenessExact | cmd/storage-proved-rs/src/prover.rs:91-126 | All honest proofs are accepted for power-of-two counts, with any hash; for any other count only if every two different digests yield a named collision |
| MerkleTheorems.CollisionFreeExact | cmd/storage-proved-rs/src/prover.rs:91-126 | Where hashing does not collide on the one pair of inputs named, all honest proofs are accepted if and only if the leaf count is a power of two |
| MerkleRoots.RootOfTail | cmd/storage-proved-rs/src/prover.rs:97-123 | For every leaf count n = p * m, p a power of two and m odd, the stored root is the Merkle root of the last p leaves, hashed with itself as often as a tree over m leaves is high |
| MerkleRoots.OnlyTailCommitted | cmd/storage-proved-rs/src/prover.rs:97-123 | Leaf sequences of one length that agree on the last p leaves have one root, whatever the hash; p is less than n unless n is a power of two |
| MerkleRoots.AllCommitted | cmd/storage-proved-rs/src/prover.rs:97-123 | For a power of two these are all leaves, and the root is the Merkle root |
| MerkleTheorems.Binding | cmd/storage-proved-rs/src/prover.rs:153-180 | Two accepted proofs of a position under one root, with paths of one length, agree in leaf and siblings, or two different inputs of the combiner with one result are named |
| MerkleLevels.InnerNodeAccepted | cmd/storage-proved-rs/src/prover.rs:153-180 | Every node of a power-of-two tree, the root included, has an accepted proof, shorter the higher it lies |
| MerkleLevels.FoldLowBits | cmd/storage-proved-rs/src/prover.rs:163-177 | The verifier uses only as many bits of the index as the path is long |
| MerkleLevels.AcceptedIsNode | cmd/storage-proved-rs/src/prover.rs:153-180 | For any combiner: an accepted proof whose path is j short, at any index, shows the node j levels above the leaves, or two different inputs of the combiner with one result are named |
| MerkleLevels.AcceptedLeafIsStored | cmd/storage-proved-rs/src/prover.rs:153-180 | For any combiner: against a power-of-two tree, an accepted leaf whose path is as long as the tree is high is the stored one, or such a pair is named |
| MerkleLevels.AcceptedBelowLeaf | cmd/storage-proved-rs/src/prover.rs:153-180 | For any combiner: with a longer path, what the extra siblings lead to is the stored leaf, or such a pair is named |
| MerkleLevels.ShortPathFails | cmd/storage-proved-rs/src/prover.rs:153-180 | For any combiner and every shorter path length, a proof is accepted for a value not stored at its index |
| MerkleLevels.LongPathFails | cmd/storage-proved-rs/src/prover.rs:153-180 | The same for every longer path length |
| MerkleLevels.RootPassesAsLeaf | cmd/storage-proved-rs/src/prover.rs:153-180 | The root of a two-leaf tree is accepted as a leaf, at both indices, with an empty path, and is one of the leaves at most |
| MerkleHash.BindingOfHash | cmd/storage-proved-rs/src/prover.rs:165-175 | For the hash of two strings one after the other: two accepted proofs of a position with paths of one length and leaves of one length, siblings of any lengths, agree, or two different byte strings with one hash are named |
| MerkleHash.NodeOfHash | cmd/storage-proved-rs/src/prover.rs:153-180 | An accepted proof whose path is j short shows the node j levels above the leaves only if its leaf has 32 bytes; if it has, it does, or two different byte strings with one hash are named |
| MerkleHash.StoredOfHash | cmd/storage-proved-rs/src/prover.rs:153-180 | With a full path an accepted leaf is the stored one exactly if it has 32 bytes, or two different byte strings with one hash are named |
| MerkleHash.BelowLeafOfHash | cmd/storage-proved-rs/src/prover.rs:153-180 | With a longer path, what the extra siblings lead to is the stored leaf, or two different byte strings with one hash are named |
| MerkleHash.RecutFolds | cmd/storage-proved-rs/src/prover.rs:163-177 | Moving the cut between leaf and first sibling leaves the verifier's result as it is |
| MerkleHash.OtherLengthsAccepted | cmd/storage-proved-rs/src/prover.rs:153-180 | For every tree of two or more 32-byte leaves and every index, a proof with a full path and a leaf of any length up to 64 bytes is accepted; at other lengths than 32 its leaf is not stored and no hash collision is involved |
| MerkleHash.StoredExactly | cmd/storage-proved-rs/src/prover.rs:153-180 | Accepted leaves of m bytes with paths of length k are always stored ones, collisions aside, if and only if k is the height of the tree and m is 32; whatever the hash |
| MerkleProver.HashLevel | cmd/storage-proved-rs/src/prover.rs:103-119 | The inner loop hashes a level pairwise |
| MerkleProver.BuildMerkleTree | cmd/storage-proved-rs/src/prover.rs:91-126 | The builder computes the specified tree, for any leaf count |
| MerkleProver.GetMerklePath | cmd/storage-proved-rs/src/prover.rs:128-150 | The extractor stays in bounds for any count, computes the specified path, of at most log2 length |
| MerkleProver.NewProver | cmd/storage-proved-rs/src/prover.rs:24-44 | A prover holds the tree over its leaves; no files means one zero leaf |
| MerkleProver.Prove | cmd/storage-proved-rs/src/prover.rs:70-88 | The proof of an index in range, and the error otherwise |
| MerkleProver.VerifyProof | cmd/storage-proved-rs/src/prover.rs:153-180 | The verifier accepts exactly if root and fold match the expected root |
| MerkleProver.ProveAndVerify | cmd/storage-proved-rs/src/prover.rs:70-180 | Building, proving and verifying in sequence accepts for power-of-two counts |
| ThinFraming.FrameReadsBack | katzenpost/client/thin/thin.go:762-795 | A frame is read back, leaving exactly the rest, if and only if its body is at most 40 MiB |
| ThinFraming.FramesReadBack | katzenpost/client/thin/thin.go:781-795 | A stream of frames gives the same bodies and is consumed exactly |
| ThinFraming.FramesInjective | katzenpost/client/thin/thin.go:762-767 | Different body sequences never share a stream |
| ThinFraming.PrefixWeighs | katzenpost/client/thin/thin.go:762-775 | The prefix is the length modulo 2^32, most significant byte first, and the body follows unchanged |
| ThinFraming.CutFrameIsNoMessage | katzenpost/client/thin/thin.go:781-795 | A cut frame is an end of stream, never a shorter message |
| ThinFraming.FramesReadOn | katzenpost/client/thin/thin.go:1164-1195 | Reading on past errors also gives back the bodies, if none is oversized |
| ThinFraming.OversizedIsReread | katzenpost/client/thin/thin.go:1172-1186 | After an oversized frame the client reads its body as frames |
| ThinFraming.OversizedYieldsMessage | katzenpost/client/thin/thin.go:1172-1186 | An oversized body that begins like a frame yields a message never sent |
| ThinFraming.Connection.WriteMessage | katzenpost/client/thin/thin.go:762-775 | The writer appends one frame |
| ThinFraming.Connection.ReadMessage | katzenpost/client/thin/thin.go:778-795 | The reader takes one frame off, or fails as specified |
| ThinFanout.SubscribedGetsAll | katzenpost/client/thin/thin.go:1335-1352 | A subscriber gets all events distributed while subscribed, in order |
| ThinFanout.UnsubscribedGetsNone | katzenpost/client/thin/thin.go:1328-1334 | Nobody else gets any |
| ThinFanout.LosslessFanout | katzenpost/client/thin/thin.go:1321-1356 | What a subscriber has received is exactly the contiguous run of events between its registration and its removal |
| ThinFanout.EmittedHolds | katzenpost/client/thin/thin.go:1345-1351 | Every event taken up is among those distributed, in its place |
| ThinFanout.EmittedCount | katzenpost/client/thin/thin.go:1345-1351 | Nothing else is distributed |
| ThinFanout.EventSink.Distribute | katzenpost/client/thin/thin.go:1345-1351 | One event reaches every subscriber once unless a halt strikes |
| ThinFanout.EventSink.Work | katzenpost/client/thin/thin.go:1321-1356 | Up to a halt the worker delivers as specified; a halt loses at most the event in hand |
| ThinReconnect.BackoffStep | katzenpost/client/thin/thin.go:1042-1072 | Doubling with a cap gives min(2^k, 60) seconds |
| ThinReconnect.WaitsDouble | katzenpost/client/thin/thin.go:1042-1072 | The first wait is one second; each refused dial doubles the next, up to 60, and nothing else changes it |
| ThinReconnect.StatusIsLast | katzenpost/client/thin/thin.go:1090-1100 | The status is the one the last attempt to get as far as a status event brought |
| ThinReconnect.ThinClient.Redial | katzenpost/client/thin/thin.go:1041-1147 | Redial ends at the first complete handshake, with its token; the waits start at one second and double exactly after refused dials |
| ThinReconnect.ThinClient.ReplayInFlightResends | katzenpost/client/thin/thin.go:1151-1159 | Each tracked request is written once, failed writes aside, and nothing else is |
| ThinReconnect.ThinClient.Reconnect | katzenpost/client/thin/thin.go:1211-1241 | Replay happens exactly if the instance changed, whatever half-finished handshakes met |
| ThinReconnect.RedialIsARun | katzenpost/client/thin/thin.go:1041-1147 | The attempts of one redial, taken one by one, come to the single decision of the worker |
| ThinReconnect.ReplayDecision | katzenpost/client/thin/thin.go:1211-1241 | The same after any history |
| ThinReconnect.DeliveredIsHeld | katzenpost/client/thin/thin.go:1211-1241 | If replay writes succeed, the connected daemon holds every delivered request still in flight |
| ThinReconnect.ReplayRestoresExactly | katzenpost/client/thin/thin.go:1151-1159 | A replay loses nothing exactly if the instance already holds what its writes lost |
| ThinPkiCache.CachedIsLatest | katzenpost/client/thin/thin.go:1372-1373 | A cached document is the one received last for its epoch |
| ThinPkiCache.NewestDroppedExactly | katzenpost/client/thin/thin.go:1377-1385 | A document is dropped on arrival if and only if its epoch is below 5 and more than five epochs are cached |
| ThinPkiCache.DroppedExactly | katzenpost/client/thin/thin.go:1377-1385 | An arrival drops another cached epoch if and only if more than five are cached then and it is more than five behind, in 64-bit arithmetic |
| ThinPkiCache.RecentIsCached | katzenpost/client/thin/thin.go:1376-1385 | While epochs rise, every epoch at most five behind stays cached |
| ThinPkiCache.AtMostSix | katzenpost/client/thin/thin.go:1376-1385 | While epochs rise, at most six epochs are cached |
| ThinPkiCache.SixCachedExactly | katzenpost/client/thin/thin.go:1376-1385 | While epochs rise, a sixth epoch is cached if and only if the newest one and the five before it were all received |
| ThinPkiCache.LookupIsLatest | katzenpost/client/thin/thin.go:1435-1452 | A lookup of a recent epoch answers with its latest document |
| ThinPkiCache.LookupExactly | katzenpost/client/thin/thin.go:1435-1452 | A cached epoch is answered with its latest document, any other with the document received last; there is an error if and only if none was received |
| ThinPkiCache.CornersAreReached | katzenpost/client/thin/thin.go:1376-1385 | Six epochs can be cached, and a document of epoch 4 then empties the cache |
| ThinPkiCache.DocumentCache.ParsePKIDoc | katzenpost/client/thin/thin.go:1358-1389 | The clean-up loop computes the specified cache |
| ThinPkiCache.DocumentCache.PKIDocumentForEpoch | katzenpost/client/thin/thin.go:1435-1452 | The cached document, else the current one, else an error |

## Left out

- Cryptography (Sphinx, MKEM, BACAP, BLAKE3, HMAC): abstract functions or opaque bytes.
- `CopyStreamEncoder`, `CreatePaddedPayload`, CBOR and bincode encodings: not part of this model.
- The concrete reply FSM: the registry results hold for every FSM; the function itself is in a file that is not part of this model.
- Failures before a start is stored, validation of requests, unknown ARQ message types and requests from applications without a connection: they touch neither map.
- Nil SURB IDs and envelope hashes in the ARQ handlers: a started message has both.
- Chunking.CreateFromPayload: does not model a missing PKI document or failing encryption, which end in an internal error before any box is returned; a box index is its counter and advancing it always succeeds.
- Chatd.Server.Process: does not model undecodable requests, unknown operations, AI requests and the Autonomi store, which need the network.
- Interleaved chatd handlers, beyond the overlap of two list additions.
- The single-request branch of `/ethereum`: settled by reading one branch.
- BatchAnswer.AnswerBatch: does not model `null` elements, for which the handler fails as a whole, nor ids that are neither numbers nor strings; the cache is a value given at the time of a failure.
- MerkleProver.VerifyProof: does not model undecodable proofs, which are rejected; digests are an arbitrary type, and `MerkleHash` takes them to be byte strings of any length.
- MerkleHash.StoredExactly: says nothing of leaves of more than 64 bytes, for which no accepted proof is known without a collision, nor of empty paths with leaves of other than 32 bytes, of which none is accepted, since the leaf would be the root.
- `random_challenge` and reading the directory: randomness and I/O.
- ThinFraming.Connection.ReadMessage: does not model waiting for bytes that have not arrived; the stream is what arrives before it closes.
- Registration and removal of in-flight resends: they happen in files that are not part of this model; `ThinReconnect` takes them as steps of the history.
- ThinFanout.EventSink.Work: does not model the channels' buffers; a delivery is the moment the worker's send succeeds.
- Dispatch of the other thin-client messages: one branch each.
- HTTP handlers other than the two above, Docker, SSH and MCP calls, HTML, proxy plumbing and scripts: I/O and user interface.
- The Go tree builder in `cmd/storage-proved` and the older thin client in `walletshield-fix`: superseded by the versions modelled.
