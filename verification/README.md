# zk-chat: a verified model

zk-chat is an anonymous chat whose spam protection is a rate-limiting nullifier: a user
proves membership in a Merkle tree of identity commitments with every message, and a user
who exceeds the limit of an epoch reveals a secret, is banned, and has the leaf zeroed. This
project models the parts of it whose correctness is not visible in one function, and proves
what they keep and where they fall short.

- **The stored tree** (`MerkleTree`, `MerkleRuns`, `MixedRuns`, `UserServices`, `LeafExchange`).
  The server keeps one record per node, with a hash, a cached copy of the sibling's hash and a
  parent link. Two properties are kept apart: `HashOk`, all inner hashes are right, and `Fresh`,
  all cached copies are. Appends keep both. An update reads copies and refreshes none, so it is
  right exactly along fresh paths. `Seen` says, for any run of appends and updates, which value
  of each leaf the stored root shows; the service keeps the history it is applied to.
- **Admission** (`PrimeField`, `Admission`, `MessageHandler`, `AdmissionRules`, `AdmissionRuns`,
  `BanRuns`, `RateBound`, `Interleaving`, `InterleavedRuns`, `InterleavedRate`, `StaleRoots`).
  `Step` is the handling of one message as one step over all stores; the class is proved to be
  that step, and `AdmissionRules` says in terms of secrets what passes. Over all runs
  the limit holds, recovery finds the sender, nobody within the limit is banned, of several
  banned users only the last is locked out, and the accepted rate is bounded. With the handler
  split at its awaits the limit grows by one per additional handler in flight, and that bound
  is reached; copies of one message in flight then count towards a ban.
- **History synchronisation** (`HistorySync`, `HistoryRuns`, `AdmittedHistory`, `ChatClient`).
  The server filters by timestamp and sorts by epoch; the client continues after the last
  epoch of a full page. Both the completeness of the pages and the termination of the loop
  hold under exact conditions on the store, also for one given page size, and runs of the
  message handler are shown to reach stores that violate both.
- **Rooms and keys** (`Profiles`, `KeyExchange`, `KeyExchangeLosses`, `KeyExchangeClient`). The
  profile object with its invariants and aliased rooms, and the key exchange of direct rooms as
  a state machine over any number of clients and one bundle store, in any interleaving, with
  clients that stop and derivations that throw. `EndToEnd` follows a text from the sender's
  room to the receiver's.
- **Group synchronisation** (`GroupSync`, `GroupEvents`, `SemaphoreSync`). One pass over the
  groups, with fetches that may fail: what it adds, when the root changes, when it publishes.

Conventions. Hash functions, the proof system, encryption and the Diffie-Hellman function are
parameters; where a result needs a property of them (a collision-free hash, a sound, and
where it says so complete, proof system over a prime field, authenticated encryption, a commutative secret that is never
empty), it is a named predicate in the result's `requires`. Numbers that the program keeps as
decimal strings are integers. Clock readings, identifiers, fresh keys, and whether the server
answers are parameters. A method that throws returns an error value or `false`.

Where code and its comments disagree, the model follows the code. The synchroniser's comment
says an event is published only when the root changed; `EventsAndRootsExactly` says exactly when
the two come apart. The client's comments say that the pagination ends when a page is not full,
and that without local messages it starts a day back; it also ends when the server is
unavailable or the next range is empty, next to a crowded position it does not end, and without
local messages it starts at time 0, because the -1 of the empty store is looked for after adding 1.

## Model

| member | source | states |
|---|---|---|
| `MerkleTree.TreeConfig.StoredHashIsSubRoot` | zk-chat-server-lib/src/services/user.service.ts:101-152 | in a well-shaped tree whose inner hashes are right, every stored hash, and the empty-subtree hash of every absent node, is the zero-padded hash computed from scratch over the leaves |
| `MerkleRuns.FreshTreeIsTheScratchTree` | zk-chat-server-lib/src/services/user.service.ts:85-155 | after appends only: exactly the nodes below ceil(n / 2^level) are stored at each level, and each holds the from-scratch hash of its own subtree and, as its cached copy, of its sibling's |
| `MerkleRuns.StoredPathFoldsToStoredRoot` | zk-chat-server-lib/src/services/user.service.ts:101-155 | in such a tree, folding the cached sibling hashes along any leaf's path, sides chosen by index parity, gives the stored root |
| `MerkleTree.TreeConfig.RootIsTheOnlyOrphan` | zk-chat-server-lib/src/persistence/model/merkle_tree/merkle_tree.statics.ts:45-49 | the one record without a parent is the top one, and it is there as soon as there is a leaf, so looking the root up by its missing parent is well defined |
| `MerkleTree.TreeConfig.LeafCountOfShape` | zk-chat-server-lib/src/persistence/model/merkle_tree/merkle_tree.statics.ts:51-55 | counting the records of level 0 counts the leaves |
| `MerkleTree.TreeConfig.FoldIsSubRoot` | zk-chat-server-lib/src/services/user.service.ts:197-209 | a path folds to the from-scratch subtree hash if it starts at the leaf and lists the sibling subtrees, and with a collision-free hash only then |
| `MerkleTree.TreeConfig.ProvableExactlyTheLeaf` | zk-chat-server-lib/src/util/proof_utils.ts:24-35 | the padded leaf has an authentication path at its position against the from-scratch root, and with a collision-free hash no other value has one there |
| `MerkleTree.TreeConfig.RootDeterminesLeaves` | zk-chat-server-lib/src/services/user.service.ts:31-46 | with a collision-free hash, two leaf lists of one length have one root exactly when they are equal |
| `MerkleTree.TreeConfig.RootOfLongerList` | zk-chat-server-lib/src/services/user.service.ts:31-46 | leaves added at the right keep the root if all of them are empty, and with a collision-free hash only then |
| `MerkleTree.TreeConfig.UpdatedRootIsRightExactlyWhenPathFresh` | zk-chat-server-lib/src/services/user.service.ts:187-211 | an update leaves the from-scratch root of the leaves with that leaf replaced if the cached copies along its path are fresh, and with a collision-free hash only then |
| `MerkleTree.TreeConfig.FreshPathAgrees` | zk-chat-server-lib/src/services/user.service.ts:197-209 | the copies an update reads are the sibling subtrees of the changed leaves exactly when they are fresh |
| `MerkleTree.TreeConfig.SetPathKeepsShape` | zk-chat-server-lib/src/services/user.service.ts:187-211 | an update adds, drops and relinks no record |
| `MerkleTree.TreeConfig.SetPathReplacesLeaf` | zk-chat-server-lib/src/services/user.service.ts:194-195 | an update changes the one leaf and no other |
| `MerkleTree.TreeConfig.LinkKeepsHashOk` | zk-chat-server-lib/src/services/user.service.ts:101-152 | one round of an append leaves every inner hash right but the next ancestor's, also when cached copies are stale |
| `MerkleTree.TreeConfig.LinkKeepsFresh` | zk-chat-server-lib/src/services/user.service.ts:101-152 | one round of an append leaves every cached copy fresh but those of the next ancestor and its sibling |
| `MerkleTree.TreeConfig.LinkKeepsShape` | zk-chat-server-lib/src/services/user.service.ts:101-152 | one round of an append extends the linked part of the new leaf's path by one level |
| `MerkleRuns.UpdateKeepsHashOkExactlyWhenPathFresh` | zk-chat-server-lib/src/services/user.service.ts:187-211 | an update keeps all inner hashes right if the cached copies along its path are fresh, and with a collision-free hash only then |
| `MerkleRuns.UpdateKeepsFreshExactlyWhenTrivial` | zk-chat-server-lib/src/services/user.service.ts:187-211 | an update of a fresh tree keeps all cached copies fresh if it changes nothing or the leaf is the only one, and with a collision-free hash only then |
| `MerkleRuns.UpdatesWriteTheirLeaves` | zk-chat-server-lib/src/services/user.service.ts:187-211 | a run of updates writes each of its leaves, the last writer of a leaf winning |
| `MerkleRuns.OnlyTheLastUpdateShows` | zk-chat-server-lib/src/services/user.service.ts:187-211 | from any tree, also one with stale copies and wrong hashes: after any run of updates without an append the stored root is the one that the last update alone would have left |
| `MerkleRuns.FreshTreeShowsTheLastUpdate` | zk-chat-server-lib/src/services/user.service.ts:187-211 | from a fresh tree that is the from-scratch root of the original leaves with only the last update in it |
| `MerkleRuns.RootIsRightExactlyWhenEarlierUpdatesVanish` | zk-chat-server-lib/src/services/user.service.ts:187-211 | so, with a collision-free hash, the root is that of the current leaves exactly when the earlier updates changed nothing that the last one does not write |
| `MerkleRuns.EarlierUpdateIsUndoneForProofs` | zk-chat-server-lib/src/services/user.service.ts:187-211 | a leaf that an earlier update of the run replaced is still the one value provable at its position |
| `MixedRuns.RunIsShown` | zk-chat-server-lib/src/services/user.service.ts:79-211 | after any run of appends and updates from the empty tree, every stored hash, and every cached copy, is the from-scratch hash of a leaf list that the order of the writes determines: a copy is as old as the last append below its parent |
| `MixedRuns.StoredRootShows` | zk-chat-server-lib/src/services/user.service.ts:31-40 | so the stored root after any such run is the from-scratch root of the leaves that show at the top |
| `MixedRuns.RootIsRightExactlyWhenAllLeavesShow` | zk-chat-server-lib/src/services/user.service.ts:31-40 | with a collision-free hash, the stored root is that of the stored leaves exactly when each leaf shows at the top as it is stored |
| `MixedRuns.ProvableExactlyWhatShows` | zk-chat-server-lib/src/util/proof_utils.ts:24-35 | with a collision-free hash, what shows of a leaf at the top is the one value that can be proved at its position |
| `MixedRuns.LaterUpdateUndoesExactlyWithoutAppendBelow` | zk-chat-server-lib/src/services/user.service.ts:187-211 | an update of leaf i is undone at the top by a later update of leaf j if no append fell below their lowest common ancestor in between, whatever else was written; if only appends came in between and one fell there, it shows |
| `MixedRuns.UpdateShowsOldSibling` | zk-chat-server-lib/src/services/user.service.ts:197-209 | after an update of leaf j, every other leaf shows as it did at the last append below the lowest common ancestor |
| `MixedRuns.AppendsKeepShowing` | zk-chat-server-lib/src/services/user.service.ts:101-152 | appends leave an update showing at every level |
| `UserServices.UserService.SeedZeros` | zk-chat-server-lib/src/util/seed.ts:8-19 | the loop fills the table with the empty-subtree hash of every level, once |
| `UserServices.UserService.LinkToParent` | zk-chat-server-lib/src/services/user.service.ts:102-152 | both branches of an append round are one relation: the node and its stored sibling get each other's hash, and the parent is recomputed or created |
| `UserServices.UserService.AppendLeaf` | zk-chat-server-lib/src/services/user.service.ts:91-152 | adds one leaf at the right, writes exactly what the model of an append says, and keeps shape, right hashes and, if they were fresh, fresh copies |
| `UserServices.UserService.AppendUser` | zk-chat-server-lib/src/services/user.service.ts:79-152 | a known user is skipped, a full tree refuses, and otherwise the user gets the next leaf; an unchanged leaf list means unchanged records |
| `UserServices.UserService.AppendUsers` | zk-chat-server-lib/src/services/user.service.ts:60-158 | the leaves become exactly those of the offered list, cut short by a full tree, one append each in the history of the tree; missing empty-subtree hashes refuse; right hashes stay right from any tree, fresh copies stay fresh |
| `UserServices.UserService.RecomputePath` | zk-chat-server-lib/src/services/user.service.ts:194-209 | the climb of an update ends after as many steps as the tree has levels and writes the fold of the cached copies |
| `UserServices.UserService.UpdateUser` | zk-chat-server-lib/src/services/user.service.ts:187-211 | the first leaf with the hash is replaced and its path rewritten; an unknown hash throws and changes nothing |
| `UserServices.UserService.RemoveUsersByIndexes` | zk-chat-server-lib/src/services/user.service.ts:160-185 | removals are a run of updates, each zeroing the first leaf that has the same hash as the user's; a missing user ends the run and keeps what was done |
| `UserServices.RemovalHitsTheUserExactlyWhenFirst` | zk-chat-server-lib/src/services/user.service.ts:171-180 | a removal zeroes the user's own leaf exactly when no earlier leaf has the same hash |
| `UserServices.RemovalsEndAtTheFirstMissing` | zk-chat-server-lib/src/services/user.service.ts:170-182 | removals fail exactly if some index has no user, and end at the first such index; each makes one update, and no leaf gets another hash but zero |
| `UserServices.RemovingSeveralShowsOnlyTheLast` | zk-chat-server-lib/src/services/user.service.ts:160-185 | removing several users from a fresh tree leaves the stored root with only the last one removed |
| `UserServices.UserService.BanUser` | zk-chat-server-lib/src/services/user.service.ts:216-230 | records commitment, first leaf and secret, unless one of them is recorded already; an unknown commitment throws |
| `UserServices.UserService.FindLeafByGroupIdAndIndexInGroup` | zk-chat-server-lib/src/persistence/model/merkle_tree/merkle_tree.statics.ts:26-32 | finds the user's first leaf exactly when the user has one |
| `UserServices.UserService.GetRoot` | zk-chat-server-lib/src/services/user.service.ts:31-40 | throws exactly for the empty tree; otherwise the top hash, which is the from-scratch root while all hashes are right, and always that of the leaves which the history of the tree shows at the top |
| `UserServices.UserService.StoredRootIsShown` | zk-chat-server-lib/src/services/user.service.ts:31-40 | whatever appends, updates, bans and removals were done: the stored root is that of the leaves which this history shows |
| `UserServices.UserService.StoredRootIsRight` | zk-chat-server-lib/src/services/user.service.ts:31-40 | while all stored hashes are right it is the from-scratch root of the leaves |
| `UserServices.UserService.GetLeaves` | zk-chat-server-lib/src/services/user.service.ts:42-46 | prints all leaves in hex, in order; while all hashes are right a client rebuilds the stored root from them |
| `UserServices.AppendedOnlyExtends` | zk-chat-server-lib/src/services/user.service.ts:74-152 | appending moves and drops no leaf, stays within the capacity, and gives no user a second leaf |
| `UserServices.AppendedIsIdempotent` | zk-chat-server-lib/src/services/user.service.ts:79-87 | offering the same users again changes nothing, also after the tree was full |
| `UserServices.AppendedIgnoresHashes` | zk-chat-server-lib/src/services/user.service.ts:79-87 | what is appended does not depend on the hashes in the leaves, so a zeroed leaf is never refilled |
| `LeafExchange.HexRoundTrip` | app/src/util/request-passport-client.ts:128-131 | parsing the hex that is printed for a number gives the number back |
| `LeafExchange.PrintedHexIsCanonical` | zk-chat-server-lib/src/services/user.service.ts:42-46 | printed hex is lower case and has no leading zero |
| `LeafExchange.ParsesExactlyHex` | app/src/util/request-passport-client.ts:128-131 | a string is parsed exactly when it is not empty and all hex digits |
| `LeafExchange.LeavesRoundTrip` | zk-chat-server-lib/src/services/user.service.ts:42-46 | the client reads back every leaf of a printed list, in order |
| `LeafExchange.ClientRebuildsStoredRoot` | app/src/util/request-passport-client.ts:115-134 | while all stored hashes are right, the root the client builds from the printed leaves is the stored root |
| `PrimeField.InverseIsInverse` | zk-chat-server-lib/src/util/hasher.ts:34-36 | over a prime, the extended Euclidean algorithm inverts every non-zero residue |
| `PrimeField.TwoSharesRevealTheSecret` | zk-chat-server-lib/src/util/hasher.ts:34-36 | interpolating two points of a line with different abscissas at zero gives the constant term |
| `Admission.AcceptedEpochWindow` | zk-chat-server-lib/src/util/proof_utils.ts:10-22 | an epoch passes exactly when it lies strictly within the allowed delay around the rounded clock |
| `Admission.SpamMeansLimitReached` | zk-chat-server-lib/src/persistence/model/request_stats/request_stats.statics.ts:41-66 | a message counts as spam exactly when max(1, threshold) shares are saved, because an empty count is not spam |
| `MessageHandler.MessageHandlerService.GetUserFromShares` | zk-chat-server-lib/src/util/proof_utils.ts:37-50 | lists saved shares and the message's own, interpolates the first two, and hashes the result |
| `MessageHandler.MessageHandlerService.SaveMessage` | zk-chat-server-lib/src/services/request_stats.service.ts:22-30 | appends the message's share record |
| `MessageHandler.MessageHandlerService.PersistMessage` | zk-chat-server-lib/src/services/message_handler_service.ts:119-128 | stores the message with its identifier and timestamp |
| `MessageHandler.MessageHandlerService.HandleChatMessage` | zk-chat-server-lib/src/services/message_handler_service.ts:43-104 | the handler, over the stores it updates, is exactly one step of the state machine: same checks in the same order, same stores, same answer |
| `AdmissionRules.AcceptedExactlyWhenRulesPass` | zk-chat-server-lib/src/services/message_handler_service.ts:49-103 | for a sound and complete proof system, the server accepts a message exactly when its epoch is within the delay of the clock rounded to ten seconds, its share is new, some secret opens its proof under the stored root with the external nullifier of the named epoch and identifier, and its nullifier is within the limit; it then stores and announces that message and share and changes nothing else |
| `AdmissionRules.RefusedExactlyForTheFirstRule` | zk-chat-server-lib/src/services/message_handler_service.ts:49-65 | each refusal names the first violated rule, in the order of the source |
| `AdmissionRules.ValidProofsAreOfMembers` | zk-chat-server-lib/src/util/hasher.ts:41-51 | a proof passes exactly when a secret opens it, it is against the root, and its external nullifier is that of the epoch and identifier it names |
| `AdmissionRules.AdmittedHasAnOwner` | zk-chat-server-lib/src/util/proof_utils.ts:24-35 | whatever is accepted or banned on was proved by exactly one secret, whose commitment is provable under the stored root, and is counted under the nullifier of that secret for the epoch and identifier inside the proof |
| `AdmissionRules.RoundingIsToTenSeconds` | zk-chat-server-lib/src/util/proof_utils.ts:8-12 | the server rounds its clock down to ten seconds |
| `AdmissionRules.BannedExactlyWhenNew` | zk-chat-server-lib/src/services/user.service.ts:216-230 | a recovered secret is banned exactly when some leaf holds its commitment and no record has that commitment, that leaf or that secret; one record is added, that leaf zeroed, one event published |
| `AdmissionRuns.RecoveryFindsSender` | zk-chat-server-lib/src/util/proof_utils.ts:37-50 | in the spam branch the first two shares are two points of the sender's line with different abscissas, and recovery gives the sender's secret |
| `AdmissionRuns.PointIsOnLineExactlyWhenPlain` | zk-chat-server-lib/src/services/message_handler_service.ts:93-96 | the share the server saves of a proven message lies on its sender's line exactly when the plain abscissa of the message is the one inside its proof, which the server does not compare |
| `AdmissionRuns.StepKeepsInv` | zk-chat-server-lib/src/services/message_handler_service.ts:43-104 | every step keeps, for each nullifier whose messages carry the points inside their proofs: its saved shares lie on a line of a secret; and whatever the messages carry, shares never repeat and stay within the limit |
| `AdmissionRuns.RunKeepsInv` | zk-chat-server-lib/src/services/message_handler_service.ts:43-104 | every sequential run keeps that invariant |
| `AdmissionRuns.BanNamesTheSender` | zk-chat-server-lib/src/services/message_handler_service.ts:71-91 | a ban names the secret on whose line the message's own share lies, and comes exactly at the used-up limit |
| `AdmissionRuns.BeyondTheLimitTheSenderIsBanned` | zk-chat-server-lib/src/services/message_handler_service.ts:68-91 | a fresh, proven message gets its sender banned exactly when the limit is used up, the commitment is a leaf, and the ban repeats no recorded one; while all stored hashes are right a non-zero commitment is a leaf |
| `AdmissionRuns.BannedOnlyBeyondTheLimit` | zk-chat-server-lib/src/services/message_handler_service.ts:68-91 | over every run of any messages: a ban needs more different shares than the limit under one nullifier for one epoch, and if the messages of that nullifier carry the points inside their proofs, the banned secret is the one on whose line they lie |
| `AdmissionRuns.RunKeepsConsistent` | zk-chat-server-lib/src/services/message_handler_service.ts:77-101 | after every run the stores agree: each stored message was broadcast once, in order, and has one share; each ban was announced once, names the commitment of its secret, and its leaf is empty; no leaf, no secret and no commitment is recorded twice |
| `AdmissionRuns.ProvenCommitmentIsALeaf` | zk-chat-server-lib/src/util/proof_utils.ts:24-35 | a non-zero commitment proved against the stored root is a stored leaf |
| `AdmissionRuns.FreshBanLeavesOtherLeavesOnly` | zk-chat-server-lib/src/services/message_handler_service.ts:77-81 | after a ban along a fresh path the banned commitment is provable at exactly the other leaves that hold it |
| `AdmissionRuns.RepeatedBanIsRefused` | zk-chat-server-lib/src/persistence/model/banned_user/banned_user.schema.ts:9-13 | ban records are unique, so a secret banned once is never banned again, and a second leaf with its commitment stays |
| `AdmissionRuns.SecondBanReadmitsTheFirstUser` | zk-chat-server-lib/src/services/message_handler_service.ts:77-81 | two bans in a row from a fresh tree: the first user's commitment is provable again at its old position |
| `BanRuns.OnlyTheLastBanShows` | zk-chat-server-lib/src/services/message_handler_service.ts:77-81 | over every run of the handler from a fresh tree: the stored root is that of the original leaves with only the last banned leaf zeroed |
| `BanRuns.OnlyTheLastBannedIsLockedOut` | zk-chat-server-lib/src/services/message_handler_service.ts:77-81 | so of all users banned in a run exactly the last one is locked out: the commitment of each earlier one is provable at its old leaf again, that of the last one only at other leaves that hold it |
| `BanRuns.RunKeepsBansSoFar` | zk-chat-server-lib/src/services/message_handler_service.ts:77-81 | over every run, the tree is the one that the bans of the run made, each of its own leaf, and all other leaves are as they were |
| `AdmissionRuns.RunKeepsWithinLimit` | zk-chat-server-lib/src/services/message_handler_service.ts:53-96 | over every run of any messages at all, saved shares never repeat and no user gets more than the limit saved for an epoch |
| `RateBound.AcceptedRateIsBounded` | zk-chat-server-lib/src/util/proof_utils.ts:10-22 | while the clock moves from t1 to t2, a run accepts from the owner of one secret, counted by who opens the proofs, at most the limit for each combination of epoch, proof epoch and identifier that the owner's messages name strictly within the delay |
| `RateBound.AcceptedForIsBounded` | zk-chat-server-lib/src/services/message_handler_service.ts:59-96 | at most the limit of messages whose proofs one secret opens is accepted for one epoch, proof epoch and identifier, so for one epoch if they name what they were proved for |
| `RateBound.OneNameForEachEpoch` | zk-chat-server-lib/src/util/proof_utils.ts:10-22 | if the owner's messages name the epoch and identifier they were proved for, the bound is the limit times the number of different epochs they name |
| `RateBound.RoundedRateIsBounded` | zk-chat-server-lib/src/util/proof_utils.ts:10-22 | for rounded epochs, that is the limit times the number of multiples of the epoch length in the window |
| `RateBound.ClientEpochIsRounded` | zk-chat-client-lib/src/chat/index.ts:263-266 | the epoch a client computes is a multiple of the epoch length |
| `Interleaving.InterleavedSharesAreBounded` | zk-chat-server-lib/src/services/message_handler_service.ts:53-96 | over every interleaving at the awaits with at most k handlers in flight, the saved shares of a user and epoch never exceed the limit plus k - 1 |
| `Interleaving.EmptyServerIsBounded` | zk-chat-server-lib/src/services/message_handler_service.ts:43-104 | an empty server with no handler satisfies the bound that every interleaving keeps |
| `Interleaving.InterleavedBoundIsReached` | zk-chat-server-lib/src/services/message_handler_service.ts:53-96 | given enough different messages, some interleaving saves exactly the limit plus k - 1 |
| `Interleaving.UninterruptedHandlerIsTheAtomicStep` | zk-chat-server-lib/src/services/message_handler_service.ts:43-104 | the split handler, taken without interruption, is the atomic step |
| `Interleaving.CopiesInFlightAreBothSaved` | zk-chat-server-lib/src/services/message_handler_service.ts:53-96 | two copies of one message in flight together are both saved, although duplicates are refused |
| `Interleaving.RecoveryFailsExactlyOnEqualX` | zk-chat-server-lib/src/util/hasher.ts:34-36 | recovery fails exactly when the first two shares have the same abscissa |
| `StaleRoots.ReadRootDecides` | zk-chat-server-lib/src/services/message_handler_service.ts:58-65 | whatever has happened to the tree since a handler read the root, it goes on exactly when the proof is valid against the root it read |
| `StaleRoots.MessageInFlightOutlivesABan` | zk-chat-server-lib/src/services/message_handler_service.ts:58-103 | so a message whose handler has read the root is accepted after a ban that another handler completes in between, also if the banned user sent it |
| `StaleRoots.RunsToItsEnd` | zk-chat-server-lib/src/services/message_handler_service.ts:43-104 | among any other handlers, a handler that is resumed alone comes to the end that it would come to alone |
| `InterleavedRuns.RepeatedSharePreventsEveryLaterBan` | zk-chat-server-lib/src/services/message_handler_service.ts:71-91 | once a repeated share heads a user's records of an epoch, no later message of that user and epoch gets anyone banned, in every sequential run |
| `InterleavedRuns.RepeatedShareStopsEveryHandler` | zk-chat-server-lib/src/services/message_handler_service.ts:71-91 | the same over every interleaving: no handler of that user and epoch that has not read the shares yet ever comes to a ban |
| `InterleavedRuns.InterleavedBanIsBeyondTheLimit` | zk-chat-server-lib/src/services/message_handler_service.ts:67-81 | over every interleaving of any messages: for each ban, more messages than the limit were started under one nullifier for one epoch, where copies count, and the nullifier is the banned secret's if its messages carry the points inside their proofs |
| `InterleavedRuns.CopiesBanWithinTheLimit` | zk-chat-server-lib/src/services/message_handler_service.ts:53-81 | copies do count: for every limit of at least two, a user who sends only as many different messages as the limit is banned in some interleaving that handles the last one twice at once |
| `InterleavedRuns.RecoveredSecretIsTheSenders` | zk-chat-server-lib/src/util/proof_utils.ts:37-50 | also when shares repeat, whatever recovery yields in the spam branch is the sender's secret |
| `InterleavedRate.InterleavedRateIsBounded` | zk-chat-server-lib/src/util/proof_utils.ts:10-22 | over every interleaving of k handlers, the same with the limit plus k - 1 |
| `HistorySync.SortSorts` | zk-chat-server-lib/src/persistence/model/message/message.statics.ts:15 | the query's sort is a permutation in epoch order |
| `HistorySync.PageContents` | zk-chat-server-lib/src/persistence/model/message/message.statics.ts:13-28 | a page holds matching messages only; what it leaves out exists only after a full page and has no smaller epoch than the page's last |
| `HistorySync.SortedQueryIsAPage` | zk-chat-server-lib/src/persistence/model/message/message.statics.ts:15 | the sorted, filtered, limited query is one of the pages the lemmas speak about |
| `HistorySync.PagesLoseNothingExactlyWithoutOvertaking` | zk-chat-client-lib/src/chat/index.ts:192-194 | continuing one millisecond after the last epoch of a full page skips no message, for all ranges, page sizes and orders within an epoch together, exactly when no stored message overtakes another: one not later by epoch must have its epoch before the other's timestamp |
| `HistorySync.FullPageDropsAMessageExactlyWhen` | zk-chat-client-lib/src/chat/index.ts:192-194 | for a given range and page size, some full page skips a message exactly when some message b is overtaken by an a such that fewer messages than a page have epochs before a's, and at least a page without b has epochs up to a's |
| `HistorySync.FullPageAdvances` | zk-chat-client-lib/src/chat/index.ts:192-194 | a full page moves the position forward unless a page's worth of messages from it on has epochs before it |
| `HistorySync.CrowdHoldsBack` | zk-chat-client-lib/src/chat/index.ts:192-194 | at or before such a crowded position every page is full and ends before it |
| `HistoryRuns.NothingIsLeftBehind` | zk-chat-client-lib/src/chat/index.ts:184-198 | without overtaking, at every point of the loop each message of the range is fetched or still ahead |
| `HistoryRuns.EndedRunIsComplete` | zk-chat-client-lib/src/chat/index.ts:184-198 | without overtaking, a loop that ended has fetched the whole range |
| `HistoryRuns.OnlyStoredMessagesAreFetched` | zk-chat-client-lib/src/chat/index.ts:184-198 | the loop fetches stored messages from before the end of the range only |
| `HistoryRuns.PositionsIncrease` | zk-chat-client-lib/src/chat/index.ts:192-194 | without crowding, the positions of the requests strictly increase and stay in the range |
| `HistoryRuns.LoopEndsExactlyWithoutCrowding` | zk-chat-client-lib/src/chat/index.ts:184-198 | every run of the loop ends, within one request per millisecond, exactly when no position of the range is crowded; otherwise it has runs of every length |
| `HistoryRuns.HeldBackRun` | zk-chat-client-lib/src/chat/index.ts:184-198 | before a crowded position the loop has a run of every length |
| `HistoryRuns.LoopLosesExactlyWhereAPageDrops` | zk-chat-client-lib/src/chat/index.ts:184-198 | without crowding, the loop for a given range and page size can end without a message of the range exactly when it can reach a position where the condition above holds |
| `HistoryRuns.PassedMessageWasDropped` | zk-chat-client-lib/src/chat/index.ts:184-198 | in any run, a message the position has passed without fetching it was dropped by a page of that run |
| `HistoryRuns.ExactRunIsTheRange` | zk-chat-client-lib/src/chat/index.ts:184-198 | if epochs are timestamps and no two messages share one, an ended loop has fetched exactly the range, in order, each message once, for every limit |
| `HistoryRuns.SparseStoreIsNowhereCrowded` | zk-chat-client-lib/src/chat/index.ts:184-198 | if epochs lag by at most d and every stretch of d milliseconds holds fewer messages than a page, no position is crowded |
| `AdmittedHistory.AdmittedMessagesDriftLittle` | zk-chat-server-lib/src/util/proof_utils.ts:10-22 | over every run of the handler, stored epochs lag by at most the delay, one rounding and the handling time; if all epochs had passed, nothing overtakes |
| `AdmittedHistory.AdmittedHistoryIsSynchronised` | zk-chat-client-lib/src/chat/index.ts:173-202 | so the history of such a run is synchronised completely, in at most one request per millisecond, while no stretch as long as the drift fills a page |
| `AdmittedHistory.EpochCheckAdmitsLoss` | zk-chat-server-lib/src/util/proof_utils.ts:15-19 | for every page size, and so for the server's 1000: with a delay of more than one epoch, the handler stores one message more than a page, each under a proof of its own, of an epoch still to come, and the loop over that store ends without one of them |
| `AdmittedHistory.HonestEpochCrowds` | zk-chat-server-lib/src/util/proof_utils.ts:10-22 | for every page size: a page of messages of different shares, each with its client's rounded clock, is stored by the handler and crowds a position, so the loop over that store has runs of every length |
| `AdmittedHistory.AllAreStored` | zk-chat-server-lib/src/services/message_handler_service.ts:93-103 | messages with pairwise different shares, each provable against the stored root, timely, and within the limit per nullifier, are all stored by the run, in order |
| `AdmittedHistory.StoredMessagesWereAdmitted` | zk-chat-server-lib/src/services/message_handler_service.ts:93-103 | every stored message is an event of the run as persisted and passed the epoch check |
| `ChatClient.ChatService.GetMessagesInTimeRange` | zk-chat-server-lib/src/services/chat.service.ts:12-37 | an empty range is refused; otherwise the reply is a page of at most 1000, all of the range if shorter, with its bounds taken from its first and last epoch, or from the request when empty |
| `ChatClient.ChatManager.DecryptMessage` | zk-chat-client-lib/src/chat/index.ts:137-164 | the loop over the rooms of the message's type files the message under the first room whose key opens it |
| `ChatClient.TextIsFiledUnderTheFirstRoom` | zk-chat-client-lib/src/chat/index.ts:137-164 | for public, private and direct messages: a text encrypted under a room's key is filed unchanged under the first room of the message's type that has the key |
| `ChatClient.TextIsLostExactlyWithoutTheKey` | zk-chat-client-lib/src/chat/index.ts:137-164 | it is not filed exactly when no room of the type has the key |
| `ChatClient.ChatManager.GetAndSaveMessagesForTimeRange` | zk-chat-client-lib/src/chat/index.ts:204-221 | one request: nothing when unavailable or refused, otherwise a page, of which exactly the messages some room opens are saved, in order |
| `ChatClient.ChatManager.SyncMessagesForAllRooms` | zk-chat-client-lib/src/chat/index.ts:173-202 | the loop is a run as above and saves what its pages hold; it clears the syncing flag; without overtaking and crowding, and if the server answers one request per millisecond, every message newer than all local ones that a room opens is saved, and nothing that is not newer is fetched; the client then has every message its rooms open exactly when it had all those before |
| `ChatClient.SyncStartsJustBehind` | zk-chat-client-lib/src/chat/index.ts:174-180 | a synchronisation starts behind every local message, and before everything newer than all of them, by however little; without local messages at time 0 |
| `ChatClient.NewsIsKept` | zk-chat-client-lib/src/chat/index.ts:184-218 | once the range is fetched, all news that some room opens is kept, and only news was fetched |
| `ChatClient.HasAllExactlyWhenItHadTheEarlier` | zk-chat-client-lib/src/chat/index.ts:174-194 | a complete synchronisation leaves the client without a gap exactly when there was none before its newest message: earlier gaps are never filled |
| `ChatClient.OpenedIsKept` | zk-chat-client-lib/src/chat/index.ts:211-218 | a fetched message that some room's key opens is in the local store, filed under that room |
| `Profiles.OperationsKeepWellFormed` | zk-chat-client-lib/src/profile/index.ts:289-432 | every sequence of operations keeps contacts under their own names with distinct keys, distinct keys per public and private list, distinct direct recipients, and every room it had, with its key pair |
| `Profiles.UpdateIsDeleteThenInsert` | zk-chat-client-lib/src/profile/index.ts:307-321 | updating a contact is deleting it and inserting the new one, except that keeping the name is refused |
| `Profiles.DeleteUndoesInsert` | zk-chat-client-lib/src/profile/index.ts:326-335 | deleting a contact just inserted gives the profile back |
| `Profiles.ContactsChangeAsAsked` | zk-chat-client-lib/src/profile/index.ts:289-335 | when each contact operation succeeds, by whom every name and key stands for, and whom each name stands for afterwards |
| `Profiles.AddedRoomOpens` | zk-chat-client-lib/src/profile/index.ts:387-415 | adding a public or private room succeeds exactly when no room of the type has its key; whatever is done afterwards, a text under that key is opened by a room of the type with it, and is filed under the added room if it was added |
| `Profiles.RoomsComeFromAdditions` | zk-chat-client-lib/src/profile/index.ts:387-432 | every room of a profile was there at first or came by a successful addition, a direct one up to its key |
| `Profiles.SentTextIsFiledUnderItsRoom` | zk-chat-client-lib/src/chat/index.ts:137-164 | with ideal encryption, a text sent to a room is opened, unchanged, by exactly the profiles that hold a room of that type with that key, and filed under the first such room, which for public and private rooms is the only one |
| `Profiles.SenderFilesItsOwnMessage` | zk-chat-client-lib/src/profile/index.ts:489-512 | the sender reads its own message back in the room it named, also when rooms share an id; of direct rooms if their keys differ |
| `Profiles.SentExactlyToTheNamedRoom` | zk-chat-client-lib/src/profile/index.ts:463-512 | an id names a public room, else a private, else a direct one; a text is sent exactly when some room has the id and its key encrypts |
| `Profiles.RoomsOfEachType` | zk-chat-client-lib/src/profile/index.ts:517-530 | the rooms of the three chat types, and none of any other |
| `Profiles.ProfileManager.InsertTrustedContact` | zk-chat-client-lib/src/profile/index.ts:289-301 | succeeds exactly when name and key are new; memory and storage agree afterwards |
| `Profiles.ProfileManager.UpdateTrustedContact` | zk-chat-client-lib/src/profile/index.ts:307-321 | succeeds exactly when the old name is known, the new one free and the key not another contact's |
| `Profiles.ProfileManager.DeleteTrustedContact` | zk-chat-client-lib/src/profile/index.ts:326-335 | succeeds exactly for a known name |
| `Profiles.ProfileManager.AddPublicRoom` | zk-chat-client-lib/src/profile/index.ts:387-398 | succeeds exactly when no public room has the key |
| `Profiles.ProfileManager.AddPrivateRoom` | zk-chat-client-lib/src/profile/index.ts:404-415 | succeeds exactly when no private room has the key |
| `Profiles.ProfileManager.AddDirectRoom` | zk-chat-client-lib/src/profile/index.ts:421-432 | succeeds exactly when no direct room has the recipient |
| `Profiles.ProfileManager.GetAllRoomsAvailableForKeyExchange` | zk-chat-client-lib/src/profile/index.ts:548-555 | returns the keyless direct rooms themselves, one per recipient |
| `Profiles.ProfileManager.DeriveRoomSecretKey` | zk-chat-client-lib/src/profile/index.ts:535-543 | writing through an alias changes that room of the profile, no other, and the stored copy with it; a room that is none of the profile's changes nothing in it |
| `EndToEnd.DirectTextArrives` | zk-chat-client-lib/src/chat/index.ts:137-164 | over every interleaving of the key exchange: what one user sends in its direct room, once both have a key, the other reads unchanged and files under its room for the sender, unless an earlier direct room has the same key |
| `EndToEnd.SentTextIsReadAfterSync` | zk-chat-client-lib/src/chat/index.ts:173-218 | a text sent to a room, accepted by the server and newer than the local messages is read unchanged, under its sender, number and time, by every synchronisation that brings the news to a client with that room |
| `EndToEnd.StoredMessagesCarryTheirEvents` | zk-chat-server-lib/src/services/message_handler_service.ts:93-103 | over every run, each stored and each broadcast message has the content, type, sender and epoch of a message of the run |
| `KeyExchange.KeysAgree` | zk-chat-client-lib/src/key-exchange/index.ts:54-128 | in every interleaving of clients, also ones that stop and restart and derivations that throw, each non-empty room key is the Diffie-Hellman secret of the own private and the peer room's public key, so two users who hold a key for their mutual room hold the same one |
| `KeyExchange.KeysNeverChange` | zk-chat-client-lib/src/profile/index.ts:535-543 | once a room has a key, no later step changes it, although derivations may run twice |
| `KeyExchange.NoExchangeIsLost` | zk-chat-client-lib/src/key-exchange/index.ts:109-124 | in every interleaving without restarts and throwing derivations, an accepted bundle is stored still, or its receiver has the key or is deriving it |
| `KeyExchange.StepKeepsSound` | zk-chat-client-lib/src/key-exchange/index.ts:85-128 | every step of every client, also a restart or a failing derivation, keeps soundness, every key pair and every key |
| `KeyExchange.StepLosesNothing` | zk-chat-client-lib/src/key-exchange/index.ts:85-128 | every step but these two loses no accepted bundle |
| `KeyExchange.RunKeepsSound` | zk-chat-client-lib/src/key-exchange/index.ts:85-128 | every interleaving keeps soundness |
| `KeyExchange.HandlingGoesThroughTheList` | zk-chat-client-lib/src/key-exchange/index.ts:93-118 | handling bundles one by one starts the derivations and marks the hashes of the list as a whole |
| `KeyExchange.DeletionsGoThroughTheMarks` | zk-chat-client-lib/src/key-exchange/index.ts:120-124 | the deletions of a run remove exactly the user's bundles whose hashes were marked |
| `KeyExchange.KeyedRoomIsLeftAlone` | zk-chat-client-lib/src/key-exchange/index.ts:40-124 | a run leaves a room alone that has its key: no derivation is started for it and none of its bundles is deleted |
| `KeyExchange.PostIsStoredExactlyWhenNew` | zk-chat-server-lib/src/persistence/model/key_exchange_bundle/key_exchange_bundle.schema.ts:9-14 | a post that the server takes is stored exactly when no stored bundle has its content hash |
| `KeyExchange.EndedRunLeavesItsBundles` | zk-chat-client-lib/src/key-exchange/index.ts:125-127 | a run that throws deletes nothing more, and what it has started goes on |
| `KeyExchange.ExchangeYieldsKeyExactlyWhen` | zk-chat-client-lib/src/key-exchange/index.ts:85-128 | from every sound state, one whole exchange of v gives v the key for u exactly when v has it or is deriving it, or a bundle from u for v is stored |
| `KeyExchange.KeyNeedsAcceptedBundle` | zk-chat-client-lib/src/key-exchange/index.ts:93-124 | in every interleaving, v's room for u has a key only if the server has accepted a bundle from u for v |
| `KeyExchange.ExchangeYieldsKeyExactlyWhenAccepted` | zk-chat-client-lib/src/key-exchange/index.ts:85-128 | in every state reachable without restarts and throwing derivations, that is exactly when the server has accepted a bundle from u for v |
| `KeyExchange.TwoExchangesShareAKey` | zk-chat-client-lib/src/key-exchange/index.ts:85-128 | two users whose bundles for each other were accepted, and are not lost, share a key once each has run an exchange |
| `KeyExchangeLosses.RestartLosesTheExchangeExactlyWhen` | zk-chat-client-lib/src/key-exchange/index.ts:109-124 | in every reachable state: after a restart of v, an exchange gives v the key for u exactly when v has it already or a bundle from u for v is still stored; if neither holds and none waits to be posted, no continuation ever gives it |
| `KeyExchangeLosses.StoppingBeforeDerivationLosesTheExchange` | zk-chat-client-lib/src/key-exchange/index.ts:109-124 | such losses happen from every reachable state with a bundle for a keyless room: undisturbed, the exchange gives the key; with a stop between the deletion and the end of the derivation, no continuation does |
| `KeyExchangeLosses.FailedDerivationLosesTheExchangeExactlyWhen` | zk-chat-client-lib/src/key-exchange/index.ts:109-118 | after a derivation threw, an exchange gives the key exactly when the room has it, another derivation for it is pending, or a bundle is stored |
| `KeyExchangeLosses.NewRoomsGetOneKey` | zk-chat-client-lib/src/index.ts:231-257 | two users create rooms for each other, both bundles are accepted, and each runs one exchange: both rooms hold the Diffie-Hellman secret of their two private keys |
| `KeyExchangeLosses.NewRoomWaitsToBePosted` | zk-chat-client-lib/src/index.ts:240-254 | a new room waits to be posted with its own public key, for its recipient |
| `KeyExchangeLosses.NeverAcceptedNeverAKey` | zk-chat-client-lib/src/index.ts:252-254 | in every reachable state: a room whose bundle was never accepted and is not waiting to be posted leaves the peer without a key in every continuation |
| `KeyExchangeLosses.RejectedPostEndsTheExchange` | zk-chat-client-lib/src/index.ts:252-254 | a bundle is posted once: if the server turns it down, from any reachable state, the peer's room stays without a key in every continuation |
| `KeyExchangeLosses.RestartBeforePostEndsTheExchange` | zk-chat-client-lib/src/index.ts:252-254 | so does a restart of the sender after the room was stored and before its bundle was posted |
| `KeyExchangeClient.KeyExchangeService.GetBundles` | zk-chat-server-lib/src/persistence/model/key_exchange_bundle/key_exchange_bundle.statics.ts:4-6 | finds each stored bundle for the receiver as often as it is stored, and no other |
| `KeyExchangeClient.KeyExchangeService.ValidateMessageRules` | zk-chat-server-lib/src/services/key_exchange_service.ts:74-98 | names the first violated rule, and records the request exactly when there is none |
| `KeyExchangeClient.ViolatedExactly` | zk-chat-server-lib/src/services/key_exchange_service.ts:74-98 | for a sound and complete proof system, a request passes exactly when it is timely, new, proved by a member under the stored root, and within its limit; else the first of these that fails is named |
| `KeyExchangeClient.RequestsStayWithinLimit` | zk-chat-server-lib/src/services/key_exchange_service.ts:74-98 | over any calls, no nullifier gets more than the limit of requests through in an epoch, and none twice |
| `KeyExchangeClient.RequestPassesOnce` | zk-chat-server-lib/src/services/key_exchange_service.ts:44-98 | every request that passes is recorded, also when its content is stored already, and never passes again |
| `KeyExchangeClient.StoredBundlesWerePosted` | zk-chat-server-lib/src/services/key_exchange_service.ts:44-72 | over every sequence of calls, each stored bundle was posted, in time, by a member under the root of its time, and no content is stored twice |
| `KeyExchangeClient.PosterOwnsALeaf` | zk-chat-server-lib/src/util/proof_utils.ts:24-35 | under the root of some leaves, the secret that opens such a post is committed to in one of them |
| `KeyExchangeClient.KeyExchangeService.CreateBundle` | zk-chat-server-lib/src/services/key_exchange_service.ts:44-61 | stores a bundle exactly when its request violates no rule and its content hash is new; the request is recorded also when the hash is not |
| `KeyExchangeClient.KeyExchangeService.DeleteBundles` | zk-chat-server-lib/src/services/key_exchange_service.ts:63-72 | deletes the named bundles and counts exactly those; a violated rule deletes nothing |
| `KeyExchangeClient.DeletedAllMembers` | zk-chat-server-lib/src/persistence/model/key_exchange_bundle/key_exchange_bundle.statics.ts:8-11 | deleting by names removes exactly the bundles whose hash and receiver are named |
| `KeyExchangeClient.KeyExchangeManager.SaveKeyExchangeBundle` | zk-chat-client-lib/src/key-exchange/index.ts:54-78 | posts the given public key under the sender's name, and says whether it was stored |
| `KeyExchangeClient.KeyExchangeManager.RunKeyExchangeProtocol` | zk-chat-client-lib/src/key-exchange/index.ts:85-128 | one run starts exactly the derivations, on the rooms themselves, and requests exactly the deletions, that the state machine's steps do |
| `KeyExchangeClient.AddDirectIsCreateRoom` | zk-chat-client-lib/src/index.ts:231-257 | adding a direct room to the profile is the state machine's room creation |
| `KeyExchangeClient.DeriveKeyIsFinishDerivation` | zk-chat-client-lib/src/profile/index.ts:535-543 | writing a derived key through an alias is the state machine's end of a derivation |
| `KeyExchangeClient.AvailableRoomsAreKeyless` | zk-chat-client-lib/src/key-exchange/index.ts:40-44 | the rooms that the profile offers for a run are those without a key in the state machine |
| `GroupSync.PassKeepsInStep` | zk-chat-server-lib/src/semaphore/index.ts:43-126 | whatever fetches fail, see an older list or hit a full tree, each group's leaves stay a prefix of its list, up to zeroed hashes, and no record counts more leaves than are stored |
| `GroupSync.ZeroingKeepsInStep` | zk-chat-server-lib/src/services/user.service.ts:187-195 | a ban keeps everything in step, so a banned member is not appended again |
| `GroupSync.SecondPassIsQuiet` | zk-chat-server-lib/src/semaphore/index.ts:43-126 | a further pass over the same lists changes no leaf and no record and publishes nothing, from every state, also a full or unseeded tree |
| `GroupEvents.EventsAndRootsExactly` | zk-chat-server-lib/src/semaphore/index.ts:43-126 | for every pass over distinct groups and a collision-free hash: the root changes exactly when the pass admits a first leaf, or a leaf that is not the zero value; so exactly when an event comes without a new root, and a new root without an event, in terms of records, fetched lists, seeded table and room |
| `GroupEvents.PassAddsAndPublishes` | zk-chat-server-lib/src/semaphore/index.ts:43-126 | a pass adds exactly the members without a leaf of the groups whose records lag, in order, as far as there is room, and publishes exactly when some append was tried and fits or some size is replaced |
| `GroupEvents.AddedLeavesMoveRoot` | zk-chat-server-lib/src/services/user.service.ts:31-40 | added leaves change the root if a first one or a non-empty one is among them, and only then |
| `GroupEvents.ZeroMemberIsAnnounced` | zk-chat-server-lib/src/semaphore/api.ts:77-84 | a concrete input: a member listed as the zero value, as removed members are, is appended and announced, and the root stays |
| `GroupEvents.RemovedMembersStayProvable` | zk-chat-server-lib/src/semaphore/index.ts:98-117 | no pass takes a member out, whatever its lists say of that member: the leaf stays and can be proved |
| `GroupEvents.EventsAndChangesExactly` | zk-chat-server-lib/src/semaphore/index.ts:43-126 | the same as for the root, for the leaf list: exactly when leaves change without an event, and an event comes without new leaves |
| `GroupEvents.EventWithoutLeavesExactlyWhen` | zk-chat-server-lib/src/semaphore/index.ts:64-126 | for one group, the exact cases of an event without new leaves: a new record that needs none, a lagging leaf count, or a replaced size while nothing can be appended |
| `GroupSync.FailedFetchIsAnnouncedTwice` | zk-chat-server-lib/src/semaphore/index.ts:98-126 | one such case: a failed fetch for a group in step is announced as a change, and so is the next pass that works, although no leaf changed |
| `GroupEvents.TreeChangesSilentlyExactlyWhenCutShort` | zk-chat-server-lib/src/semaphore/index.ts:68-96 | for one group, leaves come without an event exactly when the seeded tree has room for some but not all of the members without a leaf, and the group is new or its record lags in leaves and its size is not replaced |
| `GroupEvents.AppendedAdds` | zk-chat-server-lib/src/services/user.service.ts:74-99 | an append adds the members without a leaf, each once and in order, until the tree is full, and succeeds exactly when they fit |
| `GroupEvents.RecordsExactly` | zk-chat-server-lib/src/semaphore/index.ts:64-117 | the records after a pass, exactly: a new group gets one with its fetched name and sizes when its append fits; a recorded group keeps its name, and each of its two numbers changes exactly when the source updates it |
| `SemaphoreSync.SemaphoreSynchronizer.SyncOneGroup` | zk-chat-server-lib/src/semaphore/index.ts:52-117 | one group's part over the real tree is the pass's step, and keeps right hashes and fresh copies |
| `SemaphoreSync.SemaphoreSynchronizer.SyncCommitmentsFromSemaphore` | zk-chat-server-lib/src/semaphore/index.ts:43-126 | one pass over the real tree and records is `Pass` and publishes at most one event; from right hashes, the root that the server answers with changes, and an event is published, each exactly under the condition stated for the pass |

## Left out

- `SemaphoreSync.SemaphoreSynchronizer.SyncOneGroup`: the list of removed members holds records where indexes are expected, and a removal by a record is taken to throw at its first lookup, so that it changes nothing. `RemoveUsersByIndexes` itself is modelled for any list of indexes.
- `AdmissionRuns.RunKeepsInv`: the server does not compare the plain share of a message with its proof. What is said about lines and secrets is said of the nullifiers whose messages carry the points inside their proofs; `AdmissionRuns.PointIsOnLineExactlyWhenPlain` shows that a share of any other message is off the line. The limit and the counts behind a ban hold for all messages.
- `RateBound.AcceptedRateIsBounded`: the server compares the named epoch with nothing inside the proof and accepts any RLN identifier, so an owner has the limit once per combination named; the bound counts combinations, and `RateBound.OneNameForEachEpoch` counts epochs.
- `ChatClient.ChatManager.SyncMessagesForAllRooms`: the number of requests the server answers is a parameter, and the store and the local messages do not change while the loop runs.
- Interleaving of tree operations with each other: each append, update or removal is atomic. The message handler's awaits and the key exchange do interleave.
- Floating point in the epoch check: the quotient by 1000 is taken over the reals.
- Poseidon, the SNARK, AES, RSA and ECDH: parameters with the assumptions named above. Recovery from two shares is interpolation at zero over a prime field.
- `KeyExchange.KeysAgree`: speaks of clients that post bundles of their own rooms only. The outcome of the server's rules for a post is part of a step here; `KeyExchangeClient` models the rules.
- `KeyExchange.NoExchangeIsLost`: speaks of runs without restarts and throwing derivations; `KeyExchangeLosses` says exactly what these lose. A restart keeps the profile as it is in memory; a stop between a change of the profile and its storing is not modelled.
- `LeafExchange.ClientRebuildsStoredRoot`: assumes that the client's group has the server's depth and zero value, which the two libraries fix separately.
- The Semaphore group class and the library's proof generation, used by `getPath`: the from-scratch root stands for them.
- `ChatClient.SyncStartsJustBehind`: speaks of local timestamps from 0 on, as clocks give them; a greatest one of -2 would take the branch that was meant for the empty store.
- A lookup of one record returns the first in insertion order, which the database does not promise.
- The state before a profile exists, its import and export, format checks, user names, and the copies of root and leaves in the profile.
- Message formats, HTTP, sockets, Redis and Mongo: a store is a sequence or a map with the meaning of its queries, and publishing appends to a log.
- The InterRep synchroniser, the deprecated daily history, the cleanup job, public-room creation, and the user interface.
