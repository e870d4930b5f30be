# Verified models of the runtime's replicated state

The runtime keeps versioned knowledge structures and shares them between replicas by gossip. These Dafny modules
model the parts of it whose correctness rests on more than one function, and prove what those parts keep.

- `MerkleTree`, `CrdtStore`: the grow-only object set with its radix-16 Merkle tree, kept up to date path by path in
  one backend and rebuilt from scratch in the other. SHA-256 (section 6.2 of FIPS 180-4) is an arbitrary total
  function to 64 hexadecimal characters; binding is stated as "the same set, or two different payloads with one
  digest".
- `VectorClock`, `MVRegister`: vector clocks, their comparison, and the multi-value register over them.
- `SeqNo`, `ReplayFilter`, `ExactlyOnce`: the sequence counter that many processes share through one locked file, the
  bounded replay window of the receiver, and both together over a channel that reorders, delays and duplicates.
- `Knowledge`, `Session`, `VersionCodec`: patches and their replay, version history with snapshots and deltas, the
  transaction pipeline, and the way of a version to storage and back.
- `FieldMerge`, `OperationLog`: the field-level operation log and the merge fast path that replays two branches' logs.
- `Outbox`: the leased task table, its workers, and the retry rule.
- `VectorBounds`: how a replica applies a remote snapshot, and how far any copy of a clock can be ahead of its owner.
- `SessionLineage`: which recorded versions the content of a replica goes back to, carried along with every run.
- `Basics`: what several modules share.
- `Sweeper`: the growing-limit query and the watermark of the staleness sweeper.

Objects that the source updates in place are classes here. Their methods are proved against specification functions,
and the theorems are about those functions. Protocols with several parties are state machines whose steps are the
atomic actions of the source; a theorem about them is about every sequence of steps. SQL statements are atomic steps on
a map, a file lock is a lock variable, and time is an integer.

## What does not hold as documented

Each of these is proved, with the exact condition under which the documented behaviour does hold.

- The register is order-independent exactly when no causally maximal write shares its object id or its clock with
  another write (`MVRegister.ConvergesIff`). A rewrite of the same object id overwrites a newer clock, and a write with
  an equal clock replaces the other object.
- An object id equal to the empty-subtree hash is invisible next to a sibling. Unless SHA-256 collides, root hashes are
  equal exactly when the sets are equal or differ in that id alone while it has a sibling in both
  (`MerkleTree.RootHashBindsIff`).
- The CRDT vector merge is the pointwise maximum exactly when no negative clock is missing on the other side
  (`VectorClock.MergeIsJoinIff`).
- The replay filter for patches looks at objects only. A commit that turns a relation id into an object id, stored as a
  delta, is lost together with the deltas after it up to the next snapshot, and nothing else is
  (`Session.VersionReconstructsIff`). The filter lets an add collide exactly in the case of
  `Knowledge.DedupeCollidesIff`.
- A revert restores the state committed as its target under the same condition, whatever the live state was
  (`Session.RevertRestoresIff`); with a core whose hashes tell states apart it never leaves another state instead.
- Versions created in the same instant may come back in another order (`VersionCodec.ReloadRestoresIff`).
- The field diff compares structures only, with the host language's equality: nothing is logged exactly when they
  compare equal (`FieldMerge.UnloggedIff`). So a change from `True` to `1` is not logged, nor one of kind or name alone,
  nor an object that becomes a relation of equal structure. Its description says that a changed relation is reported as
  a remove and an add; one whose participants or relation type change under an equal structure is not.
- The nonce cache alone does not stop a replay: an envelope without a sequence number can pass twice, but only within
  twice the clock skew and after more nonces than the cache holds (`ReplayFilter.ReplayNeedsEviction`).
- Reports on outbox tasks carry no claim. The leases stay as the table shows them, and no task has two holders, exactly
  as long as no report or renewal hits a task that another worker holds (`Outbox.LeasesKeptIff`); a late report before
  a takeover is harmless. The description of the renewal says that it returns `False` for a task that another worker
  took over. It does not: it renews the row, and both workers hold the task (`Outbox.TouchSharesTask`). A limit of zero
  or fewer retries still means one attempt.
- The retry limit is no limit on attempts. The worker never renews its lease, so an attempt slower than the lease is
  taken over and the retry count does not move; workers that neither crash nor report late can attempt a task any
  number of times (`Outbox.SlowWorkersPassAnyLimit`). With reports inside the own lease, a dead task was attempted
  exactly as often as the limit says plus once per takeover plus a full round per revival (`Outbox.AttemptsExactly`).
- The comment on the duplicate-id guard calls an equal own clock with different content conclusive. An honest peer that
  saw the latest commit and then made one of its own is refused by it (`VectorBounds.EqualClockRefusesHonestPeer`).
- The sweeper's comment says that the next sweep picks up the remainder of a capped one. It does not: the watermark
  stays, the same oldest sessions come back, and a session can be returned exactly when fewer strictly older ones are
  eligible than the largest query takes (`Sweeper.SweepNeverReturnsIff`, `Sweeper.RemainderIsStarved`). With a batch
  size of zero or less the loop never ends (`Sweeper.SweepEndsIff`).

## Assumptions

- The core's diff, for any two structures, applies to the first, yields the second, adds only objects that the second
  has and adds none twice (`Session.DiffLaw`). Structures are frozen all the way down, and diffs between such structures
  hold such structures (`VersionCodec.FrozenDiffs`). Remove-then-add pairs do all that
  (`VersionCodec.PairwiseDiffIsLawfulAndFrozen`).
- The canonical text of a frozen structure is non-empty and parses back, and parsing yields frozen structures
  (`VersionCodec.CanonicalLaw`). Texts are any type; the law can be met (`VersionCodec.SomeCanonicalTextIsLawful`).
- The core's leaf hash is any total function of an object's identity and structure.
- Removing an object or a relation that is absent fails, as adding one that is present does.
- While a transaction is open, only the pipeline changes the session's live state.
- Random ids (versions, sessions' node ids) are fresh. Node ids and replica ids never coincide.
- Sets are walked in some fixed order without repeats (`FieldMerge.WalkLaw`, which `FieldMerge.SomeWalkIsLawful` meets);
  that it is the sorted order is not used.

## Model

| member | source | states |
|---|---|---|
| MerkleTree.PathUpdateIsRebuild | src/cks_runtime/crdt/merkle_tree.py:197-220 | the 65-node path update turns the table of a set's tree into the table of the set plus the new id, node for node |
| MerkleTree.InsertsAreRebuild | src/cks_runtime/crdt/merkle_tree.py:197-232 | any sequence of inserts, repeats included, leaves exactly the tree rebuilt from the id set |
| MerkleTree.PathUpdateTouchesOnlyThePath | src/cks_runtime/crdt/merkle_tree.py:205-232 | on any table, a path update leaves every node off the path as it was |
| MerkleTree.PathUpdateIdempotent | src/cks_runtime/crdt/merkle_tree.py:197-232 | re-running the update of a stored id changes nothing |
| MerkleTree.TreeIsUnique | src/cks_runtime/crdt/merkle_tree.py:136-154 | one id set has one table |
| MerkleTree.LookupIsSubtreeHash | src/cks_runtime/crdt/merkle_tree.py:156-166 | a stored row, or the empty default, is the subtree hash of the id set at every path |
| MerkleTree.SubtreeDependsOnIdsBelow | src/cks_runtime/crdt/merkle_tree.py:90-93 | a node's hash depends on the ids under its prefix only |
| MerkleTree.PayloadDecodes | src/cks_runtime/crdt/merkle_tree.py:90-93 | the hashed payload decodes uniquely into prefix and child hashes |
| MerkleTree.LeavesAndGaps | src/cks_runtime/crdt/merkle_tree.py:54-58 | a leaf is its id; a place without ids, and the empty store, has the hash of the fixed marker |
| MerkleTree.PayloadLayout | src/cks_runtime/crdt/merkle_tree.py:90-93 | what is hashed: the prefix, then the child hashes, 64 characters each, in order |
| MerkleTree.NibblesInOrder | src/cks_runtime/crdt/merkle_tree.py:168-193 | the sixteen nibbles ascend from 0 to f |
| MerkleTree.SubtreeHashBindsIff | src/cks_runtime/crdt/merkle_tree.py:54-93 | unless SHA-256 collides on payloads of the two trees, hashes at a prefix are equal iff the ids below are, up to a marker id that is the prefix itself or has a sibling on both sides |
| MerkleTree.RootHashBindsIff | src/cks_runtime/crdt/merkle_tree.py:54-93 | root hashes are equal iff the sets are, or they differ in the marker id alone and it has a sibling in both |
| MerkleTree.MarkerIdIsInvisible | src/cks_runtime/crdt/merkle_tree.py:54-58 | adding the marker id changes the root hash unless it has a sibling, or payloads collide; with a sibling it never does |
| CrdtStore.ObjectIdFor | src/cks_runtime/crdt/crdt_store.py:118-197 | an accepted payload, live or dict, gets the hash of its own content; a type error iff there is no content to hash, a mismatch otherwise |
| CrdtStore.MergedKeys | src/cks_runtime/crdt/crdt_store.py:386-412 | a batch adds exactly the ids of its valid members, whatever the invalid ones, and overwrites no stored object |
| CrdtStore.MergedConcat | src/cks_runtime/crdt/crdt_store.py:386-412 | splitting a delivery into batches does not matter |
| CrdtStore.MergedIsContentAddressed | src/cks_runtime/crdt/crdt_store.py:118-165 | every stored object lies under the hash of its own content |
| CrdtStore.DeliveryOrderDoesNotMatter | src/cks_runtime/crdt/crdt_store.py:386-416 | replicas that received the same objects in any order with any repeats show one root hash and hold the same contents, or two contents share a leaf hash |
| CrdtStore.SqliteMerkleTree.GetChildrenHashes | src/cks_runtime/crdt/merkle_tree.py:168-193 | the sixteen child hashes in nibble order, empty hash where there is no child row of the right level |
| CrdtStore.SqliteMerkleTree.UpdateMerklePath | src/cks_runtime/crdt/merkle_tree.py:197-220 | malformed ids are refused unchanged; for others the loop leaves the path update of the table |
| CrdtStore.LowerIff | src/cks_runtime/crdt/merkle_tree.py:60-70 | exactly the spellings of an id in any mixture of cases lead to its lower-case form |
| CrdtStore.SqliteCrdtStore.AddObject | src/cks_runtime/crdt/crdt_store.py:342-370 | adds iff valid and new, reports which, and keeps the table the tree of the objects |
| CrdtStore.SqliteCrdtStore.MergeObjects | src/cks_runtime/crdt/crdt_store.py:386-412 | merges the whole batch past bad members and counts exactly the new objects |
| CrdtStore.SqliteCrdtStore.GetRootHash | src/cks_runtime/crdt/crdt_store.py:414-416 | the stored root is the hash of the whole object set |
| CrdtStore.BackendsAgree | src/cks_runtime/crdt/crdt_store.py:1042-1077 | the rebuilt node map reads at every path as the incrementally kept table |
| CrdtStore.InMemoryCrdtStore.AddObject | src/cks_runtime/crdt/crdt_store.py:1013-1019 | same additions as the other backend; the nodes become stale iff something was added |
| CrdtStore.InMemoryCrdtStore.RebuildTree | src/cks_runtime/crdt/crdt_store.py:1042-1063 | the level-by-level rebuild yields exactly the nodes of the id set |
| CrdtStore.InMemoryCrdtStore.BuildLevels | src/cks_runtime/crdt/crdt_store.py:1049-1059 | from the leaves up, every occurring prefix has its subtree hash and nothing else has a node |
| CrdtStore.InMemoryCrdtStore.GetRootHash | src/cks_runtime/crdt/crdt_store.py:1065-1070 | rebuilds when stale; the answer is the hash of the object set |
| VectorClock.CausalityCheck | src/cks_runtime/crdt/causality.py:35-75 | the four answers are the pointwise order, both ways, over all node ids |
| VectorClock.MergeIsJoinIff | src/cks_runtime/crdt/version_vector.py:61-72 | merge is the pointwise maximum iff no negative clock is missing on the other side |
| VectorClock.JoinIsLeastUpperBound | src/cks_runtime/crdt/version_vector.py:61-72 | a merge loses nothing and invents nothing |
| VectorClock.VersionVector.Observe | src/cks_runtime/crdt/version_vector.py:48-55 | never moves a clock back; afterwards the clock has been seen |
| VectorClock.VersionVector.Merge | src/cks_runtime/crdt/version_vector.py:61-72 | a fresh vector with the entries of both, the larger where they differ |
| MVRegister.Compare | src/cks_runtime/crdt/crdt_store.py:469-492 | finds whether the write is stale and exactly which other ids it supersedes |
| MVRegister.PointerStore.UpdatePointer | src/cks_runtime/crdt/crdt_store.py:1087-1108 | the new live pointers of the key, other keys untouched |
| MVRegister.PointerStore.ResolvePointer | src/cks_runtime/crdt/crdt_store.py:1123-1131 | keeps only the winner if it is live, otherwise changes nothing |
| MVRegister.ReportedForksAreReal | src/cks_runtime/crdt/crdt_store.py:453-559 | after any run of updates and resolutions, with any clocks, two live pointers of a key are concurrent |
| MVRegister.RunHoldsMaximal | src/cks_runtime/crdt/crdt_store.py:1087-1108 | without ambiguity any delivery order with repeats leaves exactly the causally maximal writes |
| MVRegister.ConvergesIff | src/cks_runtime/crdt/crdt_store.py:453-515 | order independence iff no causally maximal write shares id or clock with another write |
| MVRegister.CoherentWritesConverge | src/cks_runtime/crdt/crdt_store.py:1087-1108 | replicas that saw the same coherent writes agree on the causally maximal ones |
| MVRegister.KeysAreIndependent | src/cks_runtime/crdt/crdt_store.py:1087-1108 | interleaved writes to other keys never disturb a register |
| ReplayFilter.WindowDecidesAsIdeal | src/cks_runtime/gossip/filter.py:233-289 | the bounded window accepts iff non-negative, above high-water minus W and never accepted before, and keeps exactly the accepted numbers in the window |
| ReplayFilter.WindowIsBounded | src/cks_runtime/gossip/filter.py:285-289 | at most W numbers are kept |
| ReplayFilter.RunsAgree | src/cks_runtime/gossip/filter.py:233-289 | over any run of offers the windowed and the ideal check decide alike |
| ReplayFilter.NoNumberAcceptedTwice | src/cks_runtime/gossip/filter.py:233-289 | in any run no number is accepted twice |
| ReplayFilter.GossipFilter.constructor | src/cks_runtime/gossip/filter.py:93-113 | limits are clamped; nothing is remembered |
| ReplayFilter.GossipFilter.Check | src/cks_runtime/gossip/filter.py:115-142 | the whole decision against unbounded memory, and what is recorded, a nonce also when the number is then refused; nothing outside the clock skew or past its end passes, whatever was evicted or reset, and nothing inside both is refused for its time |
| ReplayFilter.GossipFilter.CheckNonce | src/cks_runtime/gossip/filter.py:214-231 | a nonce passes iff non-blank and not among the last recorded ones |
| ReplayFilter.LastNIff | src/cks_runtime/gossip/filter.py:225-230 | the cache knows exactly the nonces among the last n recorded |
| ReplayFilter.ReplayNeedsEviction | src/cks_runtime/gossip/filter.py:173-231 | an envelope without a number passes twice only within twice the skew and after more nonces than the cache holds |
| Basics.StripCutsWhiteSpace | src/cks_runtime/gossip/filter.py:214-218 | trimming cuts white space off both ends, all of it and nothing else |
| ReplayFilter.GossipFilter.Remember | src/cks_runtime/gossip/filter.py:225-230 | evicting the oldest keeps exactly the last nonces |
| ReplayFilter.GossipFilter.CheckSequence | src/cks_runtime/gossip/filter.py:233-289 | the imperative check decides as the ideal one and records exactly the accepted number |
| ReplayFilter.GossipFilter.Reset | src/cks_runtime/gossip/filter.py:144-153 | forgets one sender completely and nobody else |
| SeqNo.NoValueIssuedTwice | src/cks_runtime/gossip/seq_no.py:177-207 | over every interleaving, crash and restart, values issued for a replica id strictly increase in lock order |
| SeqNo.OnlyOwnEntryMoves | src/cks_runtime/gossip/seq_no.py:256-286 | a step changes at most the entry of its own replica id, only upwards |
| SeqNo.EntriesNeverLost | src/cks_runtime/gossip/seq_no.py:177-286 | no entry of the shared file is lost or moved back in any run |
| SeqNo.SeqNoCounter.Next | src/cks_runtime/gossip/seq_no.py:177-207 | one uncontended call: above memory and file, written back, other entries kept |
| SeqNo.OpenCounter | src/cks_runtime/gossip/seq_no.py:145-165 | blank ids and negative starts are refused; otherwise the counter resumes where the file stands |
| SeqNo.UninterruptedCall | src/cks_runtime/gossip/seq_no.py:177-207 | the four steps run back to back are the atomic call |
| ExactlyOnce.AtMostOnce | src/cks_runtime/gossip/filter.py:233-289 | over every run of counter and channel no envelope is accepted twice, and only issued ones are |
| ExactlyOnce.FirstTimelyDeliveryAccepted | src/cks_runtime/gossip/filter.py:244-275 | a first delivery with the largest issued number less than W above its own passes the check |
| ExactlyOnce.ExactlyOnceWhenInTime | src/cks_runtime/gossip/seq_no.py:177-207 | if first deliveries come in time, the accepted envelopes are exactly the delivered ones, once each |
| ExactlyOnce.TimelyDeliveryInAnyRun | src/cks_runtime/gossip/filter.py:233-289 | the same for one more timely delivery in any reachable state |
| Knowledge.DedupeReplayedAddObjects | src/cks_runtime/session/session.py:65-94 | the loop with its early exit computes the de-duplicated patch |
| Knowledge.DedupeIdempotent | src/cks_runtime/session/session.py:65-94 | de-duplicating twice is de-duplicating once |
| Knowledge.DedupeCollidesIff | src/cks_runtime/session/session.py:75-93 | the result adds an object id present at that point iff the patch adds a relation under an id not believed present and next adds an object under it |
| Knowledge.DedupeNeverCollides | src/cks_runtime/session/session.py:65-94 | with object and relation ids disjoint it never does |
| Knowledge.SharedIdSlipsThrough | src/cks_runtime/session/session.py:75-93 | the disjointness is needed |
| Knowledge.DedupeIdentityIff | src/cks_runtime/session/session.py:65-94 | on a patch that applies, de-duplication is the identity iff no object is added over a relation's id |
| Knowledge.LackPersists | src/cks_runtime/session/session.py:65-94 | an object missing from the replayed state stays missing, or the replay fails, under any patch of the true history |
| Knowledge.ReplayedDiffIff | src/cks_runtime/session/session.py:251-259 | replaying a stored diff reaches the recorded state iff no relation id became an object id |
| Knowledge.DiffIsADiff | src/cks_runtime/adapters/cks_core.py:192-196 | remove-then-add pairs over the differing ids take any structure to any other |
| Knowledge.EvolveSucceedsIff | src/cks_runtime/adapters/cks_core.py:122-143 | a patch applies iff every operator fits what the earlier ones left under its id, and the last operator about an id decides its item |
| Session.SnapshotDistance | src/cks_runtime/session/session.py:236-249 | reconstruction starts at the last interval boundary and replays fewer than `snapshot_interval` patches |
| Session.VersionReconstructsIff | src/cks_runtime/session/session.py:170-265 | a version reconstructs to exactly the state committed as it iff no delta since its own snapshot turned a relation id into an object id |
| Session.RelationToObjectIsLost | src/cks_runtime/session/session.py:251-259 | a concrete history: the delta that does so is lost, the snapshot after it is not |
| Session.RuntimeSession.CommittedStatesReconstruct | src/cks_runtime/session/session.py:170-265 | the same after any sequence of begins, commits, failed commits, rollbacks, aborts and reverts; the last committed state is the live one |
| Session.HistoryReconstructsIff | src/cks_runtime/session/session.py:170-265 | all versions reconstruct iff there is no such delta |
| Session.OpenSession | src/cks_runtime/session/session.py:121-132 | intervals below 1 are refused |
| Session.RuntimeSession.GetVersionState | src/cks_runtime/session/session.py:201-259 | the walk back and the replay loop compute the specified result, every error included |
| Session.HandedOutStateHasItsHash | src/cks_runtime/session/session.py:203-219 | no state is handed out whose hash differs from the one recorded with the version, whatever is stored |
| Session.AlteredHistoryIsDetected | src/cks_runtime/session/session.py:203-259 | with snapshots and patches altered in any way, a version comes back as the state committed as it or not at all, if hashes stand and tell states apart |
| Session.SnapshotIsCheckedIff | src/cks_runtime/session/session.py:221-223 | a stored snapshot is handed out iff there is nothing to compare or the hashes are equal |
| Session.WithoutCore | src/cks_runtime/session/session.py:221-231 | without a core exactly the snapshots of a recorded history can be read |
| Session.UnknownIff | src/cks_runtime/session/session.py:261-265 | the unknown-version error is given for exactly the ids no version has |
| Session.RuntimeSession.VersionIndex | src/cks_runtime/session/session.py:261-265 | the first version with the id, or an error |
| Session.RuntimeSession.Begin | src/cks_runtime/transaction/transaction_manager.py:41-72 | one open transaction at a time; it remembers the live state |
| Session.RuntimeSession.Rollback | src/cks_runtime/pipeline/execution_pipeline.py:103-132 | live state and history as before the transaction |
| Session.RuntimeSession.Abort | src/cks_runtime/pipeline/execution_pipeline.py:143-162 | closes the transaction, changes nothing else |
| Session.RuntimeSession.Commit | src/cks_runtime/pipeline/execution_pipeline.py:54-96 | all or nothing: one version with the resulting state, or live state and history of before; an empty transaction commits iff the live state is valid; a single revert leaves its target's committed state iff that is replayable, and fails for an unknown id |
| Session.RuntimeSession.ExecuteOperations | src/cks_runtime/pipeline/execution_pipeline.py:318-375 | operations in order; the first failure restores the initial state and closes the transaction |
| Session.RunsInOrder | src/cks_runtime/pipeline/execution_pipeline.py:318-340 | operations run one after the other on the state the earlier ones left, and the first failure ends it |
| Session.LaterSeesEarlier | src/cks_runtime/pipeline/execution_pipeline.py:374-375 | a merge starts from what the earlier operations of its transaction left; a validation or read in its place keeps that state or fails |
| Session.RevertRestoresIff | src/cks_runtime/operations/operation_types.py:329-345 | a revert that ends a transaction restores the state committed as its target iff every delta since the target's snapshot is replayable, whatever the live state; if the core tells states apart it restores it or fails |
| Session.RevertToUnknownFails | src/cks_runtime/operations/operation_types.py:329-345 | a revert to an id no version has fails the transaction, wherever in it it stands |
| Session.EvolveLeavesItsTarget | src/cks_runtime/operations/operation_types.py:72-82 | an edit leaves what its patch makes of the structure it names, whatever the live state, and fails iff some operator does not fit |
| Session.ReplacementIsAdopted | src/cks_runtime/operations/operation_types.py:744-761 | a replacement leaves exactly its content, and fails without one |
| Session.RuntimeSession.CreateVersion | src/cks_runtime/versioning/version_manager.py:130-193 | appends a snapshot at interval boundaries and a delta from the previous state otherwise, and keeps the history's record of committed states |
| VersionCodec.ThawIsPlain | src/cks_runtime/storage/patch_codec.py:26-48 | thawing leaves nothing the JSON encoder refuses, at any depth |
| VersionCodec.FreezeThawIff | src/cks_runtime/storage/patch_codec.py:26-48 | a value survives thawing and freezing iff it was frozen all the way down |
| VersionCodec.ThawKeepsContent | src/cks_runtime/storage/patch_codec.py:26-48 | thawing forgets only what was frozen |
| VersionCodec.OperatorRoundTripIff | src/cks_runtime/storage/patch_codec.py:51-118 | an operator survives encoding and decoding iff its structure is frozen |
| VersionCodec.EncodedIsPlain | src/cks_runtime/storage/patch_codec.py:51-91 | every operator, frozen or not, becomes a record the JSON encoder takes, and decodes to its kind and id with the frozen structure |
| VersionCodec.DecodesIff | src/cks_runtime/storage/patch_codec.py:94-118 | which records decode: a known type, that type's keys, and a structure that is missing or a mapping |
| VersionCodec.PatchRoundTripIff | src/cks_runtime/storage/patch_codec.py:51-118 | so does a whole patch, the empty one included |
| VersionCodec.SerializeOperators | src/cks_runtime/storage/patch_codec.py:51-91 | encodes every operator in order, as records the JSON encoder takes; frozen patches decode back |
| VersionCodec.DeserializeOperators | src/cks_runtime/storage/patch_codec.py:94-118 | fails on the first bad record, and only if there is one |
| VersionCodec.VersionRoundTripIff | src/cks_runtime/storage/sqlite_storage.py:723-739 | a version comes back from its row iff it is a frozen snapshot without patch or a delta of frozen operators |
| VersionCodec.RowDecodesIff | src/cks_runtime/storage/sqlite_storage.py:587-602 | a row decodes iff every record of its patch does; an empty text is no structure, an empty patch is one |
| VersionCodec.ReloadRestoresIff | src/cks_runtime/storage/sqlite_storage.py:577-606 | for every row order the sort restores the history iff creation times strictly increase |
| VersionCodec.VersionTable.SaveVersion | src/cks_runtime/storage/sqlite_storage.py:723-755 | a second row under one id is refused; otherwise the encoded version is inserted |
| VersionCodec.VersionTable.LoadVersions | src/cks_runtime/storage/sqlite_storage.py:577-608 | decodes the rows in the order they come in, fails on the first bad one, and sorts by creation time |
| VersionCodec.ReloadedHistory | src/cks_runtime/storage/sqlite_storage.py:577-608 | a stored history comes back complete and in order for every row order, and exactly as saved when its times strictly increase |
| VersionCodec.PairwiseDiffIsLawfulAndFrozen | src/cks_runtime/adapters/cks_core.py:185-196 | what is assumed of the core's diff can be met all at once |
| VersionCodec.RecordedHistoriesAreStorable | src/cks_runtime/versioning/version_manager.py:160-188 | what the version manager records from frozen states can be stored |
| VersionCodec.SavedVersionsReconstructIff | src/cks_runtime/storage/sqlite_storage.py:577-608 | end to end: save every version, load in any row order; a version reconstructs to its committed state iff every delta since its snapshot is replayable |
| FieldMerge.ComputeFieldDiff | src/cks_runtime/adapters/cks_core.py:188-292 | the three loops list removals, additions and per-item changes |
| FieldMerge.ComputeItemOps | src/cks_runtime/adapters/cks_core.py:236-290 | one item's operations: none, a relation's remove and add, or one per changed key |
| FieldMerge.DiffOfOneItem | src/cks_runtime/adapters/cks_core.py:211-290 | a commit logs exactly an identity's own operations, once |
| FieldMerge.HostEquality | src/cks_runtime/adapters/cks_core.py:211-290 | which values compare equal, shape by shape |
| FieldMerge.DiffOfIdentity | src/cks_runtime/adapters/cks_core.py:188-290 | what a commit logs for an identity, on one side or both: one removal or addition of its kind, nothing, a relation's remove and add, or field operations only |
| FieldMerge.UnloggedIff | src/cks_runtime/adapters/cks_core.py:188-290 | a commit logs nothing for an identity on both sides iff its structures compare equal, whatever else changed |
| FieldMerge.SynthesizeMerge | src/cks_runtime/adapters/cks_core.py:294-373 | replays the operations on the base, or fails as specified |
| FieldMerge.SynthesizesIff | src/cks_runtime/adapters/cks_core.py:294-373 | a merge is synthesized iff there is a plain base object and every operation sets or deletes a field of it |
| FieldMerge.LoggedOpsMergeAlike | src/cks_runtime/storage/sqlite_storage.py:1325-1335 | passing values through the log's JSON changes nothing about the merge |
| FieldMerge.DiffReplayIff | src/cks_runtime/adapters/cks_core.py:236-373 | replaying a commit's operations gives the target's fields up to host equality, exactly iff no key changed silently; absent and None stay apart |
| FieldMerge.DisjointReplaysCommute | src/cks_runtime/operations/operation_types.py:671-678 | logs on disjoint keys may be replayed in either order |
| FieldMerge.DisjointBranchesMerge | src/cks_runtime/operations/operation_types.py:653-690 | two multi-commit branches on disjoint keys merge to each branch's final value on its keys and the base elsewhere |
| OperationLog.OperationLogTable.RecordOperations | src/cks_runtime/storage/sqlite_storage.py:1315-1347 | appends one row per operation, values thawed |
| OperationLog.OperationLogTable.ListOperations | src/cks_runtime/storage/sqlite_storage.py:1350-1398 | exactly the rows that pass the filters, oldest first |
| OperationLog.SelectedExactly | src/cks_runtime/storage/sqlite_storage.py:1350-1398 | a row is found as often as it is stored if it passes all filters, and never otherwise |
| OperationLog.SelectedConcatRows | src/cks_runtime/storage/sqlite_storage.py:1350-1398 | rows are found in the order they were logged |
| OperationLog.FieldLevelResolutions | src/cks_runtime/operations/operation_types.py:614-690 | the loop with its skips computes the specified resolutions, whose domain `ResolvedExactly` reads off the rows |
| OperationLog.ResolvedIff | src/cks_runtime/operations/operation_types.py:650-690 | an object is resolved iff one of the conflicts about it can be, and to what one of them resolves to |
| OperationLog.ResolvedExactly | src/cks_runtime/operations/operation_types.py:650-690 | for any histories and rows, an object is resolved iff some conflict about it has a plain base object, a side logged something for it, both logged only field operations for it, and no key was touched on both sides |
| OperationLog.ReplacedIsNeverResolved | src/cks_runtime/operations/operation_types.py:671-675 | an identity that a branch removed, re-added or replaced is left to the caller |
| OperationLog.SideOpsAreBranchLog | src/cks_runtime/pipeline/execution_pipeline.py:267-303 | what is read for a side is everything its commits did to the object, whatever other sessions logged |
| OperationLog.HistorySelectsBranch | src/cks_runtime/operations/operation_types.py:637-648 | the version ids after the base choose from the log exactly the branch's commits since the base |
| OperationLog.FastPathMergesBranches | src/cks_runtime/operations/operation_types.py:650-690 | for one conflict and given version sets: resolved iff touched and on disjoint keys, and then to the merge of both branches |
| OperationLog.HistoriesMerge | src/cks_runtime/operations/operation_types.py:614-690 | end to end from the two histories: the same for the whole resolution map |
| Outbox.OutboxTable.DequeueNextOutboxTask | src/cks_runtime/storage/sqlite_storage.py:1017-1078 | claims an oldest task of the type that is due or was left claimed for five minutes, if there is one, and touches no other row |
| Outbox.OutboxTable.TouchOutboxTask | src/cks_runtime/storage/sqlite_storage.py:1159-1181 | renews any claimed task, whoever holds it, and says whether it did |
| Outbox.OutboxTable.ListTasksByType | src/cks_runtime/storage/sqlite_storage.py:1184-1238 | exactly the waiting tasks of the type, oldest first, once each; a drain deletes exactly those |
| Outbox.EveryTaskIsAccountedFor | src/cks_runtime/storage/sqlite_storage.py:1017-1238 | in every run enqueued = completed + drained + stored, late reports included |
| Outbox.LeasesKeptIff | src/cks_runtime/storage/sqlite_storage.py:1081-1181 | a step keeps every running lease the table's own and unique iff it is no report or renewal on a task another worker holds |
| Outbox.LeasesAlwaysKeptIff | src/cks_runtime/storage/sqlite_storage.py:1017-1238 | over a whole run they are kept throughout iff every report was undisputed when made |
| Outbox.NoTaskHeldTwice | src/cks_runtime/storage/sqlite_storage.py:1010-1078 | under undisputed reports, and so under reports inside the own lease, no task has two holders |
| Outbox.TouchSharesTask | src/cks_runtime/storage/sqlite_storage.py:1159-1181 | renewing a task that was taken over gives it two holders in one step |
| Outbox.LateReportSharesTask | src/cks_runtime/storage/sqlite_storage.py:1089-1105 | so do a late failure report and the next claim |
| Outbox.DeadChangesIff | src/cks_runtime/storage/sqlite_storage.py:1081-1156 | a step changes a dead task iff it revives it or is a completion or failure report by a worker that still remembers it |
| Outbox.DeadUnchangedIff | src/cks_runtime/storage/sqlite_storage.py:1081-1156 | over any run a dead task is unchanged throughout iff no step is such a revival or report |
| Outbox.DeadStaysDead | src/cks_runtime/storage/sqlite_storage.py:1108-1156 | with reports inside the own lease, a dead task is neither claimed nor changed until revived by hand |
| Outbox.LeaseIsTakenOver | src/cks_runtime/storage/sqlite_storage.py:1010-1078 | the state in which it breaks is reachable |
| Outbox.BackoffIsCapped | src/cks_runtime/projection/outbox_worker.py:144-147 | delays start at 2 seconds and double up to 2048; from the twelfth retry on they are 3600 |
| Outbox.AttemptsAreBounded | src/cks_runtime/projection/outbox_worker.py:109-148 | in every run that follows the retry rule, late reports and crashes included, attempts stay within max(1, max_retries) plus one per takeover plus a full round per revival and per stale failure report |
| Outbox.AttemptsExactly | src/cks_runtime/projection/outbox_worker.py:109-148 | with reports inside the own lease the count is exact, for stored and for dead tasks, with crashes, takeovers and revivals; a dead task kept to the limit iff there was neither takeover nor revival |
| Outbox.SlowWorkersPassAnyLimit | src/cks_runtime/projection/outbox_worker.py:109-123 | takeovers alone, without crash, late report or revival, make any number of attempts |
| Outbox.OutboxEmbeddingWorker.ProcessNextTask | src/cks_runtime/projection/outbox_worker.py:109-148 | after a success the task is in no row; after a failure it is stored, dead iff that was the last attempt allowed, otherwise pending with one retry more and a stamp its backoff after the report; other tasks untouched; nothing claimed iff nothing eligible |
| Outbox.OutboxEmbeddingWorker.PollIsClaimAndReport | src/cks_runtime/projection/outbox_worker.py:109-148 | a poll is a claim, the work and one report of the step machine, follows the retry rule, and reports inside its lease when the work takes less than five minutes |
| Outbox.FailedTaskWaits | src/cks_runtime/storage/sqlite_storage.py:1029-1050 | a failed task is not claimed by anyone before its backoff is over |
| Outbox.OutboxEmbeddingWorker.EveryAttemptIsProgress | src/cks_runtime/projection/outbox_worker.py:128-148 | a failed task is dead or strictly closer to its limit and stamped for a retry within the hour; other tasks are untouched |
| VectorBounds.VersionVector.Absorb | src/cks_runtime/versioning/version_vector.py:57-71 | every entry of the other vector observed |
| VectorBounds.VersionVector.Dominates | src/cks_runtime/versioning/version_vector.py:73-88 | non-empty, and at least as much from every node the other knows |
| VectorBounds.AbsorbingDominates | src/cks_runtime/versioning/version_vector.py:57-88 | absorbing loses nothing, and then dominates unless both vectors are empty |
| VectorBounds.GossipAdapter.ApplyRemoteSession | src/cks_runtime/gossip/adapter.py:431-636 | branch by branch: new session, answer, pending notices and event; the laws below say which side wins |
| VectorBounds.NewerContentSurvives | src/cks_runtime/gossip/adapter.py:543-578 | content is replaced by the snapshot's different content, other than through a merge, only if no key of the local vector exceeds the snapshot's |
| VectorBounds.KnownSnapshotIsIgnored | src/cks_runtime/gossip/adapter.py:543-547 | a snapshot the session already knows changes neither content nor vector |
| VectorBounds.NewerSnapshotIsAdopted | src/cks_runtime/gossip/adapter.py:549-578 | a snapshot that knows more, and shows no duplicated id, leaves its content and a vector that has seen everything of both; a version is recorded iff the content changed |
| VectorBounds.ConcurrentSnapshotIsMerged | src/cks_runtime/gossip/adapter.py:580-636 | when each side has seen something new, nothing changes without a merge result, and with one it is taken and only the own two clocks move |
| VectorBounds.DuplicateIsRefused | src/cks_runtime/gossip/adapter.py:475-499 | an own clock ahead, or equal with different content, is refused and changes nothing |
| VectorBounds.RefusedIff | src/cks_runtime/gossip/adapter.py:475-630 | refused exactly for a duplicated id, or for different contents that neither side dominates and that do not merge |
| SessionLineage.DominanceIsInclusion | src/cks_runtime/gossip/adapter.py:543-549 | in a run, a vector that has seen more belongs to a content that goes back to more versions |
| SessionLineage.NoDeliveryLosesAVersion | src/cks_runtime/gossip/adapter.py:431-742 | in every run, no step makes the content of a replica go back to fewer recorded versions |
| SessionLineage.IgnoredSnapshotsAreOld | src/cks_runtime/gossip/adapter.py:543-547 | in every run, a snapshot that is neither adopted nor refused goes back to no version the replica lacks |
| VectorBounds.GossipAdapter.BootstrapRemoteSession | src/cks_runtime/gossip/adapter.py:677-742 | adopts content and vector under a fresh node id and commits |
| VectorBounds.FirstSnapshotIsCopied | src/cks_runtime/gossip/adapter.py:677-742 | content and every clock of the snapshot are kept, and the new replica's own two move by one |
| VectorBounds.NoClockRunsAhead | src/cks_runtime/gossip/adapter.py:431-742 | in every run no vector, held or in flight, shows a clock above its owner's, and a replica's own clock counts its versions |
| VectorBounds.GuardFiresIff | src/cks_runtime/gossip/adapter.py:475-497 | among honest replicas the strict test never fires; the guard refuses exactly in the equal-clock case |
| VectorBounds.EqualClockRefusesHonestPeer | src/cks_runtime/gossip/adapter.py:478-484 | that case happens without a duplicated id |
| Sweeper.ShortPageIsComplete | src/cks_runtime/storage/sqlite_storage.py:655-682 | an answer shorter than its limit holds every eligible session |
| Sweeper.SweepEndsIff | src/cks_runtime/reasoning/inference_staleness_sweeper.py:261-294 | the limit loop is bounded for positive batch sizes, and never ends for others |
| Sweeper.DefaultBatchCap | src/cks_runtime/reasoning/inference_staleness_sweeper.py:258-294 | with the default batch size a sweep makes at most six queries, the last for 102400 rows |
| Sweeper.SecondHoldsTheMoment | src/cks_runtime/storage/sqlite_storage.py:655-682 | stored times are those of the second a moment falls in |
| Sweeper.InferenceStalenessSweeper.Sweep | src/cks_runtime/reasoning/inference_staleness_sweeper.py:253-301 | the answer of the query that ends the loop; the watermark moves only if that answer was complete |
| Sweeper.NoModificationIsSkipped | src/cks_runtime/reasoning/inference_staleness_sweeper.py:253-301 | the first uncapped sweep whose last query follows a modification returns the session, however many capped ones came before, unless it was archived meanwhile |
| Sweeper.SomeSweepIsFirst | src/cks_runtime/reasoning/inference_staleness_sweeper.py:253-301 | every modification that some uncapped sweep came late enough for has such a first sweep |
| Sweeper.CappedIff | src/cks_runtime/reasoning/inference_staleness_sweeper.py:264-294 | a sweep of an unchanging table is capped, and the watermark stays, iff the backlog fills the largest query |
| Sweeper.NeverReturnedIff | src/cks_runtime/storage/sqlite_storage.py:669-676 | a query may return an eligible session iff fewer than its limit are strictly older |
| Sweeper.SweepNeverReturnsIff | src/cks_runtime/reasoning/inference_staleness_sweeper.py:264-294 | a sweep of an unchanging table may return it iff fewer strictly older ones are eligible than the largest query takes |
| Sweeper.RemainderIsStarved | src/cks_runtime/reasoning/inference_staleness_sweeper.py:281-287 | from any sweep and watermark on, while a session stays behind the cap, every sweep is capped, the watermark stays and the session is never returned |

## Left out

- The text of SQL, JSON and files, asyncio and sockets; a crash between an object insert and its tree update; failures
  of persistence, unreadable or torn counter files and platforms without file locks.
- The PostgreSQL twins of the stores, which follow the same statements.
- `origin_node` and `created_at` of register rows, the fork escalation table, and whether a pointer names a stored
  object.
- Sequence counters without persistence in the step machine; the object form has them. Restarts are a crash and a new
  start under the same id.
- Trimming covers ASCII white space; other Unicode white space is not modelled.
- Warnings logged by the de-duplication; referential integrity of relations; what the core's own merge, validation and
  queries do.
- Session.RuntimeSession.Execute: takes the outcome of a merge or a read-only operation as a parameter and drops
  diagnostics.
- Sweeper.InferenceStalenessSweeper.Sweep: batch sizes below 1, for which the loop does not end, are the subject of
  `Sweeper.SweepEndsIff`.
- Session metadata across a rollback, the compare-and-swap of saved sessions, dispatch requests beside prepared
  operations, and using a transaction object again after it was finished.
- Floating-point values inside structures, and the names of the keys of an encoded operator record.
- Row timestamps of the outbox are integers here. The source compares text, and a retry stamp written with a `T`
  between date and time compares later than every "now" of its own day, so a retry there can wait for the next day.
- Outbox.OutboxEmbeddingWorker.ProcessNextTask: the work between claim and report is its outcome only; other workers
  in between are the step machine's subject.
- VectorBounds.NoClockRunsAhead: does not cover closed or lost sessions, two processes under one replica id, or local
  branches, which are sessions of their own.
- Sweeper.NoModificationIsSkipped: does not cover sweeps that raise.
- Embedding search, scheduling, discovery, signing, the graph registry, backup, metrics, the event bus and the other
  sweepers.
