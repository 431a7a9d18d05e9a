# Verified model of go-stash

A Dafny 4.11 model of the distributed content-addressed store *Stash* (Go), with proofs. It covers three
components and the protocol that ties them together:

* **Hash ring** (`Int64`, `RingSearch`, `RingTheory`, `HashRings`, `Placement`): the id list, the id-to-node
  map, the two hand-written binary searches and the wrapping 64-bit comparison.
* **Content-addressed store** (`StoreModel`, `Storages`, `StoreRuns`): files named by digest, prefix folders
  and the index table with its unique hash, as a value (`Store`) and as the objects `DB`, `Storage` and
  `StorageService` that change it step by step.
* **Rebase, replication, transfer, health check** (`Topologies`, `Transfers`, `RebasePaging`, `Rebasing`,
  `Convergence`, `Replication`, `ClusterMachine`, `ClusterRuns`, `ClusterSafety`, `ClusterWitness`, `ClusterReads`,
  `ClusterRetries`, `HealthCheck`): the sender client, the receiving server, and state machines for what runs concurrently.

`Results` and `Lists` hold what several modules share.

`dafny verify dfyconfig.toml` checks the whole project.

## How the model is built

Code that changes things in place is a method over fields, arrays or maps, and its `ensures` ties the new
state to a function on values (`StoreModel.SaveRaw`, `RingTheory.Insert`, `RebasePaging.Pass`, ...). What the
program promises is then proved about those functions, over every input and every run. SHA-1, FNV, zlib, the
ring lookup seen by the sender and address resolution are function-valued parameters (`Codec`, `hashKey`,
`Topology`); only `unpack(pack(d)) == Ok(d)` is ever assumed, and only where a lemma says so. That no
other content has a file's digest is assumed only for reading it back in the cluster (`ClusterReads`), where
other clients may upload packed files. Short reads, the order in which a Go map is walked, transport faults and
the interleaving of nodes are nondeterministic; a client that is `reliable` meets no transport fault.

`ClusterMachine` is finer than the handlers it models: a save is a file write and, later, a row insert; a
removal is one file at a time and, later, one delete of rows; any pass may abort and any save may fail between
any two of these. The client's methods are proved twice over: against what they do to the stores when nothing
else moves, and, by `ClusterRuns.Performs`, as runs of that machine, page by page, hash by hash and file by file,
however they end. So what holds of every run of the machine holds of what the client does.

## Where the code departs from what it says, and the exact conditions

* `findIndex` and `findClosestElement` fall through with a stale midpoint for some members. `RemoveNode` then
  removes a neighbour's id. It works for every member exactly if the ring has at most four ids
  (`RingTheory.RemovalIsCorrectExactlyUpToFour`). A key whose hash is itself an id may not be found on a larger
  ring (`RingTheory.ClosestIsListedExactly` says exactly when).
* `insertId` never inserts before the first id. A ring grown from nothing is sorted exactly if the first id
  added is the least (`RingTheory.GrownRingIsSortedExactly`), and exactly then agrees with the sorted ring of the
  same ids (`RingTheory.RingsAgreeExactly`).
* The comparison of distances wraps at 64 bits. A ring resolves all absent key hashes to their nearest id, and
  gives each id one interval of hashes, exactly if no gap exceeds 2^63 (`RingTheory.RingResolvesNearestExactly`,
  `RingTheory.OwnershipIsMonotoneExactly`).
* A join may move keys between two old nodes. `RingTheory.JoinFits` is the exact condition, for newcomers above
  and below the first id (`RingTheory.JoinMovesOnlyToTheNewcomerExactly`).
* A rebase pass advances its offset over a list it is shortening, so it skips keys. It moves at least half of
  the misplaced keys, and half is all it moves in the worst case (`RebasePaging.HalvingIsTight`). It leaves none
  behind exactly if no misplaced key is skipped, and is sure to exactly if there are at most a hundred keys
  (`RebasePaging.PassClearsExactly`, `RebasePaging.OnePassIsEnoughExactlyUpToAPage`).
* A key is never moved once its owner indexes one of its hashes under a key that stays there
  (`ClusterRetries.BlockedKeysStayForEver`): the owner refuses the hash, so the key stays for ever and stops every
  pass that reaches its page. It happens when a pass is interrupted after a hash has reached its owner
  (`ClusterRetries.InterruptionHappens`), and with no interruption when two keys share their content
  (`ClusterRetries.SharedContentBlocks`). When no content is on two nodes, all rows come home
  (`Convergence.EveryRowComesHome`).
* The documentation says that a replication factor of n makes n further copies. A run completes only if none
  of the derived keys' owners indexes the hash, and it makes n copies exactly if the owners are all different
  (`Replication.HandleReplication`, `Replication.EveryTurnCopiesExactly`). A node that owns the derived keys
  itself can never replicate (`Replication.LoneNodeCannotReplicate`).
* An accepted save may lack its file at its home if the node was removing the same content under another key
  (`ClusterWitness.AcceptedSaveMayLackItsFile`). It can be read there, for ever, if the node has the content under
  no key that a rebase would take away when the file is written (`ClusterSafety.ShelteredSaveIsReadable`,
  `ClusterSafety.ReadableForEver`). A key that it has the content under does harm exactly if the node's address
  check calls it misplaced and its home is another node (`ClusterWitness.FileMayBeLostExactly`). The hash itself is
  never lost (`ClusterSafety.NothingIsEverLost`).
* `DB.RemoveByKey` documents an error return but always returns nil; the model gives it none.

## Model

| member | source | states |
|---|---|---|
| Int64.WrapOfDifference | pkg/dht/dht.go:183-188 | a difference of two ids in 64 bits is itself below 2^63 and 2^64 less from there on |
| RingSearch.GetClosestExact | pkg/dht/dht.go:183-188 | the comparison picks the unbounded nearest of the pair iff both differences are below 2^63, otherwise the farther one |
| RingSearch.BisectEnds | pkg/dht/dht.go:117-140 | on any list, sorted or not, the search loop ends on a hit, on a bracketing neighbour pair, or falls through with an index in range |
| RingSearch.IndexFor | pkg/dht/dht.go:103-141 | on any list the answer is an index of the list, 0 for the empty one |
| RingSearch.FindIndex | pkg/dht/dht.go:103-141 | the loop computes IndexFor, in range on any list |
| RingSearch.FindClosestElement | pkg/dht/dht.go:143-181 | the loop computes ClosestFor |
| RingSearch.AbsentIsBracketed | pkg/dht/dht.go:121-139 | for an absent target between the ends the loop never falls through: it ends on a neighbour pair around it |
| RingSearch.AbsentIndexIsPredecessor | pkg/dht/dht.go:103-141 | an absent target above the first id gets its predecessor's index |
| RingSearch.PresentOutcome | pkg/dht/dht.go:121-140 | the search for a member hits it iff halving the index range lands on its position; otherwise it falls through one off |
| RingSearch.PresentIndexExact | pkg/dht/dht.go:103-141 | a member gets its own index iff its position is locatable, which depends on list length and position only; otherwise it is off by exactly one |
| RingSearch.MissedIndexExact | pkg/dht/dht.go:117-140 | a member that is not located gets the index after its own if the last halving went left, the one before otherwise |
| RingSearch.PresentClosestExact | pkg/dht/dht.go:143-181 | a locatable member is its own closest element; for any other the answer is a list index |
| RingSearch.SomePositionIsMissed | pkg/dht/dht.go:121-140 | every interval holds a position that halving misses |
| RingSearch.LocatableExactlyUpToFour | pkg/dht/dht.go:103-141 | every position is locatable iff the list has at most four elements |
| RingTheory.Scan | pkg/dht/dht.go:143-181 | the linear scan answers the nearest member, the larger on a tie |
| RingTheory.InteriorBracket | pkg/dht/dht.go:103-181 | for an absent interior target both searches stop at the same bracketing pair |
| RingTheory.ClosestRefinesScan | pkg/dht/dht.go:143-188 | on a strictly sorted list the answer for an absent target is a member; it equals the linear scan iff the bracketing pair does not overflow; inside the list it compares the pair that findIndex brackets |
| RingTheory.ClosestIsListedExactly | pkg/dht/dht.go:143-181 | the answer for any target, listed or not, is an id of the list iff the target is absent, or located, or the index answered instead happens to be an id; always with at most four ids |
| RingTheory.RingResolvesNearestExactly | pkg/dht/dht.go:143-188 | all absent hashes resolve to their nearest id iff no gap of the ring exceeds 2^63 |
| RingTheory.OwnershipIsMonotoneExactly | pkg/dht/dht.go:67-75 | owner ids are monotone in the key hash, so each node owns one interval, iff no gap of the ring exceeds 2^63 |
| RingTheory.InsertKeepsMembers | pkg/dht/dht.go:88-99 | on any list, insertion adds exactly the new id and keeps the first |
| RingTheory.InsertSortsExactly | pkg/dht/dht.go:88-99 | a fresh id keeps strict order iff it is above the first id; a smaller one lands second |
| RingTheory.InsertSortedExactly | pkg/dht/dht.go:88-99 | after inserting a fresh id the list is sorted iff it was before and the id is above the first: lost order never returns |
| RingTheory.InsertAllKeepsMembers | pkg/dht/dht.go:44-52 | a run of insertions grows the multiset by exactly its ids and never moves the first id |
| RingTheory.GrownRingIsSortedExactly | pkg/dht/dht.go:44-52 | a ring grown from nothing by distinct ids is strictly sorted iff the first id added is the least |
| RingTheory.SortedListsAgree | pkg/dht/dht.go:28-32 | two strictly sorted lists over the same ids are equal |
| RingTheory.RingsAgree | pkg/dht/dht.go:44-75 | two rings that learnt the same ids in any orders starting from the least resolve every key alike |
| RingTheory.RingsAgreeExactly | pkg/dht/dht.go:44-99 | a ring grown from its least id agrees on every key hash with another ring of the same ids iff that one was grown from its least id too |
| RingTheory.JoinMovesOnlyToTheNewcomerExactly | pkg/dht/dht.go:44-99 | for every sorted ring and every fresh id: a join moves keys only to the newcomer iff the gap it splits is at most 2^63 (or it is next to the upper end of the widest possible gap) or, below the first id, iff one given hash between the first two ids is not nearer to the second than to the newcomer |
| RingTheory.RemoveExact | pkg/dht/dht.go:54-63 | removing a member keeps strict order always and drops exactly that member iff it is locatable; otherwise it drops the next id if the last halving went left, the previous one if it went right |
| RingTheory.FallThroughExample | pkg/dht/dht.go:140-180 | on [1,3,5,7,9] the searches for 3 answer index 0, and removing 3 drops 1 |
| RingTheory.RemovalIsCorrectExactlyUpToFour | pkg/dht/dht.go:54-63 | every member of a sorted ring is removed correctly iff the ring has at most four ids |
| HashRings.HashRing.InsertId | pkg/dht/dht.go:88-99 | the list becomes Insert of the old list |
| HashRings.HashRing.AddNode | pkg/dht/dht.go:43-52 | list and map gain exactly the added nodes, and stay in agreement |
| HashRings.HashRing.RemoveNode | pkg/dht/dht.go:54-63 | list and map after removing each node in turn; needs an id for each removal |
| HashRings.HashRing.RegisteredKeys | pkg/dht/dht.go:44-52 | the map gains exactly the keys of the added nodes |
| HashRings.HashRing.LastIsRegistered | pkg/dht/dht.go:44-52 | of several added nodes with one key the last one is registered |
| HashRings.HashRing.RegisteredAtMost | pkg/dht/dht.go:44-52 | the list stays at least as long as the map, also when an address is added twice |
| HashRings.HashRing.GetNodeForKey | pkg/dht/dht.go:65-75 | the registered node at the closest id, or not found; on a sorted ring in step with its map, found iff the key hash is absent, located, or answered by an index that is an id; for an absent hash without overflow the node nearest to it |
| HashRings.HashRing.NodeExists | pkg/dht/dht.go:77-82 | whether the hash of the address is registered |
| HashRings.HashRing.AnnounceNewNode | internal/grpc/transporter/server.go:213-232 | refused iff already registered; otherwise the node joins; every other registered node stays the one it was |
| HashRings.HashRing.AnnounceRemoveNode | internal/grpc/transporter/server.go:235-252 | refused iff not registered; otherwise exactly this node leaves the map, also from a list that holds an id twice |
| HashRings.Run | internal/grpc/transporter/server.go:213-252 | over every run of guarded announcements the list stays at least as long as the map, so no removal meets an empty list |
| HashRings.JoinKeepsStep | internal/grpc/transporter/server.go:218-229 | guarded joins keep the list free of duplicates and in agreement with the map |
| HashRings.LeaveKeepsStepExactly | internal/grpc/transporter/server.go:240-249 | a guarded removal keeps list and map in agreement iff the id is locatable; otherwise the removed id stays listed |
| Placement.LookupIsOwnerAddr | pkg/dht/dht.go:67-75 | the ring object's lookup is the owner function that the cluster results are stated for |
| Placement.JoinRedirectsToNewcomer | pkg/dht/dht.go:44-75 | on a sorted ring that agrees with its map every key has an owner, before and after a join that fits, and it changes only to the newcomer |
| Placement.RebaseAfterJoinFeedsTheNewcomer | internal/sender/client.go:194-220 | if nothing was misplaced before a join that fits, all that the next rebase moves goes to the newcomer |
| StoreModel.PathsAreInjective | pkg/cas/storage.go:216-218 | different hashes have different paths |
| StoreModel.PathsSplitAtFive | pkg/cas/storage.go:216-218 | five characters of the digest name the folder, the others the file |
| StoreModel.HashesOfMembers | pkg/cas/db.go:120-144 | the hashes of a key are exactly those its rows hold |
| StoreModel.SelectionsKeepOrder | pkg/cas/db.go:120-197 | the hashes of a key, and the rows without a key, keep the order of the table |
| StoreModel.HashesOfDistinct | pkg/cas/db.go:50-55 | under the unique constraint a key's hashes are distinct |
| StoreModel.WithoutMembers | pkg/cas/db.go:181-197 | deleting a key's rows deletes those rows only and keeps hashes unique |
| StoreModel.DistinctKeysMembers | pkg/cas/db.go:153-173 | the distinct keys are exactly the keys of the rows, each once |
| StoreModel.DistinctKeysWithout | pkg/cas/db.go:153-197 | deleting a key's rows takes the key out of the distinct list and leaves the order of the others |
| StoreModel.HeaderRoundTripExact | pkg/cas/storage.go:284-292 | the header is undone iff the path has no NUL byte, whatever the data holds |
| StoreModel.SplitHeaderExactly | pkg/cas/storage.go:284-297 | what is read is the header up to the first NUL and the data behind it, or an empty file without a NUL |
| StoreModel.ReadsExactly | pkg/cas/storage.go:236-254 | reading files succeeds iff each is there and unpacks |
| StoreModel.FailedReadTells | pkg/cas/storage.go:236-298 | otherwise the first that does not tells the error: missing or unreadable |
| StoreModel.SavesKeepConsistency | internal/services/storage.go:25-64 | saves keep hashes unique, indexed files present and folders exactly the needed ones, also when they fail |
| StoreModel.RemoveHashesExact | pkg/cas/storage.go:434-462 | removing distinct stored hashes succeeds, removes exactly their files and the folders that became empty |
| StoreModel.RemoveByKeyExact | pkg/cas/storage.go:399-424 | on a consistent store removal of a non-empty key never meets a missing file, deletes exactly the key's files and rows, and touches no other key's file |
| Storages.DB.Add | pkg/cas/db.go:75-112 | all rows are inserted, or none with the right error; hashes stay unique |
| Storages.DB.GetByKey | pkg/cas/db.go:120-144 | exactly the key's hashes in insertion order |
| Storages.DB.GetKeysByChunks | pkg/cas/db.go:153-173 | the page of at most 100 distinct keys at the offset |
| Storages.DB.RemoveByKey | pkg/cas/db.go:181-197 | the key's rows are deleted, the others kept in order |
| Storages.Storage.PrepareParentFolders | pkg/cas/storage.go:220-228 | the parent folder exists afterwards |
| Storages.Storage.Write | pkg/cas/storage.go:153-168 | the file has the data iff its folder exists; otherwise an error and no change |
| Storages.Storage.WriteFromRawData | pkg/cas/storage.go:179-208 | stores the packed data under its digest, keeps an equal file, refuses a different one; no existing file changes |
| Storages.Storage.AddNewPath | pkg/cas/storage.go:91-93 | one row is added unless the key is empty or the hash is taken |
| Storages.Storage.GetByHash | pkg/cas/storage.go:261-270 | the stored bytes, or missing |
| Storages.Storage.Read | pkg/cas/storage.go:272-298 | the loop finds the first NUL and splits the unpacked file there |
| Storages.Storage.Get | pkg/cas/storage.go:236-254 | all files of the key in order, or the first error; it succeeds iff every file of the key is there and unpacks |
| Storages.Storage.RemoveByHash | pkg/cas/storage.go:434-462 | removes the file and its folder if that became empty; missing file is an error |
| Storages.Storage.RemoveByKey | pkg/cas/storage.go:399-424 | the loop has the effect of StoreModel.RemoveByKey, also when it stops at a missing file |
| Storages.RemovalSucceedsExactly | pkg/cas/storage.go:399-424 | a removal succeeds iff no file of the key is missing |
| Storages.RemovalStops | pkg/cas/storage.go:411-416 | a removal that meets a missing file has removed exactly the files before it and no row |
| Storages.StorageService.SaveCompressed | internal/services/storage.go:25-43 | folder, file, then row; the file stays written when the row is refused |
| Storages.StorageService.SaveRaw | internal/services/storage.go:53-64 | prepared file under its digest, then row; the error of the first failing step |
| Storages.StorageService.GetFileDataByHash | internal/services/storage.go:88-99 | packed or unpacked bytes of the hash, or the error |
| StoreRuns.ApplyKeepsConsistency | internal/services/storage.go:25-129 | each save or removal keeps files, folders and index consistent, succeeding or not |
| StoreRuns.RunsKeepConsistency | internal/services/storage.go:25-129 | so does every run |
| StoreRuns.RemovalAfterAnyRun | pkg/cas/storage.go:399-462 | after any run from empty, a removal succeeds with exactly the right files, folders and rows left |
| StoreRuns.RawSaveSucceedsExactly | internal/services/storage.go:53-64 | a raw save succeeds iff the key is not empty, the digest is not indexed under any key and no file of that digest holds other content |
| StoreRuns.RawSaveHolds | internal/services/storage.go:53-64 | a successful raw save gives the key its digest with a file that unpacks to header and data; raw saves keep all files readable |
| StoreRuns.StepKeepsHolding | internal/services/storage.go:25-64 | later saves and removals of other keys leave that so |
| StoreRuns.RunKeepsHolding | internal/services/storage.go:25-64 | so does every later run of them |
| StoreRuns.ReadableReads | pkg/cas/storage.go:236-254 | reading a key whose files unpack succeeds with one file per hash, in order |
| StoreRuns.SavedFileReadsBack | pkg/cas/storage.go:142-298 | a file saved raw under a NUL-free path reads back with exactly that path and data after any such run, whatever collides |
| Transfers.Read | internal/sender/client.go:325-331 | a read fills the front of the reused buffer with the next bytes, or reports the end of the file |
| Transfers.StreamFileByChunks | internal/sender/client.go:321-348 | for every way reads fall short: non-empty chunks of at most 32768 bytes whose concatenation is the file, a prefix of it if a transport fault aborts the sending, and only then |
| Transfers.AssembledIsConcat | internal/grpc/transporter/server.go:80-98 | the receiver accepts a stream of chunks iff none is empty and then holds their concatenation |
| Transfers.RefusedPrefix | internal/grpc/transporter/server.go:90-93 | a message without data refuses the whole stream |
| Transfers.Transporter.SendChunks | internal/grpc/transporter/server.go:68-138 | every way the stream can be malformed, the save it leads to, the answered size, and a replication signal with the saved key and hash only for a stored row |
| Transfers.TransferIsOneSave | internal/sender/client.go:286-319 | whatever the chunking, a completed transfer is one compressed save of the sender's bytes under their hash, accepted iff the hash is not indexed, size modulo 4294967296 |
| Transfers.BrokenTransferStoresNothing | internal/grpc/transporter/server.go:82-88 | an aborted transfer leaves the receiver as it was |
| Transfers.BrokenStreamStoresNothing | internal/grpc/transporter/server.go:82-89 | any stream that breaks off, raw or packed, stores nothing and is refused |
| Transfers.BadMessageStoresNothing | internal/grpc/transporter/server.go:90-93 | so does any stream with a later message that carries no bytes |
| Transfers.NamelessUploadStoresNothing | internal/grpc/transporter/server.go:74-122 | so does an upload without key, hash or path |
| Transfers.UploadIsOnePackedSave | internal/grpc/transporter/server.go:100-110 | a packed upload, whatever path and replication flag it has, is one compressed save under its hash, refused iff the hash is indexed, size modulo 4294967296 |
| Transfers.UploadIsOneRawSave | internal/grpc/transporter/server.go:68-138 | a raw upload in any chunking is one raw save of the concatenated chunks, size modulo 4294967296 |
| Transfers.UploadReadsBack | internal/grpc/transporter/server.go:68-138 | a file uploaded in any chunks under a NUL-free path reads back with exactly its bytes, after any later saves and removals of other keys |
| RebasePaging.PageDrops | internal/sender/client.go:159-175 | a page drops its own misplaced keys only |
| RebasePaging.NextPage | internal/sender/client.go:156-183 | the next page starts past as many unvisited keys as the page dropped |
| RebasePaging.PassIsSweepFrom | internal/sender/client.go:156-183 | the loop with growing offset over the shrinking list is the sweep that skips r keys after a page that moves r |
| RebasePaging.PassIsSweep | internal/sender/client.go:156-183 | the whole pass is that sweep |
| RebasePaging.SweepHalves | internal/sender/client.go:156-183 | a sweep leaves at most as many misplaced keys as it moves |
| RebasePaging.SweepKeepsTheRest | internal/sender/client.go:213-216 | a sweep keeps the well-placed keys in order |
| RebasePaging.PassHalves | internal/sender/client.go:156-183 | an error-free pass at least halves the misplaced keys and moves no other |
| RebasePaging.PassesClear | internal/sender/client.go:97-103 | floor(log2 M)+1 passes clear M misplaced keys and leave exactly the others, in order |
| RebasePaging.HalvingIsTight | internal/sender/client.go:156-183 | of a multiple of 200 keys, all misplaced, a pass leaves exactly half |
| RebasePaging.PassClearsExactly | internal/sender/client.go:156-183 | an error-free pass leaves no misplaced key iff none is among those skipped behind a full page |
| RebasePaging.OnePassIsEnoughExactlyUpToAPage | internal/sender/client.go:156-183 | one pass clears every possible set of misplaced keys iff the node has at most a hundred keys |
| ClusterRuns.JoinedRun | internal/sender/client.go:156-183 | two runs of the machine, the second starting where the first ends, are one run |
| ClusterRuns.DeliveryRun | internal/sender/client.go:236-240 | a send that the receiver accepts is a run: the send, the file write, the insert, the confirmation |
| ClusterRuns.LostDeliveryRun | internal/sender/client.go:236-240 | a send that was delivered but refused, or whose answer was lost, is a run that ends the pass |
| ClusterRuns.SendRun | internal/sender/client.go:236-240 | whatever comes of one more send of a key, the client's sends up to there are a run |
| ClusterRuns.ReplicaRun | internal/sender/client.go:264-277 | a replica that was sent, delivered or lost, is a run in any phase of its sender |
| ClusterRuns.RawSaveRun | internal/services/storage.go:53-64 | in the machine, a raw save of path and data, written and inserted with nothing between, has the effect of SaveRaw and is accepted iff that succeeds |
| ClusterRuns.RawUploadRun | internal/grpc/transporter/server.go:111-125 | so has a raw upload to the key's home |
| ClusterRuns.PackedUploadRun | internal/grpc/transporter/server.go:100-110 | a packed upload has the effect of SaveCompressed |
| ClusterRuns.FailedSaveRun | internal/services/storage.go:25-43 | a save may fail before its file is written, or after it with the file left |
| ClusterRuns.FilesRun | pkg/cas/storage.go:411-416 | removing a key's files one by one, up to any of them, is a run with the effect of RemoveHashes |
| ClusterRuns.RemovalRun | pkg/cas/storage.go:399-424 | removing a key is a run, file by file and then its rows, with the effect of RemoveByKey |
| Rebasing.DeliveryCopies | internal/sender/client.go:222-243 | one send keeps all stores consistent, loses nothing, is accepted iff the receiver does not index the hash, and leaves the sender as it was |
| Rebasing.SelfSaveChangesNothing | internal/services/storage.go:25-43 | a node that sends to itself under another address is refused and its store is unchanged |
| Rebasing.DeliveryKeepsFree | pkg/cas/db.go:50-55 | a send of one key takes no other key's chance to be accepted |
| Rebasing.Client.SendFile | internal/sender/client.go:286-319 | success means the receiver stored the bytes and the row; failure is a missing file, an unknown receiver, a taken hash or a transport fault, before or after delivery; without faults it succeeds iff the hash is not indexed there |
| Rebasing.Client.RebaseHashesByKeyAndNode | internal/sender/client.go:222-243 | on success every row of the key is at the owner, another node, with the same bytes, and none of its hashes was indexed there before; only copies were made in any case; a run of the machine either way |
| Rebasing.Client.CheckForRebase | internal/sender/client.go:194-220 | succeeds iff all owners are known and alive, with exactly the keys whose owner's address is not this node's, and their owners; otherwise the error of an unknown or dead owner |
| Rebasing.Client.CopyStorage | internal/sender/client.go:185-192 | any order; success means all rows have arrived and every copied key was free to move at the start; if all are free only a transport fault stops it; an owner that is the node itself makes it fail; this node's store is untouched; a run of the machine either way |
| Rebasing.Client.RemoveKeys | internal/sender/client.go:364-371 | exactly the given keys go, the other rows keep their files, the key list keeps its order; a run of the machine |
| Rebasing.SafeElsewhereStays | internal/sender/client.go:156-183 | a row that has moved home keeps its bytes there whatever this node sends later |
| Rebasing.CopyKeepsRebased | internal/sender/client.go:169-171 | copying keeps every row of the node safe |
| Rebasing.TrimKeepsRebased | internal/sender/client.go:173-175 | removing arrived keys keeps every row of the node safe |
| Rebasing.Client.RebasePage | internal/sender/client.go:164-175 | check, copy, remove for one page: succeeds iff every owner of the page is known and alive and every misplaced key free to move, but for transport faults; an unknown or dead owner stops it with nothing changed; only misplaced keys of the page and their homes are concerned |
| Rebasing.Client.RebaseNextPage | internal/sender/client.go:159-180 | one turn of the pass loop: the page, the offset raised by a hundred, and what is left for the rest of the pass |
| Rebasing.Client.HandleRebaseSignal | internal/sender/client.go:156-183 | however the pass ends, each row is still here or at its owner with the same bytes, nothing is invented, only keys with a live owner move and only their homes change, and the pass was a run of the machine; a dead owner on the first page changes nothing; it succeeds iff every page it reads is ready, but for transport faults; then the keys left are those of the paged pass, at most half of the misplaced, and a ready node stays ready |
| Rebasing.Client.ServeRebaseSignals | internal/sender/client.go:97-103 | from a ready node the first logged error is a transport fault, so there is none without faults; without one, floor(log2 M)+1 signals for M misplaced keys leave exactly the well-placed keys; all passes together are a run of the machine |
| Convergence.EveryNodeIsReady | internal/sender/client.go:194-220 | if no content is indexed on two nodes and every owner is known, alive and canonical, every node is ready |
| Convergence.PassKeepsSettling | internal/sender/client.go:156-183 | a pass of one node keeps that so for all nodes |
| Convergence.PassKeepsRows | internal/sender/client.go:156-183 | a pass of one node loses no row and no byte of any node |
| Convergence.PassLeavesOthersCount | internal/sender/client.go:156-183 | a pass adds no misplaced key to another node |
| Convergence.EveryRowComesHome | internal/sender/client.go:97-183 | in whatever order the nodes make their passes, after floor(log2 M)+1 passes of each node for its M misplaced keys every starting row is at its home with its bytes, there is no other row, and no key is misplaced anywhere |
| Convergence.ServeSignalsInTurn | internal/sender/client.go:97-103 | signals in any order reach that from such a cluster unless a transport fault stops them |
| Replication.DerivedKeysAreSuffixed | internal/sender/client.go:476-482 | each generated key is the one before with "_replica" appended |
| Replication.DerivedKeysDiffer | internal/sender/client.go:476-482 | the generated keys are pairwise distinct |
| Replication.PlanExists | internal/sender/client.go:248-253 | the walk reaches its end iff every derived key has an owner |
| Replication.TargetsExact | internal/sender/client.go:245-284 | each distinct owner of the derived keys gets exactly one copy, under the first key it owns, and nobody else |
| Replication.EveryTurnCopiesExactly | internal/sender/client.go:248-256 | a factor of n makes n copies iff the derived keys have n different owners |
| Replication.LoneNodeCannotReplicate | internal/sender/client.go:245-284 | a node that owns all derived keys itself cannot complete a replication |
| Replication.CopiesStayPut | internal/sender/client.go:194-220 | with canonical addresses a following rebase moves none of the copies |
| Replication.ReplicateOneMore | internal/sender/client.go:264-277 | an accepted copy adds one row and the sender's bytes at its target, a node not used before |
| Replication.SendCopy | internal/sender/client.go:264-277 | one copy is made, or refused for a reason that already held, or lost |
| Replication.OwnFileStays | internal/sender/client.go:264-277 | the sender's own file never changes during the run, even if it takes a copy itself |
| Replication.TakeTurn | internal/sender/client.go:248-281 | one turn of the loop: no owner stops it, a used owner skips it, otherwise the plan grows by the copy made |
| Replication.HandleReplication | internal/sender/client.go:245-284 | completes only if all planned copies were welcome, and then made exactly those: for each i up to the factor the owner of the i-th derived key is reached, each under the first key it owns, and nobody else; a factor of zero or less does nothing; if all are welcome only a transport fault stops it; a run of the machine either way |
| Replication.OneTurnForEach | internal/sender/client.go:248-256 | the turns are the derived keys one to the factor |
| ClusterSafety.ConfirmedIsOk | internal/sender/client.go:236-240 | an accepted send proves that the node is not the key's home and that the row is there |
| ClusterSafety.DeletedFileIsOk | pkg/cas/storage.go:411-416 | removing a file of a copied key never removes the file that settles its hash |
| ClusterSafety.DeletedRowsAreOk | pkg/cas/storage.go:418-421 | deleting the rows of a copied key deletes no row at its home |
| ClusterSafety.IndexedIsOk | pkg/cas/storage.go:91-93 | an accepted insert leaves its hash settled, here or elsewhere |
| ClusterSafety.StepKeepsInv | internal/sender/client.go:156-371 | every step of every node keeps the invariant: a node removes a key only if it is not its home and all the key's rows are delivered |
| ClusterSafety.StepKeepsRows | internal/sender/client.go:364-371 | a row leaves a node only after it has reached its home |
| ClusterSafety.RunKeepsRows | internal/sender/client.go:156-243 | over every run a row once indexed stays indexed under its key |
| ClusterSafety.StepKeepsIntact | internal/sender/client.go:286-362 | raw saves, uploads, transfers, replicas and removals keep every file what its name says |
| ClusterSafety.RunKeepsIntact | internal/services/storage.go:25-64 | so does every run |
| ClusterSafety.NothingIsEverLost | internal/sender/client.go:156-243 | under every interleaving and abort, a row any node ever had stays indexed, and its hash stays retrievable with matching content |
| ClusterSafety.WhatANodePerformsLosesNothing | internal/sender/client.go:156-284 | after any run from rest, whatever a node's client then performs is a longer run in which every row any node had is still indexed and its hash retrievable |
| ClusterSafety.AcceptedSavesAreDurable | internal/services/storage.go:25-64 | an accepted save has its row at its home for ever and its hash settled |
| ClusterSafety.StepKeepsSheltered | pkg/cas/storage.go:411-416 | a file stays if every key under which its node has the content belongs there or is not misplaced as far as the node can tell |
| ClusterSafety.ShelteredSaveIsReadable | internal/services/storage.go:25-64 | if, when a save writes its file, the node has the content under no key that a rebase would take away, then in every continuation the save, once accepted, can be read there |
| ClusterSafety.ReadableForEver | pkg/cas/storage.go:399-424 | what can be read at its home once can be read there for ever |
| ClusterReads.KeyReads | pkg/cas/storage.go:236-254 | where content and names agree, reading a key succeeds iff none of its files is missing, with the file of each hash |
| ClusterReads.AcceptedRawSaveReadsBack | pkg/cas/storage.go:142-298 | an accepted raw save that ShelteredSaveIsReadable covers reads back with its path and data in every continuation; reading its key there contains it iff no other file of the key is missing |
| ClusterReads.UploadedFileReadsBack | internal/grpc/transporter/server.go:111-125 | so does a raw upload to a key's home in any cluster that came from rest |
| ClusterWitness.AcceptedSaveMayLackItsFile | pkg/cas/storage.go:411-421 | for any two nodes, a run from rest in which a removal of the same content falls between file write and insert |
| ClusterWitness.FileMayBeLostExactly | pkg/cas/storage.go:399-424 | some run loses the file of an accepted save that was written while its node had the content under another key iff that key is misplaced by address and its home is another node |
| ClusterRetries.StepKeepsStuck | internal/sender/client.go:222-243 | while the home of a row indexes its hash under a key that stays there, no step of any node gets another node past sending the row |
| ClusterRetries.BlockedKeysStayForEver | internal/sender/client.go:156-183 | a node that rests while the home of one of its keys indexes one of the key's hashes, under this key or another that stays there, keeps the row in every run, never removes the key, and removes nothing of a page that has the key |
| ClusterRetries.SharedContentBlocks | pkg/cas/db.go:50-55 | two keys that share content block each other in a cluster at rest, with nothing interrupted |
| ClusterRetries.InterruptionHappens | internal/sender/client.go:222-243 | a lost answer leads from rest to such a state as well |
| HealthCheck.CalcWorkerCount | internal/sender/client.go:466-474 | one worker below six nodes, eight from twenty-four on, a third of the nodes in between |
| HealthCheck.StepKeepsAccount | internal/sender/client.go:439-447 | jobs, in-flight and results together hold each node as often as it was dispatched, and it was checked as often as it is past its check |
| HealthCheck.SendNeverBlocks | internal/sender/client.go:418-419 | the result channel always has room for a worker that wants to send |
| HealthCheck.WorkersNeverWait | internal/sender/client.go:439-447 | a worker that has not finished has a move |
| HealthCheck.StepsShrink | internal/sender/client.go:439-447 | every move shrinks a measure |
| HealthCheck.EveryRunChecksEveryNodeOnce | internal/sender/client.go:417-437 | every interleaving ends within 4n+8 moves, is never stuck before, and has then checked and reported each node exactly as dispatched, with one worker below six nodes, eight from twenty-four on, a third of them in between |
| HealthCheck.FlagIsTheAnswer | internal/sender/client.go:443-444 | from the event that answers a node's request on, the node's flag is that answer |
| HealthCheck.EveryFlagIsItsAnswer | internal/sender/client.go:417-447 | at the end each dispatched node has the flag that answered it, and every other node the flag it had |
| HealthCheck.RunsTellTheFlags | internal/sender/client.go:443-444 | each node's flag is the verdict of its one check |

## Left out

- StoreModel.MakePathFromHash: hashes are 40 lower-case hex digits by type; what the slicing does with a shorter or other hash from a client is not modelled.
- Storages.DB.Add: the "empty hash" branch cannot be reached with such hashes and is not modelled.
- Storages.DB.GetKeysByChunks: distinct keys come in first-appearance order and stay so under deletion, which SQL without an order clause does not promise.
- Storages.Storage.Write: a file write is all or nothing; a crash or a full disk in the middle of a write, and other I/O failures of the file system and the database, are not modelled.
- HashRings.HashRing.RemoveNode: on an empty list the original panics; the model requires an id for each removal, which the guard in AnnounceRemoveNode provides.
- HashRings.HashRing: each ring operation is atomic; the reads outside the lock are not modelled. An address equals its resolved form.
- Rebasing.Client: the other nodes' stores are values in one map; the server object of each is proved separately to have the effect used here. A dead owner is one that is not in the alive set, fixed during a pass.
- Rebasing.Client.SendFile: connection set-up errors, time-outs and lost answers are one transport fault.
- Convergence.EveryRowComesHome: passes come one after another, in any order; passes that overlap are covered for safety (ClusterSafety), not for convergence. New saves while the passes are made are left out.
- ClusterSafety.NothingIsEverLost: the owner function is shared and fixed; client saves of a key go to the key's home, as GetDestination directs them, and packed uploads hold what their hash names.
- ClusterSafety.AcceptedSavesAreDurable: promises the row at home and the hash on some node, not the file at home; see the exact condition above.
- HealthCheck.EveryRunChecksEveryNodeOnce: a health request ends with a verdict; one that never returns is not modelled.
- LoadNodesFromList adds nodes without asking whether they exist, so freshness is a precondition of the ring results there.
- Store, saveTree, NewTree, RecreateTree, createFile and PathExists: they wrap nil errors or test existence with a nil error, and nothing of the protocol depends on them.
- gRPC plumbing, generated code, start-up, configuration, logging, the SyncNodes, ReceiveInfo and ReceiveChunks handlers and GetDestination: thin wrappers.
