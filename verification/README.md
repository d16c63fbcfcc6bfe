# A model of dstore and what it guarantees

dstore cuts a file into chunks, encrypts each chunk, splits the ciphertext into data and parity shards, stores every
shard on a peer and in a local shard directory, publishes a manifest beside the file and only then removes the file.
Restoring reads the manifest, fetches enough shards of each chunk and writes the file back. This project models that
pipeline, the shard directory it relies on, the server in front of that directory, the placement of shards, the trees
and scans around it and the shutdown of a node, and proves what holds over every input, run and interleaving.

## Modules

- `Prelude`, `Erasure`, `XorCode`: bytes and rounding; layouts, splitting, padding and joining; a concrete code.
- `Manifest`, `Sealing`, `Restore`: manifests and their checks; how a file becomes chunks and shards; what restoring
  yields, as a function of the manifest and of every answer received.
- `FileSystem`, `AtomicFile`: a disk changed one system call at a time, with failures, a record of every state on the
  way and power failure; publishing a complete file without replacing another.
- `StoreSpec`, `LocalStore`, `ConcurrentStore`, `StoreProgress`: what put, delete and get do to a shard directory; the
  step-by-step methods; any number of callers interleaved, failing and being killed; and how their calls come to an end.
- `ShardServer`, `Discovery`, `Placement`: the request handler and whole request runs; bounded concurrent probing; who
  gets which shard and how many lost peers that survives.
- `Pipeline`, `RestoreFile`, `Guarantees`: `processFile` and `RestoreFile` over the disk and the peers, and the theorems
  that span them.
- `Paths`, `Watch`, `Shutdown`: adding and restoring trees; repeated scans; the end of a node.

## Assumptions

- Hashing is a parameter that yields 64 hexadecimal digits. Where a theorem needs more, it says that no answer received
  in the run collides with a genuine shard (`NoCollisions`), instead of assuming an injective hash.
- Encryption is a parameter that opens what it sealed and adds 16 bytes (AEAD_AES_256_GCM, section 5.2 of RFC 5116).
- Splitting, padding and joining are concrete. Parity is a parameter with one law: any k genuine shards of k+m rebuild
  all of them, fewer are refused. `XorCode` meets the law for m = 1 and every k, so for the default 2+1 layout nothing
  is assumed about a library (`DefaultLayoutNeedsNoLibrary`), and all laws hold together (`LawsAreConsistent`).
- Decoding an encoded manifest gives the manifest back.
- The disk maps names to inodes. An inode's data survives a power failure once it was synced, a name once its directory
  was. A temporary file is an inode without a name. Any call may fail; killing a process leaves one of the recorded
  states. The user may change the source, as often as they like and in any way that shows in its identity, size or
  modification time, before it is opened, before each read, before the second look, before publication and before the
  removal, which are the moments at which anything depends on it; and the output path of a restore until the output is
  linked there.
- Other processes use the shard directory while `processFile` runs, as often as they like before each put of its own and
  around publication and removal: they put shards that hash to their names, record an owner for a shard they have put,
  remove a shard that has an owner on record or whose owner they could not record, remove records, and sync. Each put of
  `processFile` is one step there, because every mutator holds the lock; `ConcurrentStore` is about what happens inside.
- A peer may answer anything, but what it answers for a URL it goes on answering until the run ends; losing peers comes
  after. A peer that does not keep what it was sent, or a request without an answer, counts as a failure in the statements
  about runs without failures.
- Ports are written without a colon where two peers' URLs are told apart.
- Sums of shard counts wrap around at 64 bits as in the source; other integers do not overflow in the ranges the source
  checks. Time, cancellation and scans are steps of the model.

Nothing was executed: all statements are about the model.

## Properties that turned out false, with their exact conditions

- A manifest that `processFile` wrote, after which it may remove the original, is read back if and only if the file's
  name has no backslash and its size plus 16 bytes a chunk is at most 2^40 (`Guarantees.ReadableExactly`);
  `Guarantees.BackslashUnreadable` and `Guarantees.LargestUnreadable` have the inputs.
- Two things can be lost by the removal: a change made after the last look, and any file whose manifest is not read back.
  In every recorded state of every run, one cut off by a kill included, the newest version is at its path or comes back by
  restoring the manifest if and only if the original is still there, or the user has none, or it is the version the
  manifest was made from and its name and size are readable as above (`Guarantees.NothingElseIsLost`, and
  `Guarantees.PowerFailureLosesNothing` after a power failure). `Guarantees.EditInWindowIsLost` and
  `Guarantees.UnreadableIsLost` have the inputs.
- The local copy of a shard that was put there by a named owner first, or that has an old owner record, can be deleted by
  that owner before the manifest is published; the peers' copies are not concerned. `Captured` promises all local copies
  as long as nobody else has used the directory, and in any case those of shards that nobody had put with an owner, which
  nobody can delete (`Guarantees.DirectoryIsEnough`, `ConcurrentStore.OwnedUntilDeleted`). Somebody can delete a shard that
  was put without a writer if and only if a named owner is on record (`StoreSpec.UnownedShardDeletable`).
- A put that reports an error leaves the new shard behind if and only if the operation that failed is the directory sync
  after the shard's link, or the removal in the cleanup (`ConcurrentStore.FailedPutLeavesShard`); one that is killed, if
  and only if that was past the link (`ConcurrentStore.KilledPutLeavesShard`). After a late error the retry succeeds and
  does not record its writer; somebody can delete the shard then if and only if an old record with a named owner is there,
  and it is that owner (`StoreSpec.RetryAfterLateError`).
- `Layout.Validate` compares a sum that can wrap; it accepts an unusable layout exactly when the sum is negative
  (`Erasure.ValidatesExactly`). For a manifest the comparison with a list's length then rejects it; `processFile` goes on
  to the choice of peers and, unless that fails with an error first, panics when it makes a list of negative length, before
  it has written anything (`Placement.ShardPeers`, `Pipeline.DerailsExactly`).
- With an explicit peer list and no minimum, one machine listed under two ports can count as two failure domains. The
  chosen peers are different machines if and only if no two candidates, each the first that passes in its domain and, where
  capabilities count, able to hold the shard, are one machine under two ports (`Placement.MachinesDistinct`); a minimum or
  discovery rules that out (`Placement.MinimumMeansMachines`). `Placement.OneMachineTwoEndpoints` is the smallest input.
- `shardPeers` divides by zero if and only if no peer is usable and the configured minimum is negative
  (`Placement.ShardPeers`; `Placement.NegativeMinimum` has an input).
- A peer gets its shards on the port it was probed on if and only if no empty port is set for its host
  (`Guarantees.PushedWhereProbed`).
- One file's failure does not stop a scan, but an error of the walk, of a stat or of a manifest check does, and costs
  the entries after it this scan and the next (`Watch.StopCostsTwoTurns`).
- `AddPath` fails on a tree with a file named like a manifest, or with a directory named like the manifest of a file
  beside it (`Paths.AddDirectory` has the exact condition).
- `serveAndWatch` can report success although the server had failed, when the cancellation is noticed first
  (`Shutdown.SelectDecides`; `Shutdown.FailureCanBeHidden` has such a run).

## Model

| member | source | states |
|---|---|---|
| `Erasure.ValidatesExactly` | internal/erasure/erasure.go:39-49 | validation with wrapping addition accepts exactly the real layouts and those whose shard count is negative |
| `Erasure.SplitConcat` | internal/erasure/erasure.go:63-98 | joining the split, padded shards and cutting to the size gives the data back, for every shard count and size that cover it |
| `Erasure.ShardsUniform` | internal/erasure/erasure.go:55-71 | encoding non-empty data gives k+m non-empty shards of one size, the ceiling of length over k |
| `Erasure.DecodeExactly` | internal/erasure/erasure.go:77-99 | decoding any mixture of genuine and missing shards gives the data when at least k are there and an error otherwise |
| `Erasure.RoundTrip` | internal/erasure/erasure.go:55-99 | encoding fails exactly on an unusable layout or empty data; decoding what was encoded, any of it lost, gives the data back when enough is left and an error otherwise |
| `XorCode.XorMeetsContract` | internal/erasure/erasure.go:55-99 | a single exclusive-or parity shard meets the codec's law for every number of data shards |
| `Manifest.EntryNameAccepted` | internal/manifest/manifest.go:143-145 | a directory entry's name passes the name check if and only if it has no backslash |
| `Manifest.NameAcceptedExactly` | internal/manifest/manifest.go:143-145 | any name at all passes the name check if and only if it is not empty, `.` or `..` and has no slash, backslash or NUL |
| `Prelude.ValidHashExactly` | internal/manifest/manifest.go:199-208 | a digest is accepted if and only if it is 64 hexadecimal digits of either case |
| `Manifest.NewChunked` | internal/manifest/manifest.go:79-113 | succeeds exactly on consistent chunk lists and records their ciphertext total |
| `Manifest.Unmarshal` | internal/manifest/manifest.go:128-182 | lets through exactly the acceptable manifests of the three versions, with the default layout filled in for version 0 |
| `Manifest.AcceptedChunks` | internal/manifest/manifest.go:146-201 | an accepted manifest of the current version, whoever wrote it: chunks of at most 1 GiB that add up to the recorded sizes, at most 2^40 bytes, with whole nonces and one 64-digit hexadecimal digest for each shard of the layout |
| `Manifest.AcceptedOldExactly` | internal/manifest/manifest.go:128-182 | field by field, which manifests of versions 0 and 1 are accepted |
| `Manifest.RestoreUsesCheckedLayout` | internal/manifest/manifest.go:139-171 | an accepted manifest gives restore a real layout, the checked one, and every shard list it indexes has that many entries |
| `Manifest.BuiltIsAccepted` | internal/manifest/manifest.go:79-168 | what `NewChunked` builds is accepted back if and only if the name has no backslash and the ciphertext total is within the cap |
| `Sealing.PiecesJoin` | internal/dstore/dstore.go:209-277 | the chunk plaintexts concatenate to the file |
| `Sealing.PiecesShape` | internal/dstore/dstore.go:209-277 | every chunk but the last is exactly the chunk size, and none is empty unless the file is |
| `Sealing.PiecesCount` | internal/dstore/dstore.go:209-277 | there are max(1, ceiling of size over chunk size) chunks |
| `Sealing.PiecesExtend` | internal/dstore/dstore.go:213-277 | what the read loop collects, full reads and one last short read, is the file's list of chunks |
| `Sealing.ShardSizesAgree` | internal/dstore/dstore.go:195-200 | no shard is empty or larger than the bound peers were chosen by, and each has exactly the size restore allows a download |
| `Restore.FetchExactly` | internal/dstore/dstore.go:586-621 | a fetch yields the genuine shard exactly when the peer or the local directory answers with it; a genuine one is never refused for its size |
| `Restore.HeldShardsMatchTheirNames` | internal/dstore/dstore.go:501-512 | for any manifest and any answers, every shard handed to the decoder hashes to its reference and came from that reference's URL, within the size limit, or from the local directory under a well-formed digest |
| `Restore.ChunkExactly` | internal/dstore/dstore.go:496-528 | a chunk restores to its plaintext when enough genuine shards are answered and fails otherwise |
| `Restore.RestoreExactly` | internal/dstore/dstore.go:430-534 | against arbitrary peers and directory contents, restoring a file's manifest yields exactly the file if every chunk has enough genuine shards within reach, a different set for each chunk if need be, and otherwise fails |
| `Restore.RestoredHasRecordedSize` | internal/dstore/dstore.go:496-534 | for any accepted manifest of the current version and any answers, what is restored has exactly the recorded size |
| `Restore.OldRestoresExactly` | internal/dstore/dstore.go:446-483 | a manifest of version 0 or 1 restores to the decrypted file if enough of its genuine shards are answered and fails otherwise |
| `FileSystem.PinnedSurvives` | internal/atomicfile/atomicfile.go:38-52 | a synced file under a synced name has its content after a power failure |
| `FileSystem.AddsPinned` | internal/atomicfile/atomicfile.go:21-53 | publishing one file leaves what else is durable durable |
| `AtomicFile.Publish` | internal/atomicfile/atomicfile.go:38-53 | from the sync on: nothing, or the complete file under a free name; an error after the link means it is published |
| `AtomicFile.WriteNew` | internal/atomicfile/atomicfile.go:11-53 | at every instant the path is as it was or complete and all else untouched; success is durable; it fails only by a failure or because the path is taken |
| `StoreSpec.PutKeepsQuota` | internal/localstore/localstore.go:65-81 | however a put ends, the stored bytes stay within the quota or do not grow |
| `StoreSpec.DeleteKeepsUsage` | internal/localstore/localstore.go:117-140 | however a delete ends, usage does not grow |
| `StoreSpec.OnlyStoreNames` | internal/localstore/localstore.go:38-140 | however a put or a delete ends, only the named shard and its record are touched, and only for a well-formed digest |
| `StoreSpec.PutLeavesShard` | internal/localstore/localstore.go:72-80 | with which endings of a put a shard is there that was not before |
| `StoreSpec.RetryAfterLateError` | internal/localstore/localstore.go:54-61 | after an error that came late the retry reports success and changes nothing, and somebody can delete the shard if and only if an old record names an owner, that owner |
| `StoreSpec.PutKeepsRecord` | internal/localstore/localstore.go:38-82 | however any put ends, a shard that is there keeps its bytes and its recorded writer, or none |
| `StoreSpec.DeleteKeepsRecord` | internal/localstore/localstore.go:117-140 | however a delete ends, a shard that is there keeps its bytes and its recorded writer if and only if it is not that writer's own delete of it, come as far as removing the shard |
| `StoreSpec.LeftoverOwnerRecovers` | internal/localstore/localstore.go:75-80 | from an owner record without a shard, every named put fails and changes nothing, and the recorded owner's delete removes just the leftover |
| `StoreSpec.UnownedShardDeletable` | internal/localstore/localstore.go:54-61 | however a put without a writer is accepted, duplicates included, somebody can delete the shard if and only if a named owner is on record |
| `LocalStore.Store.UsedBytes` | internal/localstore/localstore.go:95-115 | the loop computes the bytes of all hash-named files, or a failure happened |
| `LocalStore.Store.WriteShard` | internal/localstore/localstore.go:72-81 | publishing shard and owner: the files are what the ending says, at every instant some ending's, and only failures or an old owner record prevent success |
| `LocalStore.Store.PutOwned` | internal/localstore/localstore.go:38-82 | the files afterwards are exactly what the ending says, at every instant they are those of some ending, with nothing that was there changed and nothing new but the complete shard and record, nothing changes or is accepted without the lock, and without failures the ending is the one determined by the files |
| `LocalStore.Store.DeleteOwned` | internal/localstore/localstore.go:117-140 | only the recorded, named writer removes anything, never without the lock and the shard before its record, and without failures the outcome is determined by the files |
| `LocalStore.Store.Get` | internal/localstore/localstore.go:146-158 | what is returned hashes to its name and is what the directory holds |
| `ConcurrentStore.ScanEnds` | internal/localstore/localstore.go:65-71 | at the end of the lock holder's scan the computed total is the exact usage, so the quota decision is right |
| `ConcurrentStore.HolderKeepsPhase` | internal/localstore/localstore.go:38-140 | at each of the lock holder's steps the directory is what it found changed by exactly what it has done so far |
| `ConcurrentStore.RunsAreSerial` | internal/localstore/lock.go:10-23 | every interleaving, with failures and kills and from any directory, is a sequential history of critical sections plus the one in progress; one with no failure ends in the one fault-free way |
| `ConcurrentStore.OutcomesAreHistory` | internal/localstore/localstore.go:38-140 | a finished put or delete has exactly one section in that history since its invocation, with the very ending it was told, or was refused before the lock was held and has none; an unfinished call has none |
| `ConcurrentStore.InvokedLater` | internal/localstore/lock.go:10-23 | real time: what the history holds when a call is invoked comes before every section of that call |
| `ConcurrentStore.OwnedUntilDeleted` | internal/localstore/localstore.go:54-140 | in every interleaving, with failures and kills: a shard held when nobody has the lock keeps its bytes and its writer in every later state unless that writer's own delete removed it, and for good if it is held for nobody |
| `ConcurrentStore.OwnedSinceSection` | internal/localstore/localstore.go:38-140 | the same from the end of any section of the history on, whoever holds the lock by then |
| `ConcurrentStore.StoredUntilDeleted` | internal/localstore/localstore.go:38-82 | from the section of a put that ended in success on, exactly its bytes are held for exactly its writer until that writer's own delete removed them |
| `ConcurrentStore.QuotaHolds` | internal/localstore/localstore.go:65-71 | in every reachable state the hash-named bytes are at most the larger of the quota and the initial usage |
| `ConcurrentStore.ContentAddressed` | internal/localstore/localstore.go:46-81 | in every reachable state every hash-named file hashes to its name or was there at the start |
| `ConcurrentStore.NothingPartial` | internal/localstore/localstore.go:72-80 | in every reachable state each file was there at the start or is the complete shard or owner record some put brought |
| `ConcurrentStore.FailedPutLeavesShard` | internal/localstore/localstore.go:72-80 | in every run a put that ends in failure leaves a new shard exactly when the failing operation is the directory sync after its link or the removal in the cleanup |
| `ConcurrentStore.KilledPutLeavesShard` | internal/localstore/localstore.go:72-82 | in every run a put that is killed leaves a new shard exactly when it was past the link |
| `ConcurrentStore.GetNeverTorn` | internal/localstore/localstore.go:146-158 | unless an operation fails, a read that has opened its file ends with the whole content, or with an error exactly when that does not hash to the name |
| `ConcurrentStore.GetIsAtomic` | internal/localstore/localstore.go:146-158 | in every interleaving a successful read returns complete bytes that hash to the name and that the directory held at some instant between its call and its end |
| `StoreProgress.WithoutFailures` | internal/localstore/localstore.go:38-140 | in every interleaving in which no operation fails and nobody is killed, each finished put or delete had a section of its own and ended there in the one fault-free way, or was a delete of a name that is no digest |
| `StoreProgress.FailureChangesNothing` | internal/localstore/localstore.go:38-140 | an operation that fails inside a section changes no name and no content, and the call ends with an error or goes on to its cleanup |
| `StoreProgress.StartsExactly` | internal/localstore/localstore.go:117-168 | a call is refused at once if and only if it is a delete or a get of a name that is no digest, and a read opens exactly a name that is there |
| `StoreProgress.HolderMovesOn` | internal/localstore/localstore.go:38-140 | every move of the lock holder, failing or not, brings it closer to its end, by a bound computed from its state |
| `StoreProgress.SectionEnds` | internal/localstore/lock.go:10-23 | from every reachable state the lock holder, running alone, finishes, releases the lock and is told what is logged |
| `StoreProgress.EveryCallCanFinish` | internal/localstore/lock.go:10-23 | nothing gets stuck: from every reachable state, after any failures and kills, every call can be brought to its end by moves without failures, and one that was waiting has its section |
| `ShardServer.Server.Serve` | internal/shardserver/server.go:46-137 | requests failing a check change no file whatever fails; an outsider gets 403 and changes nothing, nor does an upload to a read-only server; whatever fails, nothing changes without the lock, a success is true: the shard is there, is gone, or is what the answer holds; and without failures files and response are exactly the specified ones |
| `ShardServer.OutsidersGetNothing` | internal/shardserver/server.go:46-63 | whoever lacks a required identity, is outside the members served or names another share group gets 403 whatever they ask for |
| `ShardServer.OutsidersChangeNothing` | internal/shardserver/server.go:46-63 | and any number of their requests leave the directory as it was |
| `ShardServer.OtherPathsAnswer` | internal/shardserver/server.go:65-84 | the answers to an insider outside the shards: usage, 404, 400 for a malformed name |
| `ShardServer.ReadsAnswer` | internal/shardserver/server.go:85-93 | the answer to an insider's GET of a shard, from its status down to the bytes, in terms of the files |
| `ShardServer.UploadsAnswer` | internal/shardserver/server.go:94-121 | the answer to an insider's PUT of a shard, in the order of the checks, and the files afterwards: nothing changes without a 201, and a 201 adds at most the shard and the caller's record |
| `ShardServer.RemovalsAnswer` | internal/shardserver/server.go:122-131 | the answer to an insider's DELETE of a shard: only the caller on record removes it, with its record |
| `ShardServer.HoldsStep` | internal/shardserver/server.go:85-131 | one event leaves a held shard, its bytes and its writer alone if and only if it is not that writer's delete |
| `ShardServer.HeldThroughout` | internal/shardserver/server.go:46-137 | over any run without its writer's delete a shard keeps its bytes and writer; one without a writer stays for good |
| `ShardServer.NoLeftoversThroughout` | internal/shardserver/server.go:94-131 | without failures no owner record is ever left without its shard |
| `ShardServer.FirstUploaderHolds` | internal/shardserver/server.go:94-121 | the first accepted upload stores exactly the body and records its caller, or nobody if it names none and no record is left for that hash; a refused one changes nothing |
| `ShardServer.RequestsForHeld` | internal/shardserver/server.go:85-131 | an admitted GET of a held shard answers its bytes; its DELETE succeeds for the writer only |
| `ShardServer.OwnershipStory` | internal/shardserver/server.go:46-137 | from the first upload through any events: every admitted GET answers the uploaded bytes, only the writer's DELETE removes shard and record |
| `ShardServer.SaneThroughout` | internal/shardserver/server.go:101-121 | over every run, from any directory, a hash-named file is an unchanged one from the start or hashes to its name and is within the size limit, and a positive quota is kept |
| `Discovery.InspectIsSequential` | internal/peer/discovery.go:67-106 | in every schedule at most eight probes run, each slot is released once, and the statuses are those of a sequential pass in input order |
| `Discovery.InspectNeverHangs` | internal/peer/discovery.go:67-106 | in every schedule some goroutine can move until all are done, after a cancellation each of them, and the moves are bounded |
| `Discovery.ReadyExactly` | internal/peer/discovery.go:75-101 | ready means online, answering, contributing storage and not full |
| `Placement.FilterCandidates` | internal/dstore/dstore.go:367-383 | the loop keeps, in order, the passing candidates that come first in their failure domain |
| `Placement.ShardPeers` | internal/dstore/dstore.go:352-411 | round robin over the usable peers, in some order, for every number of shards a layout can report; every peer chosen is a candidate, online, not excluded, a member where members are listed, and has room where capabilities count; under discovery without a minimum all are different machines, with a minimum at least that many are; exactly when it fails, divides by zero or makes a list of negative length |
| `Placement.EnoughExactly` | internal/dstore/dstore.go:393-402 | when there are enough peers: one for every shard under discovery without a minimum, as many as a minimum asks for, or one |
| `Placement.EligibleExactly` | internal/dstore/dstore.go:367-383 | only passing candidates, with pairwise distinct domains, one for each domain that has any |
| `Placement.UsableExactly` | internal/dstore/dstore.go:384-392 | the peers used are exactly the eligible ones that, where capabilities count, are ready, accept the shard size and have room; their domains are distinct |
| `Placement.UsableFit` | internal/dstore/dstore.go:367-392 | a peer that can be used is online, not excluded, a member where members are listed and, where capabilities count, answers that it stores, takes shards of this size and has room |
| `Placement.LeftOutExactly` | internal/dstore/dstore.go:367-392 | of the candidates that are online, not excluded and members only those stay out that have no room or whose machine an earlier one is on |
| `Placement.ShuffledDistinct` | internal/dstore/dstore.go:403-405 | shuffling keeps the domains distinct |
| `Placement.CandidatesDistinct` | internal/dstore/dstore.go:367-383 | the candidates kept, before capabilities are asked for, are different machines if and only if a minimum or discovery applies or no two passing ones are one machine under two ports |
| `Placement.MachinesDistinct` | internal/dstore/dstore.go:367-392 | for every configuration, candidate list and probe: the peers used are different machines if and only if no two candidates, first in their domains and able to hold the shard where capabilities count, are one machine under two ports |
| `Placement.MinimumMeansMachines` | internal/dstore/dstore.go:373-377 | with a minimum or with discovered peers no machine is used twice |
| `Placement.NegativeMinimum` | internal/dstore/dstore.go:393-409 | an input that divides by zero: a negative minimum and one peer, offline |
| `Placement.OneMachineTwoEndpoints` | internal/dstore/dstore.go:373-377 | the input that shows it: two ports of one machine both count without a minimum, one of them with a minimum |
| `Placement.LostExactly` | internal/dstore/dstore.go:406-410 | a set of lost peers takes exactly floor(n/e) shards each and one more for those among the first n mod e |
| `Placement.SurvivesExactly` | internal/dstore/dstore.go:406-410 | the loss of any f of e peers leaves k of k+m shards if and only if f times floor(n/e) plus min(f, n mod e) is at most m |
| `Placement.CeilingBound` | internal/dstore/dstore.go:406-410 | losing any f peers loses at most f times the ceiling of n/e shards |
| `Placement.EnoughPeers` | internal/dstore/dstore.go:393-410 | with at least n peers any m of them may fail |
| `Pipeline.PushShard` | internal/dstore/dstore.go:322-350 | success means that the peer accepted the shard and its answer, read back, hashes to it; a peer that does its work is never turned down |
| `Pipeline.StoreShards` | internal/dstore/dstore.go:234-270 | after the loop every shard of the chunk is verified at the URL of the peer at its index and, if nobody else used the directory or the shard is nobody's, is there too; with room it stops only for a failure |
| `Pipeline.Upload` | internal/dstore/dstore.go:209-277 | the loop ends; what it stored is some content cut into its chunks, all of the file's if the user left it alone |
| `Pipeline.UploadedCanBuild` | internal/dstore/dstore.go:283-286 | whatever was uploaded, `NewChunked` accepts it |
| `Pipeline.UploadedIsGenuine` | internal/dstore/dstore.go:271-287 | the manifest of what was uploaded describes exactly the file |
| `Pipeline.GuardsExactly` | internal/dstore/dstore.go:123-170 | the guards of `processFile` in plain numbers: no manifest, within the configured limit and 2^40 bytes, chunks of at most 1 GiB, a real layout, and enough usable peers |
| `Pipeline.DerailsExactly` | internal/dstore/dstore.go:135-207 | exactly when the choice of peers is reached and panics: with a real layout, if nothing can be used and the minimum is negative; with two shard counts whose sum wraps around, unless too few peers end it first |
| `Pipeline.CheckUnchanged` | internal/dstore/dstore.go:293-299 | the second look passes only if the user never touched the file and all of it was read, and fails only for a change or a failure; a change is one of identity, size or modification time |
| `Sealing.PiecesPrefix` | internal/dstore/dstore.go:213-277 | what has been read of a file so far is a prefix of its list of chunks, so room for the whole file is room for each shard in turn |
| `Pipeline.PublishAndRemove` | internal/dstore/dstore.go:303-310 | the original goes only after the manifest is durable, whatever the user and others do meanwhile; at every instant the newest version is at its path or the original was removed and the very manifest that was built captures it |
| `Pipeline.ProcessFile` | internal/dstore/dstore.go:127-320 | in every recorded state, whatever fails, whoever lies, wherever it is cut off, the newest version is at its path or the original was removed with its content captured by the manifest to be written: of the configured layout and chunk size, with the file's name and totals, every shard with the peer that placement chose, and in the local directory too if nobody else used it or the shard is nobody's; there is no manifest but the complete one, whose shards are all stored by then, and no other file changes; success says the same of the result, and that the file is no manifest and within both size limits; and without failures, with room or no quota, it succeeds if and only if its guards hold and panics if and only if the choice of peers is reached and does |
| `RestoreFile.CollectShards` | internal/dstore/dstore.go:501-512 | the loop holds what can be fetched and nothing else |
| `RestoreFile.WriteChunks` | internal/dstore/dstore.go:496-529 | chunks go to the temporary file in order until one fails, and nothing appears at the output path meanwhile |
| `RestoreFile.RestoreChunked` | internal/dstore/dstore.go:485-534 | at every instant the output path is as the user has it or, where they have nothing, holds the whole result; success exactly when all chunks restore and the user has nothing there at the link |
| `RestoreFile.RestoreFile` | internal/dstore/dstore.go:430-483 | the same for every manifest file of any version; one that is not acceptable changes nothing |
| `RestoreFile.NoPartialFile` | internal/atomicfile/atomicfile.go:11-53 | what that comes to while the user leaves the output path alone: at every instant all other files are as they were, a file there is never replaced and a new one is complete; a restore reported done has the result there and it survives a power failure; a failed one has changed nothing |
| `Guarantees.ReadableExactly` | internal/manifest/manifest.go:143-152 | a manifest that was written is read back if and only if the name has no backslash and size plus 16 a chunk is at most 2^40 |
| `Guarantees.CapturedComesBack` | internal/dstore/dstore.go:303-310 | from every state in which the manifest to be written captures the file, if peers keep answering, restoring the manifest on disk gives exactly the file if its name and size are readable and fails otherwise |
| `Guarantees.ManifestComesLast` | internal/dstore/dstore.go:209-310 | in every recorded state of every run, wherever it is cut off, what is at the manifest's path, if anything, is the complete manifest that was to be written, and each of its shards is stored with its peer by then |
| `Guarantees.VisibleManifestRestores` | internal/dstore/dstore.go:209-310 | whenever there is a manifest, restoring it from the peers as they are gives back exactly the file if its name and size are readable, and is refused otherwise |
| `Guarantees.NothingElseIsTouched` | internal/dstore/dstore.go:127-320 | in every recorded state every file but the source, the manifest and what the shard store uses is as it was at the start |
| `Guarantees.DirectoryIsEnough` | internal/dstore/dstore.go:586-621 | and without any peer, whatever others put, record and delete in the local directory: it alone gives back a readable file from a captured state if nobody else has used it or none of the shards has had an owner |
| `Guarantees.PowerFailureLosesNothing` | internal/atomicfile/atomicfile.go:38-52 | after a power failure at any recorded instant an unchanged, durable file is still at its path or, if its name and size are readable and only then, comes back by restoring the manifest on disk |
| `Guarantees.RestoreWhatIsLeft` | internal/dstore/dstore.go:430-534 | `processFile` killed at any instant with a manifest on disk, or cut off by a power failure after the removal, then `RestoreFile`: the output path, at every instant, is as the user has it or holds exactly the original; without failures it does in the end unless the user has something there; an unreadable manifest changes nothing |
| `Guarantees.RestoreOldFile` | internal/dstore/dstore.go:430-483 | restoring a manifest of version 0 or 1: the output path, at every instant, is as the user has it or holds exactly the file; without failures it does in the end if enough genuine shards are answered and the user has nothing there; otherwise nothing changes |
| `Guarantees.OutputStaysBeside` | internal/dstore/dstore.go:439-444 | where a restore goes; unless a place is given it stays in the manifest's directory, whoever wrote that |
| `Guarantees.RemovalSafeExactly` | internal/dstore/dstore.go:293-310 | after the removal the newest version can be had if and only if it is the one the manifest was made from and its name and size are readable |
| `Guarantees.NothingElseIsLost` | internal/dstore/dstore.go:293-310 | in every recorded state of every run the newest version can be had if and only if the original is there, the user has none, or it is the captured one and readable; if the user left the file alone, if and only if the original is there or readable |
| `Guarantees.IntendedRecords` | internal/dstore/dstore.go:123-291 | what every manifest that a run is to write records: the file's name and size, the configured layout, chunk size and share group |
| `Guarantees.IntendedPeers` | internal/dstore/dstore.go:234-270 | and with which peers: shard `j` of every chunk is recorded with the name and the full URL of the peer whose turn it is among the usable ones |
| `Guarantees.NoManifestIsRemoved` | internal/dstore/dstore.go:131-165 | in every recorded state without the original, that was no manifest and within the size limits |
| `Guarantees.EditInWindowIsLost` | internal/dstore/dstore.go:303-310 | from any state between publication and removal, the steps that lose a changed file |
| `Guarantees.UnreadableIsLost` | internal/dstore/dstore.go:303-310 | from any state between publication and removal, the step that loses a file nobody touched whose name or size is not readable |
| `Guarantees.GenuineForOne` | internal/manifest/manifest.go:30-41 | one manifest cannot describe two files unless two of their shards have one digest |
| `Guarantees.RestoredAfterLoss` | internal/dstore/dstore.go:406-410 | for a manifest placed on given peers: after losing some of their failure domains the file restores exactly when enough shards have URLs elsewhere |
| `Guarantees.SurvivesAnyLossExactly` | internal/dstore/dstore.go:352-411 | placement, coding and restore together: a manifest placed as `Pipeline.ProcessFile` places it survives the loss of any f of its e failure domains if and only if the arithmetic condition holds |
| `Guarantees.HandedOverSurvives` | internal/dstore/dstore.go:303-411 | in every recorded state after the removal, of a readable file, the manifest on disk survives the loss of any f of the domains the placement chose if and only if that condition holds |
| `Guarantees.AnyMachinesMayFail` | internal/dstore/dstore.go:352-411 | with discovery and no minimum every manifest a run writes has its shards with pairwise different machines, and any `parityShards` of those may be lost |
| `Guarantees.URLNamesShard` | internal/dstore/dstore.go:426-428 | the URL of a shard goes to its peer's address, and its path names exactly that shard to the server there |
| `Guarantees.PushedWhereProbed` | internal/peer/discovery.go:23-31 | a peer gets its shards on the port it was probed on if and only if its port is not set to the empty string |
| `Guarantees.DefaultLayoutNeedsNoLibrary` | internal/erasure/erasure.go:9-14 | for the default layout the exclusive-or code gives all theorems without a library |
| `Guarantees.EveryFileHasManifest` | internal/dstore/dstore.go:271-287 | every file, under every name a directory can have and for every list of peers, has a manifest that is genuine and placed there, and it is accepted back if and only if name and size allow, so the theorems speak of every file |
| `Guarantees.BackslashUnreadable` | internal/manifest/manifest.go:143-145 | an input that is written and never read back: an empty file with a backslash in its name |
| `Guarantees.LargestUnreadable` | internal/manifest/manifest.go:149-151 | another: a file of exactly 2^40 bytes, under any name |
| `Paths.WithinExactly` | internal/dstore/paths.go:135-138 | the textual overlap test is true exactly when one path's components prefix the other's |
| `Paths.OverlapExactly` | internal/dstore/paths.go:34-36 | the check refuses exactly the places that have some path in common |
| `Paths.Walk` | internal/dstore/paths.go:54-79 | a walk completes exactly when no step is refused and no two want the same place; what stops early made just its prefix |
| `Paths.AddDirectory` | internal/dstore/paths.go:34-79 | succeeds exactly if the places are apart and free, nothing in the tree is troublesome or special, no file is named like a manifest, every file is captured and nothing has the name of its manifest; and then the library mirrors the tree |
| `Paths.RestoreDirectory` | internal/dstore/paths.go:82-133 | succeeds exactly if the places are apart and free, nothing in the library is troublesome or special, and every manifest restores to a name that is one and is not a directory's; the output has the library's directories and one file for each manifest |
| `Paths.LibraryRestorable` | internal/dstore/paths.go:104-133 | an added library restores if and only if every file does: no two manifests meet on the way back |
| `Paths.TreeRoundTrip` | internal/dstore/paths.go:42-133 | adding and restoring a tree succeeds exactly when every manifest is readable and its shards in reach, and gives the same directories, empty and hidden ones too, and the same files |
| `Watch.SkipExactly` | internal/dstore/dstore.go:75-80 | skipping hidden directories leaves out exactly what has a hidden directory above it |
| `Watch.Look` | internal/dstore/dstore.go:68-98 | one callback: which entries end the scan, are skipped, or are taken note of; an entry taken note of is an ordinary file, not hidden and not named like a manifest |
| `Watch.NotedExactly` | internal/dstore/dstore.go:68-98 | field by field, which entries are taken note of |
| `Watch.StopsExactly` | internal/dstore/dstore.go:68-95 | field by field, which entries end the scan |
| `Watch.Watcher.Scan` | internal/dstore/dstore.go:61-113 | one scan processes exactly the ready files before the first error that ends it, whatever became of the others, and notes what it saw |
| `Watch.Watch` | internal/dstore/dstore.go:536-584 | each turn works from the notes of the one before, until a cancellation |
| `Watch.AttemptedExactly` | internal/dstore/dstore.go:547-558 | a turn processes a path if and only if it and the turn before both saw it with one identity, size and time and without a manifest |
| `Watch.OnlyPlainFiles` | internal/dstore/dstore.go:68-107 | what a turn processes is never hidden or named like a manifest, and both turns list it as an ordinary file in one state and without a manifest |
| `Watch.LogHoldsPlainFiles` | internal/dstore/dstore.go:68-107 | nor does the log of a run show anything hidden or named like a manifest |
| `Watch.NeverAgain` | internal/dstore/dstore.go:91-95 | once the manifest is there for good the log of a run shows the path neither processed nor failed |
| `Watch.FailureIsRetried` | internal/dstore/dstore.go:100-107 | a path the log shows as failed is tried in the next turn if and only if that turn sees it as the failed one did |
| `Watch.StopCostsTwoTurns` | internal/dstore/dstore.go:69-95 | an error of the walk or a stat keeps every later entry out of this turn and the next |
| `Shutdown.ReturnsWithBothFinished` | cmd/dstore/node.go:121-153 | in every order of exits, sends and cancellation: on return both goroutines have ended and each channel was received from exactly once |
| `Shutdown.NeverStuck` | cmd/dstore/node.go:121-153 | once anything ended or was cancelled some due move exists until the return, and the moves are bounded |
| `Shutdown.ReportedErrorIsReal` | cmd/dstore/node.go:131-153 | a reported error is one the server or the watcher really ended with, never an orderly end |
| `Shutdown.SelectDecides` | cmd/dstore/node.go:131-153 | the case the select picks decides what is returned, whatever comes after |
| `Shutdown.ReceivedIsReturned` | cmd/dstore/node.go:131-153 | the error the select receives is returned as it is, an orderly end as success |
| `Shutdown.FailureCanBeHidden` | cmd/dstore/node.go:131-153 | a run in which the server fails with any error and success is returned |

## Left out

- Pipeline.ProcessFile: with a quota, exact success asks for room for all shards of the file and for nobody else using the directory meanwhile; less room is enough when some of the shards are there already.
- Pipeline.ProcessFile: the source file is assumed not to be a shard or an owner record of the shard directory itself.
- Pipeline.ProcessFile: non-regular files, the base URL and the copy of the first chunk's references in the result are not modelled.
- Guarantees.RemovalSafeExactly: every change of the source gives it an identity, size and modification time that no file had together before; a change that does not, such as moving the very same file away and back, is not modelled.
- Guarantees.PowerFailureLosesNothing: says nothing of shards in the local directory, only of the source and the manifest; the peers are assumed to keep what they confirmed.
- ConcurrentStore.QuotaHolds: kills, not power failures; a power failure can only lose names and unsynced data.
- ConcurrentStore.RunsAreSerial: the in-process mutex is not modelled, because each call's own `flock` already excludes the others.
- Restore.RestoreExactly: each source is asked once for each shard; retries and timeouts are not modelled.
- ShardServer.OwnershipStory: requests without I/O failures, one after another, because the answers are part of it; what holds of the directory with failures, kills and interleaving is `ConcurrentStore.OwnedUntilDeleted`.
- Paths.AddDirectory: adding a single file, which is one call of `processFile`; resolving symbolic links; the trees do not change while they are walked.
- Watch.Watch: printing of results and errors, and the interval between scans.
- Key and nonce generation, AES-GCM and SHA-256 themselves, Reed-Solomon arithmetic, JSON text, HTTP headers and status lines.
- Peer discovery through the VPN, identity lookup, node configuration, command lines and tables: plumbing around the modelled parts.
- `NewWithLayout`: version-1 manifests are read but no longer written.
- File modes, temporary-file names and their removal, directory creation.
