# Oxide OS, verified

A Dafny model of the state machines at the heart of the Oxide OS kernel, with proofs about all their
inputs and all their runs.

Most modules come in pairs. One half is a model on values: functions for the operations and lemmas
about whole runs (`CacheModel`, `CacheRuns`, `FsModel`, `DiskFormat`, `DiskRoundTrip`, `FsRuns`,
`SupervisionModel`, `KillSteps`, `BlastRadius`, `Resources`, `CapabilityModel`, `CapabilityRuns`,
`SchedulerModel`, `SchedulerRuns`, `BitmapModel`, `FrameModel`, `TaskResources`). The other half is the
kernel's code as classes and methods that update fields and arrays in place, each method proved to be
the step of the model (`BlockCaching`, `OxideFiles`, `ContextStorage`, `Supervisor`,
`CapabilityTables`, `Schedulers`, `FrameAllocators`, `TaskLife`). `TxRing` and `Ipc` keep both halves
in one module, with the history of the run in ghost fields.

The kernel runs on one core and schedules cooperatively, so a critical section is one step.

## What is proved

**Storage.** The write-back block cache over a disk behaves as one plain block map, on a run of reads,
writes, flushes and disk faults, if and only if no eviction on that run throws a write away. It throws
one away exactly when the victim is dirty, the disk refuses it and does not hold the same bytes
already. What is cached is exactly the 256 blocks accessed last. The file system on top is a map from
paths to bytes for every hash function, a constant one included, on a run with restarts if and only if
no restart finds a path of more than 255 bytes. Written to disk through the cache, with evictions in
between, and read back by a new file system with a new cache, it comes up the same if and only if the
format can express it: 32-bit counts and sizes and paths of at most 255 bytes. An agent's context store
always answers what its backing file holds, and agents do not see each other's keys.

**Supervision.** `kill`, the death notice to the parent and escalation call each other, and an agent
can be killed again from inside its own kill. The recursion terminates on every forest of agents and
its outcome has a closed form: exactly one subtree goes, its root found by walking up past the
supervisors that cannot take the notices reaching them, with the number of notices given by a
recurrence.

**Capabilities.** In every reachable table a live capability has a live parent that grants it. So the
revocation that stops at capabilities already revoked still revokes every descendant, and validation
or the outbound firewall vouch for the whole chain of delegation. What a capability covers shrinks along
the chain, except that one byte can be gained; exactly when is proved.

**Scheduling and memory.** No task is lost or duplicated. On every run, a task of any priority with k
others ahead of it in its queue runs on exactly the (k+1)-th reschedule that finds nobody waiting in a
higher queue. So a normal task runs within 2(k+1) reschedules as long as no real-time task waits while
another has the processor, and with reschedules alone if and only if at most one real-time task wants
the processor. The shared scheduler, id and frame allocators, page tables and mailboxes are one
machine: over every run, ids and stack frames have one owner, no frame is lost, no guard page is
mapped, and no task can be created once a dead one has been cleaned up. The frame allocator, down to
the bits, hands out the lowest free frame, and only usable memory.

**Messages and packets.** A request ends at most once, by reply or timeout, and its reply goes to who
asked. Passing on a capability in a message is a delegation that stays even when the message is
refused. The transmit ring, across any number of wrap-arounds of its 16-bit indices and for a device
that completes packets in any order, overwrites a buffer the device may still read exactly when the
packet before it in its descriptor is not done; with a device that keeps the order, never.

### Where the kernel differs from its documentation or from what one would expect

- `README.md:228` says that an agent out of restarts escalates to its parent's parent. The code kills
  it with its whole subtree and notifies its parent at least twice. One death can cost a supervisor
  more than one restart: `BlastRadius.OneDeathTopplesParent`, with the exact condition in
  `BlastRadius.ConfinedIff`.
- `TODO.md:11` says that the file system is not persisted; `CHANGELOG.md:14` says it is, and the code
  does it. The path is cut at 255 bytes when written: `DiskRoundTrip.LongPathLost`, with the exact
  condition in `FsRuns.RestartReadsIff` and `FsRuns.RefinesMapIff`.
- The comment at `oxide-os/kernel/src/task/scheduler.rs:131-134` promises round-robin across all priority
  levels. Two real-time tasks that keep running shut every normal task out:
  `SchedulerRuns.NormalStarves`, with the exact conditions in `SchedulerRuns.ExactWait` and
  `SchedulerRuns.NormalRunsIff`.
- The comment in `is_subset_of` says that saturating addition prevents overflow on large regions. It makes
  the check accept a region that has the last byte of the address space under one that ends just before
  it, and delegation grants it: `Resources.LastByteEscapes` and `CapabilityRuns.DelegationWidens`, with the
  exact condition in `Resources.ShrinksIff` and `CapabilityRuns.ValidatedChain`.
- Task ids are recycled (`oxide-os/kernel/src/task/mod.rs:79-80`), but the stack of a dead task stays mapped
  (`TODO.md:14`) at the address its id determines. Creating a task with a recycled id stops the kernel, so
  after the first clean-up no task can be created: `TaskResources.CreationWorksIff` and
  `TaskResources.NoneAfterCleanup`.
- A message that is refused because the recipient has no mailbox, or a full one, has already handed over
  the capability it was to carry: `Ipc.IpcKernel.Send`.
- Writes are not checked against the size of the disk. A block past its end is accepted, read back for a
  while, and lost without an error: `CacheRuns.PastTheEndIsLost`.
- `reply` takes a capability and never looks at it, so any task can answer any pending request:
  `Ipc.IpcKernel.Respond`.
- `stats` of the frame allocator is too low by the padding bits of the bitmap's last byte:
  `FrameAllocators.BitmapFrameAllocator.Stats`. On a machine with hardly any memory the number comes out
  below zero, which stops a build with overflow checks: `FrameAllocators.Init`.

## Model

| member | source | states |
|---|---|---|
| CacheModel.EvictOneStep | oxide-os/kernel/src/storage/block_cache.rs:62-70 | eviction removes exactly the least recently used block; every other block keeps its value, and the victim does if and only if it was clean, the device took it or held the same bytes already |
| CacheModel.ReadStep | oxide-os/kernel/src/storage/block_cache.rs:30-41 | a read is answered from the block map; it leaves the map as it is if and only if no eviction loses a write; a failed read changes nothing but the counter |
| CacheModel.WriteStep | oxide-os/kernel/src/storage/block_cache.rs:43-48 | a write changes exactly that block of the map if and only if no eviction loses another write |
| CacheModel.FlushStep | oxide-os/kernel/src/storage/block_cache.rs:50-60 | a flush never changes the block map; if it succeeds the device alone is the map and every cached block is clean, with its bytes and stamp; if it fails the cache keeps everything, still dirty |
| CacheRuns.RunRefinesBlockMap | oxide-os/kernel/src/storage/block_cache.rs:30-70 | after every run in which no eviction loses a write, each block holds the last write to it, or what it held before |
| CacheRuns.RefinesIff | oxide-os/kernel/src/storage/block_cache.rs:30-70 | on any run, no eviction loses a write if and only if at every moment each block holds the last write to it, or what it held before |
| CacheRuns.PastTheEndIsLost | oxide-os/kernel/src/storage/block_cache.rs:43-48 | a write past the end of the disk is gone once 256 other blocks were accessed since |
| CacheRuns.SweepLoses | oxide-os/kernel/src/storage/block_cache.rs:43-48 | one write past the end and a read of each of 256 blocks are such a run |
| CacheRuns.ReadAfterRun | oxide-os/kernel/src/storage/block_cache.rs:30-41 | after such a run an answered read returns the last write, and only blocks the device refuses are not answered |
| CacheRuns.SteadyRun | oxide-os/kernel/src/storage/block_cache.rs:30-70 | with only blocks the device takes in the cache, no run that writes only such blocks ever loses a write, whatever other sectors fail |
| CacheRuns.FlushedDeviceIsBlockMap | oxide-os/kernel/src/storage/block_cache.rs:50-60 | after any such run and a flush, the device alone holds the last write of every block |
| CacheRuns.WriteSteady | oxide-os/kernel/src/storage/block_cache.rs:43-48 | such a write updates one block of what the disk reads as, whatever is evicted |
| CacheRuns.ExactlyLru | oxide-os/kernel/src/storage/block_cache.rs:30-70 | after every run from an empty cache, a block is cached if and only if it was accessed and fewer than 256 others were since, and the stamps are in order of last access |
| BlockCaching.BlockDevice.ReadBlock | oxide-os/kernel/src/storage/virtio_blk.rs:135-139 | a read succeeds just for in-range, working sectors of a found device and gives the stored block |
| BlockCaching.BlockDevice.WriteBlock | oxide-os/kernel/src/storage/virtio_blk.rs:142-148 | likewise for a write, which changes that block only |
| BlockCaching.BlockCache.Read | oxide-os/kernel/src/storage/block_cache.rs:30-41 | is the model's read, result and new state, with its invariant: bounded, distinct stamps, clean entries equal the device |
| BlockCaching.BlockCache.Write | oxide-os/kernel/src/storage/block_cache.rs:43-48 | is the model's write and keeps the invariant |
| BlockCaching.BlockCache.Flush | oxide-os/kernel/src/storage/block_cache.rs:50-60 | is the model's flush: it succeeds if and only if the device takes every dirty block, and then counts them |
| BlockCaching.BlockCache.WriteAll | oxide-os/kernel/src/storage/block_cache.rs:51-57 | writes the dirty blocks in ascending order up to the first the device refuses |
| BlockCaching.BlockCache.Evict | oxide-os/kernel/src/storage/block_cache.rs:62-70 | the scan finds the block with the least stamp, writes it back if dirty and drops it |
| FsModel.WriteFileStep | oxide-os/kernel/src/storage/oxide_fs.rs:46-76 | for any hash: keeps the invariant, never changes a blob, makes this path read as the data and leaves every other path as it was |
| FsModel.DeleteFileStep | oxide-os/kernel/src/storage/oxide_fs.rs:84-89 | makes exactly this path unreadable and keeps all blobs |
| FsModel.InjectiveHashDedups | oxide-os/kernel/src/storage/oxide_fs.rs:37-59 | if the hash tells the stored contents apart, no two blobs are equal |
| FsRuns.RefinesMapIff | oxide-os/kernel/src/storage/oxide_fs.rs:46-89 | for any hash, on any run of writes, deletes and restarts from any file system with the invariant: at every moment each path reads as the last write not deleted since, or as at the start, if and only if no restart on the run finds a live path of more than 255 bytes |
| FsRuns.RunKeeps | oxide-os/kernel/src/storage/oxide_fs.rs:46-232 | on every such run, whatever the restarts cut, a stored blob stays under its id with its bytes, total size is the sum of the blobs, each hash is mapped to its newest blob, and content is stored twice only if a colliding blob came in between |
| FsRuns.RestartReadsIff | oxide-os/kernel/src/storage/oxide_fs.rs:103-232 | a restart leaves every path reading as before if and only if no live path has more than 255 bytes |
| FsRuns.RestartIsReload | oxide-os/kernel/src/storage/oxide_fs.rs:103-232 | with counts and sizes below 2^32, the restart of these runs is loading the image written, whatever else is on the disk |
| FsRuns.ReachableRoundTrip | oxide-os/kernel/src/storage/oxide_fs.rs:29-232 | every file system reached from the empty one, restarts included, comes back from the disk whole if and only if the format can express it |
| DiskFormat.BlobRoundTrip | oxide-os/kernel/src/storage/oxide_fs.rs:119-142 | a blob of any size, laid over its header block and continuation blocks anywhere on a disk, is read back with its id and ends at the right block |
| DiskFormat.EntryRoundTrip | oxide-os/kernel/src/storage/oxide_fs.rs:144-159 | an index entry with fields in range is read back, with its path cut to 255 bytes |
| DiskFormat.SuperBlockLayout | oxide-os/kernel/src/storage/oxide_fs.rs:107-117 | the superblock has magic, version 1, the two counts, the next blob id and the total size at offsets 0, 8, 12, 16, 20 and 28, and zeros from 36 on |
| DiskFormat.BlobHeadLayout | oxide-os/kernel/src/storage/oxide_fs.rs:121-129 | the first block of a blob has id, size, up to 500 bytes of data from offset 12 on, and zeros |
| DiskFormat.ChunkLayout | oxide-os/kernel/src/storage/oxide_fs.rs:131-141 | each further block has the next 512 bytes of the data, the last one filled up with zeros |
| DiskFormat.EntryLayout | oxide-os/kernel/src/storage/oxide_fs.rs:146-158 | the block of an entry has the length of the cut path, that path, blob id, size and the two ticks, and zeros |
| DiskFormat.EntryRefusedIff | oxide-os/kernel/src/storage/oxide_fs.rs:216-223 | reading an entry stops the kernel if and only if its path length is more than 478 |
| DiskFormat.NothingLoadedIff | oxide-os/kernel/src/storage/oxide_fs.rs:171-179 | nothing is loaded if and only if there is no first block with the eight bytes of the magic |
| Bytes.LeBytes | oxide-os/kernel/src/storage/oxide_fs.rs:110-114 | numbers of two, four and eight bytes have the least significant byte first |
| Utf8Text.Utf8Iff | oxide-os/kernel/src/storage/oxide_fs.rs:218 | what a path is read back as, rather than the empty path, is exactly the encodings of sequences of Unicode scalar values |
| DiskRoundTrip.BlobAreaRoundTrip | oxide-os/kernel/src/storage/oxide_fs.rs:188-212 | all blobs are read back under their ids, with the hash table rebuilt |
| DiskRoundTrip.IndexAreaRoundTrip | oxide-os/kernel/src/storage/oxide_fs.rs:214-229 | the entries that fit are read back, in whatever order they were written |
| DiskRoundTrip.RoundTripIffExpressible | oxide-os/kernel/src/storage/oxide_fs.rs:103-232 | for every reachable file system: loading its image into an empty one restores blobs, hash table, counters and exactly the live entries if and only if counts and sizes are below 2^32 and live paths at most 255 bytes |
| DiskRoundTrip.ReloadOutcome | oxide-os/kernel/src/storage/oxide_fs.rs:103-232 | with counts and sizes below 2^32, all blobs and counters come back and each live entry under its path cut to 255 bytes, or under the empty path when the cut splits a character, later entries over earlier ones |
| DiskRoundTrip.LongPathLost | oxide-os/kernel/src/storage/oxide_fs.rs:149-150 | a single file with a longer path comes back under the cut path only: its own path reads as nothing and the cut one as its data |
| OxideFiles.PutChunks | oxide-os/kernel/src/storage/oxide_fs.rs:131-141 | for any disk and cache, exactly the writes of the data's continuation blocks, in order; returns the block after them |
| OxideFiles.PutBlob | oxide-os/kernel/src/storage/oxide_fs.rs:119-142 | for any disk and cache, exactly the writes of the blob's blocks, in order |
| OxideFiles.PutEntry | oxide-os/kernel/src/storage/oxide_fs.rs:146-158 | for any disk and cache, exactly the writes of the entry's block |
| OxideFiles.PutSuperBlock | oxide-os/kernel/src/storage/oxide_fs.rs:107-117 | for any disk and cache, exactly the writes of the superblock to block 0 |
| OxideFiles.PutBlobs | oxide-os/kernel/src/storage/oxide_fs.rs:119-142 | for any disk, cache and file system, exactly the writes of all blobs' blocks, in ascending order of id, from block 1 on |
| OxideFiles.PutIndex | oxide-os/kernel/src/storage/oxide_fs.rs:144-159 | for any disk and cache, exactly the writes of a block for each live entry, each once, and for no deleted one |
| OxideFiles.WroteSteady | oxide-os/kernel/src/storage/oxide_fs.rs:103-164 | on sectors that work, the blocks written are then on the disk as the cache shows it, and all others are as before |
| OxideFiles.GetBlob | oxide-os/kernel/src/storage/oxide_fs.rs:188-212 | for any disk and cache, reads one blob as the format says from the blocks as they are seen one after the other, with zeros for those that cannot be read |
| OxideFiles.GetBlobs | oxide-os/kernel/src/storage/oxide_fs.rs:188-212 | reads the counted blobs one after the other, likewise |
| OxideFiles.GetIndex | oxide-os/kernel/src/storage/oxide_fs.rs:214-229 | reads the counted entries, likewise, stopping the kernel on one whose path runs past its block |
| OxideFiles.OxideFs.WriteFile | oxide-os/kernel/src/storage/oxide_fs.rs:46-76 | is the model's write; the blob returned holds the data, and in the index exactly this path changes, to a live entry with that blob, the size and the tick as both ticks |
| OxideFiles.OxideFs.ReadFile | oxide-os/kernel/src/storage/oxide_fs.rs:78-82 | is the model's read, which on every run is the last undeleted write (`FsRuns.RefinesMapIff`) |
| OxideFiles.OxideFs.DeleteFile | oxide-os/kernel/src/storage/oxide_fs.rs:84-89 | is the model's delete: exactly this path's entry is marked, nothing else changes; true just when the path was ever written, even if deleted already |
| OxideFiles.OxideFs.List | oxide-os/kernel/src/storage/oxide_fs.rs:91-95 | exactly the live entries under the prefix, each once |
| OxideFiles.OxideFs.SyncToDisk | oxide-os/kernel/src/storage/oxide_fs.rs:103-164 | for any disk, cache and file system, exactly the writes of the image's blocks and a flush |
| OxideFiles.SyncedSteady | oxide-os/kernel/src/storage/oxide_fs.rs:103-164 | where the device takes the image and everything cached, the image is then on the device and the rest of the disk is as the cache showed it |
| OxideFiles.RefusedCutsImage | oxide-os/kernel/src/storage/oxide_fs.rs:103-164 | of an image of at most 256 blocks written through an empty cache, exactly the blocks before the first one the disk refuses reach it |
| OxideFiles.OxideFs.LoadFromDisk | oxide-os/kernel/src/storage/oxide_fs.rs:167-232 | for any disk, cache and file system: no readable superblock with the magic leaves everything as it was, otherwise the file system becomes what the blocks, as they are seen one after the other, say |
| OxideFiles.ScanSteady | oxide-os/kernel/src/storage/oxide_fs.rs:167-232 | with only blocks the device takes in the cache, such as none, the blocks are seen as the disk holds them, with zeros for failing sectors |
| OxideFiles.Restart | oxide-os/kernel/src/storage/oxide_fs.rs:103-232 | sync, new cache, new file system, load, for any disk and cache: what comes up is what the disk then reads as, and nothing if it refuses the superblock; where it takes the image and everything cached, that is the restart of the model when counts are in range, and all of the old file system if and only if the format can express it |
| ContextStorage.PathsSeparate | oxide-os/kernel/src/storage/context_store.rs:24 | two paths are equal if and only if agent and key are, and a path lies in an agent's directory if and only if it is that agent's, even for keys with slashes |
| ContextStorage.PathExample | oxide-os/kernel/src/storage/context_store.rs:24 | key `k` of agent 12 is in `/agents/12/k` |
| ContextStorage.ContextStore.Set | oxide-os/kernel/src/storage/context_store.rs:23-28 | changes the backing value of exactly this agent's key; cache and files agree; paths stay strings |
| ContextStorage.ContextStore.Get | oxide-os/kernel/src/storage/context_store.rs:30-36 | always what the backing file holds, cached or not |
| ContextStorage.ContextStore.Delete | oxide-os/kernel/src/storage/context_store.rs:38-43 | removes exactly this agent's key |
| ContextStorage.ContextStore.Keys | oxide-os/kernel/src/storage/context_store.rs:45-50 | exactly the agent's live keys, each once |
| ContextStorage.ContextStore.ClearAgent | oxide-os/kernel/src/storage/context_store.rs:52-58 | removes every key of this agent and nothing of any other |
| Supervisor.EscalationOutcome | oxide-os/kernel/src/agent/supervisor.rs:47-59 | killing an agent that cannot take a notice and then telling its parent once more comes to the same as delivering that one notice to it |
| SupervisionModel.UnderIffPath | oxide-os/kernel/src/agent/lifecycle.rs:72-75 | the subtree that a kill takes is what child lists lead to from its root |
| SupervisionModel.FilterStrikes | oxide-os/kernel/src/agent/lifecycle.rs:77-82 | striking a child takes out its one place in the list and leaves the rest in order |
| SupervisionModel.OneNotice | oxide-os/kernel/src/agent/supervisor.rs:5-38 | one notice in plain terms: an agent out of restarts or with policy Escalate falls, a permanent one is left as it is, and any other counts one restart |
| Supervisor.AgentRegistry.Spawn | oxide-os/kernel/src/agent/lifecycle.rs:9-61 | refuses if and only if the parent has all its children, else adds an agent with five restarts, no children and the given policy at the end of its parent's list and changes nobody else, keeping a forest |
| Supervisor.AgentRegistry.Kill | oxide-os/kernel/src/agent/lifecycle.rs:64-96 | terminates, re-entrant kills included, keeps a forest, leaves the registry the model gives, and the agent is gone |
| Supervisor.AgentRegistry.KillChildren | oxide-os/kernel/src/agent/lifecycle.rs:72-75 | what is left of the tree after all children died one by one, whether or not the dying agent was killed again meanwhile |
| Supervisor.AgentRegistry.NotifyChildDeath | oxide-os/kernel/src/agent/supervisor.rs:5-38 | for any agent: one without a registry entry changes nothing; one out of restarts or with policy Escalate falls with its subtree and the cascade goes on as the model says; a permanent one changes nothing; any other counts one restart and nothing else changes |
| Supervisor.AgentRegistry.IncrementRestartCount | oxide-os/kernel/src/agent/supervisor.rs:40-45 | for a supervisor that restarts its children and has restarts left, counting one restart is what delivering one notice comes to; the forest is kept |
| Supervisor.AgentRegistry.EscalateAgent | oxide-os/kernel/src/agent/supervisor.rs:47-59 | kills the agent and notifies its parent once more, with the outcome of one delivered notice |
| KillSteps.UnregisterLeaf | oxide-os/kernel/src/agent/lifecycle.rs:77-86 | striking a childless agent from its parent's list and unregistering it is removing its subtree |
| SupervisionModel.SpawnedForest | oxide-os/kernel/src/agent/lifecycle.rs:31-53 | a fresh agent under its parent keeps child lists and parent pointers in agreement and acyclic |
| BlastRadius.CascadeClosedForm | oxide-os/kernel/src/agent/supervisor.rs:5-59 | delivering notices is removing one subtree, found by walking up without recursion into the tree, and counting the notices its parent could take |
| BlastRadius.KillBlastRadius | oxide-os/kernel/src/agent/lifecycle.rs:64-96 | exactly the subtree of the target or of one ancestor goes; no permanent supervisor with restarts left lies in between; nothing else changes but the list and the count of that subtree's parent |
| BlastRadius.ConfinedIff | oxide-os/kernel/src/agent/supervisor.rs:14-37 | a kill stays in the target's subtree if and only if the parent can take the notices it sends |
| BlastRadius.PermanentConfines | oxide-os/kernel/src/agent/supervisor.rs:34-36 | under a permanent parent with restarts left exactly the target's subtree goes |
| BlastRadius.OneDeathTopplesParent | oxide-os/kernel/src/agent/supervisor.rs:14-59 | killing an escalating agent with three children topples a parent that has used none of its five restarts |
| BlastRadius.EveryRun | oxide-os/kernel/src/agent/lifecycle.rs:9-112 | on every run of spawns, kills, suspensions and resumptions the registry is a forest, no agent uses more restarts than it has, and none has more children than it may |
| Resources.SubsetTransitive | oxide-os/kernel/src/capability/resource.rs:20-44 | narrowing is transitive, across saturating memory ends, wildcards and prefixes |
| Resources.ShrinksIff | oxide-os/kernel/src/capability/resource.rs:20-44 | what passes the check covers no more than the parent if and only if it does not gain the last byte of the address space |
| Resources.LastByteEscapes | oxide-os/kernel/src/capability/resource.rs:22-28 | a region that gains it passes |
| Resources.SubsetIffCovers | oxide-os/kernel/src/capability/resource.rs:20-44 | the check accepts exactly what covers no more than the parent and the regions that gain the last byte under a parent that ends just before it; an empty region only inside the parent's bounds |
| Resources.SubsetByKind | oxide-os/kernel/src/capability/resource.rs:20-44 | kind by kind: a memory region inside the other, an equal or wildcard host and port, a path that starts with the other, otherwise only an equal resource |
| Resources.ContainsIff | oxide-os/kernel/src/capability/permissions.rs:20-22 | the permissions contain others if and only if adding those changes nothing |
| CapabilityModel.ValidateOutcome | oxide-os/kernel/src/capability/table.rs:70-84 | validation in plain terms: a missing, revoked, foreign or too weak capability is refused, in that order, and any other granted |
| CapabilityModel.DelegatedOutcome | oxide-os/kernel/src/capability/table.rs:87-126 | delegation in plain terms: refused without DELEGATE, for a permission the source lacks or for a resource that does not pass the check, and otherwise a live child with exactly what was asked for |
| CapabilityModel.DescendsIffChain | oxide-os/kernel/src/capability/table.rs:149-178 | descent is being linked by a chain of parents |
| CapabilityRuns.RevokeExact | oxide-os/kernel/src/capability/table.rs:129-178 | marking what the recursion reaches revokes exactly the capability and all its descendants, dead branches included, and changes nothing else |
| CapabilityRuns.RevokeCount | oxide-os/kernel/src/capability/table.rs:149-185 | what it reaches is the live descendants, and the active set loses exactly those |
| CapabilityRuns.RevokeErrorOutcome | oxide-os/kernel/src/capability/table.rs:130-143 | when a revocation is refused and with which error, in plain terms |
| CapabilityRuns.RunInv | oxide-os/kernel/src/capability/table.rs:34-178 | in every reachable table each live capability's parent is live, holds DELEGATE, and grants its permissions and resource |
| CapabilityRuns.RunAges | oxide-os/kernel/src/capability/table.rs:34-178 | whatever happens later, a capability changes only from live to revoked |
| CapabilityRuns.ChainAttenuates | oxide-os/kernel/src/capability/table.rs:87-126 | every ancestor of a live capability is live, misses none of its permissions and has a covering resource, and every proper ancestor holds DELEGATE |
| CapabilityRuns.ValidatedChain | oxide-os/kernel/src/capability/table.rs:70-84 | a successful validation of any permissions would succeed for every ancestor's owner too, none of whose capabilities misses a permission; every proper ancestor holds DELEGATE; and an ancestor covers all the capability covers if and only if the last byte was not gained in between |
| CapabilityRuns.DelegationWidens | oxide-os/kernel/src/capability/table.rs:87-126 | two operations from the empty table lead to a valid capability that covers a byte its source does not |
| CapabilityRuns.FirewallChain | oxide-os/kernel/src/net/firewall.rs:11-30 | the firewall allows an endpoint if and only if the capability is live, the task's, has CONNECT and names that host or any and that port or any, and then it would allow it to every ancestor's owner |
| CapabilityTables.CapabilityTable.Lookup | oxide-os/kernel/src/capability/table.rs:61-67 | the live capability with this id, or whether it is missing or revoked |
| CapabilityTables.CapabilityTable.CheckedLookup | oxide-os/kernel/src/capability/table.rs:70-84 | granted if and only if the capability is live, the task's own and misses none of the permissions asked for; the error says which of these fails first |
| CapabilityTables.CapabilityTable.Store | oxide-os/kernel/src/capability/table.rs:49-57 | the slot vector grows up to the new id, which is stored there, and the next id is one more |
| CapabilityTables.CapabilityTable.MakeRoot | oxide-os/kernel/src/capability/table.rs:34-58 | a live root under a fresh id; invariant kept |
| CapabilityTables.CapabilityTable.Delegate | oxide-os/kernel/src/capability/table.rs:87-126 | granted if and only if the source is live and the delegator's, holds DELEGATE, misses none of the permissions and its resource covers the one asked for; then the child has exactly these and the next id; otherwise the first failure is reported and nothing changes; invariant kept |
| CapabilityTables.CapabilityTable.Revoke | oxide-os/kernel/src/capability/table.rs:129-147 | on success every descendant is revoked and nothing else changes; the count is the drop in active capabilities |
| CapabilityTables.CapabilityTable.RevocationRefused | oxide-os/kernel/src/capability/table.rs:130-143 | a task may revoke a capability if and only if it is live and the task owns it or the one it was delegated from, with the code's order of errors |
| CapabilityTables.CapabilityTable.RevokeRecursive | oxide-os/kernel/src/capability/table.rs:149-178 | terminates and marks and counts exactly what is reached through live capabilities, although it breaks the table's invariant on the way |
| CapabilityTables.CapabilityTable.LiveChildren | oxide-os/kernel/src/capability/table.rs:161-169 | exactly the live capabilities delegated from this one, each once |
| CapabilityTables.CapabilityTable.ActiveCount | oxide-os/kernel/src/capability/table.rs:180-185 | the number of live capabilities |
| SchedulerModel.RescheduleConserves | oxide-os/kernel/src/task/scheduler.rs:104-139 | every task is held as often as before, but for one dropped dead current task |
| SchedulerModel.UnblockConserves | oxide-os/kernel/src/task/scheduler.rs:150-160 | waking a task loses and duplicates nobody |
| SchedulerModel.ChooseOutcome | oxide-os/kernel/src/task/scheduler.rs:76-101 | the choice is the first task other than the last one in the highest queue that has one; only if there is none, the first task of the highest queue that is not empty; and nobody only if all queues are empty |
| SchedulerRuns.RescheduleLaw | oxide-os/kernel/src/task/scheduler.rs:104-139 | a reschedule in plain terms: with somebody waiting the first of the highest such queue runs and the task that ran goes to the back of its own queue or to the blocked ones; with nobody waiting it goes on if it can, and else nobody runs |
| SchedulerRuns.StepHeld | oxide-os/kernel/src/task/scheduler.rs:64-167 | conservation for every event: what is held afterwards plus what left is what was held plus what joined |
| SchedulerRuns.StepInv | oxide-os/kernel/src/task/scheduler.rs:64-167 | every event keeps each task in one place, ready tasks of its priority in each queue, blocked ones in the blocked list, and ids unique |
| SchedulerRuns.HeadRunsNext | oxide-os/kernel/src/task/scheduler.rs:76-101 | with nobody else ahead of its queue, the head of a queue is what runs next, and all others keep their order |
| SchedulerRuns.ExactWait | oxide-os/kernel/src/task/scheduler.rs:76-139 | under any events, a task of any priority at position k of its queue has been dispatched if and only if more than k reschedules found nobody waiting in a higher queue |
| SchedulerRuns.RealtimeWait | oxide-os/kernel/src/task/scheduler.rs:89-139 | under any events a real-time task at position k has been dispatched if and only if there were more than k reschedules |
| SchedulerRuns.NormalWait | oxide-os/kernel/src/task/scheduler.rs:89-139 | under any events, as long as no real-time task waits while another has the processor, a normal task at position k is dispatched within 2(k+1) reschedules, one fewer if a real-time task runs now |
| SchedulerRuns.OneRealtimeRelaxes | oxide-os/kernel/src/task/scheduler.rs:89-139 | that is so in particular with at most one real-time task in the system |
| SchedulerRuns.NormalStarves | oxide-os/kernel/src/task/scheduler.rs:76-139 | while two real-time tasks want the processor, no number of reschedules dispatches a normal task |
| SchedulerRuns.NormalRunsIff | oxide-os/kernel/src/task/scheduler.rs:76-139 | 2(k+1) or more reschedules and nothing else dispatch a normal task at position k if and only if at most one real-time task wants the processor |
| Schedulers.Scheduler.Spawn | oxide-os/kernel/src/task/scheduler.rs:64-73 | puts the task at the back of its priority's queue and changes nothing else |
| Schedulers.Scheduler.PickNextFair | oxide-os/kernel/src/task/scheduler.rs:76-101 | takes the first task other than the last one from the highest queue that has one; only if there is no other, the first of the highest queue that is not empty; exactly that task leaves its queue, and nobody is found only if all are empty |
| Schedulers.Scheduler.Resched | oxide-os/kernel/src/task/scheduler.rs:104-139 | is the model's step; with somebody waiting the first of the highest such queue runs, otherwise the current task goes on if it can; a dead task is handed out just when it is dropped (`TaskLife.Kernel.Reschedule` cleans up after it) |
| Schedulers.Scheduler.PutBackCurrent | oxide-os/kernel/src/task/scheduler.rs:107-129 | a running task goes to the back of its priority's queue as ready, a blocked one to the blocked list, a dead one is handed out; the arm for a ready one is shown unreachable |
| Schedulers.Scheduler.BlockCurrent | oxide-os/kernel/src/task/scheduler.rs:142-147 | exactly the state of the current task becomes blocked, with the reason; keeps the invariant |
| Schedulers.Scheduler.KillCurrent | oxide-os/kernel/src/task/scheduler.rs:163-167 | exactly the state of the current task becomes dead; keeps the invariant |
| Schedulers.Scheduler.UnblockTask | oxide-os/kernel/src/task/scheduler.rs:150-160 | true just when the task was blocked; then it leaves that list and is at the back of its priority's queue, ready |
| BitmapModel.MarkedUsed | oxide-os/kernel/src/memory/frame_allocator.rs:80-96 | setting or clearing a bit of the bitmap changes that frame and no other |
| BitmapModel.FreeAndUsed | oxide-os/kernel/src/memory/frame_allocator.rs:75-78 | the clear frames and the set bits below n add up to n |
| FrameModel.LowestFirst | oxide-os/kernel/src/memory/frame_allocator.rs:46-73 | with nothing free below the hint the lowest free frame is chosen, the wrap-around finds none, and allocating and freeing keep it so |
| FrameModel.RunBalances | oxide-os/kernel/src/memory/frame_allocator.rs:30-73 | on every run, freed regions included, each frame is free or out but never both, and none turns up from nowhere |
| FrameModel.RunLowestFirst | oxide-os/kernel/src/memory/frame_allocator.rs:46-73 | on every run without freed regions the next frame is the lowest free one |
| FrameAllocators.BitmapFrameAllocator.constructor | oxide-os/kernel/src/memory/frame_allocator.rs:17-28 | everything is allocated at first, padding included |
| FrameAllocators.BitmapFrameAllocator.Mark | oxide-os/kernel/src/memory/frame_allocator.rs:86-96 | sets or clears one bit in place |
| FrameAllocators.BitmapFrameAllocator.MarkRegion | oxide-os/kernel/src/memory/frame_allocator.rs:30-44 | exactly the frames of the region below the total are marked; freeing it leaves nothing free below the hint if and only if the region has no frame there |
| FrameAllocators.BitmapFrameAllocator.AllocateFrame | oxide-os/kernel/src/memory/frame_allocator.rs:46-65 | fails if and only if no frame is free, otherwise takes the first free one from the hint on, or the lowest if there is none, sets the hint just past it and changes no other; with nothing free below the hint it takes the lowest free frame, and that stays so |
| FrameAllocators.BitmapFrameAllocator.FreeFrame | oxide-os/kernel/src/memory/frame_allocator.rs:67-73 | for any index: the frame is free and the hint is no higher than it; past the last frame no frame changes; outside the bitmap the kernel stops |
| FrameAllocators.BitmapFrameAllocator.Stats | oxide-os/kernel/src/memory/frame_allocator.rs:75-78 | the free count is too low by the padding bits that are set; as long as all are, it is exact if and only if the number of frames is a multiple of 8 |
| FrameAllocators.Init | oxide-os/kernel/src/memory/frame_allocator.rs:102-159 | stops if and only if no usable entry can hold the bitmap or, with overflow checks, fewer frames are free than there are padding bits; otherwise exactly the usable frames that hold neither the bitmap nor protected memory are free |
| FrameAllocators.OnePageStops | oxide-os/kernel/src/memory/frame_allocator.rs:154-156 | one usable page at address 0 holds the bitmap and has the count below zero |
| FrameAllocators.MarkEntries | oxide-os/kernel/src/memory/frame_allocator.rs:130-152 | exactly the frames of the entries of these kinds are marked |
| FrameAllocators.HoldsBitmapIff | oxide-os/kernel/src/memory/frame_allocator.rs:110-128 | an entry can hold the bitmap if and only if it is usable and every byte of the bitmap put at its start lies in it |
| FrameAllocators.AvailableIff | oxide-os/kernel/src/memory/frame_allocator.rs:130-152 | with page-aligned entries, a frame is set up as free if and only if its bytes are in a usable entry and in none that is protected, and it does not meet the bitmap |
| FrameAllocators.HandedOutIsUsable | oxide-os/kernel/src/memory/frame_allocator.rs:46-159 | with page-aligned entries, after set-up and any run, no byte of a frame handed out is outside usable memory or part of the bitmap |
| TaskResources.TakeStackEffect | oxide-os/kernel/src/task/mod.rs:126-145 | a new stack takes four distinct free frames, apart from those its page tables take |
| TaskResources.TakeTablesIff | oxide-os/kernel/src/memory/paging.rs:50-56 | frames for page tables are found if and only if as many are free, and then exactly that many are taken |
| TaskResources.TakeStackIff | oxide-os/kernel/src/task/mod.rs:126-145 | a stack is found if and only if a frame is free for each page and each page table it takes, and then exactly that many are taken |
| TaskResources.FreeAllEffect | oxide-os/kernel/src/task/mod.rs:61-81 | exactly the task's frames become free |
| TaskResources.OwnershipOnEveryRun | oxide-os/kernel/src/task/mod.rs:61-145 | on every run live ids are unique and with the free list partition the ids used so far; each live task owns four allocated frames disjoint from all others' and from the page tables'; every usable frame is free, in a table or on a stack; exactly the stacks of ids used so far are mapped, and no guard page |
| TaskResources.CreationWorksIff | oxide-os/kernel/src/task/mod.rs:120-145 | in every reachable state creating a task works if and only if no id is to be recycled, fewer than 256 were used and a frame is free for each of the four pages of the stack and each page table |
| TaskResources.NoneAfterCleanup | oxide-os/kernel/src/task/mod.rs:61-145 | on every run no task is created after the first clean-up |
| TaskResources.CleanupHappens | oxide-os/kernel/src/task/mod.rs:61-145 | creating a task, running it, killing it and rescheduling is a run with a clean-up, wherever four frames are free |
| TaskLife.IdAllocator.Alloc | oxide-os/kernel/src/task/mod.rs:94-102 | the last id returned, which leaves the list, else a new one, one above the one before |
| TaskLife.IdAllocator.Free | oxide-os/kernel/src/task/mod.rs:104-106 | the id is the next one handed out, and handing it out undoes this |
| TaskLife.TakePageTables | oxide-os/kernel/src/memory/paging.rs:50-56 | mapping takes frames for page tables one after the other if and only if as many are free; otherwise it stops |
| TaskLife.PageTables.AllocAndMap | oxide-os/kernel/src/memory/paging.rs:38-58 | maps the page to the allocator's next frame if and only if memory suffices and it was not mapped; otherwise the kernel stops |
| TaskLife.TakeStackFrames | oxide-os/kernel/src/task/mod.rs:128-145 | a stack, page by page, if and only if memory suffices and none of its pages is mapped; then exactly those are mapped |
| TaskLife.NewTask | oxide-os/kernel/src/task/mod.rs:120-174 | a ready task with the next id, the frames taken for it and its stack mapped, if and only if memory suffices and its stack was not mapped |
| TaskLife.CleanupDeadTask | oxide-os/kernel/src/task/mod.rs:61-81 | the task's frames and its id are returned and its mailbox is removed, and nothing else |
| TaskLife.Kernel.constructor | oxide-os/kernel/src/task/mod.rs:84-108 | after boot the machine's invariant holds |
| TaskLife.Kernel.CreateTask | oxide-os/kernel/src/task/mod.rs:120-174 | task creation and spawning are the machine's step, and stop the kernel exactly when that is impossible |
| TaskLife.Kernel.Reschedule | oxide-os/kernel/src/task/scheduler.rs:104-139 | rescheduling with the clean-up of a dead task is the machine's step; its mailbox goes just then |
| TaskLife.Kernel.BlockCurrent | oxide-os/kernel/src/task/scheduler.rs:142-147 | is the machine's step |
| TaskLife.Kernel.KillCurrent | oxide-os/kernel/src/task/scheduler.rs:163-167 | is the machine's step |
| TaskLife.Kernel.Wake | oxide-os/kernel/src/task/scheduler.rs:150-160 | is the machine's step |
| TaskLife.Kernel.TakeKernelFrame | oxide-os/kernel/src/memory/paging.rs:12-17 | is the machine's step, or fails when no frame is free |
| TxRing.SlotAcrossWrap | oxide-os/kernel/src/net/virtio_net.rs:186-199 | the wrapping 16-bit index selects the slot of the unbounded packet number |
| TxRing.FrameBytes | oxide-os/kernel/src/net/virtio_net.rs:189-194 | the frame of a packet is a header of ten zero bytes and then the data, cut to 1516 bytes |
| TxRing.PutKeepsIff | oxide-os/kernel/src/net/virtio_net.rs:177-199 | queueing a packet leaves every packet not done untouched in a descriptor of its own if and only if the packet before it in its descriptor is done |
| TxRing.TxQueue.Transmit | oxide-os/kernel/src/net/virtio_net.rs:170-208 | for a device that completes in any order: queues the packet if and only if fewer than 256 are in flight, and then ring slot and descriptor have ten zero bytes and the data, cut to 1516, and all others are untouched; free, completed and in flight stay 256 together; no packet in flight is overwritten if and only if the descriptor taken is not in flight, that is, the packet 256 before is done, and so always with a device that keeps the order |
| TxRing.TxQueue.ReclaimTx | oxide-os/kernel/src/net/virtio_net.rs:210-217 | the loop terminates, across wrap-around, with everything completed reclaimed |
| TxRing.TxQueue.DeviceSends | oxide-os/kernel/src/net/virtio_net.rs:170-208 | whichever packet in flight the device completes, as long as none was overwritten what it finds is ten zero bytes and that packet's data, cut to 1516 |
| TxRing.TxQueue.DeviceSendsNext | oxide-os/kernel/src/net/virtio_net.rs:170-208 | a device that keeps the order finds the next packet, so framed, at its own 16-bit index, across wrap-around |
| TxRing.OutOfOrderOverwrites | oxide-os/kernel/src/net/virtio_net.rs:170-217 | a device that completes the second of 256 packets first has the first one overwritten |
| Ipc.IpcKernel.Register | oxide-os/kernel/src/ipc/message.rs:57-59 | an empty mailbox, its history starting anew |
| Ipc.IpcKernel.Unregister | oxide-os/kernel/src/ipc/message.rs:61-63 | the mailbox is gone, all others are as they were |
| Ipc.TransferOutcome | oxide-os/kernel/src/ipc/message.rs:82-90 | a capability is passed on if and only if it is live, the sender's and has DELEGATE; the recipient's copy has the same resource and permissions |
| Ipc.IpcKernel.PassOn | oxide-os/kernel/src/ipc/message.rs:82-90 | the lookup and delegation in the shared table are that transfer, or nothing |
| Ipc.IpcKernel.Send | oxide-os/kernel/src/ipc/message.rs:66-113 | the outcome in every case, in the code's order of errors, with the sender's capability checked and the one to be passed on delegated in the shared table; the recipient holds it even when the message is then refused; an accepted message is appended under a fresh id; no mailbox exceeds 256 |
| Ipc.IpcKernel.Post | oxide-os/kernel/src/ipc/message.rs:92-112 | appends to the recipient's mailbox unless there is none or it is full; an id is used up in any case |
| Ipc.IpcKernel.Receive | oxide-os/kernel/src/ipc/message.rs:116-118 | the oldest message leaves the mailbox and no other mailbox changes; between registrations a task receives an in-order prefix of what was accepted for it, each message once |
| Ipc.IpcKernel.Ask | oxide-os/kernel/src/ipc/request_reply.rs:19-39 | the outcome in every case; a fresh pending request with the asker and the deadline and the message accepted for the recipient, or neither; no capability changes |
| Ipc.IpcKernel.Respond | oxide-os/kernel/src/ipc/request_reply.rs:42-69 | exactly the pending requests are answered, by any task with any capability; the request had not ended before, and the reply is addressed to who asked |
| Ipc.IpcKernel.Collect | oxide-os/kernel/src/ipc/request_reply.rs:72-74 | a reply is handed out at most once, and it is the answer to that request, addressed to who asked |
| Ipc.IpcKernel.CheckTimeouts | oxide-os/kernel/src/ipc/request_reply.rs:78-98 | with the lock, exactly the requests whose deadline has come, the tick of the deadline included, end by timeout, and exactly those with a later deadline stay pending as they were; without it nothing changes |

## Left out

- The FNV hash: an arbitrary function from contents to numbers stands for it; nothing depends on which.
- The disk: a sequence of blocks with a set of failing sectors that may change between operations; the virtio-blk queue and its timeouts are not part of this model.
- The order of directory listings and of index entries on disk: `OxideFiles.OxideFs.List`, `ContextStorage.ContextStore.Keys` and `OxideFiles.PutIndex` visit them in some order, each once; the results hold for every order.
- OxideFiles.OxideFs.LoadFromDisk: which sectors fail does not change while loading.
- FsRuns.RefinesMapIff: a restart with a count or size of 2^32 or more is no step of these runs; what it loads depends on what else is on the disk. Nor is loading from a disk that no file system was written to, which need not give one with the invariant.
- Counters and ticks are unbounded where the kernel's 64-bit ones would take centuries to wrap; ticks are parameters.
- Utf-8: validity is modelled as in RFC 3629; paths and keys are byte sequences, and nothing but the restart depends on validity.
- Supervisor.AgentRegistry.Spawn: the new id must not be registered nor anybody's parent, and an agent is not its own parent; an agent spawned under an id that is only registered later would be nobody's child. The kernel task and mailbox created along with the agent are modelled on their own.
- Names of agents: the name index is an inverse only when names are unique, which nothing enforces.
- Schedulers.Scheduler.Spawn: the task must be ready, with a new id below 256; the kernel stops on larger ids, as `TaskLife.Kernel.CreateTask` says.
- FrameAllocators.BitmapFrameAllocator.Stats: the difference is an integer; where it is negative the kernel's unsigned subtraction wraps or stops.
- TaskLife.TakePageTables: how many page-table frames a mapping takes is a parameter; of the page tables only the pages for stacks are part of this model, and the kernel heap is not.
- Ipc.IpcKernel.Ask: sending and noting the request are one step.
- Wake-ups of blocked tasks by messages, replies and timeouts: they are skipped when a lock is taken, so only safety is claimed.
- TxRing.TxQueue.Transmit: the errors of a device without a transmit queue. Receiving is not part of this model: short frames are not posted again.
- The switch decision in `yield_now` when no task is ready, context switches, interrupts, PCI, system calls.
- Shared memory regions: granting access creates root capabilities, outside the chains of delegation.
- GPU scheduler, deadline queue, publish/subscribe, ELF checks: a library's heap or single checks, with no state machine behind them.
- Network stack, HTTP, DNS, TLS and cryptography: code that is not visible, or input and output.
- Counts for printing (`task_count`, file-system `stats`), per-task capability lists, printing and logging.
